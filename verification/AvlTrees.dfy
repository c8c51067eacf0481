/** Values that describe a kavl tree: every node carries, besides its two
    subtrees, the balance and size fields that the C structure stores.
    A path from the root to a position is a sequence of frames. */
module AvlTrees {
  import opened Sequences

  datatype Dir = Left | Right {
    function Opp(): Dir { if Left? then Right else Left }
    /** The C code's b1: +1 for direction 0, -1 for direction 1. */
    function B1(): int { if Left? then 1 else -1 }
    /** The balances that p and q end up with when r, of balance rb, is lifted above both. */
    function NearBal(rb: int): int { if rb == B1() then -B1() else 0 }
    function FarBal(rb: int): int { if rb == B1() || rb == 0 then 0 else B1() }
    /** Right minus left, for a height on this side and one on the other side. */
    function Lean(near: int, far: int): int { if Left? then far - near else near - far }
  }

  datatype Tree<T> = Leaf | Bin(left: Tree<T>, elem: T, bal: int, size: int, right: Tree<T>)

  /** A node on a path, without the subtree the path continues into (on side dir). */
  datatype Frame<T> = Frame(dir: Dir, elem: T, bal: int, size: int, sib: Tree<T>)

  /** The node with subtree a on side d and subtree c on the other side. */
  function Mk<T>(d: Dir, a: Tree<T>, x: T, b: int, s: int, c: Tree<T>): Tree<T> {
    if d.Left? then Bin(a, x, b, s, c) else Bin(c, x, b, s, a)
  }

  function Fill<T>(f: Frame<T>, t: Tree<T>): Tree<T> {
    Mk(f.dir, t, f.elem, f.bal, f.size, f.sib)
  }

  /** The whole tree obtained by putting t at the end of path z (outermost frame first). */
  function Plug<T>(z: seq<Frame<T>>, t: Tree<T>): Tree<T> {
    if z == [] then t else Plug(z[..|z|-1], Fill(z[|z|-1], t))
  }

  lemma PlugNil<T>(t: Tree<T>)
    ensures Plug([], t) == t
  {
  }

  function Max(a: int, b: int): int { if a < b then b else a }

  function Height<T>(t: Tree<T>): nat {
    match t
    case Leaf => 0
    case Bin(l, _, _, _, r) => 1 + Max(Height(l), Height(r))
  }

  function Inorder<T>(t: Tree<T>): seq<T> {
    match t
    case Leaf => []
    case Bin(l, x, _, _, r) => Inorder(l) + [x] + Inorder(r)
  }

  function Count<T>(t: Tree<T>): nat {
    match t
    case Leaf => 0
    case Bin(l, _, _, _, r) => Count(l) + 1 + Count(r)
  }

  lemma {:induction false} CountInorder<T>(t: Tree<T>)
    ensures Count(t) == |Inorder(t)|
  {
    if t.Bin? {
      CountInorder(t.left);
      CountInorder(t.right);
    }
  }

  ghost function Elems<T>(t: Tree<T>): set<T> {
    match t
    case Leaf => {}
    case Bin(l, x, _, _, r) => Elems(l) + {x} + Elems(r)
  }

  /** Every balance field is right height minus left height and lies in -1..1,
      every size field is the number of nodes of its subtree. */
  ghost predicate Good<T>(t: Tree<T>) {
    match t
    case Leaf => true
    case Bin(l, _, b, s, r) =>
      Good(l) && Good(r) && b == Height(r) - Height(l) && -1 <= b <= 1 && s == Count(t)
  }

  // ----- paths -----

  /** The elements that come before (after) the end of the path in order. */
  function Pre<T>(z: seq<Frame<T>>): seq<T> {
    if z == [] then []
    else
      var f := z[|z|-1];
      Pre(z[..|z|-1]) + if f.dir.Right? then Inorder(f.sib) + [f.elem] else []
  }

  function Post<T>(z: seq<Frame<T>>): seq<T> {
    if z == [] then []
    else
      var f := z[|z|-1];
      (if f.dir.Left? then [f.elem] + Inorder(f.sib) else []) + Post(z[..|z|-1])
  }

  lemma {:induction false} InorderPlug<T>(z: seq<Frame<T>>, t: Tree<T>)
    ensures Inorder(Plug(z, t)) == Pre(z) + Inorder(t) + Post(z)
    decreases |z|
  {
    if z != [] {
      InorderPlug(z[..|z|-1], Fill(z[|z|-1], t));
    }
  }

  /** The frames of z are right for a subtree of height h and n nodes at its end. */
  ghost predicate GoodPath<T>(z: seq<Frame<T>>, h: int, n: int)
    decreases |z|
  {
    z == [] ||
    var f := z[|z|-1];
    && Good(f.sib)
    && f.bal == f.dir.Lean(h, Height(f.sib))
    && -1 <= f.bal <= 1
    && f.size == n + 1 + Count(f.sib)
    && GoodPath(z[..|z|-1], 1 + Max(h, Height(f.sib)), f.size)
  }

  lemma GoodFill<T>(f: Frame<T>, t: Tree<T>)
    ensures var u := Fill(f, t);
      && Height(u) == 1 + Max(Height(t), Height(f.sib)) && Count(u) == Count(t) + 1 + Count(f.sib)
      && (Good(u) <==>
            (Good(t) && Good(f.sib) && f.bal == f.dir.Lean(Height(t), Height(f.sib)) && -1 <= f.bal <= 1
            && f.size == Count(t) + 1 + Count(f.sib)))
  {
  }

  lemma {:induction false} GoodPlug<T>(z: seq<Frame<T>>, t: Tree<T>)
    ensures Good(Plug(z, t)) <==> Good(t) && GoodPath(z, Height(t), Count(t))
    decreases |z|
  {
    if z != [] {
      var f := z[|z|-1];
      GoodPlug(z[..|z|-1], Fill(f, t));
      GoodFill(f, t);
      hide Good, Height, Count, Max;
    }
  }

  /** Height and node count of the tree made of path z and a subtree of height h and n nodes. */
  function PathHeight<T>(z: seq<Frame<T>>, h: int): int
    decreases |z|
  {
    if z == [] then h else PathHeight(z[..|z|-1], 1 + Max(h, Height(z[|z|-1].sib)))
  }

  function PathCount<T>(z: seq<Frame<T>>, n: int): int
    decreases |z|
  {
    if z == [] then n else PathCount(z[..|z|-1], n + 1 + Count(z[|z|-1].sib))
  }

  lemma {:induction false} PathMeasures<T>(z: seq<Frame<T>>, t: Tree<T>)
    ensures Height(Plug(z, t)) == PathHeight(z, Height(t)) && Count(Plug(z, t)) == PathCount(z, Count(t))
    decreases |z|
  {
    if z != [] {
      PathMeasures(z[..|z|-1], Fill(z[|z|-1], t));
    }
  }

  lemma {:induction false} PathCountShift<T>(z: seq<Frame<T>>, w: seq<Frame<T>>, n: int, k: int)
    requires |w| == |z| && forall i :: 0 <= i < |z| ==> w[i].sib == z[i].sib
    ensures PathCount(w, n + k) == PathCount(z, n) + k
    decreases |z|
  {
    if z != [] {
      PathCountShift(z[..|z|-1], w[..|w|-1], n + 1 + Count(z[|z|-1].sib), k);
    }
  }

  lemma {:induction false} PathHeightShift<T>(z: seq<Frame<T>>, w: seq<Frame<T>>, h: int)
    requires |w| == |z| && forall i :: 0 <= i < |z| ==> w[i].sib == z[i].sib
    ensures PathHeight(w, h) == PathHeight(z, h)
    decreases |z|
  {
    if z != [] {
      PathHeightShift(z[..|z|-1], w[..|w|-1], 1 + Max(h, Height(z[|z|-1].sib)));
    }
  }

  lemma {:induction false} GoodPathConcat<T>(a: seq<Frame<T>>, b: seq<Frame<T>>, h: int, n: int)
    ensures GoodPath(a + b, h, n) <==> GoodPath(b, h, n) && GoodPath(a, PathHeight(b, h), PathCount(b, n))
    decreases |b|
  {
    if b == [] {
      assert a + b == a;
    } else {
      var f := b[|b|-1];
      assert (a + b)[..|a + b|-1] == a + b[..|b|-1];
      GoodPathConcat(a, b[..|b|-1], 1 + Max(h, Height(f.sib)), n + 1 + Count(f.sib));
    }
  }

  /** A path never goes deeper than the tree is high. */
  lemma {:induction false} PathDepth<T>(z: seq<Frame<T>>, t: Tree<T>)
    ensures |z| + Height(t) <= Height(Plug(z, t))
    decreases |z|
  {
    if z != [] {
      PathDepth(z[..|z|-1], Fill(z[|z|-1], t));
    }
  }

  lemma {:induction false} PlugAppend<T>(z: seq<Frame<T>>, w: seq<Frame<T>>, t: Tree<T>)
    ensures Plug(z + w, t) == Plug(z, Plug(w, t))
    decreases |w|
  {
    if w == [] {
      assert z + w == z;
    } else {
      assert (z + w)[..|z + w|-1] == z + w[..|w|-1];
      PlugAppend(z, w[..|w|-1], Fill(w[|w|-1], t));
    }
  }

  // ----- distinct elements -----

  ghost predicate Distinct<T>(t: Tree<T>) {
    match t
    case Leaf => true
    case Bin(l, x, _, _, r) =>
      x !in Elems(l) && x !in Elems(r) && Elems(l) !! Elems(r) && Distinct(l) && Distinct(r)
  }

  lemma {:induction false} ElemsInorder<T>(t: Tree<T>, x: T)
    ensures x in Elems(t) <==> x in Inorder(t)
  {
    if t.Bin? {
      ElemsInorder(t.left, x);
      ElemsInorder(t.right, x);
    }
  }

  lemma DisjointElems<T>(l: Tree<T>, r: Tree<T>)
    ensures Elems(l) !! Elems(r) <==> forall y :: y in Inorder(l) ==> y !in Inorder(r)
  {
    hide Elems, Inorder;
    if Elems(l) !! Elems(r) {
      forall y | y in Inorder(l) ensures y !in Inorder(r) {
        ElemsInorder(l, y);
        ElemsInorder(r, y);
      }
    } else {
      var y :| y in Elems(l) && y in Elems(r);
      ElemsInorder(l, y);
      ElemsInorder(r, y);
      assert y in Inorder(l) && y in Inorder(r);
    }
  }

  lemma {:induction false} DistinctInorder<T>(t: Tree<T>)
    ensures Distinct(t) <==> NoDup(Inorder(t))
  {
    match t
    case Leaf =>
    case Bin(l, x, _, _, r) =>
      DistinctInorder(l);
      DistinctInorder(r);
      assert x in Elems(l) <==> x in Inorder(l) by { ElemsInorder(l, x); }
      assert x in Elems(r) <==> x in Inorder(r) by { ElemsInorder(r, x); }
      DisjointElems(l, r);
      NoDupConcat(Inorder(l), x, Inorder(r));
  }

  /** The nodes of a path, of the subtrees hanging off it and of t are all different. */
  ghost predicate Apart<T>(z: seq<Frame<T>>, t: Tree<T>) {
    && (forall i, j :: 0 <= i < j < |z| ==> z[i].elem != z[j].elem)
    && (forall i, j :: 0 <= i < |z| && 0 <= j < |z| ==> z[i].elem !in Elems(z[j].sib))
    && (forall i :: 0 <= i < |z| ==> z[i].elem !in Elems(t))
    && (forall i :: 0 <= i < |z| ==> Elems(z[i].sib) !! Elems(t))
    && (forall i, j :: 0 <= i < j < |z| ==> Elems(z[i].sib) !! Elems(z[j].sib))
  }

  lemma {:induction false} DistinctPlug<T>(z: seq<Frame<T>>, t: Tree<T>)
    requires Distinct(Plug(z, t))
    ensures Distinct(t) && Apart(z, t)
    decreases |z|
  {
    if z != [] {
      var y, f := z[..|z|-1], z[|z|-1];
      DistinctPlug(y, Fill(f, t));
      DistinctFill(f, t);
      hide Apart, Distinct, Elems, Fill;
      ApartSnoc(y, f, t);
      assert z == y + [f];
    }
  }

  lemma DistinctFill<T>(f: Frame<T>, t: Tree<T>)
    ensures Elems(Fill(f, t)) == Elems(t) + {f.elem} + Elems(f.sib)
    ensures Distinct(Fill(f, t)) ==>
      Distinct(t) && f.elem !in Elems(t) && f.elem !in Elems(f.sib) && Elems(f.sib) !! Elems(t)
  {
  }

  lemma ApartSnoc<T>(y: seq<Frame<T>>, f: Frame<T>, t: Tree<T>)
    requires Apart(y, Fill(f, t)) && Elems(Fill(f, t)) == Elems(t) + {f.elem} + Elems(f.sib)
    requires f.elem !in Elems(t) && f.elem !in Elems(f.sib) && Elems(f.sib) !! Elems(t)
    ensures Apart(y + [f], t)
  {
    hide Fill, Elems;
  }

  lemma SameDistinct<T>(z: seq<Frame<T>>, w: seq<Frame<T>>, t: Tree<T>)
    requires SameWay(z, w) && Distinct(Plug(z, t))
    ensures Distinct(Plug(w, t)) && Elems(Plug(w, t)) == Elems(Plug(z, t))
  {
    hide Plug, Distinct, Elems, NoDup, Pre, Post, SameWay;
    SameSides(z, w);
    InorderPlug(z, t);
    InorderPlug(w, t);
    DistinctInorder(Plug(z, t));
    DistinctInorder(Plug(w, t));
    SameElems(Plug(z, t), Plug(w, t));
  }

  lemma ApartElems<T>(z: seq<Frame<T>>, t: Tree<T>, v: Tree<T>)
    requires Apart(z, t) && Elems(v) <= Elems(t)
    ensures Apart(z, v)
  {
  }

  lemma SameElems<T>(t: Tree<T>, v: Tree<T>)
    requires Inorder(v) == Inorder(t)
    ensures Elems(v) == Elems(t)
  {
    forall x | x in Elems(v) ensures x in Elems(t) {
      ElemsInorder(t, x);
      ElemsInorder(v, x);
    }
    forall x | x in Elems(t) ensures x in Elems(v) {
      ElemsInorder(t, x);
      ElemsInorder(v, x);
    }
  }

  /** Everything on and beside a path belongs to the tree. */
  lemma {:induction false} PathInPlug<T>(z: seq<Frame<T>>, t: Tree<T>)
    ensures Elems(t) <= Elems(Plug(z, t))
    ensures forall i :: 0 <= i < |z| ==> z[i].elem in Elems(Plug(z, t)) && Elems(z[i].sib) <= Elems(Plug(z, t))
    decreases |z|
  {
    if z != [] {
      var f := z[|z|-1];
      PathInPlug(z[..|z|-1], Fill(f, t));
      assert Elems(Fill(f, t)) == Elems(t) + {f.elem} + Elems(f.sib);
    }
  }

  // ----- rotations -----

  lemma GoodMk<T>(d: Dir, a: Tree<T>, x: T, b: int, s: int, c: Tree<T>)
    requires Good(a) && Good(c) && b == d.Lean(Height(a), Height(c)) && -1 <= b <= 1 && s == Count(a) + 1 + Count(c)
    ensures Good(Mk(d, a, x, b, s, c))
    ensures Height(Mk(d, a, x, b, s, c)) == 1 + Max(Height(a), Height(c)) && Count(Mk(d, a, x, b, s, c)) == s
  {
  }

  function Sub<T>(t: Tree<T>, d: Dir): Tree<T>
    requires t.Bin?
  {
    if d.Left? then t.left else t.right
  }

  function StoredSize<T>(t: Tree<T>): int {
    if t.Bin? then t.size else 0
  }

  /** (a,(b,c)q)p => ((a,b)p,c)q for d = Left; np and nq are the balances p and q end up with. */
  function Rot1<T>(t: Tree<T>, d: Dir, np: int, nq: int): Tree<T>
    requires t.Bin? && Sub(t, d.Opp()).Bin?
  {
    var q := Sub(t, d.Opp());
    var b := Sub(q, d);
    Mk(d, Mk(d, Sub(t, d), t.elem, np, t.size - (q.size - StoredSize(b)), b), q.elem, nq, t.size, Sub(q, d.Opp()))
  }

  /** (a,((b,c)r,e)q)p => ((a,b)p,(c,e)q)r for d = Left. */
  function Rot2<T>(t: Tree<T>, d: Dir): Tree<T>
    requires t.Bin? && Sub(t, d.Opp()).Bin? && Sub(Sub(t, d.Opp()), d).Bin?
  {
    var q := Sub(t, d.Opp());
    var r := Sub(q, d);
    var x := StoredSize(Sub(r, d));
    Lifted(d, Sub(t, d), t.elem, t.size - (q.size - x), Sub(r, d), r.elem, r.bal, t.size,
           Sub(r, d.Opp()), q.elem, q.size - (x + 1), Sub(q, d.Opp()))
  }

  /** r above p (with subtrees a and b) and q (with subtrees c and e). */
  function Lifted<T>(d: Dir, a: Tree<T>, p: T, sp: int, b: Tree<T>, r: T, rb: int, s: int,
                     c: Tree<T>, q: T, sq: int, e: Tree<T>): Tree<T> {
    Mk(d, Mk(d, a, p, d.NearBal(rb), sp, b), r, 0, s, Mk(d, c, q, d.FarBal(rb), sq, e))
  }

  lemma Shift<T>(a: seq<T>, x: T, b: seq<T>, y: T, c: seq<T>)
    ensures (a + [x] + b) + [y] + c == a + [x] + (b + [y] + c)
  {
  }

  lemma InorderBin<T>(t: Tree<T>)
    requires t.Bin?
    ensures Inorder(t) == Inorder(t.left) + [t.elem] + Inorder(t.right)
  {
  }

  lemma Rot1Inorder<T>(t: Tree<T>, d: Dir, np: int, nq: int)
    requires t.Bin? && Sub(t, d.Opp()).Bin?
    ensures Inorder(Rot1(t, d, np, nq)) == Inorder(t)
  {
    var q := Sub(t, d.Opp());
    if d.Left? {
      Shift(Inorder(t.left), t.elem, Inorder(q.left), q.elem, Inorder(q.right));
    } else {
      Shift(Inorder(q.left), q.elem, Inorder(q.right), t.elem, Inorder(t.right));
    }
  }

  lemma Rot2Inorder<T>(t: Tree<T>, d: Dir)
    requires t.Bin? && Sub(t, d.Opp()).Bin? && Sub(Sub(t, d.Opp()), d).Bin?
    ensures Inorder(Rot2(t, d)) == Inorder(t)
  {
    var q := Sub(t, d.Opp());
    var r := Sub(q, d);
    var b, c := Inorder(r.left), Inorder(r.right);
    InorderBin(t);
    InorderBin(q);
    InorderBin(r);
    if d.Left? {
      Shift(b, r.elem, c, q.elem, Inorder(q.right));
      Shift(Inorder(t.left), t.elem, b, r.elem, c + [q.elem] + Inorder(q.right));
    } else {
      Shift(Inorder(q.left), q.elem, b, r.elem, c);
      Shift(Inorder(q.left) + [q.elem] + b, r.elem, c, t.elem, Inorder(t.right));
    }
  }

  /** A node that is right except that side d.Opp() is two levels higher than side d. */
  ghost predicate Overweight<T>(t: Tree<T>, d: Dir) {
    && t.Bin? && Good(t.left) && Good(t.right) && t.size == Count(t)
    && t.bal == Height(t.right) - Height(t.left) == 2 * d.B1()
  }

  /** What Overweight says in terms of the two sides. */
  lemma OverweightParts<T>(t: Tree<T>, d: Dir)
    requires Overweight(t, d)
    ensures var q, a := Sub(t, d.Opp()), Sub(t, d);
      && q.Bin? && Good(q) && Good(a) && Height(q) == Height(a) + 2 && Height(t) == Height(a) + 3
      && t.size == Count(t) == Count(a) + 1 + q.size && q.size == Count(q)
  {
  }

  lemma GoodParts<T>(t: Tree<T>, d: Dir)
    requires t.Bin? && Good(t)
    ensures var a, c := Sub(t, d), Sub(t, d.Opp());
      && Good(a) && Good(c) && t.bal == d.Lean(Height(a), Height(c)) && -1 <= t.bal <= 1
      && t.size == Count(t) == Count(a) + 1 + Count(c) && Height(t) == 1 + Max(Height(a), Height(c))
      && StoredSize(a) == Count(a)
  {
  }

  /** A single rotation mends an overweight node unless its high side leans the other way. */
  lemma SingleMends<T>(t: Tree<T>, d: Dir, np: int, nq: int)
    requires t.Bin? && Overweight(t, d)
    requires Sub(t, d.Opp()).Bin?
    requires var qb := Sub(t, d.Opp()).bal;
      (qb == d.B1() && np == 0 && nq == 0) || (qb == 0 && np == d.B1() && nq == -d.B1())
    ensures Good(Rot1(t, d, np, nq)) && Count(Rot1(t, d, np, nq)) == Count(t)
    ensures Height(Rot1(t, d, np, nq)) == if Sub(t, d.Opp()).bal == 0 then Height(t) else Height(t) - 1
  {
    hide Good, Height, Count, Overweight, Mk;
    OverweightParts(t, d);
    var q := Sub(t, d.Opp());
    GoodParts(q, d);
    var a, b, c := Sub(t, d), Sub(q, d), Sub(q, d.Opp());
    var sp := t.size - (q.size - StoredSize(b));
    GoodMk(d, a, t.elem, np, sp, b);
    GoodMk(d, Mk(d, a, t.elem, np, sp, b), q.elem, nq, t.size, c);
  }

  lemma LiftedGood<T>(d: Dir, a: Tree<T>, p: T, sp: int, b: Tree<T>, r: T, rb: int, s: int,
                      c: Tree<T>, q: T, sq: int, e: Tree<T>)
    requires Good(a) && Good(b) && Good(c) && Good(e)
    requires Height(a) == Height(e) == Max(Height(b), Height(c))
    requires rb == d.Lean(Height(b), Height(c)) && -1 <= rb <= 1
    requires sp == Count(a) + 1 + Count(b) && sq == Count(c) + 1 + Count(e) && s == sp + 1 + sq
    ensures var u := Lifted(d, a, p, sp, b, r, rb, s, c, q, sq, e);
      Good(u) && Height(u) == Height(a) + 2 && Count(u) == s
  {
    GoodMk(d, a, p, d.NearBal(rb), sp, b);
    GoodMk(d, c, q, d.FarBal(rb), sq, e);
    GoodMk(d, Mk(d, a, p, d.NearBal(rb), sp, b), r, 0, s, Mk(d, c, q, d.FarBal(rb), sq, e));
  }

  lemma DoubleParts<T>(t: Tree<T>, d: Dir, q: Tree<T>, r: Tree<T>)
    requires Overweight(t, d) && q == Sub(t, d.Opp())
    requires q.Bin? && q.bal == -d.B1() && r == Sub(q, d)
    ensures r.Bin?
    ensures var a, b, c, e := Sub(t, d), Sub(r, d), Sub(r, d.Opp()), Sub(q, d.Opp());
      && Good(a) && Good(b) && Good(c) && Good(e)
      && Height(a) == Height(e) == Max(Height(b), Height(c)) && Height(t) == Height(a) + 3
      && r.bal == d.Lean(Height(b), Height(c)) && -1 <= r.bal <= 1
      && q.size - (StoredSize(b) + 1) == Count(c) + 1 + Count(e)
      && t.size - (q.size - StoredSize(b)) == Count(a) + 1 + Count(b)
      && t.size == Count(t) == Count(a) + Count(b) + Count(c) + Count(e) + 3
  {
    OverweightParts(t, d);
    GoodParts(q, d);
    assert r.Bin?;
    GoodParts(r, d);
  }

  /** Otherwise a double rotation does, and lowers the subtree by one. */
  lemma DoubleMends<T>(t: Tree<T>, d: Dir, q: Tree<T>, r: Tree<T>)
    requires t.Bin? && Overweight(t, d) && q == Sub(t, d.Opp())
    requires q.Bin? && q.bal == -d.B1() && r == Sub(q, d)
    ensures r.Bin?
    ensures Good(Rot2(t, d)) && Height(Rot2(t, d)) == Height(t) - 1 && Count(Rot2(t, d)) == Count(t)
  {
    hide Good, Height, Count, Overweight, Mk, Lifted;
    DoubleParts(t, d, q, r);
    var a, b, c, e := Sub(t, d), Sub(r, d), Sub(r, d.Opp()), Sub(q, d.Opp());
    LiftedGood(d, a, t.elem, t.size - (q.size - StoredSize(b)), b, r.elem, r.bal, t.size,
               c, q.elem, q.size - (StoredSize(b) + 1), e);
  }

  // ----- growing and shrinking a path by one node -----

  function Bump<T>(f: Frame<T>, k: int): Frame<T> { f.(size := f.size + k) }

  function BumpAll<T>(z: seq<Frame<T>>, k: int): (w: seq<Frame<T>>)
    ensures |w| == |z| && forall i :: 0 <= i < |z| ==> w[i] == Bump(z[i], k)
  {
    seq(|z|, i requires 0 <= i < |z| => Bump(z[i], k))
  }

  /** The frame after its subtree on side dir became one level higher. */
  function Tilt<T>(f: Frame<T>): Frame<T> { f.(bal := f.bal - f.dir.B1()) }

  /** z with k added to the sizes of frames lo..hi. */
  function BumpRange<T>(z: seq<Frame<T>>, lo: nat, hi: nat, k: int): (w: seq<Frame<T>>)
    requires lo <= hi <= |z|
    ensures |w| == |z| && forall i :: 0 <= i < |z| ==> w[i] == if lo <= i < hi then Bump(z[i], k) else z[i]
  {
    seq(|z|, i requires 0 <= i < |z| => if lo <= i < hi then Bump(z[i], k) else z[i])
  }

  function TiltRange<T>(z: seq<Frame<T>>, lo: nat, hi: nat): (w: seq<Frame<T>>)
    requires lo <= hi <= |z|
    ensures |w| == |z| && forall i :: 0 <= i < |z| ==> w[i] == if lo <= i < hi then Tilt(z[i]) else z[i]
  {
    seq(|z|, i requires 0 <= i < |z| => if lo <= i < hi then Tilt(z[i]) else z[i])
  }

  lemma {:induction false} BumpPath<T>(z: seq<Frame<T>>, k: int, h: int, n: int)
    requires GoodPath(z, h, n)
    ensures GoodPath(BumpAll(z, k), h, n + k)
    decreases |z|
  {
    if z != [] {
      var f, y := z[|z|-1], z[..|z|-1];
      BumpPath(y, k, 1 + Max(h, Height(f.sib)), f.size);
      assert BumpAll(z, k)[..|z|-1] == BumpAll(y, k);
    }
  }

  /** The same path up to the stored balances and sizes. */
  ghost predicate SameWay<T>(z: seq<Frame<T>>, w: seq<Frame<T>>) {
    |z| == |w| && forall i :: 0 <= i < |z| ==> z[i].dir == w[i].dir && z[i].elem == w[i].elem && z[i].sib == w[i].sib
  }

  lemma SameApart<T>(z: seq<Frame<T>>, w: seq<Frame<T>>, t: Tree<T>)
    requires SameWay(z, w) && Apart(z, t)
    ensures Apart(w, t)
  {
  }

  lemma {:induction false} SameSides<T>(z: seq<Frame<T>>, w: seq<Frame<T>>)
    requires SameWay(z, w)
    ensures Pre(w) == Pre(z) && Post(w) == Post(z)
    decreases |z|
  {
    if z != [] {
      SameSides(z[..|z|-1], w[..|w|-1]);
    }
  }

  /** Frames that were level tilt when the subtree below them grows. */
  lemma {:induction false} GrowLevel<T>(z: seq<Frame<T>>, w: seq<Frame<T>>, t: Tree<T>, u: Tree<T>)
    requires Good(Plug(z, t)) && forall i :: 0 <= i < |z| ==> z[i].bal == 0
    requires Good(u) && Height(u) == Height(t) + 1 && Count(u) == Count(t) + 1
    requires |w| == |z| && forall i :: 0 <= i < |z| ==> w[i] == Tilt(Bump(z[i], 1))
    ensures Good(Plug(w, u)) && Height(Plug(w, u)) == Height(Plug(z, t)) + 1
    ensures Count(Plug(w, u)) == Count(Plug(z, t)) + 1
    decreases |z|
  {
    if z != [] {
      var f, g := z[|z|-1], w[|w|-1];
      GoodPlug(z, t);
      assert Good(Fill(g, u));
      GrowLevel(z[..|z|-1], w[..|w|-1], Fill(f, t), Fill(g, u));
    }
  }

  // ----- depth bound -----

  function Fib(n: nat): nat {
    if n < 2 then n else Fib(n - 2) + Fib(n - 1)
  }

  lemma {:induction false} FibMonotone(m: nat, n: nat)
    requires m <= n
    ensures Fib(m) <= Fib(n)
    decreases n
  {
    if m < n && n >= 2 {
      FibMonotone(m, n - 1);
    }
  }

  /** The sparsest balanced tree of height h has Fib(h+2)-1 nodes. */
  lemma {:induction false} SparsestTree<T>(t: Tree<T>)
    requires Good(t)
    ensures Count(t) + 1 >= Fib(Height(t) + 2)
  {
    if t.Bin? {
      SparsestTree(t.left);
      SparsestTree(t.right);
      HeightsClose(t);
      hide Good, Height, Count;
      FibMonotone(Height(t), Height(t.left) + 2);
      FibMonotone(Height(t), Height(t.right) + 2);
    }
  }

  /** Both sides of a node are at most two levels lower than the node, and one of them only one level. */
  lemma HeightsClose<T>(t: Tree<T>)
    requires Good(t) && t.Bin?
    ensures Good(t.left) && Good(t.right) && Count(t) == Count(t.left) + 1 + Count(t.right)
    ensures Height(t) - 2 <= Height(t.left) < Height(t) && Height(t) - 2 <= Height(t.right) < Height(t)
    ensures Height(t.left) == Height(t) - 1 || Height(t.right) == Height(t) - 1
  {
  }

  const KAVL_MAX_DEPTH := 64
  const SIZE_LIMIT := 0x1_0000_0000

  /** A tree whose size fits the 32-bit size field is at most 45 levels high,
      so a path, even with the extra frame used by kavl_erase, fits the arrays. */
  lemma DepthFits<T>(t: Tree<T>)
    requires Good(t) && Count(t) < SIZE_LIMIT
    ensures Height(t) <= 45
  {
    SparsestTree(t);
    if Height(t) > 45 {
      FibMonotone(48, Height(t) + 2);
      FibValues();
      assert false;
    }
  }

  lemma FibTwelve(n: nat, a: nat, b: nat)
    requires Fib(n) == a && Fib(n + 1) == b
    ensures Fib(n + 12) == 89 * a + 144 * b && Fib(n + 13) == 144 * a + 233 * b
  {
    assert Fib(n + 2) == a + b && Fib(n + 3) == a + 2 * b;
    assert Fib(n + 4) == 2 * a + 3 * b && Fib(n + 5) == 3 * a + 5 * b;
    assert Fib(n + 6) == 5 * a + 8 * b && Fib(n + 7) == 8 * a + 13 * b;
    assert Fib(n + 8) == 13 * a + 21 * b && Fib(n + 9) == 21 * a + 34 * b;
    assert Fib(n + 10) == 34 * a + 55 * b && Fib(n + 11) == 55 * a + 89 * b;
  }

  lemma FibValues()
    ensures Fib(48) == 4807526976
  {
    FibTwelve(0, 0, 1);
    FibTwelve(12, 144, 233);
    FibTwelve(24, 46368, 75025);
    FibTwelve(36, 14930352, 24157817);
  }
}
