/** The intrusive AVL tree of kavl.h: nodes on the heap with two child
    pointers, a balance and a size field and no parent pointer. */
module KavlNodes {
  import opened Sequences
  import Orders
  import opened AvlTrees
  import opened AvlInsertion

  class Node<K> {
    const key: K
    var left: Node?<K>
    var right: Node?<K>
    var balance: int
    var size: int

    constructor (key: K)
      ensures this.key == key && left == null && right == null && balance == 0 && size == 0
    {
      this.key := key;
      left, right, balance, size := null, null, 0, 0;
    }

    /** p[d] in the C code. */
    function Child(d: Dir): Node?<K>
      reads this
    {
      if d.Left? then left else right
    }

    method SetChild(d: Dir, c: Node?<K>)
      modifies this`left, this`right
      ensures Child(d) == c && Child(d.Opp()) == old(Child(d.Opp()))
    {
      if d.Left? { left := c; } else { right := c; }
    }
  }

  type NTree<K> = Tree<Node<K>>
  type NFrame<K> = Frame<Node<K>>

  /** The heap structure below p is the tree t, stored balances and sizes included. */
  ghost predicate Shape<K>(p: Node?<K>, t: NTree<K>)
    reads Elems(t)
    decreases t
  {
    match t
    case Leaf => p == null
    case Bin(l, x, b, s, r) =>
      p == x && x.balance == b && x.size == s && Shape(x.left, l) && Shape(x.right, r)
  }

  /** The heap agrees with one frame of a path that continues at child. */
  ghost predicate FrameShape<K>(f: NFrame<K>, child: Node?<K>)
    reads f.elem, Elems(f.sib)
  {
    && f.elem.balance == f.bal && f.elem.size == f.size
    && f.elem.Child(f.dir) == child && Shape(f.elem.Child(f.dir.Opp()), f.sib)
  }

  ghost function PathElems<K>(z: seq<NFrame<K>>): set<Node<K>> {
    (set i | 0 <= i < |z| :: z[i].elem) + (set i, x | 0 <= i < |z| && x in Elems(z[i].sib) :: x)
  }

  /** Where frame i of path z continues: the next frame's node, or p at the end. */
  ghost function After<K>(z: seq<NFrame<K>>, i: int, p: Node?<K>): Node?<K>
    requires 0 <= i < |z|
  {
    if i + 1 < |z| then z[i + 1].elem else p
  }

  ghost predicate PathShape<K>(z: seq<NFrame<K>>, root: Node?<K>, p: Node?<K>)
    reads PathElems(z)
  {
    && root == (if |z| > 0 then z[0].elem else p)
    && forall i :: 0 <= i < |z| ==> FrameShape(z[i], After(z, i, p))
  }

  /** A path and what hangs at its end make up a whole tree. */
  lemma {:induction false} PlugShape<K>(z: seq<NFrame<K>>, root: Node?<K>, p: Node?<K>, t: NTree<K>)
    requires PathShape(z, root, p) && Shape(p, t)
    ensures Shape(root, Plug(z, t))
    decreases |z|
  {
    if z != [] {
      var n := |z| - 1;
      var f, y := z[n], z[..n];
      assert FrameShape(f, After(z, n, p));
      assert Shape(f.elem, Fill(f, t));
      forall i | 0 <= i < n ensures FrameShape(y[i], After(y, i, f.elem)) {
        assert FrameShape(z[i], After(z, i, p));
      }
      PlugShape(y, root, f.elem, Fill(f, t));
    }
  }

  /** One step down: the node at the end of the path joins the path. */
  lemma StepDown<K>(z: seq<NFrame<K>>, root: Node?<K>, p: Node<K>, t: NTree<K>, d: Dir)
    requires PathShape(z, root, p) && Shape(p, t)
    ensures t.Bin? && t.elem == p
    ensures var f := Frame(d, p, t.bal, t.size, Sub(t, d.Opp()));
      PathShape(z + [f], root, p.Child(d)) && Shape(p.Child(d), Sub(t, d)) && Plug(z + [f], Sub(t, d)) == Plug(z, t)
  {
    var f := Frame(d, p, t.bal, t.size, Sub(t, d.Opp()));
    var w := z + [f];
    assert w[..|w|-1] == z;
    forall i | 0 <= i < |w| ensures FrameShape(w[i], After(w, i, p.Child(d))) {
      if i < |z| {
        assert FrameShape(z[i], After(z, i, p));
      }
    }
  }

  // ----- order -----

  ghost predicate Sorted<K>(cmp: Orders.Cmp<K>, s: seq<Node<K>>) {
    forall i, j :: 0 <= i < j < |s| ==> cmp(s[i].key, s[j].key) < 0
  }

  /** Key k can be searched for in s: along s it compares greater, then equal,
      then smaller, and comparing the other way round gives the opposite sign.
      Every key fits a sorted sequence when cmp is a total order (TotalOrderFits);
      for a comparator that is no order on all keys this is what a search needs. */
  ghost predicate Fits<K>(cmp: Orders.Cmp<K>, k: K, s: seq<Node<K>>) {
    && (forall i, j :: 0 <= i < j < |s| && cmp(k, s[i].key) < 0 ==> cmp(k, s[j].key) < 0)
    && (forall i, j :: 0 <= i < j < |s| && cmp(k, s[j].key) > 0 ==> cmp(k, s[i].key) > 0)
    && (forall i :: 0 <= i < |s| ==> (cmp(k, s[i].key) > 0 <==> cmp(s[i].key, k) < 0))
    && (forall i :: 0 <= i < |s| ==> (cmp(k, s[i].key) < 0 <==> cmp(s[i].key, k) > 0))
  }

  ghost predicate TotalOrder<K(!new)>(cmp: Orders.Cmp<K>) {
    && (forall a, b :: (cmp(a, b) < 0 <==> cmp(b, a) > 0) && (cmp(a, b) == 0 <==> cmp(b, a) == 0))
    && (forall a :: cmp(a, a) == 0)
    && (forall a, b, c :: cmp(a, b) <= 0 && cmp(b, c) <= 0 ==> cmp(a, c) <= 0)
    && (forall a, b, c :: cmp(a, b) <= 0 && cmp(b, c) <= 0 && cmp(a, c) == 0 ==> cmp(a, b) == 0)
  }

  lemma TotalOrderFits<K(!new)>(cmp: Orders.Cmp<K>, k: K, s: seq<Node<K>>)
    requires TotalOrder(cmp) && Sorted(cmp, s)
    ensures Fits(cmp, k, s)
  {
    forall i, j | 0 <= i < j < |s| && cmp(k, s[i].key) < 0 ensures cmp(k, s[j].key) < 0 {
      assert cmp(s[i].key, s[j].key) < 0;
      assert cmp(k, s[j].key) <= 0;
    }
    forall i, j | 0 <= i < j < |s| && cmp(k, s[j].key) > 0 ensures cmp(k, s[i].key) > 0 {
      assert cmp(s[i].key, s[j].key) < 0;
      assert cmp(s[j].key, k) < 0;
      assert cmp(s[i].key, k) <= 0;
      assert cmp(s[i].key, k) < 0;
    }
  }

  ghost predicate AllGreater<K>(cmp: Orders.Cmp<K>, k: K, s: seq<Node<K>>) {
    forall i :: 0 <= i < |s| ==> cmp(k, s[i].key) > 0
  }

  ghost predicate AllLess<K>(cmp: Orders.Cmp<K>, k: K, s: seq<Node<K>>) {
    forall i :: 0 <= i < |s| ==> cmp(k, s[i].key) < 0
  }

  /** k belongs between the first n elements of s and the others and is not among them. */
  ghost predicate SplitsAt<K>(cmp: Orders.Cmp<K>, k: K, s: seq<Node<K>>, n: int) {
    0 <= n <= |s| && AllGreater(cmp, k, s[..n]) && AllLess(cmp, k, s[n..])
  }

  /** The path leads to where k belongs. */
  ghost predicate Between<K>(cmp: Orders.Cmp<K>, k: K, z: seq<NFrame<K>>) {
    AllGreater(cmp, k, Pre(z)) && AllLess(cmp, k, Post(z))
  }

  lemma EmptyPath<K>(cmp: Orders.Cmp<K>, k: K, root: Node?<K>, t: NTree<K>)
    ensures Between(cmp, k, []) && Pre<Node<K>>([]) == [] && Plug([], t) == t && PathShape([], root, root)
  {
  }

  lemma EndOfSearch<K>(cmp: Orders.Cmp<K>, k: K, z: seq<NFrame<K>>)
    requires Between(cmp, k, z)
    ensures SplitsAt(cmp, k, Inorder(Plug(z, Leaf)), |Pre(z)|)
  {
    InorderPlug(z, Leaf);
    var s := Inorder(Plug(z, Leaf));
    assert s[..|Pre(z)|] == Pre(z) && s[|Pre(z)|..] == Post(z);
  }

  lemma SizeOfShape<K>(p: Node?<K>, t: NTree<K>)
    requires Shape(p, t)
    ensures SizeOf(p) == StoredSize(t)
  {
  }

  function Along(c: int): Dir { if c > 0 then Right else Left }

  lemma GreaterUpTo<K>(cmp: Orders.Cmp<K>, k: K, a: seq<Node<K>>, b: seq<Node<K>>)
    requires Fits(cmp, k, a + b) && |a| > 0 && cmp(k, a[|a|-1].key) > 0
    ensures AllGreater(cmp, k, a)
  {
    var s := a + b;
    assert s[|a|-1] == a[|a|-1];
    forall i | 0 <= i < |a| ensures cmp(k, a[i].key) > 0 {
      assert s[i] == a[i];
    }
  }

  lemma LessFrom<K>(cmp: Orders.Cmp<K>, k: K, a: seq<Node<K>>, b: seq<Node<K>>)
    requires Fits(cmp, k, a + b) && |b| > 0 && cmp(k, b[0].key) < 0
    ensures AllLess(cmp, k, b)
  {
    var s := a + b;
    assert s[|a|] == b[0];
    forall i | 0 <= i < |b| ensures cmp(k, b[i].key) < 0 {
      assert s[|a| + i] == b[i];
    }
  }

  lemma SidesAfterRight<T>(z: seq<Frame<T>>, t: Tree<T>, f: Frame<T>)
    requires t.Bin? && f == Frame(Right, t.elem, t.bal, t.size, t.left)
    ensures Pre(z + [f]) == Pre(z) + Inorder(t.left) + [t.elem] && Post(z + [f]) == Post(z)
    ensures Inorder(Plug(z, t)) == Pre(z + [f]) + (Inorder(t.right) + Post(z))
  {
    assert (z + [f])[..|z|] == z;
    InorderPlug(z, t);
    Regroup(Pre(z), Inorder(t.left), [t.elem], Inorder(t.right), Post(z));
  }

  lemma SidesAfterLeft<T>(z: seq<Frame<T>>, t: Tree<T>, f: Frame<T>)
    requires t.Bin? && f == Frame(Left, t.elem, t.bal, t.size, t.right)
    ensures Post(z + [f]) == [t.elem] + Inorder(t.right) + Post(z) && Pre(z + [f]) == Pre(z)
    ensures Inorder(Plug(z, t)) == (Pre(z) + Inorder(t.left)) + Post(z + [f])
  {
    assert (z + [f])[..|z|] == z;
    InorderPlug(z, t);
    Regroup(Pre(z), Inorder(t.left), [t.elem], Inorder(t.right), Post(z));
  }

  lemma Regroup<T>(a: seq<T>, b: seq<T>, c: seq<T>, d: seq<T>, e: seq<T>)
    ensures a + (b + c + d) + e == (a + b + c) + (d + e) == (a + b) + (c + d + e)
    ensures a + b + c == a + (b + c)
  {
  }

  lemma StepRight<K>(cmp: Orders.Cmp<K>, k: K, z: seq<NFrame<K>>, t: NTree<K>, f: NFrame<K>)
    requires t.Bin? && Between(cmp, k, z) && Fits(cmp, k, Inorder(Plug(z, t)))
    requires cmp(k, t.elem.key) > 0 && f == Frame(Right, t.elem, t.bal, t.size, t.left)
    ensures Between(cmp, k, z + [f]) && |Pre(z + [f])| == |Pre(z)| + Count(t.left) + 1
  {
    hide Fits, AllGreater, AllLess, Pre, Post, Plug, Inorder;
    SidesAfterRight(z, t, f);
    CountInorder(t.left);
    GreaterUpTo(cmp, k, Pre(z + [f]), Inorder(t.right) + Post(z));
  }

  lemma StepLeft<K>(cmp: Orders.Cmp<K>, k: K, z: seq<NFrame<K>>, t: NTree<K>, f: NFrame<K>)
    requires t.Bin? && Between(cmp, k, z) && Fits(cmp, k, Inorder(Plug(z, t)))
    requires cmp(k, t.elem.key) < 0 && f == Frame(Left, t.elem, t.bal, t.size, t.right)
    ensures Between(cmp, k, z + [f]) && Pre(z + [f]) == Pre(z)
  {
    hide Fits, AllGreater, AllLess, Pre, Post, Plug, Inorder;
    SidesAfterLeft(z, t, f);
    LessFrom(cmp, k, Pre(z) + Inorder(t.left), Post(z + [f]));
  }

  lemma PlugStep<K>(z: seq<NFrame<K>>, t: NTree<K>, f: NFrame<K>, d: Dir)
    requires t.Bin? && f == Frame(d, t.elem, t.bal, t.size, Sub(t, d.Opp()))
    ensures Plug(z + [f], Sub(t, d)) == Plug(z, t)
  {
    assert (z + [f])[..|z|] == z;
  }

  /** One comparison of a search: the path grows, and the count with it when the search goes right. */
  lemma SearchStep<K>(cmp: Orders.Cmp<K>, k: K, z: seq<NFrame<K>>, t: NTree<K>, f: NFrame<K>)
    requires t.Bin? && Good(t) && Between(cmp, k, z) && Fits(cmp, k, Inorder(Plug(z, t)))
    requires cmp(k, t.elem.key) != 0
    requires var d := Along(cmp(k, t.elem.key)); f == Frame(d, t.elem, t.bal, t.size, Sub(t, d.Opp()))
    ensures Plug(z + [f], Sub(t, f.dir)) == Plug(z, t) && Between(cmp, k, z + [f]) && Good(Sub(t, f.dir))
    ensures |Pre(z + [f])| == |Pre(z)| + if f.dir.Right? then StoredSize(t.left) + 1 else 0
  {
    hide Fits, Pre, Post, Between;
    PlugStep(z, t, f, f.dir);
    if f.dir.Left? { StepLeft(cmp, k, z, t, f); } else { StepRight(cmp, k, z, t, f); }
  }

  /** A node met on the way is the element whose rank the search has counted. */
  lemma FoundAt<K>(z: seq<NFrame<K>>, t: NTree<K>)
    requires t.Bin?
    requires Good(t)
    ensures var s, n := Inorder(Plug(z, t)), |Pre(z)| + StoredSize(t.left);
      0 <= n < |s| && s[n] == t.elem
  {
    InorderPlug(z, t);
    CountInorder(t.left);
  }

  /** The array holds the nodes of the path. */
  ghost predicate OnPath<K>(path: array<Node?<K>>, n: nat, z: seq<NFrame<K>>)
    reads path
  {
    n == |z| <= path.Length && forall i :: 0 <= i < n ==> path[i] == z[i].elem
  }

  ghost predicate EndsAt<K>(z: seq<NFrame<K>>, q: Node?<K>, which: Dir) {
    if z == [] then q == null else q == z[|z|-1].elem && which == z[|z|-1].dir
  }

  /** bp is the last node of the path that is not level, or its first node; stack
      holds the directions from there, and every node below bp is level. */
  ghost predicate LastSlope<K>(z: seq<NFrame<K>>, stack: array<Dir>, top: nat, bp: Node?<K>, bq: Node?<K>,
                               root: Node?<K>)
    reads stack
  {
    && top <= |z| && top <= stack.Length
    && (z == [] ==> bp == root && bq == null)
    && (z != [] ==>
          var k := |z| - top;
          && top > 0 && bp == z[k].elem && bq == (if k == 0 then null else z[k-1].elem)
          && (k > 0 ==> z[k].bal != 0)
          && (forall i :: k < i < |z| ==> z[i].bal == 0)
          && (forall j :: 0 <= j < top ==> stack[j] == z[k + j].dir))
  }

  /** kavl_size_child. */
  function SizeOf<K>(p: Node?<K>): int
    reads p
  {
    if p == null then 0 else p.size
  }

  /** Appends p and the direction taken to the arrays; a node that is not level restarts the directions. */
  method Record<K>(p: Node<K>, which: Dir, q: Node?<K>, bp0: Node?<K>, bq0: Node?<K>, top0: nat, pathLen0: nat,
                   stack: array<Dir>, path: array<Node?<K>>, ghost z: seq<NFrame<K>>, ghost f: NFrame<K>,
                   ghost root: Node?<K>)
    returns (bp: Node?<K>, bq: Node?<K>, top: nat, pathLen: nat)
    requires |z| < stack.Length == path.Length
    requires OnPath(path, pathLen0, z) && LastSlope(z, stack, top0, bp0, bq0, root)
    requires z == [] ==> root == p && q == null
    requires z != [] ==> q == z[|z|-1].elem
    requires f.elem == p && f.dir == which && f.bal == p.balance
    modifies stack, path
    ensures OnPath(path, pathLen, z + [f]) && LastSlope(z + [f], stack, top, bp, bq, root)
  {
    bp, bq, top, pathLen := bp0, bq0, top0, pathLen0;
    if p.balance != 0 { bq, bp, top := q, p, 0; }
    stack[top], top := which, top + 1;
    path[pathLen], pathLen := p, pathLen + 1;
  }

  ghost function NodesOf<K>(z: seq<NFrame<K>>): set<Node<K>> {
    set i | 0 <= i < |z| :: z[i].elem
  }

  /** Adds k to the sizes of the nodes path[lo..hi]. */
  method AddSizes<K>(path: array<Node?<K>>, lo: nat, hi: nat, k: int, ghost z: seq<NFrame<K>>,
                     ghost root: Node?<K>, ghost p: Node?<K>, ghost t: NTree<K>)
    requires lo <= hi == |z| && OnPath(path, hi, z)
    requires Apart(z, t) && PathShape(z, root, p) && Shape(p, t)
    modifies NodesOf(z)`size
    ensures PathShape(BumpRange(z, lo, hi, k), root, p) && Shape(p, t)
  {
    hide Apart, PathShape, FrameShape, Shape;
    var i := lo;
    ghost var w := z;
    assert BumpRange(z, lo, lo, k) == z;
    while i < hi
      invariant lo <= i <= hi && OnPath(path, hi, z)
      invariant PathShape(BumpRange(z, lo, i, k), root, p) && Shape(p, t)
    {
      w := BumpRange(z, lo, i, k);
      SameApart(z, w, t);
      SizeOnPath(w, i, root, p);
      assert allocated(Elems(t)) && allocated(PathElems(w));
      SetSize(w, i, path[i], path[i].size + k, root, p, t);
      assert w[i := w[i].(size := path[i].size)] == BumpRange(z, lo, i + 1, k);
      i := i + 1;
    }
  }

  lemma SizeOnPath<K>(z: seq<NFrame<K>>, i: nat, root: Node?<K>, p: Node?<K>)
    requires i < |z| && PathShape(z, root, p)
    ensures z[i].elem.size == z[i].size && z[i].elem.balance == z[i].bal && z[i].elem.Child(z[i].dir) == After(z, i, p)
  {
    assert FrameShape(z[i], After(z, i, p));
  }

  lemma FrameIs<K>(f: NFrame<K>, child: Node?<K>)
    ensures FrameShape(f, child) <==>
      f.elem.balance == f.bal && f.elem.size == f.size && f.elem.Child(f.dir) == child
      && Shape(f.elem.Child(f.dir.Opp()), f.sib)
  {
  }

  lemma ApartPair<K>(z: seq<NFrame<K>>, i: nat, j: nat, t: NTree<K>)
    requires i < |z| && j < |z| && Apart(z, t)
    ensures z[i].elem !in Elems(z[j].sib) && (j != i ==> z[j].elem != z[i].elem) && z[i].elem !in Elems(t)
  {
  }

  method SetSize<K>(ghost z: seq<NFrame<K>>, ghost i: nat, x: Node<K>, s: int,
                    ghost root: Node?<K>, ghost p: Node?<K>, ghost t: NTree<K>)
    requires i < |z| && x == z[i].elem
    requires Apart(z, t) && PathShape(z, root, p) && Shape(p, t)
    modifies x`size
    ensures x.size == s && PathShape(z[i := z[i].(size := s)], root, p) && Shape(p, t)
  {
    hide Shape, Elems, FrameShape, Apart;
    ghost var w := z[i := z[i].(size := s)];
    FrameIs(z[i], After(z, i, p));
    ApartPair(z, i, i, t);
    assert forall j :: 0 <= j < |z| ==> FrameShape(z[j], After(z, j, p));
    x.size := s;
    FrameIs(w[i], After(z, i, p));
    forall j | 0 <= j < |w| ensures FrameShape(w[j], After(w, j, p)) {
      assert After(w, j, p) == After(z, j, p);
      ApartPair(z, i, j, t);
    }
  }

  method SetBalance<K>(ghost z: seq<NFrame<K>>, ghost i: nat, x: Node<K>, b: int,
                       ghost root: Node?<K>, ghost p: Node?<K>, ghost t: NTree<K>)
    requires i < |z| && x == z[i].elem
    requires Apart(z, t) && PathShape(z, root, p) && Shape(p, t)
    modifies x`balance
    ensures x.balance == b && PathShape(z[i := z[i].(bal := b)], root, p) && Shape(p, t)
  {
    hide Shape, Elems, FrameShape, Apart;
    ghost var w := z[i := z[i].(bal := b)];
    FrameIs(z[i], After(z, i, p));
    ApartPair(z, i, i, t);
    assert forall j :: 0 <= j < |z| ==> FrameShape(z[j], After(z, j, p));
    x.balance := b;
    FrameIs(w[i], After(z, i, p));
    forall j | 0 <= j < |w| ensures FrameShape(w[j], After(w, j, p)) {
      assert After(w, j, p) == After(z, j, p);
      ApartPair(z, i, j, t);
    }
  }

  /** Leans p, frame i of the path, to side d and goes on to its child. */
  method TiltOne<K>(d: Dir, p: Node<K>, ghost k: nat, ghost i: nat, ghost z: seq<NFrame<K>>,
                    ghost root: Node?<K>, ghost x: Node<K>, ghost t: NTree<K>) returns (q: Node<K>)
    requires k <= i < |z| && p == z[i].elem && d == z[i].dir
    requires Apart(z, t) && PathShape(TiltRange(z, k, i), root, x) && Shape(x, t)
    modifies p`balance
    ensures PathShape(TiltRange(z, k, i + 1), root, x) && Shape(x, t)
    ensures q == After(z, i, x)
  {
    hide Apart, PathShape, FrameShape, Shape;
    ghost var w := TiltRange(z, k, i);
    SameApart(z, w, t);
    SizeOnPath(w, i, root, x);
    var b := if d.Left? then p.balance - 1 else p.balance + 1;
    SetBalance(w, i, p, b, root, x, t);
    ghost var v := w[i := w[i].(bal := b)];
    assert v == TiltRange(z, k, i + 1);
    SizeOnPath(v, i, root, x);
    q := p.Child(d);
  }

  /** Walks from bp, frame k of the path, down to x and leans every node towards it. */
  method UpdateBalances<K>(stack: array<Dir>, bp: Node<K>, x: Node<K>, ghost k: nat, ghost z: seq<NFrame<K>>,
                           ghost root: Node?<K>, ghost t: NTree<K>)
    requires k < |z| && bp == z[k].elem && |z| - k <= stack.Length
    requires forall j :: 0 <= j < |z| - k ==> stack[j] == z[k + j].dir
    requires Apart(z, t) && PathShape(z, root, x) && Shape(x, t)
    modifies NodesOf(z)`balance
    ensures PathShape(TiltRange(z, k, |z|), root, x) && Shape(x, t)
  {
    hide Apart, PathShape, FrameShape, Shape;
    var p, top := bp, 0;
    NotOnPath(z, root, x, t);
    assert TiltRange(z, k, k) == z;
    while p != x
      invariant k + top <= |z|
      invariant p == if k + top < |z| then z[k + top].elem else x
      invariant PathShape(TiltRange(z, k, k + top), root, x) && Shape(x, t)
      decreases |z| - (k + top)
    {
      p := TiltOne(stack[top], p, k, k + top, z, root, x, t);
      top := top + 1;
    }
  }

  lemma NotOnPath<K>(z: seq<NFrame<K>>, root: Node?<K>, x: Node<K>, t: NTree<K>)
    requires Apart(z, t) && Shape(x, t)
    ensures x in Elems(t) && forall i :: 0 <= i < |z| ==> z[i].elem != x
  {
  }

  // ----- rotations -----

  /** A node and its two subtrees, seen from side d. */
  ghost predicate NodeShape<K>(d: Dir, a: NTree<K>, p: Node<K>, b: int, s: int, c: NTree<K>)
    reads p, Elems(a), Elems(c)
  {
    p.balance == b && p.size == s && Shape(p.Child(d), a) && Shape(p.Child(d.Opp()), c)
  }

  lemma ShapeMk<K>(x: Node?<K>, d: Dir, a: NTree<K>, p: Node<K>, b: int, s: int, c: NTree<K>)
    ensures Shape(x, Mk(d, a, p, b, s, c)) <==> x == p && NodeShape(d, a, p, b, s, c)
  {
  }

  lemma MkSub<T>(t: Tree<T>, d: Dir)
    requires t.Bin?
    ensures t == Mk(d, Sub(t, d), t.elem, t.bal, t.size, Sub(t, d.Opp()))
    ensures Elems(t) == Elems(Sub(t, d)) + {t.elem} + Elems(Sub(t, d.Opp()))
    ensures Distinct(t) <==>
      var a, c := Sub(t, d), Sub(t, d.Opp());
      t.elem !in Elems(a) && t.elem !in Elems(c) && Elems(a) !! Elems(c) && Distinct(a) && Distinct(c)
  {
  }

  /** Two nodes, p above q on the side away from d, and their three subtrees. */
  lemma TwoLevels<K>(p: Node<K>, d: Dir, t: NTree<K>, qt: NTree<K>)
    requires Shape(p, t) && Distinct(t) && t.Bin? && qt == Sub(t, d.Opp()) && qt.Bin?
    ensures t.elem == p && p.Child(d.Opp()) == qt.elem && p != qt.elem
    ensures var a, b, c := Sub(t, d), Sub(qt, d), Sub(qt, d.Opp());
      && NodeShape(d, a, p, t.bal, t.size, qt) && NodeShape(d, b, qt.elem, qt.bal, qt.size, c)
      && p !in Elems(a) + Elems(b) + Elems(c) && qt.elem !in Elems(a) + Elems(b) + Elems(c)
      && SizeOf(qt.elem.Child(d)) == StoredSize(b)
  {
    MkSub(t, d);
    MkSub(qt, d);
    ShapeMk(p, d, Sub(t, d), p, t.bal, t.size, qt);
    ShapeMk(qt.elem, d, Sub(qt, d), qt.elem, qt.bal, qt.size, Sub(qt, d.Opp()));
    SizeOfShape(qt.elem.Child(d), Sub(qt, d));
  }

  /** kavl_rotate1. */
  method Rotate1<K>(p: Node<K>, dir: Dir, ghost t: NTree<K>, ghost qt: NTree<K>) returns (q: Node<K>)
    requires Shape(p, t) && Distinct(t) && t.Bin? && qt == Sub(t, dir.Opp()) && qt.Bin?
    modifies p, qt.elem
    ensures q == qt.elem && Shape(q, Rot1(t, dir, t.bal, qt.bal))
  {
    hide Shape, Distinct, Elems, Mk;
    var opp := dir.Opp();
    TwoLevels(p, dir, t, qt);
    ghost var a, b, c := Sub(t, dir), Sub(qt, dir), Sub(qt, opp);
    assert allocated(Elems(a)) && allocated(Elems(b)) && allocated(Elems(c));
    q := p.Child(opp);
    var sizeP := p.size;
    p.size := p.size - (q.size - SizeOf(q.Child(dir)));
    q.size := sizeP;
    p.SetChild(opp, q.Child(dir));
    q.SetChild(dir, p);
    ghost var s := t.size - (qt.size - StoredSize(b));
    ShapeMk(p, dir, a, p, t.bal, s, b);
    assert Shape(p, Mk(dir, a, p, t.bal, s, b));
    ShapeMk(q, dir, Mk(dir, a, p, t.bal, s, b), q, qt.bal, t.size, c);
  }

  /** Three nodes p, q, r on a zigzag path, and their four subtrees. */
  lemma ThreeLevels<K>(p: Node<K>, d: Dir, t: NTree<K>, qt: NTree<K>, rt: NTree<K>)
    requires Shape(p, t) && Distinct(t) && t.Bin? && qt == Sub(t, d.Opp()) && qt.Bin? && rt == Sub(qt, d) && rt.Bin?
    ensures t.elem == p && p.Child(d.Opp()) == qt.elem && qt.elem.Child(d) == rt.elem
    ensures var a, b, c, e := Sub(t, d), Sub(rt, d), Sub(rt, d.Opp()), Sub(qt, d.Opp());
      && NodeShape(d, a, p, t.bal, t.size, qt) && NodeShape(d, rt, qt.elem, qt.bal, qt.size, e)
      && NodeShape(d, b, rt.elem, rt.bal, rt.size, c)
      && SizeOf(rt.elem.Child(d)) == StoredSize(b)
  {
    hide Distinct, Elems, Mk;
    TwoLevels(p, d, t, qt);
    MkSub(t, d);
    MkSub(qt, d);
    TwoLevelsMirror(qt.elem, d, qt, rt);
  }

  lemma TwoLevelsMirror<K>(p: Node<K>, d: Dir, t: NTree<K>, qt: NTree<K>)
    requires Shape(p, t) && Distinct(t) && t.Bin? && qt == Sub(t, d) && qt.Bin?
    ensures t.elem == p && p.Child(d) == qt.elem && p != qt.elem
    ensures var b, c := Sub(qt, d), Sub(qt, d.Opp());
      NodeShape(d, b, qt.elem, qt.bal, qt.size, c) && SizeOf(qt.elem.Child(d)) == StoredSize(b)
  {
    MkSub(t, d);
    ShapeMk(qt.elem, d, Sub(qt, d), qt.elem, qt.bal, qt.size, Sub(qt, d.Opp()));
    SizeOfShape(qt.elem.Child(d), Sub(qt, d));
  }

  lemma ThreeApart<T>(d: Dir, t: Tree<T>, qt: Tree<T>, rt: Tree<T>)
    requires Distinct(t) && t.Bin? && qt == Sub(t, d.Opp()) && qt.Bin? && rt == Sub(qt, d) && rt.Bin?
    ensures var a, b, c, e := Sub(t, d), Sub(rt, d), Sub(rt, d.Opp()), Sub(qt, d.Opp());
      var s := Elems(a) + Elems(b) + Elems(c) + Elems(e);
      t.elem !in s && qt.elem !in s && rt.elem !in s && t.elem != qt.elem && t.elem != rt.elem && qt.elem != rt.elem
  {
    hide Distinct, Elems, Mk;
    MkSub(t, d);
    MkSub(qt, d);
    MkSub(rt, d);
  }

  /** The pointer, size and balance updates of kavl_rotate2. */
  method LiftMiddle<K>(p: Node<K>, dir: Dir) returns (q: Node<K>, r: Node<K>)
    requires p.Child(dir.Opp()) != null && p.Child(dir.Opp()).Child(dir) != null
    requires var q, r := p.Child(dir.Opp()), p.Child(dir.Opp()).Child(dir); p != q && p != r && q != r
    modifies p, p.Child(dir.Opp()), p.Child(dir.Opp()).Child(dir)
    ensures q == old(p.Child(dir.Opp())) && r == old(p.Child(dir.Opp()).Child(dir))
    ensures p.Child(dir) == old(p.Child(dir)) && p.Child(dir.Opp()) == old(r.Child(dir))
    ensures q.Child(dir) == old(r.Child(dir.Opp())) && q.Child(dir.Opp()) == old(q.Child(dir.Opp()))
    ensures r.Child(dir) == p && r.Child(dir.Opp()) == q
    ensures var x := old(SizeOf(r.Child(dir)));
      && r.size == old(p.size) && p.size == old(p.size) - (old(q.size) - x) && q.size == old(q.size) - (x + 1)
    ensures p.balance == dir.NearBal(old(r.balance)) && q.balance == dir.FarBal(old(r.balance)) && r.balance == 0
  {
    var opp := dir.Opp();
    q := p.Child(opp);
    r := q.Child(dir);
    var x := SizeOf(r.Child(dir));
    r.size := p.size;
    p.size := p.size - (q.size - x);
    q.size := q.size - (x + 1);
    p.SetChild(opp, r.Child(dir));
    r.SetChild(dir, p);
    q.SetChild(dir, r.Child(opp));
    r.SetChild(opp, q);
    var b1 := if dir.Left? then 1 else -1;
    if r.balance == b1 {
      q.balance, p.balance := 0, -b1;
    } else if r.balance == 0 {
      q.balance, p.balance := 0, 0;
    } else {
      q.balance, p.balance := b1, 0;
    }
    r.balance := 0;
  }

  /** kavl_rotate2. */
  method Rotate2<K>(p: Node<K>, dir: Dir, ghost t: NTree<K>, ghost qt: NTree<K>, ghost rt: NTree<K>)
      returns (r: Node<K>)
    requires Shape(p, t) && Distinct(t) && t.Bin? && qt == Sub(t, dir.Opp()) && qt.Bin? && rt == Sub(qt, dir) && rt.Bin?
    modifies p, qt.elem, rt.elem
    ensures r == rt.elem && Shape(r, Rot2(t, dir))
  {
    hide Shape, Distinct, Elems, Mk;
    ghost var opp := dir.Opp();
    ThreeLevels(p, dir, t, qt, rt);
    ThreeApart(dir, t, qt, rt);
    ghost var a, b, c, e := Sub(t, dir), Sub(rt, dir), Sub(rt, opp), Sub(qt, opp);
    assert allocated(Elems(a)) && allocated(Elems(b)) && allocated(Elems(c)) && allocated(Elems(e));
    var q;
    q, r := LiftMiddle(p, dir);
    ghost var x := StoredSize(b);
    ghost var sp, sq := t.size - (qt.size - x), qt.size - (x + 1);
    ghost var np, nq := dir.NearBal(rt.bal), dir.FarBal(rt.bal);
    ShapeMk(p, dir, a, p, np, sp, b);
    assert Shape(p, Mk(dir, a, p, np, sp, b));
    ShapeMk(q, dir, c, q, nq, sq, e);
    assert Shape(q, Mk(dir, c, q, nq, sq, e));
    ShapeMk(r, dir, Mk(dir, a, p, np, sp, b), r, 0, t.size, Mk(dir, c, q, nq, sq, e));
  }

  /** The two balance assignments after a single rotation. */
  method SetBalances<K>(p: Node<K>, np: int, q: Node<K>, nq: int, ghost d: Dir, ghost t: NTree<K>, ghost qt: NTree<K>)
    requires t.Bin? && qt == Sub(t, d.Opp()) && qt.Bin? && Distinct(t) && p == t.elem && q == qt.elem
    requires Shape(q, Rot1(t, d, t.bal, qt.bal))
    modifies p`balance, q`balance
    ensures Shape(q, Rot1(t, d, np, nq))
  {
    hide Shape, Distinct, Elems, Mk;
    ghost var a, b, c := Sub(t, d), Sub(qt, d), Sub(qt, d.Opp());
    ghost var s := t.size - (qt.size - StoredSize(b));
    ShapeMk(q, d, Mk(d, a, p, t.bal, s, b), q, qt.bal, t.size, c);
    ShapeMk(q.Child(d), d, a, p, t.bal, s, b);
    MkSub(t, d);
    MkSub(qt, d);
    q.balance := nq;
    p.balance := np;
    ShapeMk(p, d, a, p, np, s, b);
    assert Shape(p, Mk(d, a, p, np, s, b));
    ShapeMk(q, d, Mk(d, a, p, np, s, b), q, nq, t.size, c);
  }

  /** v holds the same nodes as t in the same order and is balanced. */
  ghost predicate Mended<T>(t: Tree<T>, v: Tree<T>) {
    Good(v) && Inorder(v) == Inorder(t) && Count(v) == Count(t) && Elems(v) == Elems(t)
  }

  lemma Rot1Mended<T>(t: Tree<T>, d: Dir, np: int, nq: int)
    requires t.Bin? && Overweight(t, d) && Sub(t, d.Opp()).Bin?
    requires var qb := Sub(t, d.Opp()).bal;
      (qb == d.B1() && np == 0 && nq == 0) || (qb == 0 && np == d.B1() && nq == -d.B1())
    ensures Mended(t, Rot1(t, d, np, nq))
    ensures Height(Rot1(t, d, np, nq)) == if Sub(t, d.Opp()).bal == 0 then Height(t) else Height(t) - 1
  {
    SingleMends(t, d, np, nq);
    Rot1Inorder(t, d, np, nq);
    SameElems(t, Rot1(t, d, np, nq));
  }

  lemma Rot2Mended<T>(t: Tree<T>, d: Dir, q: Tree<T>, r: Tree<T>)
    requires t.Bin? && Overweight(t, d) && q == Sub(t, d.Opp())
    requires q.Bin? && q.bal == -d.B1() && r == Sub(q, d)
    ensures r.Bin? && Mended(t, Rot2(t, d)) && Height(Rot2(t, d)) == Height(t) - 1
  {
    DoubleMends(t, d, q, r);
    Rot2Inorder(t, d);
    SameElems(t, Rot2(t, d));
  }

  /** The re-balancing of kavl_insert at bp, whose side away from which has grown too high. */
  method MendInsert<K>(bp: Node<K>, ghost t: NTree<K>) returns (r: Node<K>, ghost v: NTree<K>)
    requires Shape(bp, t) && Distinct(t) && t.Bin? && Overweight(t, if bp.balance < 0 then Right else Left)
    requires Sub(t, if bp.balance < 0 then Left else Right).Bin?
    requires Sub(t, if bp.balance < 0 then Left else Right).bal != 0
    modifies Elems(t)
    ensures Shape(r, v) && Mended(t, v) && Height(v) == Height(t) - 1
  {
    hide Distinct, Good, Inorder, Count, Mended, Overweight, Height;
    var which := if bp.balance < 0 then Right else Left;
    var b1 := if which == Left then 1 else -1;
    var q := bp.Child(which.Opp());
    ghost var qt := Sub(t, which.Opp());
    OverweightParts(t, which);
    GoodParts(qt, which);
    MkSub(t, which);
    MkSub(qt, which);
    if q.balance == b1 {
      Rot1Mended(t, which, 0, 0);
      r := Rotate1(bp, which, t, qt);
      SetBalances(bp, 0, q, 0, which, t, qt);
      v := Rot1(t, which, 0, 0);
    } else {
      Rot2Mended(t, which, qt, Sub(qt, which));
      MkSub(Sub(qt, which), which);
      r := Rotate2(bp, which, t, qt, Sub(qt, which));
      v := Rot2(t, which);
    }
  }

  // ----- changing where a path leads -----

  /** Makes the last node of a path point to r. */
  method SetEnd<K>(q: Node<K>, which: Dir, r: Node?<K>, ghost z: seq<NFrame<K>>,
                   ghost root: Node?<K>, ghost p: Node?<K>, ghost t: NTree<K>)
    requires z != [] && EndsAt(z, q, which)
    requires Apart(z, t) && PathShape(z, root, p) && Shape(r, t)
    modifies q`left, q`right
    ensures PathShape(z, root, r) && Shape(r, t)
  {
    hide Shape, Elems, FrameShape, Apart;
    ghost var n := |z| - 1;
    assert forall j :: 0 <= j < |z| ==> FrameShape(z[j], After(z, j, p));
    FrameIs(z[n], After(z, n, p));
    ApartPair(z, n, n, t);
    if which.Left? { q.left := r; } else { q.right := r; }
    FrameIs(z[n], r);
    forall j | 0 <= j < |z| ensures FrameShape(z[j], After(z, j, r)) {
      ApartPair(z, n, j, t);
      if j < n {
        assert After(z, j, r) == After(z, j, p);
      }
    }
  }

  lemma PathPrefix<K>(z: seq<NFrame<K>>, k: nat, root: Node?<K>, p: Node?<K>)
    requires k < |z| && PathShape(z, root, p)
    ensures PathShape(z[..k], root, z[k].elem) && PathShape(z[k..], z[k].elem, p)
  {
    forall j | 0 <= j < k ensures FrameShape(z[..k][j], After(z[..k], j, z[k].elem)) {
      assert FrameShape(z[j], After(z, j, p));
    }
    forall j | 0 <= j < |z| - k ensures FrameShape(z[k..][j], After(z[k..], j, p)) {
      assert FrameShape(z[k + j], After(z, k + j, p));
    }
  }

  /** The test by which kavl_insert chooses the child to replace. */
  lemma OtherChild<K>(z: seq<NFrame<K>>, root: Node?<K>, p: Node<K>, t: NTree<K>)
    requires z != [] && PathShape(z, root, p) && Apart(z, t) && p in Elems(t)
    ensures z[|z|-1].dir == if p != z[|z|-1].elem.left then Right else Left
  {
    assert FrameShape(z[|z|-1], After(z, |z|-1, p));
  }

  lemma EmptyPathShape<K>(p: Node?<K>)
    ensures PathShape([], p, p)
  {
  }

  lemma MendedIs<T>(t: Tree<T>, v: Tree<T>)
    requires Mended(t, v)
    ensures Good(v) && Inorder(v) == Inorder(t) && Count(v) == Count(t) && Elems(v) == Elems(t)
  {
  }

  lemma ShapeRoot<K>(p: Node<K>, t: NTree<K>)
    requires Shape(p, t)
    ensures t.Bin? && p == t.elem && p in Elems(t)
  {
  }

  lemma ApartPath<K>(z: seq<NFrame<K>>, t: NTree<K>)
    requires Apart(z, t)
    ensures PathElems(z) !! Elems(t)
  {
  }

  lemma PathElemsInPlug<K>(z: seq<NFrame<K>>, t: NTree<K>)
    ensures PathElems(z) <= Elems(Plug(z, t)) && NodesOf(z) <= Elems(Plug(z, t)) && Elems(t) <= Elems(Plug(z, t))
  {
    PathInPlug(z, t);
  }

  /** A path cut at node k: the upper part, and the subtree at that node. */
  lemma SplitPath<K>(z: seq<NFrame<K>>, k: nat, root: Node?<K>, x: Node?<K>, t: NTree<K>)
    requires k < |z| && PathShape(z, root, x) && Shape(x, t) && Distinct(Plug(z, t))
    ensures var u := Plug(z[k..], t);
      && PathShape(z[..k], root, z[k].elem) && Shape(z[k].elem, u) && Distinct(u) && Apart(z[..k], u)
      && z[k].elem in Elems(u)
      && Elems(u) <= Elems(Plug(z, t)) && NodesOf(z[..k]) <= Elems(Plug(z, t)) && PathElems(z[..k]) !! Elems(u)
  {
    hide Shape, FrameShape, Elems, Distinct, Plug, PathElems;
    PathPrefix(z, k, root, x);
    PlugShape(z[k..], z[k].elem, x, t);
    assert z == z[..k] + z[k..];
    PlugAppend(z[..k], z[k..], t);
    DistinctPlug(z[..k], Plug(z[k..], t));
    PathElemsInPlug(z[..k], Plug(z[k..], t));
    ApartPath(z[..k], Plug(z[k..], t));
    ShapeRoot(z[k].elem, Plug(z[k..], t));
  }
}
