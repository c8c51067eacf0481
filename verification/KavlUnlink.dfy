/** The first half of kavl_erase: taking a node out of the tree. Paths start
    at the fake node that the C code puts above the root. */
module KavlUnlink {
  import opened Sequences
  import opened AvlTrees
  import opened AvlErasure
  import opened KavlNodes

  function WithFake<K>(fake: Node<K>, y: seq<NFrame<K>>): seq<NFrame<K>> {
    [Frame(Left, fake, 0, 0, Leaf)] + y
  }

  /** The arrays hold the nodes and directions of path z. */
  ghost predicate Recorded<K>(path: array<Node?<K>>, dir: array<Dir>, d: nat, z: seq<NFrame<K>>)
    reads path, dir
  {
    && d == |z| <= path.Length == dir.Length
    && forall i :: 0 <= i < d ==> path[i] == z[i].elem && dir[i] == z[i].dir
  }

  lemma ConcatPaths<K>(a: seq<NFrame<K>>, b: seq<NFrame<K>>, root: Node?<K>, n: Node?<K>, p: Node?<K>)
    requires PathShape(a, root, n) && PathShape(b, n, p)
    ensures PathShape(a + b, root, p)
  {
    var z := a + b;
    forall j | 0 <= j < |z| ensures FrameShape(z[j], After(z, j, p)) {
      if j < |a| {
        assert FrameShape(a[j], After(a, j, n));
      } else {
        assert FrameShape(b[j - |a|], After(b, j - |a|, p));
      }
    }
  }

  /** e starts at index base of the arrays. */
  ghost predicate RecordedFrom<K>(path: array<Node?<K>>, dir: array<Dir>, base: nat, e: seq<NFrame<K>>)
    reads path, dir
  {
    && base + |e| <= path.Length == dir.Length
    && forall i :: 0 <= i < |e| ==> path[base + i] == e[i].elem && dir[base + i] == e[i].dir
  }

  /** The inner loop of kavl_erase: from q down to the leftmost node r below it. */
  method Leftmost<K>(q0: Node<K>, path: array<Node?<K>>, dir: array<Dir>, base: nat, ghost t: NTree<K>)
    returns (r: Node<K>, q: Node<K>, d: nat, ghost e: seq<NFrame<K>>, ghost mt: NTree<K>)
    requires Shape(q0, t) && q0.left != null
    requires path.Length == dir.Length && base + Height(t) <= path.Length
    modifies path, dir
    ensures Shape(q0, t) && PathShape(e, q0, r) && Shape(r, mt) && Plug(e, mt) == t && Leftward(e)
    ensures e != [] && EndsAt(e, q, Left) && r.left == null
    ensures d == base + |e| && RecordedFrom(path, dir, base, e)
    ensures forall i :: 0 <= i < base ==> path[i] == old(path[i]) && dir[i] == old(dir[i])
  {
    hide Shape, PathShape, Plug, Height, Elems;
    q, d, e, mt := q0, base, [], t;
    EmptyPathShape(q0);
    PlugNil(t);
    assert allocated(Elems(t));
    while true
      invariant Shape(q0, t) && PathShape(e, q0, q) && Shape(q, mt) && Plug(e, mt) == t && Leftward(e)
      invariant q.left != null && d == base + |e| && RecordedFrom(path, dir, base, e)
      invariant forall i :: 0 <= i < base ==> path[i] == old(path[i]) && dir[i] == old(dir[i])
      decreases mt
    {
      ShapeRoot(q, mt);
      PathDepth(e, mt);
      HeightPositive(mt);
      assert allocated(Elems(mt)) && allocated(PathElems(e)) && allocated(Elems(t));
      assert (path as object) !in Elems(mt) && (path as object) !in PathElems(e) && (path as object) !in Elems(t);
      assert (dir as object) !in Elems(mt) && (dir as object) !in PathElems(e) && (dir as object) !in Elems(t);
      dir[d] := Left;
      path[d], d := q, d + 1;
      StepDown(e, q0, q, mt, Left);
      r := q.left;
      e, mt := e + [Frame(Left, q, mt.bal, mt.size, mt.right)], mt.left;
      if r.left == null { return; }
      q := r;
    }
  }

  lemma HeightPositive<T>(t: Tree<T>)
    requires t.Bin?
    ensures Height(t) > 0
  {
  }

  /** The successor m takes p's left subtree, balance and place; its own right
      pointer already leads to what shall hang there. */
  method LinkUp<K>(m: Node<K>, p: Node<K>, parent: Node<K>, pdir: Dir, ghost z: seq<NFrame<K>>,
                   ghost fake: Node<K>, ghost b: int, ghost l: NTree<K>, ghost sub: NTree<K>)
    requires z != [] && EndsAt(z, parent, pdir) && PathShape(z, fake, p)
    requires Shape(p.left, l) && Shape(m.right, sub) && p.balance == b
    requires Apart(z, Bin(l, m, b, m.size, sub)) && m !in Elems(l) + Elems(sub) && m != p
    modifies m`left, m`balance, parent`left, parent`right
    ensures PathShape(z + [Frame(Right, m, b, m.size, l)], fake, m.right) && Shape(m.right, sub)
  {
    hide Shape, PathShape, Apart, Elems;
    ghost var t := Bin(l, m, b, m.size, sub);
    assert m !in PathElems(z) by { ApartPath(z, t); MkSub(t, Left); }
    m.left := p.left;
    m.balance := p.balance;
    assert Shape(m, t) by { ShapeMk(m, Left, l, m, b, m.size, sub); }
    SetEnd(parent, pdir, m, z, fake, p, t);
    StepDown(z, fake, m, t, Right);
  }

  /** Everything that is different from everything else around a node that is taken out. */
  ghost predicate Separate<K>(z: seq<NFrame<K>>, t: NTree<K>, e: seq<NFrame<K>>, mt: NTree<K>)
    requires t.Bin? && mt.Bin?
  {
    var p, m, l, r := t.elem, mt.elem, t.left, t.right;
    && Apart(z, t) && Apart(e, mt) && p !in Elems(l) + Elems(r) && m !in Elems(l) && m != p && m in Elems(mt)
    && PathElems(z) !! Elems(t) && Elems(l) !! Elems(r) && PathElems(e) !! Elems(mt)
    && PathElems(e) <= Elems(r) && Elems(mt) <= Elems(r) && m !in Elems(mt.right) && Elems(mt.right) <= Elems(mt)
    && Elems(t) == Elems(l) + {p} + Elems(r)
  }

  lemma AllSeparate<K>(z: seq<NFrame<K>>, t: NTree<K>, e: seq<NFrame<K>>, mt: NTree<K>)
    requires t.Bin? && mt.Bin? && Distinct(Plug(z, t)) && t.right == Plug(e, mt)
    ensures Separate(z, t, e, mt)
  {
    hide Distinct, Plug, Apart, Elems;
    DistinctPlug(z, t);
    ApartPath(z, t);
    MkSub(t, Left);
    DistinctPlug(e, mt);
    ApartPath(e, mt);
    PathElemsInPlug(e, mt);
    MkSub(mt, Left);
  }

  /** The successor m leaves its place over to its right subtree and points to p's right subtree. */
  method CutOut<K>(p: Node<K>, q: Node<K>, m: Node<K>, ghost e: seq<NFrame<K>>, ghost mt: NTree<K>)
    returns (ghost n: Node?<K>)
    requires mt.Bin? && m == mt.elem && PathShape(e, p.right, m) && Shape(m, mt)
    requires e != [] && EndsAt(e, q, Left) && Apart(e, mt) && m !in Elems(mt.right) && Elems(mt.right) <= Elems(mt)
    requires PathElems(e) !! Elems(mt) && p !in PathElems(e) + Elems(mt)
    modifies q`left, q`right, m`right
    ensures m.right == p.right && PathShape(e, m.right, n) && Shape(n, mt.right)
    ensures p.right == old(p.right)
  {
    hide PathShape, Apart, Elems;
    n := m.right;
    assert q in PathElems(e);
    assert m in Elems(mt) by { ShapeRoot(m, mt); }
    assert Shape(n, mt.right);
    hide Shape;
    ApartElems(e, mt, mt.right);
    SetEnd(q, Left, m.right, e, p.right, m, mt.right);
    m.right := p.right;
  }

  /** Puts the successor m into the arrays and mends the sizes from it downwards. */
  method FixSizes<K>(m: Node<K>, size: int, path: array<Node?<K>>, dir: array<Dir>, d0: nat, d: nat,
                     ghost z: seq<NFrame<K>>, ghost f: NFrame<K>, ghost e: seq<NFrame<K>>,
                     ghost fake: Node<K>, ghost n: Node?<K>, ghost h: NTree<K>)
    requires Recorded(path, dir, d0, z) && RecordedFrom(path, dir, d0 + 1, e) && d == d0 + 1 + |e| <= path.Length
    requires f.elem == m && f.dir == Right
    requires PathShape(z + [f] + e, fake, n) && Shape(n, h) && Apart(z + [f] + e, h)
    modifies path, dir, NodesOf(z + [f] + e)`size
    ensures Recorded(path, dir, d, z + [f.(size := size)] + BumpAll(e, -1))
    ensures PathShape(z + [f.(size := size)] + BumpAll(e, -1), fake, n) && Shape(n, h)
  {
    hide Shape, PathShape, Apart, Elems;
    ghost var w := z + [f] + e;
    assert allocated(Elems(h)) && allocated(PathElems(w));
    assert (path as object) !in Elems(h) && (path as object) !in PathElems(w);
    assert (dir as object) !in Elems(h) && (dir as object) !in PathElems(w);
    path[d0] := m;
    dir[d0] := Right;
    RecordedJoin(path, dir, d0, z, f, e);
    FixedPath(z, f, e, size);
    hide Recorded, SameWay, BumpRange;
    AddSizes(path, d0 + 1, d, -1, w, fake, n, h);
    ghost var b := BumpRange(w, d0 + 1, d, -1);
    SameApart(w, b, h);
    SetSize(b, d0, m, size, fake, n, h);
    RecordedSame(path, dir, d, w, z + [f.(size := size)] + BumpAll(e, -1));
  }

  lemma RecordedJoin<K>(path: array<Node?<K>>, dir: array<Dir>, d0: nat, z: seq<NFrame<K>>, f: NFrame<K>,
                        e: seq<NFrame<K>>)
    requires Recorded(path, dir, d0, z) && RecordedFrom(path, dir, d0 + 1, e) && d0 < path.Length
    requires path[d0] == f.elem && dir[d0] == f.dir
    ensures Recorded(path, dir, d0 + 1 + |e|, z + [f] + e) && OnPath(path, d0 + 1 + |e|, z + [f] + e)
  {
    var w := z + [f] + e;
    forall i | 0 <= i < |w| ensures path[i] == w[i].elem && dir[i] == w[i].dir {
      if i > d0 {
        assert w[i] == e[i - d0 - 1] && path[d0 + 1 + (i - d0 - 1)] == e[i - d0 - 1].elem;
      }
    }
  }

  lemma RecordedSame<K>(path: array<Node?<K>>, dir: array<Dir>, d: nat, z: seq<NFrame<K>>, w: seq<NFrame<K>>)
    requires Recorded(path, dir, d, z) && SameWay(z, w)
    ensures Recorded(path, dir, d, w)
  {
  }

  lemma FixedPath<T>(z: seq<Frame<T>>, f: Frame<T>, e: seq<Frame<T>>, size: int)
    ensures var w := z + [f] + e;
      var b := BumpRange(w, |z| + 1, |w|, -1);
      var v := z + [f.(size := size)] + BumpAll(e, -1);
      SameWay(w, b) && b[|z|].elem == f.elem && b[|z| := b[|z|].(size := size)] == v && SameWay(w, v)
  {
    var w := z + [f] + e;
    var b, v := BumpRange(w, |z| + 1, |w|, -1), z + [f.(size := size)] + BumpAll(e, -1);
    assert b == z + [f] + BumpAll(e, -1);
  }

  /** The case ((1,2)3,4)5 => ((1)2,4)5: p's right child has no left child. */
  method LinkNext<K>(p: Node<K>, m: Node<K>, parent: Node<K>, pdir: Dir, ghost z: seq<NFrame<K>>,
                     ghost fake: Node<K>, ghost t: NTree<K>)
    requires z != [] && EndsAt(z, parent, pdir) && PathShape(z, fake, p) && Shape(p, t) && Distinct(Plug(z, t))
    requires p.right == m && m.left == null
    modifies m`left, m`balance, parent`left, parent`right
    ensures t.Bin? && t.right.Bin? && t.right.elem == m && t.right.left == Leaf
    ensures PathShape(z + [Frame(Right, m, t.bal, m.size, t.left)], fake, m.right) && Shape(m.right, t.right.right)
  {
    hide PathShape, Apart, Elems, Distinct, Plug;
    NextIs(p, m, t);
    PlugNil(t.right);
    AllSeparate(z, t, [], t.right);
    ApartLinked(z, t, [], t.right, t.right.right, m.size);
    LinkUp(m, p, parent, pdir, z, fake, t.bal, t.left, t.right.right);
  }

  lemma NextIs<K>(p: Node<K>, m: Node<K>, t: NTree<K>)
    requires Shape(p, t) && p.right == m && m.left == null
    ensures t.Bin? && t.right.Bin? && t.right.elem == m && t.right.left == Leaf && t.elem == p && p.balance == t.bal
    ensures Shape(p.left, t.left) && Shape(m.right, t.right.right) && p.size == t.size
  {
    assert Shape(m, t.right);
    assert Shape(m.left, t.right.left);
  }

  lemma ApartLinked<K>(z: seq<NFrame<K>>, t: NTree<K>, e: seq<NFrame<K>>, mt: NTree<K>, sub: NTree<K>, s: int)
    requires t.Bin? && mt.Bin? && Separate(z, t, e, mt) && Elems(sub) <= Elems(t.right) && mt.elem !in Elems(sub)
    ensures Apart(z, Bin(t.left, mt.elem, t.bal, s, sub)) && mt.elem !in Elems(t.left) + Elems(sub) && mt.elem != t.elem
  {
    hide Apart;
    ApartElems(z, t, Bin(t.left, mt.elem, t.bal, s, sub));
  }

  /** The successor m, further down with q above it, is cut out and takes p's place. */
  method Replace<K>(p: Node<K>, q: Node<K>, m: Node<K>, parent: Node<K>, pdir: Dir, ghost z: seq<NFrame<K>>,
                    ghost fake: Node<K>, ghost t: NTree<K>, ghost e: seq<NFrame<K>>, ghost mt: NTree<K>)
    returns (ghost n: Node?<K>)
    requires z != [] && EndsAt(z, parent, pdir) && PathShape(z, fake, p) && Shape(p, t) && p.right != null
    requires e != [] && EndsAt(e, q, Left) && PathShape(e, p.right, m) && Shape(m, mt) && mt.Bin? && m == mt.elem
    requires t.Bin? && t.right == Plug(e, mt) && Separate(z, t, e, mt)
    modifies q`left, q`right, m`left, m`right, m`balance, parent`left, parent`right
    ensures PathShape(z + [Frame(Right, m, t.bal, m.size, t.left)] + e, fake, n) && Shape(n, mt.right)
    ensures p.size == t.size
  {
    hide PathShape, Apart, Plug, Shape, Elems, Height;
    NodeParts(p, t);
    assert allocated(Elems(t)) && allocated(PathElems(z)) && allocated(Elems(t.left));
    assert parent in PathElems(z) && q in PathElems(e);
    n := CutOut(p, q, m, e, mt);
    PlugShape(e, m.right, n, mt.right);
    ghost var sub := Plug(e, mt.right);
    ElemsPlug(e, mt.right);
    ElemsPlug(e, mt);
    ApartLinked(z, t, e, mt, sub, m.size);
    assert allocated(PathElems(e)) && allocated(Elems(mt.right));
    LinkUp(m, p, parent, pdir, z, fake, t.bal, t.left, sub);
    ConcatPaths(z + [Frame(Right, m, t.bal, m.size, t.left)], e, fake, m.right, n);
  }

  /** The case ((1,((.,2)3,4)5)6,7)8 => ((1,(2,4)5)3,7)8: the successor is further down. */
  method LinkFar<K>(p: Node<K>, path: array<Node?<K>>, dir: array<Dir>, d0: nat, parent: Node<K>, pdir: Dir,
                    ghost z: seq<NFrame<K>>, ghost fake: Node<K>, ghost t: NTree<K>)
    returns (m: Node<K>, d: nat, ghost e: seq<NFrame<K>>, ghost mt: NTree<K>, ghost n: Node?<K>)
    requires z != [] && EndsAt(z, parent, pdir) && PathShape(z, fake, p) && Shape(p, t) && Distinct(Plug(z, t))
    requires p.right != null && p.right.left != null
    requires path.Length == dir.Length && d0 + Height(t) <= path.Length
    modifies path, dir, Elems(t), parent
    ensures t.Bin? && mt.Bin? && mt.left == Leaf && mt.elem == m && Leftward(e) && t.right == Plug(e, mt)
    ensures PathShape(z + [Frame(Right, m, t.bal, m.size, t.left)] + e, fake, n) && Shape(n, mt.right)
    ensures d == d0 + 1 + |e| && RecordedFrom(path, dir, d0 + 1, e) && p.size == t.size
    ensures forall i :: 0 <= i <= d0 && i < path.Length ==> path[i] == old(path[i]) && dir[i] == old(dir[i])
  {
    hide PathShape, Apart, Distinct, Plug, Shape, Elems, Height;
    NodeParts(p, t);
    var q;
    assert allocated(Elems(t)) && allocated(PathElems(z));
    m, q, d, e, mt := Leftmost(p.right, path, dir, d0 + 1, t.right);
    LeftmostIs(m, mt);
    AllSeparate(z, t, e, mt);
    assert q in PathElems(e) && parent in PathElems(z);
    n := Replace(p, q, m, parent, pdir, z, fake, t, e, mt);
  }

  /** The case ((1,2)3,4)5 => ((1)2,4)5 in the form of LinkFar. */
  method LinkNear<K>(p: Node<K>, path: array<Node?<K>>, dir: array<Dir>, d0: nat, parent: Node<K>, pdir: Dir,
                     ghost z: seq<NFrame<K>>, ghost fake: Node<K>, ghost t: NTree<K>)
    returns (m: Node<K>, d: nat, ghost e: seq<NFrame<K>>, ghost mt: NTree<K>, ghost n: Node?<K>)
    requires z != [] && EndsAt(z, parent, pdir) && PathShape(z, fake, p) && Shape(p, t) && Distinct(Plug(z, t))
    requires p.right != null && p.right.left == null
    requires path.Length == dir.Length && d0 + Height(t) <= path.Length
    modifies Elems(t), parent
    ensures t.Bin? && mt.Bin? && mt.left == Leaf && mt.elem == m && Leftward(e) && t.right == Plug(e, mt)
    ensures PathShape(z + [Frame(Right, m, t.bal, m.size, t.left)] + e, fake, n) && Shape(n, mt.right)
    ensures d == d0 + 1 + |e| && RecordedFrom(path, dir, d0 + 1, e) && p.size == t.size
  {
    hide PathShape, Apart, Distinct, Plug, Shape, Elems;
    NodeParts(p, t);
    m, e, mt, d := p.right, [], t.right, d0 + 1;
    HeightPositive(t);
    hide Height;
    PlugNil(mt);
    ShapeRoot(m, mt);
    LinkNext(p, m, parent, pdir, z, fake, t);
    ghost var w := z + [Frame(Right, m, t.bal, m.size, t.left)];
    assert w + [] == w;
    n := m.right;
  }

  lemma NodeParts<K>(p: Node<K>, t: NTree<K>)
    requires Shape(p, t) && p.right != null
    ensures t.Bin? && t.elem == p && p.balance == t.bal && p.size == t.size
    ensures Shape(p.left, t.left) && Shape(p.right, t.right) && Height(t.right) + 1 <= Height(t)
    ensures Elems(t) == Elems(t.left) + {p} + Elems(t.right)
  {
  }

  lemma LeftmostIs<K>(m: Node<K>, mt: NTree<K>)
    requires Shape(m, mt) && m.left == null
    ensures mt.Bin? && mt.elem == m && mt.left == Leaf && m.left == null
  {
    assert Shape(m.left, mt.left);
  }

  lemma PathElemsSnoc<K>(y: seq<NFrame<K>>, f: NFrame<K>)
    ensures PathElems(y + [f]) == PathElems(y) + {f.elem} + Elems(f.sib)
  {
    hide Elems;
    var z := y + [f];
    assert forall i :: 0 <= i < |y| ==> y[i] == z[i];
    assert z[|y|] == f;
    forall x | x in PathElems(z) ensures x in PathElems(y) + {f.elem} + Elems(f.sib) {
      var i :| 0 <= i < |z| && (x == z[i].elem || x in Elems(z[i].sib));
    }
  }

  lemma {:induction false} ElemsPlug<K>(z: seq<NFrame<K>>, t: NTree<K>)
    ensures Elems(Plug(z, t)) == PathElems(z) + Elems(t)
    decreases |z|
  {
    if z != [] {
      var f, y := z[|z|-1], z[..|z|-1];
      assert z == y + [f];
      ElemsPlug(y, Fill(f, t));
      MkSub(Fill(f, t), f.dir);
      PathElemsSnoc(y, f);
    }
  }

  /** A node p has been taken out: what now hangs at the end of the path, h, is
      one level lower than the path's balances say, and everything else is right. */
  ghost predicate Gap<K>(fake: Node<K>, w: seq<NFrame<K>>, n: Node?<K>, h: NTree<K>)
    reads PathElems(WithFake(fake, w)), Elems(h)
  {
    && PathShape(WithFake(fake, w), fake, n) && Shape(n, h) && Distinct(Plug(WithFake(fake, w), h))
    && Good(h) && GoodPath(w, Height(h) + 1, Count(h))
  }

  /** The successor of p takes its place; the sizes are still those from before. */
  method Link<K>(p: Node<K>, path: array<Node?<K>>, dir: array<Dir>, d0: nat,
                 ghost z: seq<NFrame<K>>, ghost fake: Node<K>, ghost t: NTree<K>)
    returns (m: Node<K>, d: nat, ghost e: seq<NFrame<K>>, ghost mt: NTree<K>, ghost n: Node?<K>)
    requires z != [] && PathShape(z, fake, p) && Shape(p, t) && Distinct(Plug(z, t)) && Recorded(path, dir, d0, z)
    requires p.right != null && d0 + Height(t) <= path.Length
    modifies path, dir, Elems(Plug(z, t))
    ensures t.Bin? && mt.Bin? && mt.left == Leaf && mt.elem == m && Leftward(e) && t.right == Plug(e, mt)
    ensures PathShape(z + [Frame(Right, m, t.bal, m.size, t.left)] + e, fake, n) && Shape(n, mt.right)
    ensures d == d0 + 1 + |e| <= path.Length && RecordedFrom(path, dir, d0 + 1, e) && p.size == t.size
    ensures Recorded(path, dir, d0, z)
  {
    hide PathShape, Distinct, Plug, Shape, Elems, Height;
    var parent, pdir := path[d0-1], dir[d0-1];
    NodeParts(p, t);
    PathElemsInPlug(z, t);
    assert parent in PathElems(z);
    assert (path as object) !in Elems(Plug(z, t)) && (dir as object) !in Elems(Plug(z, t));
    if p.right.left == null {
      m, d, e, mt, n := LinkNear(p, path, dir, d0, parent, pdir, z, fake, t);
    } else {
      m, d, e, mt, n := LinkFar(p, path, dir, d0, parent, pdir, z, fake, t);
    }
  }

  method UnlinkInner<K>(p: Node<K>, d0: nat, path: array<Node?<K>>, dir: array<Dir>,
                        ghost z: seq<NFrame<K>>, ghost fake: Node<K>, ghost t: NTree<K>)
    returns (d: nat, ghost e: seq<NFrame<K>>, ghost mt: NTree<K>, ghost n: Node?<K>)
    requires z != [] && PathShape(z, fake, p) && Shape(p, t) && Distinct(Plug(z, t)) && Recorded(path, dir, d0, z)
    requires p.right != null && d0 + Height(t) <= path.Length
    modifies path, dir, Elems(Plug(z, t))
    ensures t.Bin? && mt.Bin? && mt.left == Leaf && Leftward(e) && t.right == Plug(e, mt)
    ensures var w := z + [Frame(Right, mt.elem, t.bal, t.size - 1, t.left)] + BumpAll(e, -1);
      Recorded(path, dir, d, w) && PathShape(w, fake, n) && Shape(n, mt.right)
  {
    hide PathShape, Apart, Distinct, Plug, Shape, Elems, Height, SameWay, Recorded, RecordedFrom, Leftward;
    var m;
    m, d, e, mt, n := Link(p, path, dir, d0, z, fake, t);
    ghost var f := Frame(Right, m, t.bal, m.size, t.left);
    ghost var v := z + [f] + e;
    RawReplaced(z, t, e, m, m.size);
    ReplacedDistinct(z, t, e, mt, v);
    PathElemsInPlug(v, mt.right);
    FixSizes(m, p.size - 1, path, dir, d0, d, z, f, e, fake, n, mt.right);
  }

  /** Without a right child, p's left child takes its place. */
  method UnlinkOuter<K>(p: Node<K>, parent: Node<K>, pdir: Dir,
                        ghost fake: Node<K>, ghost y: seq<NFrame<K>>, ghost t: NTree<K>)
    requires Shape(p, t) && p.right == null && Good(Plug(y, t))
    requires var z := WithFake(fake, BumpAll(y, -1));
      PathShape(z, fake, p) && EndsAt(z, parent, pdir) && Distinct(Plug(z, t))
    modifies parent`left, parent`right
    ensures t.Bin? && Gap(fake, BumpAll(y, -1), old(p.left), t.left)
    ensures Inorder(Plug(BumpAll(y, -1), t.left)) == Pre(y) + Inorder(t.left) + Inorder(t.right) + Post(y)
    ensures var z := WithFake(fake, BumpAll(y, -1)); Elems(Plug(z, t.left)) <= Elems(Plug(z, t))
  {
    hide PathShape, Apart, Distinct, Plug, Shape, Elems, Height, Good, GoodPath, Inorder, Pre, Post, Count;
    ghost var z := WithFake(fake, BumpAll(y, -1));
    RightChild(p, t);
    UnlinkSimple(y, t);
    DroppedDistinct(z, t);
    SetEnd(parent, pdir, p.left, z, fake, p, t.left);
  }

  lemma RawReplaced<K>(z: seq<NFrame<K>>, t: NTree<K>, e: seq<NFrame<K>>, m: Node<K>, s: int)
    requires t.Bin?
    ensures SameWay(Replaced(z, t, e, m), z + [Frame(Right, m, t.bal, s, t.left)] + e)
  {
  }

  /** kavl_erase between its search and its re-balancing loop. */
  method Unlink<K>(p: Node<K>, d0: nat, path: array<Node?<K>>, dir: array<Dir>,
                   ghost fake: Node<K>, ghost y: seq<NFrame<K>>, ghost t: NTree<K>)
    returns (d: nat, ghost w: seq<NFrame<K>>, ghost n: Node?<K>, ghost h: NTree<K>)
    requires PathShape(WithFake(fake, y), fake, p) && Shape(p, t) && Distinct(Plug(WithFake(fake, y), t))
    requires Recorded(path, dir, d0, WithFake(fake, y)) && Good(Plug(y, t)) && d0 + Height(t) <= path.Length
    modifies path, dir, Elems(Plug(WithFake(fake, y), t))
    ensures t.Bin? && Gap(fake, w, n, h) && Recorded(path, dir, d, WithFake(fake, w))
    ensures Inorder(Plug(w, h)) == Pre(y) + Inorder(t.left) + Inorder(t.right) + Post(y)
    ensures Elems(Plug(WithFake(fake, w), h)) <= Elems(Plug(WithFake(fake, y), t))
  {
    hide PathShape, Apart, Distinct, Plug, Shape, Elems, Height, SameWay, Good, GoodPath, Inorder, Pre, Post, Count;
    ghost var z0 := WithFake(fake, y);
    ghost var b := BumpAll(y, -1);
    ghost var z := WithFake(fake, b);
    BumpedFake(fake, y);
    SameDistinct(z0, z, t);
    DistinctPlug(z0, t);
    PathElemsInPlug(z0, t);
    AddSizes(path, 1, d0, -1, z0, fake, p, t);
    RecordedSame(path, dir, d0, z0, z);
    RightChild(p, t);
    if p.right == null {
      d, w, n, h := d0, b, p.left, t.left;
      UnlinkOuter(p, path[d0-1], dir[d0-1], fake, y, t);
    } else {
      ghost var e, mt;
      d, e, mt, n := UnlinkInner(p, d0, path, dir, z, fake, t);
      h, w := mt.right, Replaced(y, t, e, mt.elem);
      UnlinkSuccessor(y, t, e, mt);
      ReplacedFake(fake, y, b, t, e, mt.elem);
      ReplacedDistinct(z, t, e, mt, WithFake(fake, w));
    }
  }

  lemma BumpedFake<K>(fake: Node<K>, y: seq<NFrame<K>>)
    ensures var z0, z := WithFake(fake, y), WithFake(fake, BumpAll(y, -1));
      SameWay(z0, z) && BumpRange(z0, 1, |z0|, -1) == z
  {
    assert BumpRange(WithFake(fake, y), 1, |y| + 1, -1) == WithFake(fake, BumpAll(y, -1));
  }

  lemma ReplacedFake<K>(fake: Node<K>, y: seq<NFrame<K>>, b: seq<NFrame<K>>, t: NTree<K>, e: seq<NFrame<K>>, m: Node<K>)
    requires t.Bin? && b == BumpAll(y, -1)
    ensures SameWay(Replaced(WithFake(fake, b), t, e, m), WithFake(fake, Replaced(y, t, e, m)))
    ensures WithFake(fake, Replaced(y, t, e, m)) ==
      WithFake(fake, b) + [Frame(Right, m, t.bal, t.size - 1, t.left)] + BumpAll(e, -1)
  {
  }

  lemma RightChild<K>(p: Node<K>, t: NTree<K>)
    requires Shape(p, t)
    ensures t.Bin? && t.elem == p && Shape(p.left, t.left) && Shape(p.right, t.right)
    ensures p.right == null <==> t.right == Leaf
  {
  }

  /** Dropping the node of t when it has no right subtree. */
  lemma DroppedDistinct<K>(z: seq<NFrame<K>>, t: NTree<K>)
    requires t.Bin? && t.right == Leaf && Distinct(Plug(z, t))
    ensures Distinct(Plug(z, t.left)) && Apart(z, t.left) && Elems(Plug(z, t.left)) <= Elems(Plug(z, t))
  {
    hide Plug, Pre, Post, Distinct, Apart, NoDup, Elems;
    InorderPlug(z, t.left);
    InorderPlug(z, t);
    DropOne(Pre(z), Inorder(t.left), t.elem, Inorder(t.right), Post(z), Inorder(Plug(z, t)), Inorder(Plug(z, t.left)));
    DistinctInorder(Plug(z, t));
    DistinctInorder(Plug(z, t.left));
    DistinctPlug(z, t.left);
    FewerElems(Plug(z, t.left), Plug(z, t));
  }
}
