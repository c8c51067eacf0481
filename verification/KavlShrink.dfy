/** The second half of kavl_erase: balances from the gap up to the root. */
module KavlShrink {
  import opened Sequences
  import opened AvlTrees
  import opened AvlErasure
  import opened KavlNodes
  import opened KavlUnlink

  /** The re-balancing of one overweight node; done tells that its height is what it was. */
  method MendErase<K>(q: Node<K>, which: Dir, ghost t: NTree<K>) returns (top: Node<K>, done: bool, ghost v: NTree<K>)
    requires Shape(q, t) && Distinct(t) && t.Bin? && Overweight(t, which)
    modifies Elems(t)
    ensures Shape(top, v) && Mended(t, v) && Height(v) == if done then Height(t) else Height(t) - 1
  {
    hide Distinct, Good, Inorder, Count, Mended, Overweight, Height;
    var b1 := if which.Left? then 1 else -1;
    var r := q.Child(which.Opp());
    ghost var rt := Sub(t, which.Opp());
    OverweightParts(t, which);
    GoodParts(rt, which);
    MkSub(t, which);
    MkSub(rt, which);
    if r.balance == -b1 {
      Rot2Mended(t, which, rt, Sub(rt, which));
      MkSub(Sub(rt, which), which);
      top := Rotate2(q, which, t, rt, Sub(rt, which));
      v, done := Rot2(t, which), false;
    } else {
      top := Rotate1(q, which, t, rt);
      if r.balance == 0 {
        Rot1Mended(t, which, b1, -b1);
        SetBalances(q, b1, r, -b1, which, t, rt);
        v, done := Rot1(t, which, b1, -b1), true;
      } else {
        Rot1Mended(t, which, 0, 0);
        SetBalances(q, 0, r, 0, which, t, rt);
        v, done := Rot1(t, which, 0, 0), false;
      }
    }
  }

  /** The path above node q with q's corrected balance, cut at q. */
  lemma CutAtGap<K>(fake: Node<K>, y: seq<NFrame<K>>, f: NFrame<K>, n: Node?<K>, h: NTree<K>)
    requires y != [] && SameWay([y[|y|-1]], [f]) && Distinct(Plug(WithFake(fake, y), h)) && Shape(n, h)
    requires PathShape(WithFake(fake, y)[|y| := f], fake, n)
    ensures var z, u := WithFake(fake, y[..|y|-1]), Fill(f, h);
      && PathShape(z, fake, f.elem) && Shape(f.elem, u) && Distinct(u) && Apart(z, u) && f.elem in Elems(u)
      && Distinct(Plug(z, u)) && PathElems(z) !! Elems(u)
      && Elems(u) <= Elems(Plug(z, u)) && NodesOf(z) <= Elems(Plug(z, u))
      && Elems(Plug(z, u)) == Elems(Plug(WithFake(fake, y), h))
      && Inorder(u) == Inorder(Fill(y[|y|-1], h))
  {
    hide Plug, Distinct, Elems, Apart, PathShape, Shape, Inorder;
    var w := WithFake(fake, y)[|y| := f];
    var z, u := WithFake(fake, y[..|y|-1]), Fill(f, h);
    assert w[..|y|] == z && w[|y|..] == [f] && w[|y|] == f;
    SameDistinct(WithFake(fake, y), w, h);
    SplitPath(w, |y|, fake, n, h);
    PlugOne(f, h);
    assert w == z + [f];
    PlugAppend(z, [f], h);
    InorderFillAny(f, y[|y|-1], h);
  }

  lemma InorderFillAny<T>(f: Frame<T>, g: Frame<T>, h: Tree<T>)
    requires f.elem == g.elem && f.dir == g.dir && f.sib == g.sib
    ensures Inorder(Fill(f, h)) == Inorder(Fill(g, h))
  {
  }

  lemma MendedDistinct<T>(z: seq<Frame<T>>, t: Tree<T>, v: Tree<T>)
    requires Distinct(Plug(z, t)) && Mended(t, v)
    ensures Distinct(Plug(z, v)) && Elems(Plug(z, v)) == Elems(Plug(z, t)) && Apart(z, v)
  {
    hide Plug, Distinct, Elems, NoDup, Apart;
    InorderPlug(z, t);
    InorderPlug(z, v);
    DistinctInorder(Plug(z, t));
    DistinctInorder(Plug(z, v));
    SameElems(Plug(z, t), Plug(z, v));
    DistinctPlug(z, v);
  }

  /** One round of the re-balancing loop, at node q above the gap; done tells that no gap is left above. */
  method ShrinkStep<K>(q: Node<K>, which: Dir, parent: Node<K>, pdir: Dir,
                       ghost fake: Node<K>, ghost y: seq<NFrame<K>>, ghost n: Node?<K>, ghost h: NTree<K>)
    returns (done: bool, ghost n': Node<K>, ghost v: NTree<K>)
    requires y != [] && EndsAt(y, q, which) && EndsAt(WithFake(fake, y[..|y|-1]), parent, pdir)
    requires Gap(fake, y, n, h)
    modifies Elems(Plug(WithFake(fake, y), h))
    ensures var y0 := y[..|y|-1];
      && PathShape(WithFake(fake, y0), fake, n') && Shape(n', v) && Distinct(Plug(WithFake(fake, y0), v))
      && Good(v) && GoodPath(y0, if done then Height(v) else Height(v) + 1, Count(v))
      && Inorder(v) == Inorder(Fill(y[|y|-1], h))
      && Elems(Plug(WithFake(fake, y0), v)) == Elems(Plug(WithFake(fake, y), h))
  {
    hide PathShape, Apart, Distinct, Plug, Shape, Elems, Good, GoodPath, Inorder, Count, Mended, Overweight, Height;
    ghost var z, i := WithFake(fake, y), |y|;
    ghost var f, z0 := y[i-1], WithFake(fake, y[..i-1]);
    assert z[i] == f;
    DistinctPlug(z, h);
    GapFrame(y, h);
    PathElemsInPlug(z, h);
    SizeOnPath(z, i, fake, n);
    var b1, b2 := 1, 2;
    if which.Right? { b1, b2 := -b1, -b2; }
    SetBalance(z, i, q, q.balance + b1, fake, n, h);
    ghost var g := f.(bal := f.bal + which.B1());
    ghost var t := Fill(g, h);
    CutAtGap(fake, y, g, n, h);
    if q.balance == b1 {
      done, n', v := true, q, t;
    } else if q.balance == b2 {
      assert allocated(PathElems(z0));
      var top;
      top, done, v := MendErase(q, which, t);
      MendedIs(t, v);
      MendedDistinct(z0, t, v);
      SetEnd(parent, pdir, top, z0, fake, q, v);
      n' := top;
    } else {
      done, n', v := false, q, t;
    }
  }

  /** The loop: from the gap towards the fake node, whose left child is the root in the end. */
  method CloseGap<K>(d0: nat, path: array<Node?<K>>, dir: array<Dir>, ghost fake: Node<K>,
                     ghost w0: seq<NFrame<K>>, ghost n0: Node?<K>, ghost h0: NTree<K>)
    returns (ghost u: NTree<K>)
    requires Gap(fake, w0, n0, h0) && Recorded(path, dir, d0, WithFake(fake, w0))
    modifies Elems(Plug(WithFake(fake, w0), h0))
    ensures Shape(fake.left, u) && Good(u) && Inorder(u) == Inorder(Plug(w0, h0)) &&
      Elems(u) <= Elems(Plug(WithFake(fake, w0), h0))
  {
    hide PathShape, Apart, Distinct, Plug, Shape, Elems, Good, GoodPath, Inorder, Count, Height, Gap, Recorded;
    var d, done := d0, false;
    ghost var w, n, h := w0, n0, h0;
    ghost var all := Elems(Plug(WithFake(fake, w0), h0));
    RecordedLast(path, dir, d, fake, w);
    d := d - 1;
    while d > 0
      invariant d == |w| && Recorded(path, dir, d + 1, WithFake(fake, w))
      invariant Gap(fake, w, n, h)
      invariant Elems(Plug(WithFake(fake, w), h)) <= all && Inorder(Plug(w, h)) == Inorder(Plug(w0, h0))
    {
      RecordedLast(path, dir, d + 1, fake, w);
      ghost var n', v;
      ghost var y := w[..d-1];
      done, n', v := ShrinkStep(path[d], dir[d], path[d-1], dir[d-1], fake, w, n, h);
      PlugLast(w, h, v);
      if done {
        GoodPlug(y, v);
        u := TreeUnderFake(fake, y, n', v);
        return;
      }
      w, n, h := y, n', v;
      GapIs(fake, w, n, h);
      d := d - 1;
    }
    GapIs(fake, w, n, h);
    PlugNil(h);
    assert w == [];
    u := TreeUnderFake(fake, w, n, h);
  }

  lemma GapIs<K>(fake: Node<K>, w: seq<NFrame<K>>, n: Node?<K>, h: NTree<K>)
    ensures Gap(fake, w, n, h) <==>
      PathShape(WithFake(fake, w), fake, n) && Shape(n, h) && Distinct(Plug(WithFake(fake, w), h))
      && Good(h) && GoodPath(w, Height(h) + 1, Count(h))
  {
  }

  lemma RecordedLast<K>(path: array<Node?<K>>, dir: array<Dir>, d: nat, fake: Node<K>, w: seq<NFrame<K>>)
    requires Recorded(path, dir, d, WithFake(fake, w))
    ensures d == |w| + 1 <= path.Length == dir.Length
    ensures w != [] ==>
      var y := w[..|w|-1];
      && path[d-1] != null && path[d-2] != null && EndsAt(w, path[d-1], dir[d-1])
      && EndsAt(WithFake(fake, y), path[d-2], dir[d-2]) && Recorded(path, dir, d - 1, WithFake(fake, y))
  {
    if w != [] {
      var z, z0 := WithFake(fake, w), WithFake(fake, w[..|w|-1]);
      assert z[d-1] == w[|w|-1] && z[d-2] == z0[|z0|-1];
      assert forall i :: 0 <= i < |z0| ==> z0[i] == z[i];
    }
  }

  /** Replacing the end of a path by a subtree with the same elements in order. */
  lemma PlugLast<T>(w: seq<Frame<T>>, h: Tree<T>, v: Tree<T>)
    requires w != [] && Inorder(v) == Inorder(Fill(w[|w|-1], h))
    ensures Inorder(Plug(w[..|w|-1], v)) == Inorder(Plug(w, h))
  {
    InorderPlug(w[..|w|-1], v);
    InorderPlug(w[..|w|-1], Fill(w[|w|-1], h));
  }

  lemma TreeUnderFake<K>(fake: Node<K>, y: seq<NFrame<K>>, n: Node?<K>, v: NTree<K>) returns (u: NTree<K>)
    requires PathShape(WithFake(fake, y), fake, n) && Shape(n, v)
    ensures u == Plug(y, v) && Shape(fake.left, u) && Elems(u) <= Elems(Plug(WithFake(fake, y), v))
  {
    u := Plug(y, v);
    PlugShape(WithFake(fake, y), fake, n, v);
    FakeTree(fake, y, v);
  }

  lemma FakeTree<K>(fake: Node<K>, y: seq<NFrame<K>>, v: NTree<K>)
    ensures Plug(WithFake(fake, y), v) == Bin(Plug(y, v), fake, 0, 0, Leaf)
  {
    PlugAppend([Frame(Left, fake, 0, 0, Leaf)], y, v);
    PlugOne(Frame(Left, fake, 0, 0, Leaf), Plug(y, v));
  }
}
