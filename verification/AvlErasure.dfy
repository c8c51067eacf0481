/** What kavl_erase does to the tree it works on, as values. */
module AvlErasure {
  import opened Sequences
  import opened AvlTrees

  /** All frames continue to the left. */
  ghost predicate Leftward<T>(e: seq<Frame<T>>) {
    forall i :: 0 <= i < |e| ==> e[i].dir == Left
  }

  lemma {:induction false} LeftwardPre<T>(e: seq<Frame<T>>)
    requires Leftward(e)
    ensures Pre(e) == []
    decreases |e|
  {
    if e != [] {
      LeftwardPre(e[..|e|-1]);
    }
  }

  /** The path after the node of t was replaced by the leftmost node m of its right
      subtree, which is reached over e and has the right subtree mr. */
  function Replaced<T>(y: seq<Frame<T>>, t: Tree<T>, e: seq<Frame<T>>, m: T): seq<Frame<T>>
    requires t.Bin?
  {
    BumpAll(y, -1) + [Frame(Right, m, t.bal, t.size - 1, t.left)] + BumpAll(e, -1)
  }

  /** Unlinking a node without right subtree: its left subtree takes its place, one level lower. */
  lemma UnlinkSimple<T>(y: seq<Frame<T>>, t: Tree<T>)
    requires t.Bin? && t.right == Leaf && Good(Plug(y, t))
    ensures Good(t.left) && GoodPath(BumpAll(y, -1), Height(t.left) + 1, Count(t.left))
    ensures Inorder(Plug(BumpAll(y, -1), t.left)) == Pre(y) + Inorder(t.left) + Inorder(t.right) + Post(y)
  {
    hide Plug, GoodPath, Pre, Post;
    GoodPlug(y, t);
    BumpPath(y, -1, Height(t), Count(t));
    SameSides(y, BumpAll(y, -1));
    InorderPlug(BumpAll(y, -1), t.left);
  }

  /** Unlinking any other node: its successor m takes its place and leaves a gap, one
      level lower, where m's right subtree mr now hangs. */
  lemma UnlinkSuccessor<T>(y: seq<Frame<T>>, t: Tree<T>, e: seq<Frame<T>>, mt: Tree<T>)
    requires t.Bin? && Good(Plug(y, t)) && mt.Bin? && mt.left == Leaf && Leftward(e) && t.right == Plug(e, mt)
    ensures Good(mt.right)
    ensures GoodPath(Replaced(y, t, e, mt.elem), Height(mt.right) + 1, Count(mt.right))
    ensures Inorder(Plug(Replaced(y, t, e, mt.elem), mt.right)) == Pre(y) + Inorder(t.left) + Inorder(t.right) + Post(y)
  {
    hide Plug, Pre, Post;
    var w := Replaced(y, t, e, mt.elem);
    var f := Frame(Right, mt.elem, t.bal, t.size - 1, t.left);
    UnlinkMeasures(y, t, e, mt);
    UnlinkOrder(y, t, e, mt);
  }

  lemma UnlinkOrder<T>(y: seq<Frame<T>>, t: Tree<T>, e: seq<Frame<T>>, mt: Tree<T>)
    requires t.Bin? && mt.Bin? && mt.left == Leaf && Leftward(e) && t.right == Plug(e, mt)
    ensures Inorder(Plug(Replaced(y, t, e, mt.elem), mt.right)) == Pre(y) + Inorder(t.left) + Inorder(t.right) + Post(y)
  {
    hide Plug, Pre, Post, BumpAll, Inorder, Leftward;
    var f := Frame(Right, mt.elem, t.bal, t.size - 1, t.left);
    var a, b := BumpAll(y, -1), BumpAll(e, -1);
    var low := Plug(b, mt.right);
    PlugAppend(a + [f], b, mt.right);
    PlugAppend(a, [f], low);
    PlugOne(f, low);
    InorderPlug(a, Fill(f, low));
    InorderFill(f, low);
    BumpSides(y);
    var l, o := Inorder(t.left), Inorder(low);
    assert Inorder(t.right) == [mt.elem] + o by {
      InorderPlug(b, mt.right);
      InorderPlug(e, mt);
      BumpSides(e);
      LeftwardPre(e);
      InorderNoLeft(mt);
    }
    assert l + [mt.elem] + o == l + ([mt.elem] + o);
    Assoc(Pre(y), l, Inorder(t.right), Post(y));
  }

  lemma Assoc<T>(p: seq<T>, l: seq<T>, r: seq<T>, q: seq<T>)
    ensures p + (l + r) + q == p + l + r + q
  {
  }

  lemma BumpSides<T>(z: seq<Frame<T>>)
    ensures Pre(BumpAll(z, -1)) == Pre(z) && Post(BumpAll(z, -1)) == Post(z)
  {
    SameSides(z, BumpAll(z, -1));
  }

  lemma InorderFill<T>(f: Frame<T>, t: Tree<T>)
    requires f.dir == Right
    ensures Inorder(Fill(f, t)) == Inorder(f.sib) + [f.elem] + Inorder(t)
  {
  }

  lemma InorderNoLeft<T>(t: Tree<T>)
    requires t.Bin? && t.left == Leaf
    ensures Inorder(t) == [t.elem] + Inorder(t.right)
  {
  }

  lemma PlugOne<T>(f: Frame<T>, t: Tree<T>)
    ensures Plug([f], t) == Fill(f, t)
  {
    assert [f][..0] == [];
  }

  lemma UnlinkMeasures<T>(y: seq<Frame<T>>, t: Tree<T>, e: seq<Frame<T>>, mt: Tree<T>)
    requires t.Bin? && Good(Plug(y, t)) && mt.Bin? && mt.left == Leaf && t.right == Plug(e, mt)
    ensures Good(mt.right)
    ensures GoodPath(Replaced(y, t, e, mt.elem), Height(mt.right) + 1, Count(mt.right))
  {
    hide Plug, BumpAll, PathHeight, PathCount, Good, GoodPath, Height, Count;
    var f := Frame(Right, mt.elem, t.bal, t.size - 1, t.left);
    var a, b := BumpAll(y, -1), BumpAll(e, -1);
    var h, n := Height(mt.right) + 1, Count(mt.right);
    GoodPlug(y, t);
    GoodParts(t, Left);
    GoodPlug(e, mt);
    NoLeftMeasures(mt);
    PathMeasures(e, mt);
    BumpPath(e, -1, h, n + 1);
    BumpPath(y, -1, Height(t), Count(t));
    PathHeightShift(e, b, h);
    PathCountShift(e, b, n + 1, -1);
    PathOne(a, f, Height(t.right), Count(t.right) - 1);
    GoodPathConcat(a + [f], b, h, n);
  }

  lemma NoLeftMeasures<T>(t: Tree<T>)
    requires t.Bin? && t.left == Leaf && Good(t)
    ensures Good(t.right) && Height(t) == Height(t.right) + 1 && Count(t) == Count(t.right) + 1
  {
  }

  lemma PathOne<T>(a: seq<Frame<T>>, f: Frame<T>, h: int, n: int)
    requires Good(f.sib) && f.bal == f.dir.Lean(h, Height(f.sib)) && -1 <= f.bal <= 1 && f.size == n + 1 + Count(f.sib)
    requires GoodPath(a, 1 + Max(h, Height(f.sib)), f.size)
    ensures GoodPath(a + [f], h, n)
  {
    assert (a + [f])[..|a|] == a;
  }

  /** Whatever order the sizes are mended in, the nodes on the new path stay different. */
  lemma ReplacedDistinct<T>(z: seq<Frame<T>>, t: Tree<T>, e: seq<Frame<T>>, mt: Tree<T>, w: seq<Frame<T>>)
    requires t.Bin? && mt.Bin? && mt.left == Leaf && Leftward(e) && t.right == Plug(e, mt)
    requires Distinct(Plug(z, t)) && SameWay(Replaced(z, t, e, mt.elem), w)
    ensures Distinct(Plug(w, mt.right)) && Apart(w, mt.right)
    ensures Inorder(Plug(w, mt.right)) == Pre(z) + Inorder(t.left) + Inorder(t.right) + Post(z)
    ensures Elems(Plug(w, mt.right)) <= Elems(Plug(z, t))
  {
    hide Plug, Pre, Post, Distinct, Leftward, Apart, NoDup, Elems, SameWay;
    var v := Replaced(z, t, e, mt.elem);
    UnlinkOrder(z, t, e, mt);
    SameSides(v, w);
    InorderPlug(v, mt.right);
    InorderPlug(w, mt.right);
    InorderPlug(z, t);
    DropOne(Pre(z), Inorder(t.left), t.elem, Inorder(t.right), Post(z), Inorder(Plug(z, t)),
      Inorder(Plug(w, mt.right)));
    DistinctInorder(Plug(z, t));
    DistinctInorder(Plug(w, mt.right));
    DistinctPlug(w, mt.right);
    FewerElems(Plug(w, mt.right), Plug(z, t));
  }

  lemma DropOne<T>(p: seq<T>, l: seq<T>, x: T, r: seq<T>, q: seq<T>, s: seq<T>, t: seq<T>)
    requires s == p + (l + [x] + r) + q && t == p + l + r + q
    ensures NoDup(s) ==> NoDup(t)
    ensures forall y :: y in t ==> y in s
  {
    assert s == (p + l) + [x] + (r + q) && t == (p + l) + (r + q);
    if NoDup(s) {
      NoDupDrop(p + l, x, r + q);
    }
  }

  lemma FewerElems<T>(u: Tree<T>, t: Tree<T>)
    requires forall y :: y in Inorder(u) ==> y in Inorder(t)
    ensures Elems(u) <= Elems(t)
  {
    forall y | y in Elems(u) ensures y in Elems(t) {
      ElemsInorder(u, y);
      ElemsInorder(t, y);
    }
  }

  /** The node above a gap after its balance was corrected by one towards the other side. */
  ghost predicate ShrunkNode<T>(f: Frame<T>, h: Tree<T>, u: Tree<T>)
    requires u.Bin?
  {
    var was := 1 + Max(Height(h) + 1, Height(f.sib));
    && Count(u) == f.size
    && (u.bal == f.dir.B1() ==> Good(u) && Height(u) == was)
    && (u.bal == 2 * f.dir.B1() ==> Overweight(u, f.dir) && Height(u) == was)
    && (u.bal != f.dir.B1() && u.bal != 2 * f.dir.B1() ==> Good(u) && Height(u) + 1 == was)
  }

  lemma ShrinkNode<T>(f: Frame<T>, h: Tree<T>)
    requires Good(h) && Good(f.sib) && f.bal == f.dir.Lean(Height(h) + 1, Height(f.sib)) && -1 <= f.bal <= 1
    requires f.size == Count(h) + 1 + Count(f.sib)
    ensures ShrunkNode(f, h, Fill(f.(bal := f.bal + f.dir.B1()), h))
  {
  }

  /** The last frame of a path above a gap. */
  lemma GapFrame<T>(y: seq<Frame<T>>, h: Tree<T>)
    requires y != [] && Good(h) && GoodPath(y, Height(h) + 1, Count(h))
    ensures var f := y[|y|-1];
      && ShrunkNode(f, h, Fill(f.(bal := f.bal + f.dir.B1()), h))
      && GoodPath(y[..|y|-1], 1 + Max(Height(h) + 1, Height(f.sib)), f.size)
      && -1 <= f.bal <= 1
  {
    hide Good, Height, Count, Overweight, ShrunkNode;
    ShrinkNode(y[|y|-1], h);
  }
}
