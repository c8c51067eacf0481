/** What kavl_insert does to the tree it works on, as values. */
module AvlInsertion {
  import opened Sequences
  import opened AvlTrees

  /** The tree of one new node. */
  function Single<T>(x: T): Tree<T> { Bin(Leaf, x, 0, 1, Leaf) }

  lemma SingleGood<T>(x: T)
    ensures Good(Single(x)) && Height(Single(x)) == 1 == Height<T>(Leaf) + 1 && Count(Single(x)) == Count<T>(Leaf) + 1
  {
  }

  /** The path z after a node was hung at its end: sizes grow everywhere, balances from frame k on. */
  function Grown<T>(z: seq<Frame<T>>, k: nat): seq<Frame<T>>
    requires k <= |z|
  {
    TiltRange(BumpRange(z, 0, |z|, 1), k, |z|)
  }

  /** k is the last frame that is not level, or 0. */
  ghost predicate LastSlopeAt<T>(z: seq<Frame<T>>, k: nat) {
    && k < |z| && (k > 0 ==> z[k].bal != 0) && forall i :: k < i < |z| ==> z[i].bal == 0
  }

  lemma {:induction false} PlugTop<T>(z: seq<Frame<T>>, t: Tree<T>)
    requires z != []
    ensures Plug(z, t).Bin? && Plug(z, t).bal == z[0].bal && Plug(z, t).elem == z[0].elem
    decreases |z|
  {
    if |z| > 1 {
      PlugTop(z[..|z|-1], Fill(z[|z|-1], t));
    }
  }

  lemma PlugCons<T>(z: seq<Frame<T>>, k: nat, t: Tree<T>)
    requires k < |z|
    ensures Plug(z, t) == Plug(z[..k], Fill(z[k], Plug(z[k+1..], t)))
  {
    PlugAppend(z[..k], z[k..], t);
    assert z == z[..k] + z[k..];
    PlugAppend([z[k]], z[k+1..], t);
    assert z[k..] == [z[k]] + z[k+1..];
  }

  /** The subtree at bp before and after: its lower part grew by one level and one node. */
  lemma GrowBelow<T>(z: seq<Frame<T>>, k: nat, x: T)
    requires LastSlopeAt(z, k) && Good(Plug(z, Leaf))
    ensures var w := Grown(z, k);
      var s, u := Plug(z[k+1..], Leaf), Plug(w[k+1..], Single(x));
      && Good(s) && Good(u) && Height(u) == Height(s) + 1 && Count(u) == Count(s) + 1
      && Good(Fill(z[k], s)) && GoodPath(z[..k], Height(Fill(z[k], s)), Count(Fill(z[k], s)))
      && Good(z[k].sib)
  {
    hide Plug, GoodPath, Count, Height, Good;
    var w := Grown(z, k);
    var s := Plug(z[k+1..], Leaf);
    PlugCons(z, k, Leaf);
    GoodPlug(z[..k], Fill(z[k], s));
    GoodParts(Fill(z[k], s), z[k].dir);
    SingleGood(x);
    GrowLevel(z[k+1..], w[k+1..], Leaf, Single(x));
  }

  /** What the first grown node looks like: t before, u after. */
  ghost predicate GrownNode<T>(t: Tree<T>, u: Tree<T>, below: Tree<T>)
    requires t.Bin? && u.Bin?
  {
    && (-2 < u.bal < 2 ==> Good(u))
    && (-2 < u.bal < 2 && t.bal != 0 ==> Height(u) == Height(t))
    && (!(-2 < u.bal < 2) ==>
          var d := if u.bal < 0 then Right else Left;
          Overweight(u, d) && Sub(u, d.Opp()) == below && Height(u) == Height(t) + 1 && Height(below) >= 2)
    && Count(u) == Count(t) + 1
  }

  lemma FillGrow<T>(f: Frame<T>, s: Tree<T>, below: Tree<T>)
    requires Good(Fill(f, s)) && Good(below) && Height(below) == Height(s) + 1 && Count(below) == Count(s) + 1
    ensures GrownNode(Fill(f, s), Fill(Tilt(Bump(f, 1)), below), below)
  {
  }

  /** After the balances were updated bp's subtree has right children, sizes and
      balance; only the range of bp's own balance is in doubt. */
  lemma GrownAtSlope<T>(z: seq<Frame<T>>, k: nat, x: T)
    requires LastSlopeAt(z, k) && Good(Plug(z, Leaf))
    ensures var w := Grown(z, k);
      var below := Plug(w[k+1..], Single(x));
      var t, u := Fill(z[k], Plug(z[k+1..], Leaf)), Fill(w[k], below);
      && Plug(w[k..], Single(x)) == u && GrownNode(t, u, below) && GoodPath(w[..k], Height(t), Count(t) + 1)
      && (below.Bin? && Height(below) >= 2 ==> below.bal != 0)
  {
    hide Plug, GoodPath, Count, Height, Good, GrownNode;
    var w := Grown(z, k);
    var s, below := Plug(z[k+1..], Leaf), Plug(w[k+1..], Single(x));
    GrowBelow(z, k, x);
    FillGrow(z[k], s, below);
    PlugCons(w[k..], 0, Single(x));
    assert w[k..][..0] == [] && w[k..][0] == w[k] && w[k..][0+1..] == w[k+1..];
    PlugNil(Fill(w[k], below));
    BumpPath(z[..k], 1, Height(Fill(z[k], s)), Count(Fill(z[k], s)));
    assert BumpAll(z[..k], 1) == w[..k];
    if w[k+1..] == [] {
      PlugNil(Single(x));
      SingleGood(x);
    } else {
      PlugTop(w[k+1..], Single(x));
    }
  }

  lemma ApartNew<T>(z: seq<Frame<T>>, x: T)
    requires Distinct(Plug(z, Leaf)) && x !in Elems(Plug(z, Leaf))
    ensures Apart(z, Single(x))
  {
    DistinctPlug(z, Leaf);
    PathInPlug(z, Leaf);
    assert Elems(Single(x)) == {x};
  }

  lemma GrownSameWay<T>(z: seq<Frame<T>>, k: nat)
    requires k <= |z|
    ensures SameWay(z, Grown(z, k)) && SameWay(z, BumpRange(z, 0, |z|, 1))
  {
  }

  /** The tree that results when the first grown node v replaced u at its place. */
  lemma GrownTree<T>(z: seq<Frame<T>>, k: nat, x: T, v: Tree<T>)
    requires LastSlopeAt(z, k) && Good(Plug(z, Leaf))
    requires var w := Grown(z, k);
      var u, t := Plug(w[k..], Single(x)), Fill(z[k], Plug(z[k+1..], Leaf));
      Inorder(v) == Inorder(u) && Good(v) && Count(v) == Count(u) && (Height(v) == Height(t) || k == 0)
    ensures Good(Plug(Grown(z, k)[..k], v))
    ensures Inorder(Plug(Grown(z, k)[..k], v)) == Pre(z) + [x] + Post(z)
  {
    hide Plug, GoodPath, Count, Height, Good, Pre, Post;
    var w := Grown(z, k);
    var u := Plug(w[k..], Single(x));
    GrownAtSlope(z, k, x);
    GoodEmptyPath<T>(Height(v), Count(v));
    if k == 0 { assert w[..k] == []; }
    CountOfGrown(z, k, x);
    GoodPlug(w[..k], v);
    InorderPlug(w[..k], v);
    InorderPlug(w[..k], u);
    assert w == w[..k] + w[k..];
    PlugAppend(w[..k], w[k..], Single(x));
    InorderPlug(w, Single(x));
    assert Inorder(Single(x)) == [x];
    GrownSameWay(z, k);
    SameSides(z, w);
  }

  lemma GoodEmptyPath<T>(h: int, n: int)
    ensures GoodPath<T>([], h, n)
  {
  }

  lemma CountOfGrown<T>(z: seq<Frame<T>>, k: nat, x: T)
    requires LastSlopeAt(z, k) && Good(Plug(z, Leaf))
    ensures Count(Plug(Grown(z, k)[k..], Single(x))) == Count(Fill(z[k], Plug(z[k+1..], Leaf))) + 1
  {
    GrownAtSlope(z, k, x);
  }

  /** No re-balancing needed: the grown path is the new tree. */
  lemma LevelTree<T>(z: seq<Frame<T>>, k: nat, x: T)
    requires LastSlopeAt(z, k) && Good(Plug(z, Leaf)) && -2 < Grown(z, k)[k].bal < 2
    ensures Good(Plug(Grown(z, k), Single(x))) && Inorder(Plug(Grown(z, k), Single(x))) == Pre(z) + [x] + Post(z)
  {
    hide Plug, GoodPath, Count, Height, Good, Pre, Post;
    var w := Grown(z, k);
    GrownAtSlope(z, k, x);
    GrownTree(z, k, x, Plug(w[k..], Single(x)));
    assert w == w[..k] + w[k..];
    PlugAppend(w[..k], w[k..], Single(x));
  }

  /** Re-balancing needed: bp is overweight, and mending it gives the new tree. */
  lemma SteepTree<T>(z: seq<Frame<T>>, k: nat, x: T)
    requires LastSlopeAt(z, k) && Good(Plug(z, Leaf)) && !(-2 < Grown(z, k)[k].bal < 2)
    ensures var u := Plug(Grown(z, k)[k..], Single(x));
      && u.Bin? && u.bal == Grown(z, k)[k].bal
      && var d := if u.bal < 0 then Right else Left;
      Overweight(u, d) && Sub(u, d.Opp()).Bin? && Sub(u, d.Opp()).bal != 0
      && Height(u) == Height(Fill(z[k], Plug(z[k+1..], Leaf))) + 1
  {
    hide Plug, GoodPath, Count, Good;
    GrownAtSlope(z, k, x);
  }

  /** The grown tree has one element more. */
  lemma GrownDistinct<T>(z: seq<Frame<T>>, k: nat, x: T)
    requires k <= |z| && Distinct(Plug(z, Leaf)) && x !in Elems(Plug(z, Leaf))
    ensures var t := Plug(Grown(z, k), Single(x)); Distinct(t) && Elems(t) == Elems(Plug(z, Leaf)) + {x}
  {
    hide Plug, Distinct, Elems, Pre, Post, NoDup;
    var t, o, w := Plug(Grown(z, k), Single(x)), Plug(z, Leaf), Grown(z, k);
    GrownSameWay(z, k);
    SameSides(z, w);
    InorderPlug(w, Single(x));
    InorderPlug(z, Leaf);
    DistinctInorder(t);
    DistinctInorder(o);
    ElemsInorder(o, x);
    assert Inorder(t) == Pre(z) + [x] + Post(z) && Inorder(o) == Pre(z) + Post(z);
    NoDupInsert(Pre(z), x, Post(z));
    forall y | y in Elems(t) ensures y in Elems(o) + {x} {
      ElemsInorder(t, y);
      ElemsInorder(o, y);
    }
    forall y | y in Elems(o) + {x} ensures y in Elems(t) {
      ElemsInorder(t, y);
      ElemsInorder(o, y);
    }
  }
}
