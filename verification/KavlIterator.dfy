/** The iterator of kavl.h: a stack of the nodes on the path to the current one. */
module KavlIterator {
  import opened Sequences
  import opened AvlTrees
  import opened KavlNodes
  import opened Kavl

  /** What lies before the node at the end of the path, or behind it, in order. */
  ghost function Visited<K>(d: Dir, z: seq<NFrame<K>>, t: NTree<K>): seq<Node<K>>
    requires t.Bin?
  {
    if d.Right? then Pre(z) + Inorder(t.left) else Inorder(t.right) + Post(z)
  }

  /** The same including the node itself. */
  ghost function Passed<K>(d: Dir, z: seq<NFrame<K>>, t: NTree<K>): seq<Node<K>>
    requires t.Bin?
  {
    if d.Right? then Visited(d, z, t) + [t.elem] else [t.elem] + Visited(d, z, t)
  }

  ghost function Side<K>(d: Dir, z: seq<NFrame<K>>): seq<Node<K>> {
    if d.Right? then Pre(z) else Post(z)
  }

  /** What a subtree u at the end of the path and the path leave behind in direction d. */
  ghost function Gone<K>(d: Dir, z: seq<NFrame<K>>, u: NTree<K>): seq<Node<K>> {
    if d.Right? then Pre(z) + Inorder(u) else Inorder(u) + Post(z)
  }

  lemma WholeOrder<K>(z: seq<NFrame<K>>, t: NTree<K>)
    requires t.Bin?
    ensures Inorder(Plug(z, t)) == Visited(Right, z, t) + [t.elem] + Visited(Left, z, t)
  {
    InorderPlug(z, t);
    Regroup(Pre(z), Inorder(t.left), [t.elem], Inorder(t.right), Post(z));
  }

  /** Going to the child on side d passes the node. */
  lemma EnterChild<K>(d: Dir, z: seq<NFrame<K>>, t: NTree<K>)
    requires t.Bin?
    ensures var f := Frame(d, t.elem, t.bal, t.size, Sub(t, d.Opp())); Side(d, z + [f]) == Passed(d, z, t)
  {
    var f := Frame(d, t.elem, t.bal, t.size, Sub(t, d.Opp()));
    if d.Right? {
      SidesAfterRight(z, t, f);
    } else {
      SidesAfterLeft(z, t, f);
      Regroup([], [t.elem], Inorder(t.right), Post(z), []);
    }
  }

  lemma SideKept<K>(d: Dir, z: seq<NFrame<K>>, f: NFrame<K>)
    requires f.dir == d.Opp()
    ensures Side(d, z + [f]) == Side(d, z)
  {
    assert (z + [f])[..|z|] == z;
    assert Side(d, z) + [] == Side(d, z) == [] + Side(d, z);
  }

  /** At the end of a descent nothing is left on that side below the node. */
  lemma DescentEnds<K>(d: Dir, y: seq<NFrame<K>>, t: NTree<K>, z: seq<NFrame<K>>)
    requires z != [] && z[|z|-1].dir == d.Opp() && y == z[..|z|-1] && t == Fill(z[|z|-1], Leaf)
    ensures Visited(d, y, t) == Side(d, z)
  {
    var f := z[|z|-1];
    assert z == y + [f];
    SideKept(d, y, f);
    assert Side(d, y) + [] == Side(d, y) == [] + Side(d, y);
  }

  /** A node without a child on side d is passed together with its subtree. */
  lemma NoChild<K>(d: Dir, z: seq<NFrame<K>>, t: NTree<K>)
    requires t.Bin? && Sub(t, d) == Leaf
    ensures Gone(d, z, t) == Passed(d, z, t)
  {
    if d.Right? {
      assert Inorder(t) == Inorder(t.left) + [t.elem];
      assert Pre(z) + (Inorder(t.left) + [t.elem]) == Pre(z) + Inorder(t.left) + [t.elem];
    } else {
      assert Inorder(t) == [t.elem] + Inorder(t.right);
      assert [t.elem] + Inorder(t.right) + Post(z) == [t.elem] + (Inorder(t.right) + Post(z));
    }
  }

  /** One step up: from side d nothing new is reached, from the other side the parent is. */
  lemma StepUpOrder<K>(d: Dir, y: seq<NFrame<K>>, f: NFrame<K>, u: NTree<K>)
    ensures f.dir == d ==> Gone(d, y + [f], u) == Gone(d, y, Fill(f, u))
    ensures f.dir != d ==> Gone(d, y + [f], u) == Visited(d, y, Fill(f, u))
  {
    assert (y + [f])[..|y|] == y;
    var a, b, c, e := Pre(y), Inorder(f.sib), Inorder(u), Post(y);
    assert (a + (b + [f.elem])) + c == a + (b + [f.elem] + c);
    assert c + (([f.elem] + b) + e) == (c + [f.elem] + b) + e;
    assert a + [] == a && [] + e == e;
  }

  /** One step up on the heap. */
  lemma StepUp<K>(w: seq<NFrame<K>>, root: Node?<K>, p: Node?<K>, u: NTree<K>)
    requires w != [] && PathShape(w, root, p) && Shape(p, u)
    ensures var y, f := w[..|w|-1], w[|w|-1];
      && w == y + [f] && Plug(y, Fill(f, u)) == Plug(w, u) && PathShape(y, root, f.elem) && Shape(f.elem, Fill(f, u))
      && f.elem.Child(f.dir) == p && Fill(f, u).elem == f.elem
  {
    var n := |w| - 1;
    PathPrefix(w, n, root, p);
    assert FrameShape(w[n], After(w, n, p));
  }

  /** The parent's child on side d is p exactly if p hangs on side d. */
  lemma ChildSide<K>(f: NFrame<K>, u: NTree<K>, p: Node<K>, d: Dir)
    requires Shape(f.elem, Fill(f, u)) && Distinct(Fill(f, u)) && f.elem.Child(f.dir) == p && Shape(p, u)
    ensures f.elem.Child(d) == p <==> f.dir == d
  {
    if f.dir != d {
      assert d == f.dir.Opp();
      assert Shape(f.elem.Child(d), f.sib);
      assert f.sib.Bin? ==> f.elem.Child(d) == f.sib.elem && f.sib.elem in Elems(f.sib);
      assert p in Elems(u);
    }
  }

  class Iterator<K(!new)> {
    const stack: array<Node?<K>>
    /** The number of nodes on the stack: 0 when the iterator is past an end. */
    var n: nat
    ghost var path: seq<NFrame<K>>
    ghost var sub: NTree<K>

    /** The stack holds the path to the root of sub, which is the current node. */
    ghost predicate On(k: Kavl<K>)
      reads this, stack, k, PathElems(path), Elems(sub)
    {
      && stack.Length == KAVL_MAX_DEPTH && sub.Bin? && Plug(path, sub) == k.tree
      && PathShape(path, k.root, sub.elem) && Shape(sub.elem, sub)
      && n == |path| + 1 <= stack.Length && OnPath(stack, |path|, path) && stack[n-1] == sub.elem
    }

    /** The rank of the current node, counted from 0. */
    ghost function Rank(): nat
      requires sub.Bin?
      reads this
    {
      |Visited(Right, path, sub)|
    }

    constructor ()
      ensures fresh(stack) && stack.Length == KAVL_MAX_DEPTH && n == 0
    {
      stack := new Node?<K>[KAVL_MAX_DEPTH](_ => null);
      n, path, sub := 0, [], Leaf;
    }

    /** kavl_at. */
    method At(k: Kavl<K>) returns (p: Node?<K>)
      requires k.Valid() && (n > 0 ==> On(k))
      ensures p == null <==> n == 0
      ensures n > 0 ==> Rank() < |k.Contents()| && p == k.Contents()[Rank()]
    {
      if n == 0 {
        return null;
      }
      p := stack[n-1];
      WholeOrder(path, sub);
    }

    method Push(p: Node<K>, ghost z: seq<NFrame<K>>, ghost f: NFrame<K>)
      requires OnPath(stack, n, z) && n < stack.Length && f.elem == p
      modifies stack, this`n
      ensures OnPath(stack, n, z + [f])
    {
      stack[n] := p;
      n := n + 1;
    }

    /** Pushes p and the nodes below it on side d, to the last of them. */
    method Descend(k: Kavl<K>, p0: Node<K>, d: Dir, ghost z0: seq<NFrame<K>>, ghost t0: NTree<K>)
      requires k.Valid() && stack.Length == KAVL_MAX_DEPTH
      requires Plug(z0, t0) == k.tree && PathShape(z0, k.root, p0) && Shape(p0, t0) && OnPath(stack, n, z0)
      modifies stack, this`n, this`path, this`sub
      ensures k.Valid() && On(k) && n > 0 && Visited(d.Opp(), path, sub) == Side(d.Opp(), z0)
    {
      hide Plug, PathShape, Shape, Visited, Side, Good, Distinct, Height, Count, Inorder, Sorted;
      DepthFits(k.tree);
      assert allocated(Elems(k.tree));
      hide Kavl<K>.Valid;
      var p: Node?<K> := p0;
      ghost var z, t := z0, t0;
      while p != null
        invariant Plug(z, t) == k.tree && PathShape(z, k.root, p) && Shape(p, t) && OnPath(stack, n, z)
        invariant Side(d.Opp(), z) == Side(d.Opp(), z0)
        invariant p == null ==> z != [] && z[|z|-1].dir == d
        invariant k.Valid()
        decreases t
      {
        StepDown(z, k.root, p, t, d);
        PathDepth(z, t);
        ghost var f := Frame(d, p, t.bal, t.size, Sub(t, d.Opp()));
        SideKept(d.Opp(), z, f);
        assert allocated(Elems(t)) && allocated(PathElems(z + [f])) && allocated(Elems(Sub(t, d)));
        Push(p, z, f);
        p := p.Child(d);
        z, t := z + [f], Sub(t, d);
      }
      ShapeNull(t);
      assert allocated(PathElems(z));
      Settle(k, z, null, Leaf);
      DescentEnds(d.Opp(), path, sub, z);
    }

    /** The last node on the stack becomes the current one. */
    ghost method Settle(k: Kavl<K>, z: seq<NFrame<K>>, p: Node?<K>, u: NTree<K>)
      requires z != [] && Plug(z, u) == k.tree && PathShape(z, k.root, p) && Shape(p, u)
      requires stack.Length == KAVL_MAX_DEPTH && OnPath(stack, n, z)
      modifies this`path, this`sub
      ensures On(k) && n == |z| && path == z[..|z|-1] && sub == Fill(z[|z|-1], u)
    {
      StepUp(z, k.root, p, u);
      assert allocated(PathElems(z[..|z|-1])) && allocated(Elems(Fill(z[|z|-1], u)));
      assert (this as object) !in PathElems(z[..|z|-1]) && (this as object) !in Elems(Fill(z[|z|-1], u));
      hide Plug, PathShape, Shape, Elems, PathElems;
      path, sub := z[..|z|-1], Fill(z[|z|-1], u);
    }

    /** kavl_itr_first: the first node in order. */
    method First(k: Kavl<K>)
      requires k.Valid() && stack.Length == KAVL_MAX_DEPTH
      modifies stack, this`n, this`path, this`sub
      ensures k.Valid() && k.Contents() == old(k.Contents())
      ensures n == 0 <==> k.Contents() == []
      ensures n > 0 ==> On(k) && Rank() == 0
    {
      assert allocated(Elems(k.tree));
      InorderLeaf<Node<K>>();
      n := 0;
      if k.root != null {
        EmptyPathShape(k.root);
        Descend(k, k.root, Left, [], k.tree);
        WholeOrder(path, sub);
      }
    }

    /** The upward part of kavl_itr_next_bidir: leaves the nodes whose child on side d was just left. */
    method Climb(k: Kavl<K>, d: Dir)
      requires k.Valid() && n > 0 && On(k) && Sub(sub, d) == Leaf
      modifies this`n, this`path, this`sub
      ensures k.Valid() && k.Contents() == old(k.Contents())
      ensures n > 0 ==> On(k) && Visited(d, path, sub) == Passed(d, old(path), old(sub))
      ensures n == 0 ==> k.Contents() == Passed(d, old(path), old(sub))
    {
      hide Kavl<K>.Valid, Plug, PathShape, Shape, Gone, Passed, Visited, Distinct, Elems, PathElems;
      NoChild(d, path, sub);
      ghost var passed, z, u := Passed(d, path, sub), path, sub;
      var p, top := stack[n-1], n - 1;
      while top > 0 && p == stack[top-1].Child(d)
        invariant k.Valid() && p != null && top == |z| && OnPath(stack, top, z)
        invariant Plug(z, u) == k.tree && PathShape(z, k.root, p) && Shape(p, u) && Gone(d, z, u) == passed
        decreases top
      {
        ClimbStep(k, d, z, u, p);
        p := stack[top-1];
        top := top - 1;
        z, u := z[..|z|-1], Fill(z[|z|-1], u);
      }
      if top > 0 {
        ClimbStep(k, d, z, u, p);
        Stop(k, z, p, u, top);
      } else {
        TopOfPath(d, z, u);
        Leave(k);
      }
    }

    /** Leaves the iterator at the last of the first top nodes on the stack. */
    method Stop(k: Kavl<K>, ghost z: seq<NFrame<K>>, ghost p: Node<K>, ghost u: NTree<K>, top: nat)
      requires k.Valid() && z != [] && Plug(z, u) == k.tree && PathShape(z, k.root, p) && Shape(p, u)
      requires stack.Length == KAVL_MAX_DEPTH && OnPath(stack, top, z)
      modifies this`n, this`path, this`sub
      ensures k.Valid() && k.Contents() == old(k.Contents())
      ensures On(k) && n == top && path == z[..|z|-1] && sub == Fill(z[|z|-1], u)
    {
      assert allocated(Elems(k.tree)) && allocated(PathElems(z)) && allocated(Elems(u));
      assert (this as object) !in PathElems(z) && (this as object) !in Elems(u);
      hide Kavl<K>.Valid, Plug, PathShape, Shape, Elems, PathElems;
      n := top;
      Settle(k, z, p, u);
    }

    /** kavl_itr_find: stops at the node equal to key or, if there is none, at one of the two between which key
        belongs; cnt counts the nodes before key. It is the next greater node exactly if that one has no left
        child, and never past the end. */
    method Find(k: Kavl<K>, key: K) returns (found: bool, ghost cnt: int)
      requires k.Valid() && stack.Length == KAVL_MAX_DEPTH && Fits(k.cmp, key, k.Contents())
      modifies stack, this`n, this`path, this`sub
      ensures k.Valid() && k.Contents() == old(k.Contents())
      ensures n == 0 <==> k.Contents() == []
      ensures n > 0 ==> On(k) && Rank() < |k.Contents()|
      ensures found ==> n > 0 && k.cmp(key, k.Contents()[Rank()].key) == 0
      ensures !found ==> SplitsAt(k.cmp, key, k.Contents(), cnt) && (n > 0 ==> Rank() == cnt || Rank() == cnt - 1)
      ensures !found && n > 0 ==> (Rank() == cnt <==> cnt < |k.Contents()| && k.Contents()[cnt].left == null)
    {
      hide On, Kavl<K>.Valid, Fits, Between, Plug, PathShape, Shape, Visited, Good, Pre, SplitsAt, Inorder;
      var p; ghost var z, t, d;
      found, p, z, t, d := Search(k, key);
      cnt := |Pre(z)|;
      if found {
        StopHere(k, z, t, p, d);
      } else if n > 0 {
        StopBelow(k, z);
      }
    }

    /** The loop of kavl_itr_find: pushes the nodes on the way to key. */
    method Search(k: Kavl<K>, key: K)
      returns (found: bool, p: Node?<K>, ghost z: seq<NFrame<K>>, ghost t: NTree<K>, ghost d: Dir)
      requires k.Valid() && stack.Length == KAVL_MAX_DEPTH && Fits(k.cmp, key, k.Contents())
      modifies stack, this`n
      ensures k.Valid() && k.Contents() == old(k.Contents())
      ensures found ==>
        && p != null && t.Bin? && t.elem == p && k.cmp(key, p.key) == 0
        && Plug(z, t) == k.tree && PathShape(z, k.root, p) && Shape(p, t)
        && OnPath(stack, n, z + [Frame(d, p, t.bal, t.size, Sub(t, d.Opp()))])
      ensures !found ==> SplitsAt(k.cmp, key, k.Contents(), |Pre(z)|)
      ensures !found && z == [] ==> n == 0 && k.Contents() == []
      ensures !found && z != [] ==>
        n > 0 && k.Contents() != [] && Plug(z, Leaf) == k.tree && PathShape(z, k.root, null) && OnPath(stack, n, z)
    {
      EmptyPath(k.cmp, key, k.root, k.tree);
      GoodTree(k);
      hide Kavl<K>.Valid, Fits, Between, Plug, PathShape, Shape, Good, Pre, SplitsAt, Inorder, Elems, PathElems;
      assert allocated(k.tree);
      n := 0;
      p := k.root;
      z, t, d := [], k.tree, Left;
      found := false;
      while p != null
        invariant k.Valid() && OnPath(stack, n, z) && (z == [] ==> t == k.tree)
        invariant Plug(z, t) == k.tree && PathShape(z, k.root, p) && Shape(p, t) && Good(t)
        invariant Between(k.cmp, key, z)
        decreases t
      {
        var c, dir := Visit(k, key, p, z, t);
        d := dir;
        if c == 0 {
          found := true;
          return;
        }
        z, t, p := z + [Frame(dir, p, t.bal, t.size, Sub(t, dir.Opp()))], Sub(t, dir), p.Child(dir);
      }
      ShapeNull(t);
      EndOfSearch(k.cmp, key, z);
      Emptiness(z);
    }

    /** One round of the search: pushes p and compares. */
    method Visit(k: Kavl<K>, key: K, p: Node<K>, ghost z: seq<NFrame<K>>, ghost t: NTree<K>) returns (c: int, d: Dir)
      requires k.Valid() && stack.Length == KAVL_MAX_DEPTH && Fits(k.cmp, key, k.Contents())
      requires OnPath(stack, n, z) && Plug(z, t) == k.tree && PathShape(z, k.root, p) && Shape(p, t) && Good(t)
      requires Between(k.cmp, key, z)
      modifies stack, this`n
      ensures k.Valid() && c == k.cmp(key, p.key) && d == Along(c) && t.Bin? && t.elem == p
      ensures PathShape(z, k.root, p) && Shape(p, t)
      ensures var w := z + [Frame(d, p, t.bal, t.size, Sub(t, d.Opp()))];
        && OnPath(stack, n, w) && Plug(w, Sub(t, d)) == k.tree
        && PathShape(w, k.root, p.Child(d)) && Shape(p.Child(d), Sub(t, d))
        && (c != 0 ==> Good(Sub(t, d)) && Between(k.cmp, key, w))
    {
      assert allocated(Elems(k.tree));
      c := k.cmp(key, p.key);
      d := Along(c);
      VisitStep(k, key, p, z, t, c);
      hide Kavl<K>.Valid, Fits, Between, Plug, PathShape, Shape, Good, Inorder;
      ghost var w, u := z + [Frame(d, p, t.bal, t.size, Sub(t, d.Opp()))], Sub(t, d);
      assert allocated(Elems(t)) && allocated(PathElems(z)) && allocated(PathElems(w)) && allocated(Elems(u));
      hide Elems, PathElems;
      Push(p, z, w[|z|]);
    }

    /** The node p that was pushed last becomes the current one. */
    ghost method StopHere(k: Kavl<K>, z: seq<NFrame<K>>, t: NTree<K>, p: Node<K>, d: Dir)
      requires k.Valid() && stack.Length == KAVL_MAX_DEPTH
      requires Plug(z, t) == k.tree && PathShape(z, k.root, p) && Shape(p, t) && t.Bin? && t.elem == p
      requires OnPath(stack, n, z + [Frame(d, p, t.bal, t.size, Sub(t, d.Opp()))])
      modifies this`path, this`sub
      ensures k.Valid() && k.Contents() == old(k.Contents())
      ensures n > 0 && On(k) && Rank() < |k.Contents()| && k.Contents()[Rank()] == p
    {
      assert allocated(Elems(k.tree));
      hide Plug, PathShape, Shape, Good, Distinct, Sorted, Visited;
      StepDown(z, k.root, p, t, d);
      MkSub(t, d);
      var f := Frame(d, p, t.bal, t.size, Sub(t, d.Opp()));
      assert (z + [f])[..|z|] == z;
      Settle(k, z + [f], p.Child(d), Sub(t, d));
      WholeOrder(z, t);
    }

    /** The last node before the empty place at the end of the path becomes the current one. */
    ghost method StopBelow(k: Kavl<K>, z: seq<NFrame<K>>)
      requires k.Valid() && stack.Length == KAVL_MAX_DEPTH && z != []
      requires Plug(z, Leaf) == k.tree && PathShape(z, k.root, null) && OnPath(stack, n, z)
      modifies this`path, this`sub
      ensures k.Valid() && k.Contents() == old(k.Contents())
      ensures n > 0 && On(k) && Rank() < |k.Contents()| && (Rank() == |Pre(z)| || Rank() == |Pre(z)| - 1)
      ensures Rank() == |Pre(z)| <==> |Pre(z)| < |k.Contents()| && k.Contents()[|Pre(z)|].left == null
    {
      assert allocated(Elems(k.tree));
      NextGreater(z, k.root);
      hide Plug, PathShape, Good, Distinct, Sorted, Visited, Pre;
      Settle(k, z, null, Leaf);
      RankAtEnd(z);
      RankPassed(k, Right, path, sub);
    }

    /** kavl_itr_next_bidir: moves to the next node (d is Right) or to the previous one. */
    method Next(k: Kavl<K>, d: Dir) returns (more: bool)
      requires k.Valid() && (n > 0 ==> On(k)) && stack.Length == KAVL_MAX_DEPTH
      modifies stack, this`n, this`path, this`sub
      ensures k.Valid() && k.Contents() == old(k.Contents())
      ensures more <==> n > 0
      ensures old(n) == 0 ==> !more
      ensures more ==> On(k) && Rank() == old(Rank()) + if d.Right? then 1 else -1
      ensures old(n) > 0 && !more ==> old(Rank()) == if d.Right? then |k.Contents()| - 1 else 0
    {
      if n == 0 {
        return false;
      }
      hide Kavl<K>.Valid, Plug, PathShape, Shape, Passed, Visited, Distinct, Elems, PathElems;
      RankPassed(k, d, path, sub);
      ghost var t := sub;
      NextChild(k, d, path, t);
      var p := stack[n-1].Child(d);
      if p != null {
        EnterChild(d, path, t);
        OppTwice(d);
        PushedPath(stack, n, path, Frame(d, t.elem, t.bal, t.size, Sub(t, d.Opp())));
        Descend(k, p, d.Opp(), path + [Frame(d, t.elem, t.bal, t.size, Sub(t, d.Opp()))], Sub(t, d));
      } else {
        Climb(k, d);
      }
      more := n > 0;
      if more {
        RankPassed(k, d, path, sub);
      }
    }

    /** Leaves the iterator past the end. */
    method Leave(k: Kavl<K>)
      requires k.Valid()
      modifies this`n
      ensures k.Valid() && k.Contents() == old(k.Contents()) && n == 0
    {
      assert allocated(Elems(k.tree));
      n := 0;
    }
  }

  function Diff(a: int, b: int): int { a - b }

  /** The keys are 3 and 5, and 3 hangs below 5. */
  ghost predicate ThreeBelowFive(s: seq<Node<int>>)
    reads s
  {
    |s| == 2 && s[0].key == 3 && s[1].key == 5 && s[1].left == s[0]
  }

  method ThreeAndFive() returns (k: Kavl<int>)
    ensures k.Valid() && k.cmp == Diff && ThreeBelowFive(k.Contents())
  {
    k := new Kavl(Diff);
    var five := new Node(5);
    var three := new Node(3);
    five.left, five.balance, five.size, three.size := three, -1, 2, 1;
    ghost var t := Bin(Leaf, three, 0, 1, Leaf);
    k.root, k.tree := five, Bin(t, five, -1, 2, Leaf);
    assert Shape(three, t);
    assert Shape(five, k.tree);
    TwoNodes(three, five);
    hide Shape, Good, Distinct, Inorder, Elems;
  }

  lemma TwoNodes(three: Node<int>, five: Node<int>)
    requires three.key == 3 && five.key == 5
    ensures var t := Bin(Bin(Leaf, three, 0, 1, Leaf), five, -1, 2, Leaf);
      && Good(t) && Distinct(t) && Count(t) == 2 && Inorder(t) == [three, five] && Sorted(Diff, Inorder(t))
  {
    var l := Bin(Leaf, three, 0, 1, Leaf);
    LeafIs(l.left);
    BinIs(l);
    BinIs(Bin(l, five, -1, 2, Leaf));
    hide Good, Distinct, Count, Inorder, Height, Elems;
  }

  lemma LeafIs<T>(t: Tree<T>)
    requires t == Leaf
    ensures Good(t) && Distinct(t) && Inorder(t) == [] && Elems(t) == {} && Count(t) == Height(t) == 0
  {
  }

  lemma BinIs<T>(t: Tree<T>)
    requires t.Bin? && Good(t.left) && Good(t.right) && Distinct(t.left) && Distinct(t.right)
    ensures Good(t) <==> t.bal == Height(t.right) - Height(t.left) && -1 <= t.bal <= 1 && t.size == Count(t)
    ensures Distinct(t) <==> t.elem !in Elems(t.left) && t.elem !in Elems(t.right) && Elems(t.left) !! Elems(t.right)
    ensures Inorder(t) == Inorder(t.left) + [t.elem] + Inorder(t.right)
    ensures Elems(t) == Elems(t.left) + {t.elem} + Elems(t.right)
    ensures Count(t) == Count(t.left) + 1 + Count(t.right) && Height(t) == 1 + Max(Height(t.left), Height(t.right))
  {
  }

  /** Searching 4 there stops at 3, although 5 is the next greater key; searching 6 stops at 5, although
      no key is greater. */
  method MissedNext(k: Kavl<int>, itr: Iterator<int>, x: int) returns (found: bool)
    requires k.Valid() && k.cmp == Diff && ThreeBelowFive(k.Contents()) && itr.stack.Length == KAVL_MAX_DEPTH
    requires x == 4 || x == 6
    modifies itr, itr.stack
    ensures !found && itr.n > 0 && itr.On(k) && itr.Rank() == if x == 4 then 0 else 1
  {
    ghost var s := k.Contents();
    TwoFit(s, x);
    hide Kavl<int>.Valid, Iterator<int>.On, Iterator<int>.Rank, Fits, SplitsAt, Inorder, Elems, PathElems;
    hide Kavl<int>.Contents;
    ghost var three, five := s[0], s[1];
    assert allocated(s);
    ghost var n;
    found, n := itr.Find(k, x);
    assert five.left == three;
    if !found {
      TwoSplit(s, x, n);
    }
  }

  lemma TwoSplit(s: seq<Node<int>>, x: int, n: int)
    requires |s| == 2 && s[0].key == 3 && s[1].key == 5 && SplitsAt(Diff, x, s, n)
    ensures (x == 4 ==> n == 1) && (x == 6 ==> n == 2)
  {
    assert n < 1 ==> s[n..][0] == s[n];
    assert n == 1 ==> s[n..][0] == s[1];
    assert n > 1 ==> s[..n][1] == s[1];
  }

  lemma TwoFit(s: seq<Node<int>>, x: int)
    requires ThreeBelowFive(s)
    ensures Fits(Diff, x, s)
  {
  }

  lemma Emptiness<K>(z: seq<NFrame<K>>)
    ensures Inorder(Plug(z, Leaf)) == [] <==> z == []
  {
    InorderPlug(z, Leaf);
    assert z != [] ==> |Pre(z)| + |Post(z)| > 0;
  }

  /** The last node on the way to where a key belongs is the next one, or the previous one. */
  lemma RankAtEnd<K>(z: seq<NFrame<K>>)
    requires z != []
    ensures var y, f := z[..|z|-1], z[|z|-1];
      |Visited(Right, y, Fill(f, Leaf))| == if f.dir.Left? then |Pre(z)| else |Pre(z)| - 1
  {
    assert Inorder<Node<K>>(Leaf) == [];
  }

  /** The first node behind the end of a path that goes on has a left child: the path passes through it. */
  lemma {:induction false} TurnedLeft<K>(z: seq<NFrame<K>>, root: Node?<K>, p: Node<K>)
    requires PathShape(z, root, p) && Post(z) != []
    ensures Post(z)[0].left != null
    decreases |z|
  {
    var y, f := z[..|z|-1], z[|z|-1];
    PathPrefix(z, |y|, root, p);
    assert FrameShape(f, After(z, |y|, p));
    if f.dir.Right? {
      TurnedLeft(y, root, f.elem);
    }
  }

  /** At the end of a search, the next greater node has no left child exactly if the search ended there. */
  lemma NextGreater<K>(z: seq<NFrame<K>>, root: Node?<K>)
    requires z != [] && PathShape(z, root, null)
    ensures var s, n := Inorder(Plug(z, Leaf)), |Pre(z)|;
      z[|z|-1].dir.Left? <==> n < |s| && s[n].left == null
  {
    var y, f := z[..|z|-1], z[|z|-1];
    InorderPlug(z, Leaf);
    PathPrefix(z, |y|, root, null);
    assert FrameShape(f, After(z, |y|, null));
    if f.dir.Right? && Post(y) != [] {
      TurnedLeft(y, root, f.elem);
    }
  }

  /** What one round of the search does to the path. */
  lemma VisitStep<K(!new)>(k: Kavl<K>, key: K, p: Node<K>, z: seq<NFrame<K>>, t: NTree<K>, c: int)
    requires k.Valid() && Fits(k.cmp, key, k.Contents()) && c == k.cmp(key, p.key)
    requires Plug(z, t) == k.tree && PathShape(z, k.root, p) && Shape(p, t) && Good(t) && Between(k.cmp, key, z)
    ensures t.Bin? && t.elem == p && |z| < KAVL_MAX_DEPTH
    ensures var d := Along(c);
      var w := z + [Frame(d, p, t.bal, t.size, Sub(t, d.Opp()))];
      && Plug(w, Sub(t, d)) == k.tree && PathShape(w, k.root, p.Child(d)) && Shape(p.Child(d), Sub(t, d))
      && (c != 0 ==> Good(Sub(t, d)) && Between(k.cmp, key, w))
  {
    DepthFits(k.tree);
    PathDepth(z, t);
    HeightPositive(p, t);
    hide Kavl<K>.Valid, Fits, Between, Plug, PathShape, Shape, Good, Pre, Inorder, Height, Count;
    StepDown(z, k.root, p, t, Along(c));
    if c != 0 {
      SearchStep(k.cmp, key, z, t, Frame(Along(c), p, t.bal, t.size, Sub(t, Along(c).Opp())));
    }
  }

  lemma GoodTree<K(!new)>(k: Kavl<K>)
    requires k.Valid()
    ensures Shape(k.root, k.tree) && Good(k.tree)
  {
  }

  lemma HeightPositive<K>(p: Node<K>, t: NTree<K>)
    requires Shape(p, t)
    ensures Height(t) > 0
  {
  }

  lemma OppTwice(d: Dir)
    ensures d.Opp().Opp() == d
  {
  }

  lemma PushedPath<K>(stack: array<Node?<K>>, n: nat, z: seq<NFrame<K>>, f: NFrame<K>)
    requires n == |z| + 1 <= stack.Length && OnPath(stack, |z|, z) && stack[n-1] == f.elem
    ensures OnPath(stack, n, z + [f])
  {
  }

  /** The child on side d, and the path to it. */
  lemma NextChild<K(!new)>(k: Kavl<K>, d: Dir, z: seq<NFrame<K>>, t: NTree<K>)
    requires t.Bin? && Plug(z, t) == k.tree && PathShape(z, k.root, t.elem) && Shape(t.elem, t)
    ensures t.elem.Child(d) == null <==> Sub(t, d) == Leaf
    ensures var w := z + [Frame(d, t.elem, t.bal, t.size, Sub(t, d.Opp()))];
      Plug(w, Sub(t, d)) == k.tree && PathShape(w, k.root, t.elem.Child(d)) && Shape(t.elem.Child(d), Sub(t, d))
  {
    hide Plug, PathShape;
    StepDown(z, k.root, t.elem, t, d);
  }

  /** The numbers of nodes before and behind the current one. */
  lemma RankPassed<K(!new)>(k: Kavl<K>, d: Dir, z: seq<NFrame<K>>, t: NTree<K>)
    requires t.Bin? && Plug(z, t) == k.tree
    ensures |Visited(Right, z, t)| + 1 + |Visited(Left, z, t)| == |k.Contents()|
    ensures |Passed(d, z, t)| == |Visited(d, z, t)| + 1
  {
    WholeOrder(z, t);
  }

  /** A step up, as the loop of kavl_itr_next_bidir sees it. */
  lemma ClimbStep<K(!new)>(k: Kavl<K>, d: Dir, z: seq<NFrame<K>>, u: NTree<K>, p: Node<K>)
    requires k.Valid() && z != [] && Plug(z, u) == k.tree && PathShape(z, k.root, p) && Shape(p, u)
    ensures var y, f := z[..|z|-1], z[|z|-1];
      && Plug(y, Fill(f, u)) == k.tree && PathShape(y, k.root, f.elem) && Shape(f.elem, Fill(f, u))
      && (f.elem.Child(d) == p <==> f.dir == d)
      && Gone(d, z, u) == if f.dir == d then Gone(d, y, Fill(f, u)) else Visited(d, y, Fill(f, u))
  {
    hide Plug, PathShape, Shape, Gone, Visited, Good, Sorted;
    StepUp(z, k.root, p, u);
    var y, f := z[..|z|-1], z[|z|-1];
    DistinctPlug(y, Fill(f, u));
    hide Distinct;
    ChildSide(f, u, p, d);
    StepUpOrder(d, y, f, u);
  }

  lemma TopOfPath<K>(d: Dir, z: seq<NFrame<K>>, u: NTree<K>)
    requires z == []
    ensures Gone(d, z, u) == Inorder(Plug(z, u))
  {
    assert [] + Inorder(u) == Inorder(u) == Inorder(u) + [];
  }

  lemma ShapeNull<K>(t: NTree<K>)
    requires Shape(null, t)
    ensures t == Leaf
  {
  }
}
