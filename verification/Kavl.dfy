/** The operations of kavl.h on a tree held by its root pointer. */
module Kavl {
  import opened Sequences
  import Orders
  import opened AvlTrees
  import opened AvlInsertion
  import opened AvlErasure
  import opened KavlNodes
  import opened KavlUnlink
  import opened KavlShrink

  class Kavl<K(!new)> {
    const cmp: Orders.Cmp<K>
    var root: Node?<K>
    ghost var tree: NTree<K>

    ghost predicate Valid()
      reads this, Elems(tree)
    {
      && Shape(root, tree) && Good(tree) && Distinct(tree)
      && Count(tree) < SIZE_LIMIT && Sorted(cmp, Inorder(tree))
    }

    /** The nodes in the tree, in order. */
    ghost function Contents(): seq<Node<K>>
      reads this
    {
      Inorder(tree)
    }

    constructor (cmp: Orders.Cmp<K>)
      ensures Valid() && this.cmp == cmp && Contents() == []
    {
      this.cmp := cmp;
      root := null;
      tree := Leaf;
    }

    method Find(k: K) returns (p: Node?<K>, cnt: int)
      requires Valid() && Fits(cmp, k, Contents())
      ensures p != null ==> 1 <= cnt <= |Contents()| && p == Contents()[cnt-1] && cmp(k, p.key) == 0
      ensures p == null ==> SplitsAt(cmp, k, Contents(), cnt)
    {
      hide Fits, Between, Pre, Post, Sorted, Distinct, Plug, Inorder, Count, Height, Good;
      p, cnt := root, 0;
      ghost var z: seq<NFrame<K>>, t := [], tree;
      EmptyPath(cmp, k, root, tree);
      while p != null
        invariant Plug(z, t) == tree && Shape(p, t) && Good(t)
        invariant Between(cmp, k, z) && cnt == |Pre(z)|
        decreases t
      {
        var c := cmp(k, p.key);
        SizeOfShape(p.left, t.left);
        if c >= 0 { cnt := cnt + SizeOf(p.left) + 1; }
        if c == 0 {
          FoundAt(z, t);
          return;
        }
        ghost var d := Along(c);
        ghost var f := Frame(d, p, t.bal, t.size, Sub(t, d.Opp()));
        SearchStep(cmp, k, z, t, f);
        p := if c < 0 then p.left else p.right;
        z, t := z + [f], Sub(t, d);
      }
      EndOfSearch(cmp, k, z);
    }

    /** The descent of kavl_insert: the path to where k belongs, and the last node
        on it that is not level (bp, its parent bq, and the directions below it). */
    method Locate(k: K, stack: array<Dir>, path: array<Node?<K>>)
      returns (p: Node?<K>, cnt: int, q: Node?<K>, which: Dir, bp: Node?<K>, bq: Node?<K>, top: nat, pathLen: nat,
               ghost z: seq<NFrame<K>>)
      requires Valid() && Fits(cmp, k, Contents())
      requires stack.Length == path.Length == KAVL_MAX_DEPTH
      modifies stack, path
      ensures p != null ==> 1 <= cnt <= |Contents()| && p == Contents()[cnt-1] && cmp(k, p.key) == 0
      ensures p == null ==> Plug(z, Leaf) == tree && PathShape(z, root, null)
      ensures p == null ==> Between(cmp, k, z) && cnt == |Pre(z)|
      ensures p == null ==> OnPath(path, pathLen, z) && LastSlope(z, stack, top, bp, bq, root)
      ensures p == null ==> EndsAt(z, q, which)
    {
      hide Fits, Between, Pre, Post, Sorted, Distinct, Plug, Inorder, Count, Height, Good, PathShape;
      p, cnt, q, which, bp, bq, top, pathLen := root, 0, null, Left, root, null, 0, 0;
      z := [];
      ghost var t := tree;
      EmptyPath(cmp, k, root, tree);
      DepthFits(tree);
      while p != null
        invariant Plug(z, t) == tree && Shape(p, t) && Good(t) && PathShape(z, root, p)
        invariant Between(cmp, k, z) && cnt == |Pre(z)|
        invariant OnPath(path, pathLen, z) && LastSlope(z, stack, top, bp, bq, root) && EndsAt(z, q, which)
        invariant z == [] ==> p == root
        decreases t
      {
        PathDepth(z, t);
        var c := cmp(k, p.key);
        SizeOfShape(p.left, t.left);
        if c >= 0 { cnt := cnt + SizeOf(p.left) + 1; }
        if c == 0 {
          FoundAt(z, t);
          return;
        }
        which := Along(c);
        ghost var f := Frame(which, p, t.bal, t.size, Sub(t, which.Opp()));
        SearchStep(cmp, k, z, t, f);
        assert allocated(Elems(t)) && allocated(PathElems(z));
        bp, bq, top, pathLen := Record(p, which, q, bp, bq, top, pathLen, stack, path, z, f, root);
        StepDown(z, root, p, t, which);
        q, p := p, p.Child(which);
        z, t := z + [f], Sub(t, which);
      }
    }

    method Insert(x: Node<K>) returns (r: Node<K>, cnt: int)
      requires Valid() && Fits(cmp, x.key, Contents()) && cmp(x.key, x.key) == 0
      requires |Contents()| + 1 < SIZE_LIMIT
      modifies this, x, Elems(tree)
      ensures Valid()
      ensures r in old(Contents()) ==>
        && 1 <= cnt <= |old(Contents())| && r == old(Contents())[cnt-1] && cmp(x.key, r.key) == 0
        && root == old(root) && tree == old(tree) && unchanged(x)
      ensures r !in old(Contents()) ==>
        && r == x && SplitsAt(cmp, x.key, old(Contents()), cnt)
        && Contents() == old(Contents())[..cnt] + [x] + old(Contents())[cnt..]
        && Elems(tree) == old(Elems(tree)) + {x}
    {
      hide Fits, Between, Pre, Post, Sorted, Distinct, Plug, Inorder, Count, Height, Good, Shape, PathShape, SplitsAt,
        Elems;
      var stack := new Dir[KAVL_MAX_DEPTH];
      var path := new Node?<K>[KAVL_MAX_DEPTH];
      var p, q, which, bp, bq, top, pathLen;
      ghost var z;
      assert allocated(Elems(tree));
      p, cnt, q, which, bp, bq, top, pathLen, z := Locate(x.key, stack, path);
      if p != null {
        r := p;
        return;
      }
      ghost var s, was := Contents(), tree;
      EndOfSearch(cmp, x.key, z);
      NewElement(cmp, x, tree, cnt);
      DistinctInorder(tree);
      InsertAt(x, stack, path, q, which, bp, bq, top, pathLen, z);
      r := x;
      InorderPlug(z, Leaf);
      assert Inorder<Node<K>>(Leaf) == [] by { InorderLeaf<Node<K>>(); }
      assert s[..cnt] == Pre(z) && s[cnt..] == Post(z);
      StillSorted(cmp, x, s, cnt);
      ValidParts(tree, s, x, cnt);
      InsertedElems(was, tree, x, cnt);
    }

    /** The part of kavl_insert after the descent, for a node that is not in the tree yet. */
    method InsertAt(x: Node<K>, stack: array<Dir>, path: array<Node?<K>>, q: Node?<K>, which: Dir,
                    bp: Node?<K>, bq: Node?<K>, top: nat, pathLen: nat, ghost z: seq<NFrame<K>>)
      requires Good(tree) && Distinct(tree) && x !in Elems(tree) && Plug(z, Leaf) == tree
      requires PathShape(z, root, null) && OnPath(path, pathLen, z) && EndsAt(z, q, which)
      requires LastSlope(z, stack, top, bp, bq, root)
      modifies this, x, Elems(tree)
      ensures Shape(root, tree) && Good(tree) && Inorder(tree) == Pre(z) + [x] + Post(z)
    {
      hide Shape, PathShape, FrameShape, Apart, Plug, Pre, Post, Inorder, Height, Count, Good, Elems, Distinct;
      if q == null {
        x.balance, x.size, x.left, x.right := 0, 1, null, null;
        SingleShape(x);
        NewRoot(x);
        assert (this as object) !in Elems(Single(x));
        root, tree := x, Single(x);
        return;
      }
      PathElemsInPlug(z, Leaf);
      GrowPath(x, stack, path, q, which, bp, top, pathLen, z, root);
      ghost var k := |z| - top;
      ghost var w := Grown(z, k);
      SizeOnPath(w, k, root, x);
      GrownDistinct(z, k, x);
      if -2 < bp.balance < 2 {
        LevelTree(z, k, x);
        PlugShape(w, root, x, Single(x));
        assert (this as object) !in Elems(Plug(w, Single(x)));
        tree := Plug(w, Single(x));
      } else {
        Rebalance(x, bp, bq, k, z);
      }
    }

    method Rebalance(x: Node<K>, bp: Node<K>, bq: Node?<K>, ghost k: nat, ghost z: seq<NFrame<K>>)
      requires LastSlopeAt(z, k) && Good(Plug(z, Leaf)) && !(-2 < Grown(z, k)[k].bal < 2)
      requires bp == z[k].elem && bq == (if k == 0 then null else z[k-1].elem)
      requires PathShape(Grown(z, k), root, x) && Shape(x, Single(x)) && Distinct(Plug(Grown(z, k), Single(x)))
      modifies this, Elems(Plug(Grown(z, k), Single(x)))
      ensures Shape(root, tree) && Good(tree) && Inorder(tree) == Pre(z) + [x] + Post(z)
    {
      hide Shape, PathShape, FrameShape, Apart, Plug, Pre, Post, Inorder, Height, Count, Good, Elems, Distinct,
        Mended, Overweight;
      ghost var w := Grown(z, k);
      ghost var u, y := Plug(w[k..], Single(x)), w[..k];
      SteepTree(z, k, x);
      assert bp.balance == u.bal && w[k].elem == bp by { SizeOnPath(w, k, root, x); }
      SplitPath(w, k, root, x, Single(x));
      var r; ghost var v;
      assert allocated(PathElems(y));
      r, v := MendInsert(bp, u);
      GrownTree(z, k, x, v) by { MendedIs(u, v); }
      ApartElems(y, u, v) by { MendedIs(u, v); }
      assert (this as object) !in Elems(v) && (this as object) !in PathElems(y);
      if bq == null {
        root := r;
        EmptyPathShape(r);
      } else {
        OtherChild(y, root, bp, u);
        SetEnd(bq, if bp != bq.left then Right else Left, r, y, root, bp, v);
      }
      PlugShape(y, root, r, v);
      assert (this as object) !in Elems(Plug(y, v));
      tree := Plug(y, v);
    }

    /** The search of kavl_erase: the node to erase and the path to it. */
    method Victim(k: K, fake: Node<K>, path: array<Node?<K>>, dir: array<Dir>)
      returns (p: Node?<K>, cnt: int, d: nat, ghost y: seq<NFrame<K>>, ghost t: NTree<K>)
      requires Valid() && Fits(cmp, k, Contents())
      requires path.Length == dir.Length == KAVL_MAX_DEPTH
      modifies path, dir
      ensures p == null ==> SplitsAt(cmp, k, Contents(), cnt)
      ensures p != null ==> Plug(y, t) == tree && PathShape(y, root, p) && Shape(p, t) && cmp(k, p.key) == 0
      ensures p != null ==> t.Bin? && t.elem == p && cnt == |Pre(y)| + Count(t.left) + 1
      ensures p != null ==> Recorded(path, dir, d, WithFake(fake, y)) && d == |y| + 1 && |y| + Height(t) <= 45
    {
      hide Fits, Between, Pre, Post, Sorted, Distinct, Plug, Inorder, Count, Height, Good, PathShape;
      p, cnt, d, y, t := root, 0, 1, [], tree;
      assert (path as object) !in Elems(tree) && (dir as object) !in Elems(tree);
      path[0], dir[0] := fake, Left;
      EmptyPath(cmp, k, root, tree);
      DepthFits(tree);
      PathDepth(y, t);
      while p != null
        invariant Plug(y, t) == tree && Shape(p, t) && Good(t) && PathShape(y, root, p)
        invariant Between(cmp, k, y) && cnt == |Pre(y)|
        invariant |y| + Height(t) <= 45 && Recorded(path, dir, d, WithFake(fake, y))
        decreases t
      {
        var c := cmp(k, p.key);
        SizeOfShape(p.left, t.left);
        if c == 0 {
          CountStored(t);
          cnt := cnt + SizeOf(p.left) + 1;
          return;
        }
        if c > 0 { cnt := cnt + SizeOf(p.left) + 1; }
        var which := Along(c);
        ghost var f := Frame(which, p, t.bal, t.size, Sub(t, which.Opp()));
        SearchStep(cmp, k, y, t, f);
        HeightSub(t, which);
        assert allocated(Elems(t)) && allocated(PathElems(y));
        d := Push(path, dir, d, p, which, fake, y, f);
        StepDown(y, root, p, t, which);
        p := p.Child(which);
        y, t := y + [f], Sub(t, which);
      }
      EndOfSearch(cmp, k, y);
    }

    /** The descent of kavl_erase when no key is given: the leftmost node. */
    method FirstVictim(fake: Node<K>, path: array<Node?<K>>, dir: array<Dir>)
      returns (p: Node<K>, d: nat, ghost y: seq<NFrame<K>>, ghost t: NTree<K>)
      requires Shape(root, tree) && Good(tree) && Count(tree) < SIZE_LIMIT && root != null
      requires path.Length == dir.Length == KAVL_MAX_DEPTH
      modifies path, dir
      ensures Plug(y, t) == tree && PathShape(y, root, p) && Shape(p, t) && Leftward(y)
      ensures t.Bin? && t.elem == p && t.left == Leaf
      ensures Recorded(path, dir, d, WithFake(fake, y)) && d == |y| + 1 && |y| + Height(t) <= 45
    {
      hide Sorted, Distinct, Plug, Inorder, Count, Height, Good, PathShape, Elems;
      var q := root;
      ghost var z: seq<NFrame<K>>, u := [], tree;
      assert (path as object) !in Elems(tree) && (dir as object) !in Elems(tree);
      path[0], dir[0], d := fake, Left, 1;
      EmptyPathShape(root);
      PlugNil(tree);
      DepthFits(tree);
      PathDepth(z, u);
      while q != null
        invariant Plug(z, u) == tree && Shape(q, u) && PathShape(z, root, q) && Leftward(z)
        invariant (z == [] ==> q == root) && |z| + Height(u) <= 45 && Recorded(path, dir, d, WithFake(fake, z))
        decreases u
      {
        ghost var f := Frame(Left, q, u.bal, u.size, u.right);
        HeightSub(u, Left);
        assert allocated(Elems(u)) && allocated(PathElems(z));
        d := Push(path, dir, d, q, Left, fake, z, f);
        StepDown(z, root, q, u, Left);
        q := q.left;
        z, u := z + [f], u.left;
      }
      d := d - 1;
      p := path[d];
      y, t := BackUp(z, root, tree);
      assert WithFake(fake, z)[d] == z[|z|-1];
      RecordedLast(path, dir, d + 1, fake, z);
    }

    /** kavl_erase after its search. */
    method EraseAt(p: Node<K>, d0: nat, path: array<Node?<K>>, dir: array<Dir>, fake: Node<K>,
                   ghost y: seq<NFrame<K>>, ghost t: NTree<K>)
      requires Good(tree) && Distinct(tree) && Plug(y, t) == tree && PathShape(y, root, p) && Shape(p, t)
      requires fake !in Elems(tree) && fake.left == root && fake.right == null && fake.balance == 0 && fake.size == 0
      requires Recorded(path, dir, d0, WithFake(fake, y)) && d0 + Height(t) <= path.Length
      modifies this, path, dir, fake, Elems(tree)
      ensures t.Bin? && Shape(root, tree) && Good(tree)
      ensures Inorder(tree) == Pre(y) + Inorder(t.left) + Inorder(t.right) + Post(y)
    {
      hide Sorted, Distinct, Plug, Inorder, Count, Height, Good, PathShape, Shape, Elems, Gap, Recorded, Pre, Post;
      FakePath(fake, y, root, p, t);
      var d; ghost var w, n, h;
      d, w, n, h := Unlink(p, d0, path, dir, fake, y, t);
      ghost var u := CloseGap(d, path, dir, fake, w, n, h);
      assert (this as object) !in Elems(u);
      root, tree := fake.left, u;
    }

    /** kavl_erase. */
    method Erase(k: K) returns (p: Node?<K>, cnt: int)
      requires Valid() && Fits(cmp, k, Contents())
      modifies this, Elems(tree)
      ensures Valid()
      ensures p == null ==> cnt == 0 && root == old(root) && tree == old(tree)
      ensures p == null <==> forall x :: x in old(Contents()) ==> cmp(k, x.key) != 0
      ensures p != null ==> 1 <= cnt <= |old(Contents())| && p == old(Contents())[cnt-1] && cmp(k, p.key) == 0
      ensures p != null ==> Contents() == old(Contents())[..cnt-1] + old(Contents())[cnt..]
      ensures p != null ==> Elems(tree) == old(Elems(tree)) - {p}
    {
      hide Fits, Sorted, Distinct, Plug, Inorder, Count, Height, Good, PathShape, Shape, Elems, Recorded, Pre, Post,
        NoDup;
      var path := new Node?<K>[KAVL_MAX_DEPTH];
      var dir := new Dir[KAVL_MAX_DEPTH];
      assert allocated(Elems(tree));
      var fake := new Node(k);
      fake.left := root;
      var d; ghost var y, t;
      ghost var s, was := Contents(), tree;
      p, cnt, d, y, t := Victim(k, fake, path, dir);
      if p == null {
        NoneEqual(cmp, k, s, cnt);
        cnt := 0;
        return;
      }
      ErasedOrder(y, t, s);
      DistinctInorder(tree);
      CountInorder(tree);
      EraseAt(p, d, path, dir, fake, y, t);
      ErasedValid(cmp, tree, s, cnt - 1);
      ErasedElems(was, tree, cnt - 1);
    }

    /** kavl_erase_first on a tree that is not empty. */
    method EraseFirst() returns (p: Node<K>)
      requires Valid() && Contents() != []
      modifies this, Elems(tree)
      ensures Valid() && p == old(Contents())[0] && Contents() == old(Contents())[1..]
      ensures Elems(tree) == old(Elems(tree)) - {p}
    {
      hide Sorted, Distinct, Plug, Inorder, Count, Height, Good, PathShape, Elems, Recorded, Pre, Post, NoDup;
      var path := new Node?<K>[KAVL_MAX_DEPTH];
      var dir := new Dir[KAVL_MAX_DEPTH];
      assert allocated(Elems(tree));
      InorderLeaf<Node<K>>();
      var fake := new Node(root.key);
      fake.left := root;
      ghost var s, was := Contents(), tree;
      var d; ghost var y, t;
      p, d, y, t := FirstVictim(fake, path, dir);
      ErasedOrder(y, t, s);
      DistinctInorder(tree);
      CountInorder(tree);
      LeftwardPre(y);
      InorderLeaf<Node<K>>();
      EraseAt(p, d, path, dir, fake, y, t);
      ErasedValid(cmp, tree, s, 0);
      ErasedElems(was, tree, 0);
    }
  }

  lemma NoneEqual<K>(cmp: Orders.Cmp<K>, k: K, s: seq<Node<K>>, n: int)
    requires SplitsAt(cmp, k, s, n)
    ensures forall i :: 0 <= i < |s| ==> cmp(k, s[i].key) != 0
    ensures forall x :: x in s ==> cmp(k, x.key) != 0
  {
    forall i | 0 <= i < |s| ensures cmp(k, s[i].key) != 0 {
      if i < n {
        assert s[..n][i] == s[i];
      } else {
        assert s[n..][i - n] == s[i];
      }
    }
  }

  /** The order before the erasure, split at the erased node. */
  lemma ErasedOrder<K>(y: seq<NFrame<K>>, t: NTree<K>, s: seq<Node<K>>)
    requires t.Bin? && s == Inorder(Plug(y, t))
    ensures var n := |Pre(y)| + Count(t.left);
      && 0 <= n < |s| && s[n] == t.elem
      && s[..n] + s[n+1..] == Pre(y) + Inorder(t.left) + Inorder(t.right) + Post(y)
    ensures |Pre(y)| == 0 && t.left == Leaf ==> Count(t.left) == 0
  {
    hide Plug, Pre, Post;
    InorderPlug(y, t);
    CountInorder(t.left);
    assert Inorder(t) == Inorder(t.left) + [t.elem] + Inorder(t.right);
    hide Inorder;
    var a, b := Pre(y) + Inorder(t.left), Inorder(t.right) + Post(y);
    assert s == a + [t.elem] + b;
    assert s[..|a|] == a && s[|a|+1..] == b;
  }

  lemma ErasedValid<K>(cmp: Orders.Cmp<K>, t: NTree<K>, s: seq<Node<K>>, n: int)
    requires 0 <= n < |s| && Inorder(t) == s[..n] + s[n+1..] && NoDup(s)
    ensures Distinct(t) && Count(t) == |s| - 1
    ensures Sorted(cmp, s) ==> Sorted(cmp, Inorder(t))
  {
    assert s == s[..n] + [s[n]] + s[n+1..];
    NoDupDrop(s[..n], s[n], s[n+1..]);
    DistinctInorder(t);
    CountInorder(t);
  }

  lemma FakePath<K>(fake: Node<K>, y: seq<NFrame<K>>, root: Node?<K>, p: Node<K>, t: NTree<K>)
    requires PathShape(y, root, p) && Distinct(Plug(y, t)) && fake !in Elems(Plug(y, t))
    requires fake.left == root && fake.right == null && fake.balance == 0 && fake.size == 0
    ensures PathShape(WithFake(fake, y), fake, p) && Distinct(Plug(WithFake(fake, y), t))
    ensures Elems(Plug(WithFake(fake, y), t)) == Elems(Plug(y, t)) + {fake}
  {
    hide Plug;
    var f := Frame(Left, fake, 0, 0, Leaf);
    assert FrameShape(f, root);
    ConcatPaths([f], y, fake, root, p);
    FakeTree(fake, y, t);
  }

  /** One step back up from an empty end: the last node of a leftward path and its subtree. */
  lemma BackUp<K>(z: seq<NFrame<K>>, root: Node?<K>, whole: NTree<K>) returns (y: seq<NFrame<K>>, t: NTree<K>)
    requires z != [] && PathShape(z, root, null) && Plug(z, Leaf) == whole && Leftward(z)
    ensures t.Bin? && t.left == Leaf && t.elem == z[|z|-1].elem && y == z[..|z|-1]
    ensures Plug(y, t) == whole && PathShape(y, root, t.elem) && Shape(t.elem, t) && Leftward(y)
    ensures |y| + Height(t) <= Height(whole)
  {
    var n := |z| - 1;
    y, t := z[..n], Fill(z[n], Leaf);
    PathPrefix(z, n, root, null);
    assert FrameShape(z[n], After(z, n, null));
    PathDepth(y, t);
  }


  method Push<K>(path: array<Node?<K>>, dir: array<Dir>, d0: nat, p: Node<K>, which: Dir,
                 ghost fake: Node<K>, ghost y: seq<NFrame<K>>, ghost f: NFrame<K>) returns (d: nat)
    requires Recorded(path, dir, d0, WithFake(fake, y)) && d0 < path.Length && f.elem == p && f.dir == which
    modifies path, dir
    ensures Recorded(path, dir, d, WithFake(fake, y + [f]))
  {
    dir[d0] := which;
    path[d0], d := p, d0 + 1;
  }

  lemma CountStored<K>(t: NTree<K>)
    requires t.Bin? && Good(t)
    ensures StoredSize(t.left) == Count(t.left)
  {
  }

  lemma HeightSub<T>(t: Tree<T>, d: Dir)
    requires t.Bin?
    ensures Height(Sub(t, d)) + 1 <= Height(t)
  {
  }


  lemma InorderLeaf<T>()
    ensures Inorder<T>(Leaf) == []
  {
  }

  lemma NewElement<K>(cmp: Orders.Cmp<K>, x: Node<K>, t: NTree<K>, n: int)
    requires SplitsAt(cmp, x.key, Inorder(t), n) && cmp(x.key, x.key) == 0
    ensures x !in Inorder(t) && x !in Elems(t)
  {
    var s := Inorder(t);
    ElemsInorder(t, x);
    forall i | 0 <= i < |s| ensures cmp(x.key, s[i].key) != 0 {
      if i < n {
        assert s[..n][i] == s[i];
      } else {
        assert s[n..][i - n] == s[i];
      }
    }
  }

  lemma StillSorted<K>(cmp: Orders.Cmp<K>, x: Node<K>, s: seq<Node<K>>, n: int)
    requires Sorted(cmp, s) && Fits(cmp, x.key, s) && SplitsAt(cmp, x.key, s, n)
    ensures Sorted(cmp, s[..n] + [x] + s[n..])
  {
    assert forall i | 0 <= i < n :: s[..n][i] == s[i];
    assert forall i | n <= i < |s| :: s[n..][i - n] == s[i];
  }

  lemma InsertedElems<K>(was: NTree<K>, t: NTree<K>, x: Node<K>, n: int)
    requires 0 <= n <= |Inorder(was)| && Inorder(t) == Inorder(was)[..n] + [x] + Inorder(was)[n..]
    ensures Elems(t) == Elems(was) + {x}
  {
    hide Elems, Inorder;
    var s, r := Inorder(was), Inorder(t);
    assert s == s[..n] + s[n..];
    forall y | y in Elems(t) ensures y in Elems(was) + {x} {
      ElemsInorder(t, y);
      ElemsInorder(was, y);
    }
    forall y | y in Elems(was) + {x} ensures y in Elems(t) {
      ElemsInorder(t, y);
      ElemsInorder(was, y);
    }
  }

  lemma ErasedElems<K>(was: NTree<K>, t: NTree<K>, n: int)
    requires 0 <= n < |Inorder(was)| && Inorder(t) == Inorder(was)[..n] + Inorder(was)[n+1..] && NoDup(Inorder(was))
    ensures Elems(t) == Elems(was) - {Inorder(was)[n]}
  {
    hide Elems, Inorder, NoDup;
    var s, r := Inorder(was), Inorder(t);
    assert s == s[..n] + [s[n]] + s[n+1..];
    NoDupConcat(s[..n], s[n], s[n+1..]);
    forall y | y in Elems(t) ensures y in Elems(was) - {s[n]} {
      ElemsInorder(t, y);
      ElemsInorder(was, y);
    }
    forall y | y in Elems(was) - {s[n]} ensures y in Elems(t) {
      ElemsInorder(t, y);
      ElemsInorder(was, y);
    }
  }

  /** The other parts of validity after an insertion. */
  lemma ValidParts<K>(t: NTree<K>, s: seq<Node<K>>, x: Node<K>, n: int)
    requires 0 <= n <= |s| && NoDup(s) && x !in s && Inorder(t) == s[..n] + [x] + s[n..]
    ensures Distinct(t) && Count(t) == |s| + 1
  {
    assert s == s[..n] + s[n..];
    NoDupInsert(s[..n], x, s[n..]);
    DistinctInorder(t);
    CountInorder(t);
  }

  /** Makes x a leaf at the end of the path. */
  method AttachLeaf<K>(x: Node<K>, q: Node<K>, which: Dir, ghost z: seq<NFrame<K>>, ghost root: Node?<K>)
    requires z != [] && Distinct(Plug(z, Leaf)) && x !in Elems(Plug(z, Leaf))
    requires PathShape(z, root, null) && EndsAt(z, q, which)
    modifies x, q`left, q`right
    ensures PathShape(z, root, x) && Shape(x, Single(x)) && Apart(z, Single(x)) && q in NodesOf(z)
  {
    hide Shape, PathShape, FrameShape, Apart, Plug, Elems, Distinct;
    PathElemsInPlug(z, Leaf);
    x.balance, x.size, x.left, x.right := 0, 1, null, null;
    SingleShape(x);
    ApartNew(z, x);
    SetEnd(q, which, x, z, root, null, Single(x));
  }

  /** Hangs x at the end of the path, counts it in the sizes and leans the balances from bp on. */
  method GrowPath<K>(x: Node<K>, stack: array<Dir>, path: array<Node?<K>>, q: Node<K>, which: Dir,
                     bp: Node<K>, top: nat, pathLen: nat, ghost z: seq<NFrame<K>>, ghost root: Node?<K>)
    requires z != [] && Distinct(Plug(z, Leaf)) && x !in Elems(Plug(z, Leaf))
    requires PathShape(z, root, null) && OnPath(path, pathLen, z) && EndsAt(z, q, which)
    requires 0 < top <= |z| && top <= stack.Length && bp == z[|z| - top].elem
    requires forall j :: 0 <= j < top ==> stack[j] == z[|z| - top + j].dir
    modifies x, NodesOf(z)
    ensures PathShape(Grown(z, |z| - top), root, x) && Shape(x, Single(x))
  {
    hide Shape, PathShape, FrameShape, Apart, Plug, Elems, Distinct;
    AttachLeaf(x, q, which, z, root);
    AddSizes(path, 0, pathLen, 1, z, root, x, Single(x));
    ghost var k := |z| - top;
    GrownSameWay(z, k);
    ghost var b := BumpRange(z, 0, |z|, 1);
    SameApart(z, b, Single(x));
    UpdateBalances(stack, bp, x, k, b, root, Single(x));
  }

  lemma SingleShape<K>(x: Node<K>)
    requires x.balance == 0 && x.size == 1 && x.left == null && x.right == null
    ensures Shape(x, Single(x))
  {
  }

  lemma NewRoot<K>(x: Node<K>)
    ensures Good(Single(x)) && Inorder(Single(x)) == Pre([]) + [x] + Post([])
  {
  }
}
