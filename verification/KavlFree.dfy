/** The destruction of a whole tree in kavl.h, which needs no stack: it turns left children up until none is left. */
module KavlFree {
  import opened Sequences
  import opened AvlTrees
  import opened KavlNodes

  /** The tree after one turn: the left child becomes the root. Balances and sizes are not kept up to date. */
  ghost function Turned<K>(t: NTree<K>): NTree<K>
    requires t.Bin? && t.left.Bin?
  {
    var l := t.left;
    Bin(l.left, l.elem, l.bal, l.size, Bin(l.right, t.elem, t.bal, t.size, t.right))
  }

  /** A turn keeps the nodes and their order, and makes the left side smaller. */
  lemma TurnedKeeps<K>(t: NTree<K>)
    requires t.Bin? && t.left.Bin? && Distinct(t)
    ensures Inorder(Turned(t)) == Inorder(t) && Distinct(Turned(t)) && Elems(Turned(t)) == Elems(t)
    ensures Count(Turned(t)) == Count(t) && Count(Turned(t).left) < Count(t.left)
  {
    var l := t.left;
    Regroup(Inorder(l.left), [l.elem], Inorder(l.right), [t.elem], Inorder(t.right));
    assert Inorder(t) == Inorder(l) + [t.elem] + Inorder(t.right);
  }

  lemma CountsAt<K>(t: NTree<K>)
    requires t.Bin?
    ensures Count(t) == Count(t.left) + 1 + Count(t.right)
    ensures t.left == Leaf ==> Inorder(t) == [t.elem] + Inorder(t.right)
    ensures t.elem in Elems(t)
    ensures Distinct(t) ==> Distinct(t.right) && t.elem !in Elems(t.right) && Elems(t.right) <= Elems(t)
  {
  }

  /** The release of one node: whatever its fields are afterwards. */
  method Release<K>(p: Node<K>)
    modifies p
  {
    p.left, p.right, p.balance, p.size := *, *, *, *;
  }

  /** Turns the left child of p up. */
  method TurnUp<K>(p: Node<K>, ghost t: NTree<K>) returns (q: Node<K>)
    requires Shape(p, t) && Distinct(t) && p.left != null
    modifies Elems(t)
    ensures t.Bin? && t.left.Bin? && Shape(q, Turned(t))
  {
    q := p.left;
    assert Shape(q, t.left);
    assert allocated(Elems(t));
    p.left := q.right;
    assert Shape(p.left, t.left.right) && Shape(p.right, t.right) && Shape(q.left, t.left.left);
    q.right := p;
  }

  /** kavl_free: every node is freed exactly once, in order, and none is read afterwards. */
  method Free<K>(root: Node?<K>, ghost t: NTree<K>) returns (freed: seq<Node<K>>)
    requires Shape(root, t) && Distinct(t)
    modifies Elems(t)
    ensures freed == Inorder(t) && NoDup(freed)
  {
    hide Elems, NoDup, Distinct, Shape, Inorder, Count;
    var p := root;
    ghost var u := t;
    freed := [];
    DistinctInorder(t);
    while p != null
      invariant Shape(p, u) && Distinct(u) && Elems(u) <= Elems(t) && freed + Inorder(u) == Inorder(t)
      decreases Count(u), if u.Bin? then Count(u.left) else 0
    {
      RootOf(p, u);
      CountsAt(u);
      if p.left == null {
        freed := freed + [p];
        var q := p.right;
        assert Shape(q, u.right) && allocated(Elems(u.right));
        Release(p);
        p, u := q, u.right;
      } else {
        TurnedKeeps(u);
        p := TurnUp(p, u);
        u := Turned(u);
      }
    }
    ShapeEmpty(u);
  }

  lemma RootOf<K>(p: Node<K>, t: NTree<K>)
    requires Shape(p, t)
    ensures t.Bin? && t.elem == p && Shape(p.left, t.left) && Shape(p.right, t.right)
    ensures p.left == null <==> t.left == Leaf
  {
  }

  lemma ShapeEmpty<K>(t: NTree<K>)
    requires Shape(null, t)
    ensures t == Leaf && Inorder(t) == []
  {
  }
}
