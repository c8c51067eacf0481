/** The IP set of pools.c: a kavl tree of bit prefixes none of which covers another. */
module IpSets {
  import opened Sequences
  import Orders
  import opened AvlTrees
  import opened Bytes
  import opened BitPrefixes
  import opened KavlNodes
  import opened Kavl

  /** Any prefix can be searched for in a sorted sequence, although kavl_bit_cmp is no order. */
  lemma PrefixFits(k: Prefix, s: seq<Node<Prefix>>)
    requires Sorted(KavlBitCmp, s)
    ensures Fits(KavlBitCmp, k, s) && KavlBitCmp(k, k) == 0
  {
    forall i, j | 0 <= i < j < |s| && KavlBitCmp(k, s[i].key) < 0 ensures KavlBitCmp(k, s[j].key) < 0 {
      Transitive(k, s[i].key, s[j].key);
    }
    forall i, j | 0 <= i < j < |s| && KavlBitCmp(k, s[j].key) > 0 ensures KavlBitCmp(k, s[i].key) > 0 {
      Opposite(k, s[j].key);
      Transitive(s[i].key, s[j].key, k);
      Opposite(s[i].key, k);
    }
    forall i | 0 <= i < |s| ensures KavlBitCmp(k, s[i].key) == -KavlBitCmp(s[i].key, k) {
      Opposite(k, s[i].key);
    }
    ComparatorMeaning(k, k);
    BitCmpZero(BitsOf(k), BitsOf(k));
  }

  lemma Opposite(p: Prefix, q: Prefix)
    ensures KavlBitCmp(q, p) == -KavlBitCmp(p, q)
  {
    ComparatorMeaning(p, q);
    ComparatorMeaning(q, p);
    BitCmpOpposite(BitsOf(p), BitsOf(q));
  }

  lemma Transitive(p: Prefix, q: Prefix, r: Prefix)
    requires KavlBitCmp(p, q) < 0 && KavlBitCmp(q, r) < 0
    ensures KavlBitCmp(p, r) < 0
  {
    ComparatorMeaning(p, q);
    ComparatorMeaning(q, r);
    ComparatorMeaning(p, r);
    BitCmpTransitive(BitsOf(p), BitsOf(q), BitsOf(r));
  }

  lemma EqualIsCover(p: Prefix, q: Prefix)
    ensures KavlBitCmp(p, q) == 0 <==> Covers(BitsOf(p), BitsOf(q)) || Covers(BitsOf(q), BitsOf(p))
  {
    ComparatorMeaning(p, q);
    BitCmpZero(BitsOf(p), BitsOf(q));
  }

  ghost function PrefixSet(s: seq<Node<Prefix>>): set<Bits> {
    set n | n in s :: BitsOf(n.key)
  }

  /** No prefix in the set covers another. */
  ghost predicate Antichain(s: set<Bits>) {
    forall p, q :: p in s && q in s && p <= q ==> p == q
  }

  lemma SortedIsAntichain(s: seq<Node<Prefix>>)
    requires Sorted(KavlBitCmp, s)
    ensures Antichain(PrefixSet(s))
    ensures forall i, j :: 0 <= i < j < |s| ==> BitsOf(s[i].key) != BitsOf(s[j].key)
  {
    forall i, j | 0 <= i < |s| && 0 <= j < |s| && i != j
      ensures !(BitsOf(s[i].key) <= BitsOf(s[j].key))
    {
      EqualIsCover(s[i].key, s[j].key);
      Opposite(s[i].key, s[j].key);
    }
  }

  /** What adding e does: nothing if e is covered already, otherwise e replaces what it covers. */
  ghost function AddPrefix(s: set<Bits>, e: Bits): set<Bits> {
    if exists p :: p in s && p <= e then s else (set p | p in s && !(e <= p)) + {e}
  }

  /** Adding keeps the prefixes apart and adds exactly the addresses of e. */
  lemma AddPrefixMeaning(s: set<Bits>, e: Bits, a: Bits)
    requires Antichain(s)
    ensures Antichain(AddPrefix(s, e))
    ensures Covered(AddPrefix(s, e), a) <==> Covered(s, a) || Covers(e, a)
  {
    var t := AddPrefix(s, e);
    if exists p :: p in s && p <= e {
      var p :| p in s && p <= e;
      if e <= a { assert Covers(p, a); }
    } else {
      if Covered(s, a) {
        var p :| p in s && Covers(p, a);
        if e <= p { assert e in t && Covers(e, a); } else { assert p in t; }
      }
      if e <= a { assert e in t && Covers(e, a); }
    }
  }

  lemma InsertedSet(s: seq<Node<Prefix>>, n: nat, e: Node<Prefix>)
    requires n <= |s|
    ensures PrefixSet(s[..n] + [e] + s[n..]) == PrefixSet(s) + {BitsOf(e.key)}
    ensures forall x :: x in s[..n] + [e] + s[n..] <==> x in s || x == e
  {
    var t := s[..n] + [e] + s[n..];
    assert s == s[..n] + s[n..];
    assert forall x :: x in t <==> x in s || x == e;
  }

  lemma ErasedSet(s: seq<Node<Prefix>>, n: nat)
    requires n < |s| && Sorted(KavlBitCmp, s)
    ensures PrefixSet(s[..n] + s[n+1..]) == PrefixSet(s) - {BitsOf(s[n].key)}
    ensures forall x :: x in s[..n] + s[n+1..] ==> x in s
  {
    hide Sorted, Antichain, BitsOf, KavlBitCmp;
    var t := s[..n] + s[n+1..];
    forall x | x in t ensures x in s && BitsOf(x.key) != BitsOf(s[n].key) {
      var i :| 0 <= i < |t| && t[i] == x;
      var j := if i < n then i else i + 1;
      assert x == s[j] && s[j] in s && j != n;
      DistinctBits(s, j, n);
    }
    forall x | x in s && BitsOf(x.key) != BitsOf(s[n].key) ensures x in t {
      var i :| 0 <= i < |s| && s[i] == x;
      assert x == t[if i < n then i else i - 1];
    }
  }

  lemma DistinctBits(s: seq<Node<Prefix>>, i: nat, j: nat)
    requires i < |s| && j < |s| && i != j && Sorted(KavlBitCmp, s)
    ensures BitsOf(s[i].key) != BitsOf(s[j].key)
  {
    SortedIsAntichain(s);
  }

  /** The state of kavl_bit_add's loop: only prefixes that e covers are gone. */
  ghost predicate Adding(was: set<Bits>, now: set<Bits>, e: Bits) {
    now <= was && forall p :: p in was ==> p in now || (e <= p && e != p)
  }

  ghost predicate Incomparable(s: set<Bits>, e: Bits) {
    forall p :: p in s ==> !(p <= e) && !(e <= p)
  }

  lemma AddingDone(was: set<Bits>, now: set<Bits>, e: Bits)
    requires Adding(was, now, e) && Incomparable(now, e)
    ensures now + {e} == AddPrefix(was, e)
  {
    assert forall p :: p in was && p <= e ==> p in now || (e <= p && p <= e && e != p);
    assert !exists p :: p in was && p <= e;
    assert forall p :: p in was && !(e <= p) ==> p in now;
  }

  /** A prefix cannot both cover a stored one and be covered by another stored one. */
  lemma AddingCovered(was: set<Bits>, now: set<Bits>, e: Bits, v: Bits)
    requires Antichain(was) && Adding(was, now, e) && v in now && v <= e
    ensures now == was == AddPrefix(was, e)
  {
    assert forall p :: p in was && e <= p ==> v <= p;
  }

  lemma SplitIsIncomparable(s: seq<Node<Prefix>>, k: Prefix, n: int)
    requires SplitsAt(KavlBitCmp, k, s, n)
    ensures Incomparable(PrefixSet(s), BitsOf(k))
  {
    NoneEqual(KavlBitCmp, k, s, n);
    forall x | x in s ensures !(BitsOf(x.key) <= BitsOf(k)) && !(BitsOf(k) <= BitsOf(x.key)) {
      EqualIsCover(k, x.key);
    }
  }

  type BitTree = Kavl<Prefix>

  ghost predicate Usable(t: BitTree)
    reads t, Elems(t.tree)
  {
    t.Valid() && t.cmp == KavlBitCmp
  }

  ghost function Stored(t: BitTree): set<Bits>
    reads t
  {
    PrefixSet(t.Contents())
  }

  /** kavl_insert of e: either e joins the tree, or a comparable prefix v is found. */
  method InsertPrefix(t: BitTree, e: Node<Prefix>) returns (v: Node<Prefix>)
    requires Usable(t) && |t.Contents()| + 1 < SIZE_LIMIT && e !in Elems(t.tree)
    modifies t, e, Elems(t.tree)
    ensures Usable(t)
    ensures v == e ==> Incomparable(old(Stored(t)), BitsOf(e.key)) && Stored(t) == old(Stored(t)) + {BitsOf(e.key)}
    ensures v == e ==> e in t.Contents() && Elems(t.tree) == old(Elems(t.tree)) + {e}
    ensures |t.Contents()| == |old(t.Contents())| + if v == e then 1 else 0
    ensures v != e ==>
      v in t.Contents() && t.tree == old(t.tree) && t.Contents() == old(t.Contents()) && KavlBitCmp(e.key, v.key) == 0
  {
    hide PrefixSet, Incomparable, Fits, SplitsAt, Elems, Inorder, Shape, Good, Distinct, Sorted, Count;
    ghost var s := t.Contents();
    PrefixFits(e.key, s);
    ElemsInorder(t.tree, e);
    var n;
    v, n := t.Insert(e);
    if v == e {
      SplitIsIncomparable(s, e.key, n);
      SplitInRange(KavlBitCmp, e.key, s, n);
      InsertedSet(s, n, e);
    }
  }

  lemma SplitInRange<K>(cmp: Orders.Cmp<K>, k: K, s: seq<Node<K>>, n: int)
    requires SplitsAt(cmp, k, s, n)
    ensures 0 <= n <= |s|
  {
  }

  /** kavl_bit_delete of a stored prefix. */
  method DeletePrefix(t: BitTree, v: Node<Prefix>)
    requires Usable(t) && v in t.Contents()
    modifies t, Elems(t.tree)
    ensures Usable(t) && |t.Contents()| == |old(t.Contents())| - 1
    ensures Stored(t) == old(Stored(t)) - {BitsOf(v.key)}
    ensures Elems(t.tree) <= old(Elems(t.tree))
  {
    hide PrefixSet, Fits, Elems, Inorder, Shape, Good, Distinct, Count, Sorted;
    ghost var s := t.Contents();
    PrefixFits(v.key, s);
    ghost var i :| 0 <= i < |s| && s[i] == v;
    var p, n := t.Erase(v.key);
    OnlyItself(s, i, n - 1);
    ErasedSet(s, n - 1);
  }

  lemma OnlyItself(s: seq<Node<Prefix>>, i: nat, j: nat)
    requires Sorted(KavlBitCmp, s) && i < |s| && j < |s| && KavlBitCmp(s[i].key, s[j].key) == 0
    ensures i == j
  {
    Opposite(s[i].key, s[j].key);
  }

  /** kavl_bit_add. */
  method KavlBitAdd(t: BitTree, key: Prefix) returns (v: Node<Prefix>)
    requires Usable(t) && |t.Contents()| + 1 < SIZE_LIMIT
    modifies t, Elems(t.tree)
    ensures Usable(t) && |t.Contents()| <= |old(t.Contents())| + 1 && fresh(Elems(t.tree) - old(Elems(t.tree)))
    ensures Stored(t) == AddPrefix(old(Stored(t)), BitsOf(key))
    ensures v in t.Contents() && Covers(BitsOf(v.key), BitsOf(key))
  {
    hide PrefixSet, Incomparable, Elems, Inorder, Shape, Good, Distinct, Sorted, Count, AddPrefix, Adding, KavlBitCmp,
      Antichain;
    ghost var was, bits := Stored(t), BitsOf(key);
    ghost var all := Elems(t.tree);
    UsableAntichain(t);
    AddingNothing(was, bits);
    assert allocated(all);
    var e := new Node(key);
    v := InsertPrefix(t, e);
    ghost var now := was;
    while e != v && e.key.bitlen < v.key.bitlen
      invariant Usable(t) && Elems(t.tree) <= all + {e} && |t.Contents()| <= |old(t.Contents())| + 1
      invariant Adding(was, now, bits)
      invariant v == e ==> Incomparable(now, bits) && Stored(t) == now + {bits} && e in t.Contents()
      invariant v != e ==> Stored(t) == now && v in t.Contents() && e !in Elems(t.tree) && KavlBitCmp(e.key, v.key) == 0
      invariant v != e ==> |t.Contents()| <= |old(t.Contents())|
      decreases |t.Contents()|, e != v
    {
      DeletePrefix(t, v);
      AddingOneLess(was, now, e.key, v.key);
      now := now - {BitsOf(v.key)};
      v := InsertPrefix(t, e);
    }
    if v == e {
      AddingDone(was, now, bits);
    } else {
      EqualIsCover(e.key, v.key);
      StoredBits(t, v);
      AddingCovered(was, now, bits, BitsOf(v.key));
    }
  }

  /** kavl_bit_destroy: erases the first node until none is left. */
  method KavlBitDestroy(t: BitTree)
    requires Usable(t)
    modifies t, Elems(t.tree)
    ensures Usable(t) && t.Contents() == []
  {
    hide PrefixSet, Elems, Inorder, Shape, Good, Distinct, Sorted;
    ghost var all := Elems(t.tree);
    RootNode(t);
    while t.root != null
      invariant Usable(t) && Elems(t.tree) <= all
      invariant t.root == null <==> t.Contents() == []
      decreases |t.Contents()|
    {
      var e := t.EraseFirst();
      RootNode(t);
    }
  }

  lemma RootNode(t: BitTree)
    requires Usable(t)
    ensures t.root == null <==> t.Contents() == []
  {
    hide Sorted;
  }

  lemma UsableAntichain(t: BitTree)
    requires Usable(t)
    ensures Antichain(Stored(t))
  {
    SortedIsAntichain(t.Contents());
  }

  lemma StoredBits(t: BitTree, v: Node<Prefix>)
    requires v in t.Contents()
    ensures BitsOf(v.key) in Stored(t)
  {
  }

  lemma AddingNothing(s: set<Bits>, e: Bits)
    ensures Adding(s, s, e)
  {
  }

  lemma AddingOneLess(was: set<Bits>, now: set<Bits>, e: Prefix, v: Prefix)
    requires Adding(was, now, BitsOf(e)) && KavlBitCmp(e, v) == 0 && e.bitlen < v.bitlen
    ensures Adding(was, now - {BitsOf(v)}, BitsOf(e))
  {
    EqualIsCover(e, v);
  }

  // ----- the set as its users see it -----

  /** The stored prefixes stand for all that were ever added: each of those is stored or covered. */
  ghost predicate Represents(stored: set<Bits>, added: set<Bits>) {
    stored <= added && forall c :: c in added ==> Covered(stored, c)
  }

  lemma CoverWitness(s: set<Bits>, a: Bits) returns (p: Bits)
    requires Covered(s, a)
    ensures p in s && Covers(p, a)
  {
    p :| p in s && Covers(p, a);
  }

  lemma CoveredBy(s: set<Bits>, p: Bits, a: Bits)
    requires p in s && Covers(p, a)
    ensures Covered(s, a)
  {
  }

  lemma AddRepresents(stored: set<Bits>, added: set<Bits>, e: Bits)
    requires Antichain(stored) && Represents(stored, added)
    ensures Represents(AddPrefix(stored, e), added + {e})
  {
    hide Covered, Covers, Antichain;
    var t := AddPrefix(stored, e);
    forall c | c in added + {e} ensures Covered(t, c) {
      AddPrefixMeaning(stored, e, c);
      assert Covers(e, e) by { CoverTransitive(e, e, e); }
    }
    AddPrefixWithin(stored, e);
  }

  lemma AddPrefixWithin(s: set<Bits>, e: Bits)
    ensures AddPrefix(s, e) <= s + {e}
  {
  }

  lemma CoverTransitive(p: Bits, q: Bits, r: Bits)
    requires q <= r
    ensures p <= q ==> Covers(p, r)
  {
  }

  /** Then the addresses covered are those of all added ranges, and a search succeeds
      exactly if a scan of all added ranges would find one comparable with the query. */
  lemma RepresentsMeaning(stored: set<Bits>, added: set<Bits>, q: Bits)
    requires Represents(stored, added)
    ensures Covered(stored, q) <==> Covered(added, q)
    ensures Comparable(stored, q) <==> Comparable(added, q)
  {
    hide Covered, Covers;
    if Covered(added, q) {
      var c := CoverWitness(added, q);
      var p := CoverWitness(stored, c);
      assert Covers(p, q) by { CoverLonger(p, c, q); }
      CoveredBy(stored, p, q);
    }
    if Covered(stored, q) {
      var p := CoverWitness(stored, q);
      CoveredBy(added, p, q);
    }
    if Comparable(added, q) {
      var c :| c in added && (Covers(c, q) || Covers(q, c));
      var p := CoverWitness(stored, c);
      if Covers(c, q) { CoverLonger(p, c, q); } else { CoverEither(p, q, c); }
    }
  }

  lemma CoverLonger(p: Bits, q: Bits, r: Bits)
    requires Covers(p, q) && Covers(q, r)
    ensures Covers(p, r)
  {
  }

  lemma CoverEither(p: Bits, q: Bits, a: Bits)
    requires Covers(p, a) && Covers(q, a)
    ensures Covers(p, q) || Covers(q, p)
  {
    CoverChain(p, q, a);
  }

  /** Some prefix in the set covers the query or is covered by it. */
  ghost predicate Comparable(s: set<Bits>, q: Bits) {
    exists c :: c in s && (Covers(c, q) || Covers(q, c))
  }

  /** The bytes that ipset_kavl_add copies hold all the bits of the prefix. */
  function CidrKey(a: seq<Byte>, preflen: nat): Prefix
    requires preflen <= 8 * |a|
  {
    Prefix(preflen, a[..(preflen + 7) / 8])
  }

  lemma CidrKeyBits(a: seq<Byte>, preflen: nat)
    requires preflen <= 8 * |a|
    ensures BitsOf(CidrKey(a, preflen)) == DataBits(a)[..preflen]
  {
    hide DataBits;
    var n := (preflen + 7) / 8;
    assert a == a[..n] + a[n..];
    DataBitsConcat(a[..n], a[n..]);
    assert (DataBits(a[..n]) + DataBits(a[n..]))[..preflen] == DataBits(a[..n])[..preflen];
  }

  class IpSet {
    /** The number of bits of an address: 32 for ips4, 128 for ips6. */
    const width: nat
    const ipset: BitTree
    ghost var added: set<Bits>

    ghost predicate Valid()
      reads this, ipset, Elems(ipset.tree)
    {
      && (width == 32 || width == 128) && Usable(ipset)
      && Represents(Stored(ipset), added) && forall p :: p in added ==> |p| <= width
    }

    constructor (width: nat)
      requires width == 32 || width == 128
      ensures Valid() && added == {} && this.width == width
    {
      this.width := width;
      ipset := new Kavl<Prefix>(KavlBitCmp);
      added := {};
    }

    /** ipset4Add and ipset6Add. */
    method Add(a: seq<Byte>, preflen: nat) returns (ok: bool)
      requires Valid() && 8 * |a| == width && |ipset.Contents()| + 1 < SIZE_LIMIT
      modifies this, ipset, Elems(ipset.tree)
      ensures Valid() && ok == (preflen <= width)
      ensures ok ==> added == old(added) + {DataBits(a)[..preflen]}
      ensures !ok ==> added == old(added) && Stored(ipset) == old(Stored(ipset))
    {
      hide Represents, PrefixSet, Elems, AddPrefix;
      if preflen > width { return false; }
      ok := true;
      var key := CidrKey(a, preflen);
      CidrKeyBits(a, preflen);
      UsableAntichain(ipset);
      AddRepresents(Stored(ipset), added, BitsOf(key));
      assert allocated(Elems(ipset.tree));
      var v := KavlBitAdd(ipset, key);
      assert (this as object) !in Elems(ipset.tree);
      added := added + {BitsOf(key)};
    }

    /** ipset4Check and ipset6Check. */
    method Check(a: seq<Byte>, preflen: nat) returns (found: bool)
      requires Valid() && 8 * |a| == width && preflen <= width
      ensures var q := DataBits(a)[..preflen];
        found <==> Comparable(added, q)
      ensures preflen == width ==> (found <==> Covered(added, DataBits(a)))
    {
      hide Represents, PrefixSet, Elems, Sorted, Fits, Inorder, Good, Distinct, Shape, KavlBitCmp, BitsOf, DataBits;
      var key: Prefix := Prefix(preflen, a);
      ghost var q := DataBits(a)[..preflen];
      assert BitsOf(key) == q by { BitsIs(key); }
      PrefixFits(key, ipset.Contents());
      var p, n := ipset.Find(key);
      found := p != null;
      SearchMeaning(ipset, key, p, n);
      RepresentsMeaning(Stored(ipset), added, q);
      if preflen == width {
        assert q == DataBits(a);
        LongestQuery(added, q);
      }
    }
  }

  lemma BitsIs(p: Prefix)
    ensures BitsOf(p) == DataBits(p.data)[..p.bitlen]
  {
  }

  lemma LongestQuery(s: set<Bits>, q: Bits)
    requires forall p :: p in s ==> |p| <= |q|
    ensures Comparable(s, q) <==> Covered(s, q)
  {
    if c :| c in s && (Covers(c, q) || Covers(q, c)) {
      assert Covers(c, q);
    }
  }

  lemma SearchMeaning(t: BitTree, k: Prefix, p: Node?<Prefix>, n: int)
    requires p != null ==> 1 <= n <= |t.Contents()| && p == t.Contents()[n-1] && KavlBitCmp(k, p.key) == 0
    requires p == null ==> SplitsAt(KavlBitCmp, k, t.Contents(), n)
    ensures p != null <==> Comparable(Stored(t), BitsOf(k))
  {
    if p != null {
      EqualIsCover(k, p.key);
      StoredBits(t, p);
    } else {
      SplitIsIncomparable(t.Contents(), k, n);
    }
  }
}
