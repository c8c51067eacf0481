/** The uthash table: an insertion-ordered map from keys to user structures. */
module Uthash {
  import opened Numbers
  import opened Sequences
  import opened Orders
  import opened HashItems
  import opened MergeSorts
  import opened ListSort
  import opened HashChains

  const INITIAL_NUM_BUCKETS := 32
  const INITIAL_NUM_BUCKETS_LOG2 := 5
  const BKT_CAPACITY_THRESH := 10

  /** The items for which keep holds, in order. */
  ghost function Kept<D(!new)>(keep: D -> bool, s: Items<D>): Items<D> {
    if |s| == 0 then [] else (if keep(s[0].data) then [s[0]] else []) + Kept(keep, s[1..])
  }

  /** The insertion-order list: what HASH_FSCK checks of prev, next, head and tail. */
  ghost predicate Listed<D(!new)>(s: Items<D>, head: Elem?<D>, tail: Elem?<D>)
    reads s`next, s`prev
  {
    NoDup(s) && Forward(s) && Backward(s) && |s| > 0 && head == s[0] && tail == s[|s|-1]
  }

  ghost predicate Hashed<K(!new), D(!new)>(s: Items<D>, hash: K -> nat, keyOf: D -> K)
    reads s`hashv
  {
    forall x :: x in s ==> x.hashv == hash(keyOf(x.data))
  }

  /** No two items have the same key. */
  ghost predicate UniqueKeys<K(!new), D(!new)>(s: Items<D>, keyOf: D -> K) {
    forall i, j :: 0 <= i < j < |s| ==> keyOf(s[i].data) != keyOf(s[j].data)
  }

  lemma NodesAppend<D(!new)>(s: Items<D>, e: Elem<D>)
    ensures Nodes(s + [e]) == Nodes(s) + {e} && (e in Nodes(s) <==> e in s)
  {
  }

  lemma NoNodes<D(!new)>()
    ensures Nodes<D>([]) == {}
  {
  }

  lemma NodesDropped<D(!new)>(s: Items<D>, e: Elem<D>)
    requires NoDup(s) && e in s
    ensures Nodes(Dropped(s, e)) == Nodes(s) - {e} && e in Nodes(s)
  {
    hide Dropped;
    DroppedFacts(s, e);
  }

  lemma DroppedOnly<D(!new)>(e: Elem<D>)
    ensures Dropped([e], e) == []
  {
  }

  lemma ListedLess<D(!new)>(s: Items<D>, e: Elem<D>, head: Elem?<D>, tail: Elem?<D>)
    requires NoDup(s) && e in s
    requires var t := Dropped(s, e); Forward(t) && Backward(t) && |t| > 0 && head == t[0] && tail == t[|t|-1]
    ensures Listed(Dropped(s, e), head, tail) && |Dropped(s, e)| == |s| - 1
  {
    DroppedFacts(s, e);
  }

  lemma ListedOne<D(!new)>(e: Elem<D>)
    requires e.next == null && e.prev == null
    ensures Listed([e], e, e)
  {
  }

  lemma ListedEnds<D(!new)>(s: Items<D>, head: Elem?<D>, tail: Elem?<D>)
    requires Listed(s, head, tail)
    ensures NoDup(s) && Forward(s) && Backward(s) && |s| > 0 && head == s[0] && tail == s[|s|-1]
  {
  }

  /** Only the sole item of a list has no neighbours. */
  lemma ListedAlone<D(!new)>(s: Items<D>, head: Elem?<D>, tail: Elem?<D>, e: Elem<D>)
    requires Listed(s, head, tail) && e in s
    ensures if e.prev == null && e.next == null then s == [e] else |s| > 1
  {
    hide NoDup;
    var i :| 0 <= i < |s| && s[i] == e;
    assert e.next == At(s, i + 1) && e.prev == At(s, i - 1);
  }

  lemma ListedMore<D(!new)>(s: Items<D>, head: Elem?<D>, e: Elem<D>)
    requires NoDup(s) && e !in s && |s| > 0 && head == s[0] && Forward(s + [e]) && Backward(s + [e])
    ensures Listed(s + [e], head, e)
  {
    NoDupConcat(s, e, []);
    assert s + [e] + [] == s + [e];
  }

  lemma HashedAppend<K(!new), D(!new)>(s: Items<D>, e: Elem<D>, hash: K -> nat, keyOf: D -> K)
    requires Hashed(s, hash, keyOf) && e.hashv == hash(keyOf(e.data))
    ensures Hashed(s + [e], hash, keyOf)
  {
  }

  lemma HashedLess<K(!new), D(!new)>(s: Items<D>, t: Items<D>, hash: K -> nat, keyOf: D -> K)
    requires Hashed(s, hash, keyOf) && Nodes(t) <= Nodes(s)
    ensures Hashed(t, hash, keyOf)
  {
    forall x | x in t ensures x in s {
      assert x in Nodes(t);
    }
  }

  lemma KeptStep<D(!new)>(keep: D -> bool, kept: Items<D>, rest: Items<D>)
    requires |rest| > 0
    ensures var more := if keep(rest[0].data) then kept + [rest[0]] else kept;
      more + Kept(keep, rest[1..]) == kept + Kept(keep, rest)
  {
    var x, k := rest[0], Kept(keep, rest[1..]);
    if keep(x.data) {
      assert Kept(keep, rest) == [x] + k;
      assert (kept + [x]) + k == kept + ([x] + k);
    } else {
      assert Kept(keep, rest) == [] + k;
      assert [] + k == k;
    }
  }

  lemma Shift<D(!new)>(kept: Items<D>, rest: Items<D>)
    requires |rest| > 0
    ensures kept + [rest[0]] + rest[1..] == kept + rest
  {
  }

  lemma AtTail<D(!new)>(s: Items<D>)
    requires |s| > 0
    ensures At(s[1..], 0) == At(s, 1)
  {
  }

  lemma AtFirst<D(!new)>(s: Items<D>)
    ensures |s| == 0 ==> At(s, 0) == null && At(s, 1) == null
    ensures |s| > 0 ==> At(s, 0) == s[0]
  {
  }

  lemma NothingYet<D(!new)>(keep: D -> bool, s: Items<D>)
    ensures [] + s == s && [] + Kept(keep, s) == Kept(keep, s)
  {
  }

  lemma NothingLeft<D(!new)>(keep: D -> bool, kept: Items<D>, rest: Items<D>, s: Items<D>)
    requires At(rest, 0) == null && kept + Kept(keep, rest) == Kept(keep, s)
    ensures kept + rest == Kept(keep, s)
  {
  }

  lemma SortedSame<D(!new)>(cmp: Cmp<D>, s: Items<D>, t: Items<D>)
    requires StablySorted(cmp, s, t)
    ensures Nodes(s) == Nodes(t) && |s| == |t|
  {
    SameMultiset(s, t);
  }

  lemma NothingToSort<D(!new)>(cmp: Cmp<D>)
    ensures StablySorted<D>(cmp, [], [])
  {
  }

  lemma Pow2Is32Buckets()
    ensures Pow2(INITIAL_NUM_BUCKETS_LOG2) == INITIAL_NUM_BUCKETS
  {
    assert Pow2(3) == 8;
  }

  class Hash<K(==, !new), D(!new)> {
    const hash: K -> nat
    const keyOf: D -> K

    var head: Elem?<D>
    var tail: Elem?<D>
    var buckets: array<Bucket<D>>
    var numBuckets: nat
    var log2NumBuckets: nat
    var numItems: nat
    var idealChainMaxlen: nat
    var nonidealItems: nat
    var ineffExpands: nat
    var noexpand: bool

    ghost var items: Items<D>
    ghost var chains: seq<Items<D>>

    ghost predicate Valid()
      reads this, buckets, Nodes(items)
    {
      && |items| < U32
      && (head == null <==> items == [])
      && (items != [] ==>
        Listed(items, head, tail) && numItems == |items| && TableOf(items) && Hashed(items, hash, keyOf))
    }

    /** The bucket array files exactly the items of s: the bucket part of HASH_FSCK. */
    ghost predicate TableOf(s: Items<D>)
      reads this`buckets, this`numBuckets, this`log2NumBuckets, this`chains
      reads buckets, Nodes(s)`hashv, Nodes(s)`hhNext, Nodes(s)`hhPrev
    {
      && numBuckets == buckets.Length == |chains| == Pow2(log2NumBuckets)
      && Table(buckets[..], chains, Nodes(s))
    }

    /** No table yet: a null head pointer. */
    constructor (h: K -> nat, k: D -> K)
      ensures hash == h && keyOf == k
      ensures Valid() && items == [] && fresh(buckets)
    {
      hash, keyOf, head, tail, items, chains := h, k, null, null, [], [];
      buckets := new Bucket<D>[0];
      numBuckets, log2NumBuckets, numItems := 0, 0, 0;
      idealChainMaxlen, nonidealItems, ineffExpands, noexpand := 0, 0, 0, false;
    }

    /** HASH_FIND. */
    method Find(k: K) returns (out: Elem?<D>)
      requires Valid()
      ensures out == null <==> forall x :: x in items ==> keyOf(x.data) != k
      ensures out != null ==> out in items && keyOf(out.data) == k
    {
      hide Table, Listed, Hashed;
      out := null;
      if head != null {
        var hashv := hash(k);
        var bkt := hashv % numBuckets;
        FindIs(bkt, k);
        out := FindInBkt(buckets[bkt], k, hashv, chains[bkt]);
      }
    }

    lemma FindIs(bkt: nat, k: K)
      requires Valid() && items != [] && bkt == hash(k) % numBuckets
      ensures bkt < |chains| == buckets.Length
      ensures buckets[bkt].head == At(chains[bkt], 0) && HhForward(chains[bkt])
      ensures forall x :: x in chains[bkt] ==> x in items && x.hashv == hash(keyOf(x.data))
      ensures forall x :: x in items && keyOf(x.data) == k ==> x in chains[bkt]
    {
      hide HhForward, NoDup, Listed;
      DivMod(hash(k), numBuckets);
      TableParts(buckets[..], chains, Nodes(items), bkt);
    }

    /** HASH_FIND_IN_BKT. */
    method FindInBkt(bucket: Bucket<D>, k: K, hashv: nat, ghost c: Items<D>) returns (out: Elem?<D>)
      requires bucket.head == At(c, 0) && HhForward(c) && hashv == hash(k)
      requires forall x :: x in c ==> x.hashv == hash(keyOf(x.data))
      ensures out == null <==> forall x :: x in c ==> keyOf(x.data) != k
      ensures out != null ==> out in c && keyOf(out.data) == k
    {
      out := bucket.head;
      ghost var i := 0;
      while out != null
        invariant 0 <= i <= |c| && out == At(c, i)
        invariant forall j :: 0 <= j < i ==> keyOf(c[j].data) != k
        decreases |c| - i
      {
        if out.hashv == hashv && keyOf(out.data) == k {
          break;
        }
        out, i := out.hhNext, i + 1;
      }
    }

    method ResetTuning()
      modifies this`idealChainMaxlen, this`nonidealItems, this`ineffExpands, this`noexpand
      ensures idealChainMaxlen == nonidealItems == ineffExpands == 0 && !noexpand
    {
      idealChainMaxlen, nonidealItems, ineffExpands, noexpand := 0, 0, 0, false;
    }

    /** HASH_MAKE_TABLE for the first item e. */
    method MakeTable(e: Elem<D>)
      modifies this
      ensures fresh(buckets) && head == old(head) && tail == e && items == []
      ensures numItems == 0 && TableOf([]) && idealChainMaxlen == nonidealItems == ineffExpands == 0 && !noexpand
      ensures numBuckets == INITIAL_NUM_BUCKETS
    {
      hide Table, Tuned, Excess, Pow2;
      Pow2Is32Buckets();
      NoNodes<D>();
      tail := e;
      numBuckets, log2NumBuckets, numItems := INITIAL_NUM_BUCKETS, INITIAL_NUM_BUCKETS_LOG2, 0;
      ResetTuning();
      buckets := new Bucket<D>[INITIAL_NUM_BUCKETS](_ => Bucket(null, 0, 0));
      items, chains := [], seq(INITIAL_NUM_BUCKETS, _ => []);
      EmptyTable(buckets[..], 0);
      TableIsOf([]);
      hide TableOf;
    }

    /** HASH_EXPAND_BUCKETS: doubles the number of buckets. */
    method ExpandBuckets(ghost nodes: set<Elem<D>>)
      requires Table(buckets[..], chains, nodes) && numBuckets == buckets.Length == |chains| == Pow2(log2NumBuckets)
      requires nodes == Nodes(items)
      modifies this`idealChainMaxlen, this`nonidealItems, this`ineffExpands, this`noexpand
      modifies this`buckets, this`numBuckets, this`log2NumBuckets, this`chains, nodes`hhNext, nodes`hhPrev
      ensures fresh(buckets) && Table(buckets[..], chains, nodes)
      ensures numBuckets == buckets.Length == |chains| == Pow2(log2NumBuckets) == 2 * old(numBuckets)
      ensures Tuned(buckets[..], idealChainMaxlen) && nonidealItems == Excess(chains, idealChainMaxlen)
      ensures idealChainMaxlen == numItems / numBuckets + (if numItems % numBuckets != 0 then 1 else 0)
      ensures ineffExpands == if nonidealItems > numItems / 2 then old(ineffExpands) + 1 else 0
      ensures noexpand == (old(noexpand) || ineffExpands > 1)
    {
      hide Table, Tuned, Excess, Nodes, Pow2, Linked, HhForward;
      Pow2Next(log2NumBuckets);
      var newBuckets := new Bucket<D>[numBuckets * 2](_ => Bucket(null, 0, 0));
      assert (newBuckets as object) != buckets;
      idealChainMaxlen := numItems / Pow2(log2NumBuckets + 1) + (if numItems % (numBuckets * 2) != 0 then 1 else 0);
      nonidealItems := 0;
      nonidealItems, chains := MoveBuckets(buckets, newBuckets, idealChainMaxlen, chains, nodes);
      numBuckets, log2NumBuckets := numBuckets * 2, log2NumBuckets + 1;
      buckets := newBuckets;
      CountIneffective();
    }

    /** The end of the expansion: two ineffective ones in a row are the last. */
    method CountIneffective()
      modifies this`ineffExpands, this`noexpand
      ensures ineffExpands == if nonidealItems > numItems / 2 then old(ineffExpands) + 1 else 0
      ensures noexpand == (old(noexpand) || ineffExpands > 1)
    {
      ineffExpands := if nonidealItems > numItems / 2 then ineffExpands + 1 else 0;
      if ineffExpands > 1 {
        noexpand := true;
      }
    }

    /** HASH_ADD_TO_BKT. */
    method AddToBkt(e: Elem<D>, bkt: nat)
      requires TableOf(items) && e !in items && bkt == e.hashv % numBuckets < numBuckets
      modifies this, buckets, e`hhNext, e`hhPrev, Nodes(items)`hhNext, Nodes(items)`hhPrev
      ensures items == old(items) + [e] && head == old(head) && tail == old(tail) && numItems == old(numItems)
      ensures TableOf(items) && (buckets == old(buckets) || fresh(buckets))
      ensures var b := old(buckets[bkt]);
        numBuckets ==
          if b.count + 1 >= (b.expandMult + 1) * BKT_CAPACITY_THRESH && !old(noexpand) then 2 * old(numBuckets)
          else old(numBuckets)
    {
      hide Table, Tuned, Excess, Pow2, Nodes, HhForward, Linked, NoDup;
      NodesAppend(items, e);
      TableParts(buckets[..], chains, Nodes(items), bkt);
      PushInto(buckets, bkt, e, chains, Nodes(items));
      chains := chains[bkt := [e] + chains[bkt]];
      items := items + [e];
      if buckets[bkt].count >= (buckets[bkt].expandMult + 1) * BKT_CAPACITY_THRESH && !noexpand {
        ExpandBuckets(Nodes(items));
      }
    }

    /** HASH_ADD_TO_TABLE; the item e already ends the order list. */
    method AddToTable(e: Elem<D>, ghost s: Items<D>)
      requires TableOf(items) && e !in items && s == items + [e]
      requires Listed(s, head, tail) && Hashed(s, hash, keyOf)
      modifies this, buckets, e`hhNext, e`hhPrev, Nodes(items)`hhNext, Nodes(items)`hhPrev
      ensures Listed(s, head, tail) && Hashed(s, hash, keyOf)
      ensures items == s && head == old(head) && tail == old(tail) && numItems == old(numItems) + 1
      ensures TableOf(items) && (buckets == old(buckets) || fresh(buckets))
    {
      assert numBuckets > 0;
      assert allocated(s);
      hide TableOf, Listed, Hashed;
      NoItem(s);
      numItems := numItems + 1;
      DivMod(e.hashv, numBuckets);
      AddToBkt(e, e.hashv % numBuckets);
    }

    /** HASH_APPEND_LIST. */
    method AppendOrder(e: Elem<D>)
      requires Listed(items, head, tail) && e !in items
      modifies this`tail, Nodes(items)`next, e`next, e`prev
      ensures Listed(items + [e], head, tail)
    {
      hide NoDup, Forward, Backward;
      ListedEnds(items, head, tail);
      AppendList(tail, e, items);
      tail := e;
      ListedMore(items, head, e);
    }

    /** The part of HASH_ADD for an empty table. */
    method StartTable(e: Elem<D>)
      modifies this, e`next, e`prev
      ensures items == [] && Listed([e], head, tail) && TableOf([]) && numItems == 0 && fresh(buckets)
    {
      hide TableOf, Listed;
      e.next := null;
      e.prev := null;
      MakeTable(e);
      head := e;
      ListedOne(e);
    }

    /** The part of HASH_ADD that puts e at the end of the order list, in a new table if there is none. */
    method EnterOrder(e: Elem<D>, ghost s: Items<D>)
      requires s == items + [e] && e !in items && (head == null <==> items == [])
      requires items != [] ==> Listed(items, head, tail) && TableOf(items) && numItems == |items|
      modifies this, e`next, e`prev, Nodes(items)`next
      ensures items == old(items) && numItems == |items| && Listed(s, head, tail) && TableOf(items)
      ensures (buckets == old(buckets) && buckets[..] == old(buckets[..])) || fresh(buckets)
    {
      assert allocated(chains);
      assert allocated(Nodes(items));
      hide TableOf, Listed, Nodes;
      if head == null {
        StartTable(e);
        assert [] + [e] == [e];
      } else {
        AppendOrder(e);
      }
    }

    /** HASH_ADD: appends e, which is in no table. */
    method Add(e: Elem<D>)
      requires Valid() && e !in items && |items| + 1 < U32
      modifies this, buckets, e, Nodes(items)
      ensures Valid() && items == old(items) + [e]
      ensures buckets == old(buckets) || fresh(buckets)
    {
      assert allocated(Nodes(items));
      hide TableOf, Listed, Hashed, Nodes;
      ValidParts();
      hide Valid;
      ghost var s := items + [e];
      NodesAppend(items, e);
      e.hashv := hash(keyOf(e.data));
      HashedAppend(items, e, hash, keyOf);
      AddHashed(e, s);
    }

    /** HASH_ADD after the hash value is stored. */
    method AddHashed(e: Elem<D>, ghost s: Items<D>)
      requires s == items + [e] && |s| < U32 && e !in items && (head == null <==> items == [])
      requires items != [] ==> Listed(items, head, tail) && TableOf(items) && numItems == |items|
      requires Hashed(s, hash, keyOf)
      modifies this, buckets, Nodes(s)`next, Nodes(s)`prev, Nodes(s)`hhNext, Nodes(s)`hhPrev
      ensures Valid() && items == s
      ensures buckets == old(buckets) || fresh(buckets)
    {
      NodesAppend(items, e);
      assert |s| > 0;
      hide TableOf, Listed, Hashed, Nodes;
      EnterOrder(e, s);
      AddToTable(e, s);
      IsValid();
    }

    /** The table and its bucket array are no items. */
    lemma NoItem(s: Items<D>)
      ensures forall i :: 0 <= i < |s| ==> (s[i] as object) != this && (s[i] as object) != buckets
    {
    }

    lemma TableIsOf(s: Items<D>)
      requires numBuckets == buckets.Length == |chains| == Pow2(log2NumBuckets) && Table(buckets[..], chains, Nodes(s))
      ensures TableOf(s)
    {
    }

    lemma SameTable(s: Items<D>, t: Items<D>)
      requires TableOf(s) && Nodes(s) == Nodes(t)
      ensures TableOf(t)
    {
    }

    lemma HeadIs()
      requires Valid()
      ensures head == At(items, 0)
    {
    }

    /** The first item of the rest of the list leads to the second. */
    lemma NextIn(kept: Items<D>, rest: Items<D>)
      requires Valid() && items == kept + rest
      ensures |rest| > 0 ==> rest[0].next == At(rest, 1) && rest[0] in items
    {
      hide TableOf, Hashed, NoDup, Nodes;
      if |rest| > 0 {
        assert items[|kept|] == rest[0];
        assert items[|kept|].next == At(items, |kept| + 1);
      }
    }

    lemma DropMiddle(kept: Items<D>, rest: Items<D>)
      requires Valid() && items == kept + rest && |rest| > 0
      ensures NoDup(items) && Dropped(items, rest[0]) == kept + rest[1..]
    {
      hide TableOf, Hashed, NoDup, Nodes, Dropped, Forward, Backward;
      DroppedAt(items, |kept|);
      assert items[..|kept|] == kept && items[|kept|+1..] == rest[1..];
    }

    lemma ItemsDiffer()
      requires Valid()
      ensures NoDup(items)
    {
    }

    lemma ValidParts()
      requires Valid()
      ensures Hashed(items, hash, keyOf) && |items| < U32 && (head == null <==> items == [])
      ensures head != null ==> Listed(items, head, tail) && numItems == |items| && TableOf(items)
    {
    }

    lemma IsValid()
      requires 0 < |items| < U32 && numItems == |items|
      requires Listed(items, head, tail) && TableOf(items) && Hashed(items, hash, keyOf)
      ensures Valid()
    {
    }

    /** The part of HASH_DELETE_HH that takes e out of its bucket. */
    method TakeOutOfBucket(e: Elem<D>, bkt: nat)
      requires TableOf(items) && e in items && NoDup(items) && bkt == e.hashv % numBuckets < numBuckets
      modifies this`chains, buckets, Nodes(items)`hhNext, Nodes(items)`hhPrev
      ensures TableOf(Dropped(items, e))
    {
      hide Table, Pow2, Nodes, Dropped, NoDup;
      NodesDropped(items, e);
      TakeOut(buckets, bkt, e, chains, Nodes(items));
      chains := chains[bkt := Dropped(chains[bkt], e)];
    }

    /** The part of HASH_DELETE_HH after the order list is patched. */
    method TakeOutOfTable(e: Elem<D>)
      requires TableOf(items) && e in items && NoDup(items) && numItems > 0
      requires Listed(Dropped(items, e), head, tail)
      modifies this`chains, this`items, this`numItems, buckets, Nodes(items)`hhNext, Nodes(items)`hhPrev
      ensures Listed(items, head, tail) && items == Dropped(old(items), e) && numItems == old(numItems) - 1
      ensures TableOf(items)
    {
      assert numBuckets > 0;
      ghost var t := Dropped(items, e);
      assert allocated(t);
      NoItem(t);
      hide TableOf, Nodes, Dropped, NoDup, Listed;
      DivMod(e.hashv, numBuckets);
      TakeOutOfBucket(e, e.hashv % numBuckets);
      assert Listed(t, head, tail);
      items := t;
      numItems := numItems - 1;
    }

    /** The part of HASH_DELETE_HH for an item that is not alone. */
    method DeleteAmong(e: Elem<D>)
      requires Listed(items, head, tail) && TableOf(items) && e in items && |items| > 1 && numItems == |items|
      modifies this`head, this`tail, this`chains, this`items, this`numItems, buckets
      modifies Nodes(items)`next, Nodes(items)`prev, Nodes(items)`hhNext, Nodes(items)`hhPrev
      ensures Listed(items, head, tail) && TableOf(items) && items == Dropped(old(items), e)
      ensures numItems == |items| == |old(items)| - 1 > 0 && head != null
    {
      assert allocated(Nodes(items)) && allocated(Dropped(items, e));
      hide TableOf, Listed, Nodes, Dropped, NoDup, Forward, Backward;
      ghost var s := items;
      ListedEnds(s, head, tail);
      head, tail := PatchList(e, head, tail, s);
      ListedLess(s, e, head, tail);
      TakeOutOfTable(e);
    }

    /** HASH_DELETE. */
    method Delete(e: Elem<D>)
      requires Valid() && e in items
      modifies this, buckets, Nodes(items)
      ensures Valid() && items == Dropped(old(items), e)
      ensures buckets == old(buckets)
    {
      assert allocated(Nodes(items)) && allocated(Dropped(items, e));
      hide TableOf, Listed, Hashed, Nodes, Dropped, NoDup, Forward, Backward;
      ValidParts();
      hide Valid;
      ListedAlone(items, head, tail, e);
      if e.prev == null && e.next == null {
        DroppedOnly(e);
        head := null;
        items := [];
        EmptyValid();
      } else {
        ghost var s, t := items, Dropped(items, e);
        ListedEnds(s, head, tail);
        NodesDropped(s, e);
        HashedLess(s, t, hash, keyOf);
        DeleteAmong(e);
        IsValid();
      }
    }

    /** The loop of dns_cleanup: HASH_ITER with HASH_DEL of the items that are to go. */
    method DeleteUnless(keep: D -> bool)
      requires Valid()
      modifies this, buckets, Nodes(items)
      ensures Valid() && items == Kept(keep, old(items))
      ensures buckets == old(buckets)
    {
      assert allocated(Nodes(items));
      HeadIs();
      hide Valid, Kept, Nodes, At;
      var el := head;
      ghost var s := items;
      ghost var kept, rest: Items<D> := [], items;
      NothingYet(keep, items);
      AtFirst(rest);
      NextIn(kept, rest);
      var tmp := if head != null then head.next else null;
      while el != null
        invariant Valid() && items == kept + rest && buckets == old(buckets)
        invariant kept + Kept(keep, rest) == Kept(keep, s)
        invariant Nodes(items) <= Nodes(s)
        invariant el == At(rest, 0) && tmp == At(rest, 1)
        decreases |rest|
      {
        el, tmp, kept, rest := Advance(keep, el, tmp, kept, rest);
      }
      NothingLeft(keep, kept, rest, s);
    }

    /** One round of HASH_ITER: the next item is known before the current one is visited. */
    method Advance(keep: D -> bool, el0: Elem<D>, tmp0: Elem?<D>, ghost kept0: Items<D>, ghost rest0: Items<D>)
      returns (el: Elem?<D>, tmp: Elem?<D>, ghost kept: Items<D>, ghost rest: Items<D>)
      requires Valid() && items == kept0 + rest0 && el0 == At(rest0, 0) && tmp0 == At(rest0, 1)
      modifies this, buckets, Nodes(items)
      ensures Valid() && items == kept + rest && buckets == old(buckets)
      ensures kept + Kept(keep, rest) == kept0 + Kept(keep, rest0) && |rest| < |rest0|
      ensures Nodes(items) <= old(Nodes(items))
      ensures el == At(rest, 0) && tmp == At(rest, 1)
    {
      hide Valid, Kept, Nodes, At;
      AtFirst(rest0);
      KeptStep(keep, kept0, rest0);
      kept := Visit(keep, el0, kept0, rest0);
      AtTail(rest0);
      rest := rest0[1..];
      el := tmp0;
      AtFirst(rest);
      NextIn(kept, rest);
      tmp := if tmp0 != null then tmp0.next else null;
    }

    /** Deletes the visited item unless it is to be kept. */
    method Visit(keep: D -> bool, el: Elem<D>, ghost kept: Items<D>, ghost rest: Items<D>)
        returns (ghost more: Items<D>)
      requires Valid() && items == kept + rest && |rest| > 0 && el == rest[0]
      modifies this, buckets, Nodes(items)
      ensures Valid() && items == more + rest[1..] && buckets == old(buckets)
      ensures more == (if keep(el.data) then kept + [el] else kept)
      ensures Nodes(items) <= old(Nodes(items))
    {
      hide Valid, Dropped, Nodes;
      NextIn(kept, rest);
      if !keep(el.data) {
        DropMiddle(kept, rest);
        NodesDropped(items, el);
        Delete(el);
        more := kept;
      } else {
        Shift(kept, rest);
        more := kept + [el];
      }
    }

    /** HASH_SRT. */
    method Sort(cmp: Cmp<D>)
      requires Valid() && TotalPreorder(cmp)
      modifies this`head, this`tail, this`items, Nodes(items)`next, Nodes(items)`prev
      ensures Valid() && StablySorted(cmp, old(items), items)
    {
      if head != null {
        SortSome(cmp);
      } else {
        EmptyValid();
        NothingToSort(cmp);
      }
    }

    method SortSome(cmp: Cmp<D>)
      requires Valid() && TotalPreorder(cmp) && head != null
      modifies this`head, this`tail, this`items, Nodes(items)`next, Nodes(items)`prev
      ensures Valid() && StablySorted(cmp, old(items), items)
    {
      assert allocated(Nodes(items));
      hide TableOf, Listed, Hashed, Nodes, TotalPreorder, StablySorted;
      ValidParts();
      hide Valid;
      ghost var s := items;
      SortOrder(cmp);
      SortedSame(cmp, s, items);
      HashedLess(s, items, hash, keyOf);
      SameTable(s, items);
      IsValid();
    }

    method SortOrder(cmp: Cmp<D>)
      requires Listed(items, head, tail) && |items| < U32 && TotalPreorder(cmp)
      modifies this`head, this`tail, this`items, Nodes(items)`next, Nodes(items)`prev
      ensures Listed(items, head, tail) && StablySorted(cmp, old(items), items)
    {
      hide Nodes, TotalPreorder, StablySorted, NoDup, Forward, Backward;
      ghost var s := items;
      head, tail, items := SortList(cmp, head, items);
      SortedSame(cmp, s, items);
    }

    /** What HASH_FSCK checks of a table that is not empty. */
    lemma Fsck()
      requires Valid() && head != null
      ensures forall b :: 0 <= b < numBuckets ==>
        Linked(chains[b]) && buckets[b].head == At(chains[b], 0) && buckets[b].count == |chains[b]|
      ensures BucketCounts(buckets[..], numBuckets) == numItems
      ensures Forward(items) && Backward(items) && head == items[0] && tail == items[|items|-1] && numItems == |items|
      ensures forall x :: x in items ==> x in chains[x.hashv % numBuckets]
    {
      hide Linked, HhForward, Nodes;
      NodesCount(items);
      CountUpto(buckets[..], chains, numBuckets, Nodes(items));
      UptoAll(chains, Nodes(items));
      forall x | x in items ensures x in chains[x.hashv % numBuckets] {
        ItemInNodes(items, x);
      }
    }

    lemma EmptyValid()
      requires head == null && items == []
      ensures Valid()
    {
    }
  }

  lemma ItemInNodes<D(!new)>(s: Items<D>, x: Elem<D>)
    requires x in s
    ensures x in Nodes(s)
  {
  }

  /** The counts that the first n buckets store, added up. */
  ghost function BucketCounts<D(!new)>(bs: seq<Bucket<D>>, n: nat): nat
    requires n <= |bs|
  {
    if n == 0 then 0 else BucketCounts(bs, n - 1) + bs[n-1].count
  }

  lemma {:induction false} NodesCount<D(!new)>(s: Items<D>)
    requires NoDup(s)
    ensures |Nodes(s)| == |s|
  {
    if |s| > 0 {
      var t, x := s[..|s|-1], s[|s|-1];
      NodesCount(t);
      assert s == t + [x];
      NodesAppend(t, x);
    } else {
      assert Nodes(s) == {};
    }
  }

  lemma {:induction false} CountUpto<D(!new)>(bs: seq<Bucket<D>>, chains: seq<Items<D>>, n: nat, items: set<Elem<D>>)
    requires Table(bs, chains, items) && n <= |bs|
    ensures |Upto(chains, n)| == BucketCounts(bs, n)
  {
    hide Filed, Threaded;
    if n > 0 {
      CountUpto(bs, chains, n - 1, items);
      UptoApart(chains, n - 1, items);
      TableParts(bs, chains, items, n - 1);
      NodesCount(chains[n-1]);
    }
  }

  // ----- the table as a map -----

  ghost function AsMap<K(!new), D(!new)>(s: Items<D>, keyOf: D -> K): map<K, Elem<D>> {
    if |s| == 0 then map[] else AsMap(s[..|s|-1], keyOf)[keyOf(s[|s|-1].data) := s[|s|-1]]
  }

  lemma {:induction false} AsMapIs<K(!new), D(!new)>(s: Items<D>, keyOf: D -> K, k: K)
    ensures k in AsMap(s, keyOf) <==> exists i :: 0 <= i < |s| && keyOf(s[i].data) == k
    ensures k in AsMap(s, keyOf) ==> AsMap(s, keyOf)[k] in s && keyOf(AsMap(s, keyOf)[k].data) == k
  {
    if |s| > 0 {
      var t := s[..|s|-1];
      AsMapIs(t, keyOf, k);
      if keyOf(s[|s|-1].data) != k && k in AsMap(s, keyOf) {
        var i :| 0 <= i < |t| && keyOf(t[i].data) == k;
        assert s[i] == t[i];
      }
    }
  }

  /** With unique keys the map gives every item for its own key. */
  lemma MapGives<K(!new), D(!new)>(s: Items<D>, keyOf: D -> K, x: Elem<D>)
    requires UniqueKeys(s, keyOf) && x in s
    ensures keyOf(x.data) in AsMap(s, keyOf) && AsMap(s, keyOf)[keyOf(x.data)] == x
  {
    hide AsMap;
    var k := keyOf(x.data);
    AsMapIs(s, keyOf, k);
    var i :| 0 <= i < |s| && s[i] == x;
    var y := AsMap(s, keyOf)[k];
    var j :| 0 <= j < |s| && s[j] == y;
    assert i < j || j < i || i == j;
  }

  /** A result of Find is what the map holds. */
  lemma FindRefines<K(!new), D(!new)>(s: Items<D>, keyOf: D -> K, k: K, out: Elem?<D>)
    requires UniqueKeys(s, keyOf)
    requires out == null <==> forall x :: x in s ==> keyOf(x.data) != k
    requires out != null ==> out in s && keyOf(out.data) == k
    ensures out == null <==> k !in AsMap(s, keyOf)
    ensures out != null ==> out == AsMap(s, keyOf)[k]
  {
    AsMapIs(s, keyOf, k);
    if out != null {
      MapGives(s, keyOf, out);
    }
  }

  /** Adding an item with a new key keeps the keys unique and extends the map. */
  lemma AddRefines<K(!new), D(!new)>(s: Items<D>, keyOf: D -> K, e: Elem<D>)
    requires UniqueKeys(s, keyOf)
    ensures UniqueKeys(s + [e], keyOf) <==> keyOf(e.data) !in AsMap(s, keyOf)
    ensures AsMap(s + [e], keyOf) == AsMap(s, keyOf)[keyOf(e.data) := e]
  {
    var t := s + [e];
    assert t[..|s|] == s && t[|s|] == e;
    AsMapIs(s, keyOf, keyOf(e.data));
    hide AsMap;
    if keyOf(e.data) in AsMap(s, keyOf) {
      var i :| 0 <= i < |s| && keyOf(s[i].data) == keyOf(e.data);
      assert t[i] == s[i];
    }
  }

  lemma UniqueDrop<K(!new), D(!new)>(s: Items<D>, keyOf: D -> K, i: nat)
    requires UniqueKeys(s, keyOf) && i < |s|
    ensures UniqueKeys(s[..i] + s[i+1..], keyOf)
  {
    var t := s[..i] + s[i+1..];
    forall a, b | 0 <= a < b < |t| ensures keyOf(t[a].data) != keyOf(t[b].data) {
      var a', b' := if a < i then a else a + 1, if b < i then b else b + 1;
      assert t[a] == s[a'] && t[b] == s[b'];
    }
  }

  /** Deleting an item keeps the keys unique and takes its key out of the map. */
  lemma DeleteRefines<K(!new), D(!new)>(s: Items<D>, keyOf: D -> K, e: Elem<D>)
    requires UniqueKeys(s, keyOf) && NoDup(s) && e in s
    ensures UniqueKeys(Dropped(s, e), keyOf)
    ensures AsMap(Dropped(s, e), keyOf) == AsMap(s, keyOf) - {keyOf(e.data)}
  {
    hide AsMap, Dropped, UniqueKeys, NoDup;
    var t := Dropped(s, e);
    var i :| 0 <= i < |s| && s[i] == e;
    DroppedAt(s, i);
    UniqueDrop(s, keyOf, i);
    var m, n := AsMap(s, keyOf), AsMap(t, keyOf);
    forall k ensures k in n <==> k in m && k != keyOf(e.data) {
      DroppedKey(s, keyOf, i, k);
    }
    forall k | k in n ensures n[k] == m[k] {
      AsMapIs(t, keyOf, k);
      assert n[k] in s;
      MapGives(s, keyOf, n[k]);
    }
  }

  lemma DroppedKey<K(!new), D(!new)>(s: Items<D>, keyOf: D -> K, i: nat, k: K)
    requires UniqueKeys(s, keyOf) && i < |s|
    ensures k in AsMap(s[..i] + s[i+1..], keyOf) <==> k in AsMap(s, keyOf) && k != keyOf(s[i].data)
  {
    hide AsMap;
    var t := s[..i] + s[i+1..];
    AsMapIs(s, keyOf, k);
    AsMapIs(t, keyOf, k);
    if k in AsMap(t, keyOf) {
      var j :| 0 <= j < |t| && keyOf(t[j].data) == k;
      var j' := if j < i then j else j + 1;
      assert t[j] == s[j'];
      assert i < j' || j' < i;
    }
    if k in AsMap(s, keyOf) && k != keyOf(s[i].data) {
      var j' :| 0 <= j' < |s| && keyOf(s[j'].data) == k;
      var j := if j' < i then j' else j' - 1;
      assert t[j] == s[j'];
    }
  }

  lemma {:induction false} KeptIs<D(!new)>(keep: D -> bool, s: Items<D>)
    ensures Nodes(Kept(keep, s)) == set x | x in s && keep(x.data)
  {
    if |s| > 0 {
      KeptIs(keep, s[1..]);
      assert s == [s[0]] + s[1..];
      NodesKept(keep, s);
    }
  }

  lemma {:induction false} KeptShorter<D(!new)>(keep: D -> bool, s: Items<D>)
    ensures |Kept(keep, s)| <= |s|
  {
    if |s| > 0 {
      KeptShorter(keep, s[1..]);
    }
  }

  lemma NodesKept<D(!new)>(keep: D -> bool, s: Items<D>)
    requires |s| > 0
    ensures Nodes(Kept(keep, s)) == (if keep(s[0].data) then {s[0]} else {}) + Nodes(Kept(keep, s[1..]))
  {
    var k := Kept(keep, s[1..]);
    if keep(s[0].data) {
      assert Kept(keep, s) == [s[0]] + k;
    } else {
      assert Kept(keep, s) == k;
    }
  }

  lemma {:induction false} KeptUnique<K(!new), D(!new)>(keep: D -> bool, s: Items<D>, keyOf: D -> K)
    requires UniqueKeys(s, keyOf)
    ensures UniqueKeys(Kept(keep, s), keyOf)
  {
    if |s| > 0 {
      var t := s[1..];
      KeptUnique(keep, t, keyOf);
      var k := Kept(keep, t);
      assert Kept(keep, s) == if keep(s[0].data) then [s[0]] + k else k;
      forall j | 0 <= j < |k| ensures keyOf(s[0].data) != keyOf(k[j].data) {
        KeptIs(keep, t);
        assert k[j] in Nodes(k);
        var i :| 0 <= i < |t| && t[i] == k[j];
        assert s[i + 1] == k[j];
      }
    }
  }

  /** Deleting while iterating keeps the keys unique and exactly the wanted entries of the map. */
  lemma KeptRefines<K(!new), D(!new)>(keep: D -> bool, s: Items<D>, keyOf: D -> K)
    requires UniqueKeys(s, keyOf)
    ensures UniqueKeys(Kept(keep, s), keyOf)
    ensures var m := AsMap(s, keyOf);
      AsMap(Kept(keep, s), keyOf) == map k | k in m && keep(m[k].data) :: m[k]
  {
    hide AsMap, Kept, UniqueKeys;
    var t := Kept(keep, s);
    KeptUnique(keep, s, keyOf);
    var m, n := AsMap(s, keyOf), AsMap(t, keyOf);
    var w := map k | k in m && keep(m[k].data) :: m[k];
    forall k ensures k in n <==> k in w {
      KeptKey(keep, s, keyOf, k);
    }
    forall k | k in n ensures n[k] == w[k] {
      KeptKey(keep, s, keyOf, k);
    }
  }

  lemma KeptKey<K(!new), D(!new)>(keep: D -> bool, s: Items<D>, keyOf: D -> K, k: K)
    requires UniqueKeys(s, keyOf)
    ensures var m, n := AsMap(s, keyOf), AsMap(Kept(keep, s), keyOf);
      (k in n <==> k in m && keep(m[k].data)) && (k in n ==> n[k] == m[k])
  {
    hide AsMap, Kept, UniqueKeys;
    var t := Kept(keep, s);
    KeptUnique(keep, s, keyOf);
    KeptIs(keep, s);
    var m, n := AsMap(s, keyOf), AsMap(t, keyOf);
    AsMapIs(s, keyOf, k);
    AsMapIs(t, keyOf, k);
    if k in n {
      var x := n[k];
      ItemInNodes(t, x);
      MapGives(s, keyOf, x);
    }
    if k in m && keep(m[k].data) {
      var x := m[k];
      assert x in Nodes(t);
      MapGives(t, keyOf, x);
    }
  }
}
