/** The buckets of a uthash table: each holds a chain of items. */
module HashChains {
  import opened Numbers
  import opened Sequences
  import opened HashItems
  import opened MergeSorts

  datatype Bucket<D(!new)> = Bucket(head: Elem?<D>, count: nat, expandMult: nat)

  /** The hh_next links run through c. */
  ghost predicate HhForward<D(!new)>(c: Items<D>)
    reads c`hhNext
  {
    forall i {:trigger c[i].hhNext} :: 0 <= i < |c| ==> c[i].hhNext == At(c, i + 1)
  }

  /** Both links run through c. */
  ghost predicate Linked<D(!new)>(c: Items<D>)
    reads c`hhNext, c`hhPrev
  {
    HhForward(c) && forall i {:trigger c[i].hhPrev} :: 0 <= i < |c| ==> c[i].hhPrev == At(c, i - 1)
  }

  ghost predicate Heads<D(!new)>(bs: seq<Bucket<D>>, chains: seq<Items<D>>) {
    |bs| == |chains| && forall b :: 0 <= b < |bs| ==> bs[b].head == At(chains[b], 0) && bs[b].count == |chains[b]|
  }

  /** The chains hold exactly the given items, each in the bucket its hash value selects. */
  ghost predicate Filed<D(!new)>(chains: seq<Items<D>>, items: set<Elem<D>>)
    requires |chains| > 0
    reads items`hashv
  {
    && (forall b :: 0 <= b < |chains| ==> InBucket(chains[b], b, |chains|, items))
    && (forall e :: e in items ==> e in chains[e.hashv % |chains|])
  }

  ghost predicate InBucket<D(!new)>(c: Items<D>, b: nat, n: nat, items: set<Elem<D>>)
    requires n > 0
    reads items`hashv
  {
    NoDup(c) && forall e :: e in c ==> e in items && e.hashv % n == b
  }

  /** Every chain is linked; the chains lie within items. */
  ghost predicate Threaded<D(!new)>(chains: seq<Items<D>>, items: set<Elem<D>>)
    reads items`hhNext, items`hhPrev
  {
    forall b :: 0 <= b < |chains| ==> Nodes(chains[b]) <= items && Linked(chains[b])
  }

  ghost predicate Table<D(!new)>(bs: seq<Bucket<D>>, chains: seq<Items<D>>, items: set<Elem<D>>)
    reads items`hashv, items`hhNext, items`hhPrev
  {
    |chains| > 0 && Heads(bs, chains) && Filed(chains, items) && Threaded(chains, items)
  }

  // ----- one chain -----

  /** Puts e in front of the chain c, whose first item is head. */
  method PushFront<D(!new)>(e: Elem<D>, head: Elem?<D>, ghost c: Items<D>)
    requires Linked(c) && head == At(c, 0) && e !in c && NoDup(c)
    modifies e`hhNext, e`hhPrev, Nodes(c)`hhPrev
    ensures Linked([e] + c)
  {
    e.hhNext := head;
    e.hhPrev := null;
    if head != null {
      head.hhPrev := e;
    }
  }

  /** The links of c, bridging over position j. */
  ghost predicate Bridged<D(!new)>(c: Items<D>, j: nat)
    reads c`hhNext, c`hhPrev
  {
    && (forall i {:trigger c[i].hhNext} :: 0 <= i < |c| && i != j ==>
      c[i].hhNext == At(c, if i + 1 == j then i + 2 else i + 1))
    && (forall i {:trigger c[i].hhPrev} :: 0 <= i < |c| && i != j ==>
      c[i].hhPrev == At(c, if i - 1 == j then i - 2 else i - 1))
  }

  lemma BridgedLinked<D(!new)>(c: Items<D>, j: nat)
    requires j < |c| && Bridged(c, j)
    ensures Linked(c[..j] + c[j+1..])
  {
    var d := c[..j] + c[j+1..];
    forall i | 0 <= i < |d| ensures d[i].hhNext == At(d, i + 1) && d[i].hhPrev == At(d, i - 1) {
      BridgedItem(c, j, i);
    }
  }

  lemma BridgedItem<D(!new)>(c: Items<D>, j: nat, i: nat)
    requires j < |c| && i < |c| - 1 && Bridged(c, j)
    ensures var d := c[..j] + c[j+1..]; d[i].hhNext == At(d, i + 1) && d[i].hhPrev == At(d, i - 1)
  {
    var k := if i < j then i else i + 1;
    assert c[k].hhNext == At(c, if k + 1 == j then k + 2 else k + 1);
    assert c[k].hhPrev == At(c, if k - 1 == j then k - 2 else k - 1);
  }

  /** HASH_DEL_IN_BKT: takes e out of the chain c of a bucket. */
  method DelInBkt<D(!new)>(bucket: Bucket<D>, e: Elem<D>, ghost c: Items<D>) returns (r: Bucket<D>)
    requires Linked(c) && NoDup(c) && e in c && bucket.head == At(c, 0) && bucket.count == |c|
    modifies Nodes(c)`hhNext, Nodes(c)`hhPrev
    ensures Linked(Dropped(c, e)) && r == Bucket(At(Dropped(c, e), 0), |Dropped(c, e)|, bucket.expandMult)
  {
    hide Dropped;
    ghost var j :| 0 <= j < |c| && c[j] == e;
    r := bucket.(count := bucket.count - 1);
    if r.head == e {
      r := r.(head := e.hhNext);
    }
    if e.hhPrev != null {
      e.hhPrev.hhNext := e.hhNext;
    }
    if e.hhNext != null {
      e.hhNext.hhPrev := e.hhPrev;
    }
    hide Linked, HhForward;
    BridgedLinked(c, j);
    hide Bridged;
    DroppedAt(c, j);
  }

  // ----- the whole table -----

  lemma HeadsPush<D(!new)>(bs: seq<Bucket<D>>, chains: seq<Items<D>>, b: nat, e: Elem<D>, m: nat)
    requires Heads(bs, chains) && b < |bs|
    ensures Heads(bs[b := Bucket(e, bs[b].count + 1, m)], chains[b := [e] + chains[b]])
  {
  }

  lemma FiledPush<D(!new)>(chains: seq<Items<D>>, items: set<Elem<D>>, b: nat, e: Elem<D>)
    requires |chains| > 0 && Filed(chains, items) && e !in items && b == e.hashv % |chains|
    ensures Filed(chains[b := [e] + chains[b]], items + {e})
    ensures NoDup(chains[b]) && e !in chains[b]
  {
    var n, c, more := |chains|, chains[b := [e] + chains[b]], items + {e};
    assert InBucket(chains[b], b, n, items);
    forall i | 0 <= i < n ensures InBucket(c[i], i, n, more) {
      assert InBucket(chains[i], i, n, items);
    }
    forall x | x in more ensures x in c[x.hashv % n] {
      if x == e {
        assert c[b][0] == e;
      } else {
        assert x in chains[x.hashv % n];
      }
    }
  }

  /** Chains of different buckets share no item. */
  lemma ChainsApart<D(!new)>(chains: seq<Items<D>>, items: set<Elem<D>>, b: nat, i: nat)
    requires |chains| > 0 && Filed(chains, items) && b < |chains| && i < |chains| && b != i
    ensures Nodes(chains[b]) !! Nodes(chains[i])
  {
    assert InBucket(chains[b], b, |chains|, items) && InBucket(chains[i], i, |chains|, items);
  }

  lemma ThreadedPush<D(!new)>(chains: seq<Items<D>>, items: set<Elem<D>>, b: nat, c: Items<D>, more: set<Elem<D>>)
    requires b < |chains| && items <= more && Nodes(c) <= more && Linked(c)
    requires forall i :: 0 <= i < |chains| && i != b ==> Nodes(chains[i]) <= items && Linked(chains[i])
    ensures Threaded(chains[b := c], more)
  {
  }

  lemma TableParts<D(!new)>(bs: seq<Bucket<D>>, chains: seq<Items<D>>, items: set<Elem<D>>, b: nat)
    requires Table(bs, chains, items) && b < |chains|
    ensures |bs| == |chains| && bs[b].head == At(chains[b], 0) && bs[b].count == |chains[b]|
    ensures Nodes(chains[b]) <= items && Linked(chains[b]) && NoDup(chains[b])
  {
    hide Linked;
    assert InBucket(chains[b], b, |chains|, items);
  }

  lemma TableIs<D(!new)>(bs: seq<Bucket<D>>, chains: seq<Items<D>>, items: set<Elem<D>>)
    ensures Table(bs, chains, items) <==>
      |chains| > 0 && Heads(bs, chains) && Filed(chains, items) && Threaded(chains, items)
  {
  }

  lemma OthersLinked<D(!new)>(chains: seq<Items<D>>, items: set<Elem<D>>, b: nat)
    requires |chains| > 0 && Filed(chains, items) && b < |chains| && Threaded(chains, items)
    ensures forall i :: 0 <= i < |chains| && i != b ==>
      Nodes(chains[i]) <= items && Linked(chains[i]) && Nodes(chains[i]) !! Nodes(chains[b])
  {
    hide Linked, Filed;
    forall i | 0 <= i < |chains| && i != b ensures Nodes(chains[i]) !! Nodes(chains[b]) {
      ChainsApart(chains, items, b, i);
    }
  }

  /** Counts e into its bucket b and puts it in front of the chain there. */
  method PushInto<D(!new)>(bs: array<Bucket<D>>, b: nat, e: Elem<D>, ghost chains: seq<Items<D>>,
                    ghost items: set<Elem<D>>)
    requires Table(bs[..], chains, items) && e !in items && b == e.hashv % |chains| < |chains|
    modifies bs, e`hhNext, e`hhPrev, items`hhPrev
    ensures Table(bs[..], chains[b := [e] + chains[b]], items + {e})
    ensures bs[..] == old(bs[..])[b := Bucket(e, old(bs[b].count) + 1, old(bs[b].expandMult))]
  {
    hide Table, Linked, Threaded, Filed, Heads, NoDup;
    TableIs(bs[..], chains, items);
    ghost var c := [e] + chains[b];
    TableParts(bs[..], chains, items, b);
    FiledPush(chains, items, b, e);
    HeadsPush(bs[..], chains, b, e, bs[b].expandMult);
    OthersLinked(chains, items, b);
    NodesPush(e, chains[b]);
    assert allocated(chains);
    bs[b] := bs[b].(count := bs[b].count + 1);
    PushFront(e, bs[b].head, chains[b]);
    forall i | 0 <= i < |chains| && i != b ensures Nodes(chains[i]) <= items && Linked(chains[i]) {
      assert old(Linked(chains[i])) && Nodes(chains[i]) !! Nodes(chains[b]);
    }
    bs[b] := bs[b].(head := e);
    ThreadedPush(chains, items, b, c, items + {e});
    assert bs[..] == old(bs[..])[b := Bucket(e, old(bs[b].count) + 1, old(bs[b].expandMult))];
    TableIs(bs[..], chains[b := c], items + {e});
  }

  lemma NodesPush<D(!new)>(e: Elem<D>, c: Items<D>)
    ensures Nodes([e] + c) == Nodes(c) + {e}
  {
  }

  lemma InBucketDrop<D(!new)>(c: Items<D>, b: nat, n: nat, items: set<Elem<D>>, e: Elem<D>, d: Items<D>)
    requires n > 0 && InBucket(c, b, n, items) && NoDup(d)
    requires Nodes(d) == Nodes(c) - {e}
    ensures InBucket(d, b, n, items - {e})
  {
    hide NoDup;
    forall y | y in d ensures y in items - {e} && y.hashv % n == b {
      assert y in Nodes(d);
    }
  }

  lemma InBucketLess<D(!new)>(c: Items<D>, b: nat, n: nat, items: set<Elem<D>>, e: Elem<D>)
    requires n > 0 && InBucket(c, b, n, items) && e.hashv % n != b
    ensures InBucket(c, b, n, items - {e})
  {
    hide NoDup;
  }

  lemma FiledDrop<D(!new)>(chains: seq<Items<D>>, items: set<Elem<D>>, b: nat, e: Elem<D>)
    requires |chains| > 0 && Filed(chains, items) && e in items && b == e.hashv % |chains|
    ensures e in chains[b] && NoDup(chains[b]) && Filed(chains[b := Dropped(chains[b], e)], items - {e})
    ensures Nodes(Dropped(chains[b], e)) == Nodes(chains[b]) - {e}
  {
    hide Dropped;
    var n, c, less := |chains|, chains[b := Dropped(chains[b], e)], items - {e};
    assert InBucket(chains[b], b, n, items);
    DroppedFacts(chains[b], e);
    InBucketDrop(chains[b], b, n, items, e, c[b]);
    forall i | 0 <= i < n ensures InBucket(c[i], i, n, less) {
      assert InBucket(chains[i], i, n, items);
      if i != b {
        InBucketLess(chains[i], i, n, items, e);
      }
    }
    hide InBucket, NoDup;
    forall x | x in less ensures x in c[x.hashv % n] {
      assert x in chains[x.hashv % n];
      if x.hashv % n == b {
        assert x in Nodes(chains[b]) - {e};
      }
    }
  }

  lemma HeadsDrop<D(!new)>(bs: seq<Bucket<D>>, chains: seq<Items<D>>, b: nat, c: Items<D>, m: nat)
    requires Heads(bs, chains) && b < |bs|
    ensures Heads(bs[b := Bucket(At(c, 0), |c|, m)], chains[b := c])
  {
  }

  lemma ThreadedDrop<D(!new)>(chains: seq<Items<D>>, items: set<Elem<D>>, b: nat, c: Items<D>, e: Elem<D>)
    requires b < |chains| && Filed(chains[b := c], items - {e}) && Linked(c)
    requires forall i :: 0 <= i < |chains| && i != b ==> Linked(chains[i])
    ensures Threaded(chains[b := c], items - {e})
  {
    hide Linked;
    var d := chains[b := c];
    forall i | 0 <= i < |d| ensures Nodes(d[i]) <= items - {e} && Linked(d[i]) {
      assert InBucket(d[i], i, |d|, items - {e});
    }
  }

  /** Takes e out of its bucket b. */
  method TakeOut<D(!new)>(bs: array<Bucket<D>>, b: nat, e: Elem<D>, ghost chains: seq<Items<D>>,
                   ghost items: set<Elem<D>>)
    requires Table(bs[..], chains, items) && e in items && b == e.hashv % |chains| < |chains|
    modifies bs, items`hhNext, items`hhPrev
    ensures Table(bs[..], chains[b := Dropped(chains[b], e)], items - {e})
  {
    hide Table, Linked, Threaded, Filed, Heads, NoDup, Dropped;
    TableIs(bs[..], chains, items);
    ghost var c := Dropped(chains[b], e);
    TableParts(bs[..], chains, items, b);
    FiledDrop(chains, items, b, e);
    HeadsDrop(bs[..], chains, b, c, bs[b].expandMult);
    OthersLinked(chains, items, b);
    assert allocated(chains);
    var bucket := DelInBkt(bs[b], e, chains[b]);
    forall i | 0 <= i < |chains| && i != b ensures Linked(chains[i]) {
      assert old(Linked(chains[i])) && Nodes(chains[i]) !! Nodes(chains[b]);
    }
    bs[b] := bucket;
    ThreadedDrop(chains, items, b, c, e);
    assert bs[..] == old(bs[..])[b := Bucket(At(c, 0), |c|, old(bs[b].expandMult))];
    TableIs(bs[..], chains[b := c], items - {e});
  }

  // ----- doubling -----

  /** How many items of a chain of the given length are beyond the ideal length. */
  function Over(count: nat, ideal: nat): nat {
    if count > ideal then count - ideal else 0
  }

  ghost function Excess<D(!new)>(chains: seq<Items<D>>, ideal: nat): nat {
    if |chains| == 0 then 0 else Excess(chains[..|chains|-1], ideal) + Over(|chains[|chains|-1]|, ideal)
  }

  /** The expansion multiplier after that many items were put into an empty bucket. */
  function Multiplier(count: nat, ideal: nat): nat {
    if count == 0 then 0
    else
      var m := Multiplier(count - 1, ideal);
      if count > ideal && count > m * ideal then m + 1 else m
  }

  ghost predicate Tuned<D(!new)>(bs: seq<Bucket<D>>, ideal: nat) {
    forall b :: 0 <= b < |bs| ==> bs[b].expandMult == Multiplier(bs[b].count, ideal)
  }

  lemma {:induction false} ExcessUpdate<D(!new)>(chains: seq<Items<D>>, b: nat, c: Items<D>, ideal: nat)
    requires b < |chains|
    ensures Excess(chains[b := c], ideal) + Over(|chains[b]|, ideal) == Excess(chains, ideal) + Over(|c|, ideal)
  {
    var n := |chains| - 1;
    var d := chains[b := c];
    if b == n {
      assert d[..n] == chains[..n];
    } else {
      ExcessUpdate(chains[..n], b, c, ideal);
      assert d[..n] == chains[..n][b := c];
    }
  }

  lemma TunedStep<D(!new)>(bs: seq<Bucket<D>>, ideal: nat, b: nat, r: Bucket<D>)
    requires Tuned(bs, ideal) && b < |bs| && r.count == bs[b].count + 1
    requires var m := bs[b].expandMult; r.expandMult == if r.count > ideal && r.count > m * ideal then m + 1 else m
    ensures Tuned(bs[b := r], ideal)
  {
  }

  lemma HeadsMultiplied<D(!new)>(bs: seq<Bucket<D>>, chains: seq<Items<D>>, items: set<Elem<D>>, b: nat, m: nat)
    requires Table(bs, chains, items) && b < |bs|
    ensures Table(bs[b := bs[b].(expandMult := m)], chains, items)
  {
    hide Filed, Threaded;
  }

  /** Puts e, which is not in the new table yet, into the new bucket its hash value selects. */
  method Rehash<D(!new)>(e: Elem<D>, bs: array<Bucket<D>>, ideal: nat, nonideal0: nat,
                  ghost nc0: seq<Items<D>>, ghost done: set<Elem<D>>)
    returns (nonideal: nat, ghost nc: seq<Items<D>>)
    requires Table(bs[..], nc0, done) && e !in done && Tuned(bs[..], ideal) && nonideal0 == Excess(nc0, ideal)
    modifies bs, e`hhNext, e`hhPrev, done`hhPrev
    ensures |nc| == |nc0| && Table(bs[..], nc, done + {e}) && Tuned(bs[..], ideal) && nonideal == Excess(nc, ideal)
  {
    hide Table, Excess, Multiplier, Tuned;
    TableIs(bs[..], nc0, done);
    nonideal := nonideal0;
    TableParts(bs[..], nc0, done, 0);
    var b := e.hashv % bs.Length;
    TableParts(bs[..], nc0, done, b);
    nc := nc0[b := [e] + nc0[b]];
    ExcessUpdate(nc0, b, nc[b], ideal);
    ghost var was := bs[..];
    PushInto(bs, b, e, nc0, done);
    if bs[b].count > ideal {
      nonideal := nonideal + 1;
      if bs[b].count > bs[b].expandMult * ideal {
        HeadsMultiplied(bs[..], nc, done + {e}, b, bs[b].expandMult + 1);
        ghost var mid := bs[..];
        bs[b] := bs[b].(expandMult := bs[b].expandMult + 1);
        assert bs[..] == mid[b := bs[b]];
      }
    }
    TunedStep(was, ideal, b, bs[b]);
    assert bs[..] == was[b := bs[b]];
  }

  lemma ChainHead<D(!new)>(r: Items<D>, done: set<Elem<D>>)
    requires |r| > 0 && NoDup(r) && HhForward(r) && Nodes(r) !! done
    ensures r[0].hhNext == At(r[1..], 0) && HhForward(r[1..]) && NoDup(r[1..]) && r[0] !in done
    ensures Nodes(r[1..]) !! done + {r[0]} && done + {r[0]} + Nodes(r[1..]) == done + Nodes(r)
  {
    assert r == [r[0]] + r[1..];
  }

  /** The inner loop of HASH_EXPAND_BUCKETS: moves the old chain c to the new buckets. */
  method MoveChain<D(!new)>(head: Elem?<D>, bs: array<Bucket<D>>, ideal: nat, nonideal0: nat,
                            ghost c: Items<D>, ghost nc0: seq<Items<D>>, ghost done0: set<Elem<D>>)
    returns (nonideal: nat, ghost nc: seq<Items<D>>)
    requires Table(bs[..], nc0, done0) && Tuned(bs[..], ideal) && nonideal0 == Excess(nc0, ideal)
    requires NoDup(c) && HhForward(c) && head == At(c, 0) && Nodes(c) !! done0
    modifies bs, (done0 + Nodes(c))`hhNext, (done0 + Nodes(c))`hhPrev
    ensures |nc| == |nc0| && Table(bs[..], nc, done0 + Nodes(c)) && Tuned(bs[..], ideal)
    ensures nonideal == Excess(nc, ideal)
  {
    hide Table, Excess, Multiplier, Tuned, HhForward, NoDup;
    var thh := head;
    ghost var r, done: set<Elem<D>> := c, done0;
    nonideal, nc := nonideal0, nc0;
    while thh != null
      invariant |nc| == |nc0| && Table(bs[..], nc, done) && Tuned(bs[..], ideal) && nonideal == Excess(nc, ideal)
      invariant NoDup(r) && HhForward(r) && thh == At(r, 0) && Nodes(r) !! done
      invariant done + Nodes(r) == done0 + Nodes(c)
      decreases |r|
    {
      var next := thh.hhNext;
      ChainHead(r, done);
      var e: Elem<D> := thh;
      assert e in done0 + Nodes(c) && done <= done0 + Nodes(c);
      assert e !in r[1..] by { assert e !in Nodes(r[1..]); }
      nonideal, nc := Rehash(e, bs, ideal, nonideal, nc, done);
      r, done := r[1..], done + {e};
      thh := next;
    }
    assert done + Nodes(r) == done;
  }

  /** The items in the first n chains. */
  ghost function Upto<D(!new)>(chains: seq<Items<D>>, n: nat): set<Elem<D>>
    requires n <= |chains|
  {
    if n == 0 then {} else Upto(chains, n - 1) + Nodes(chains[n-1])
  }

  lemma {:induction false} UptoIs<D(!new)>(chains: seq<Items<D>>, n: nat, items: set<Elem<D>>)
    requires 0 < |chains| && n <= |chains| && Filed(chains, items)
    ensures Upto(chains, n) == set e | e in items && e.hashv % |chains| < n
  {
    if n > 0 {
      UptoIs(chains, n - 1, items);
      assert InBucket(chains[n-1], n - 1, |chains|, items);
    }
  }

  lemma UptoAll<D(!new)>(chains: seq<Items<D>>, items: set<Elem<D>>)
    requires 0 < |chains| && Filed(chains, items)
    ensures Upto(chains, |chains|) == items
  {
    UptoIs(chains, |chains|, items);
    forall e | e in items ensures e.hashv % |chains| < |chains| {
      DivMod(e.hashv, |chains|);
    }
  }

  /** Later chains hold none of the items of the first n. */
  lemma UptoApart<D(!new)>(chains: seq<Items<D>>, n: nat, items: set<Elem<D>>)
    requires 0 < |chains| && n < |chains| && Filed(chains, items)
    ensures forall b :: n <= b < |chains| ==> Nodes(chains[b]) !! Upto(chains, n)
    ensures Upto(chains, n) <= items
  {
    UptoIs(chains, n, items);
    forall b | n <= b < |chains| ensures Nodes(chains[b]) !! Upto(chains, n) {
      assert InBucket(chains[b], b, |chains|, items);
    }
  }

  lemma EmptyTable<D(!new)>(bs: seq<Bucket<D>>, ideal: nat)
    requires |bs| > 0 && forall b :: 0 <= b < |bs| ==> bs[b] == Bucket(null, 0, 0)
    ensures Table(bs, seq(|bs|, _ => []), {}) && Tuned(bs, ideal) && Excess(seq<Items<D>>(|bs|, _ => []), ideal) == 0
  {
    NoExcess(seq<Items<D>>(|bs|, _ => []), ideal);
  }

  lemma {:induction false} NoExcess<D(!new)>(chains: seq<Items<D>>, ideal: nat)
    requires forall b :: 0 <= b < |chains| ==> chains[b] == []
    ensures Excess(chains, ideal) == 0
  {
    if |chains| > 0 {
      NoExcess(chains[..|chains|-1], ideal);
    }
  }

  lemma UptoStep<D(!new)>(chains: seq<Items<D>>, n: nat)
    requires n < |chains|
    ensures Upto(chains, 0) == {} && Upto(chains, n + 1) == Upto(chains, n) + Nodes(chains[n])
  {
  }

  /** The chains from b on still have their old links. */
  ghost predicate ForwardFrom<D(!new)>(chains: seq<Items<D>>, n: nat, items: set<Elem<D>>)
    requires n <= |chains|
    reads items`hhNext
  {
    forall b :: n <= b < |chains| ==> Nodes(chains[b]) <= items && HhForward(chains[b])
  }

  /** The outer loop of HASH_EXPAND_BUCKETS; bs is a new array of empty buckets. */
  method MoveBuckets<D(!new)>(buckets: array<Bucket<D>>, bs: array<Bucket<D>>, ideal: nat,
                              ghost chains: seq<Items<D>>, ghost items: set<Elem<D>>)
    returns (nonideal: nat, ghost nc: seq<Items<D>>)
    requires Table(buckets[..], chains, items) && buckets != bs && bs.Length > 0
    requires forall b :: 0 <= b < bs.Length ==> bs[b] == Bucket(null, 0, 0)
    modifies bs, items`hhNext, items`hhPrev
    ensures |nc| == bs.Length && Table(bs[..], nc, items) && Tuned(bs[..], ideal) && nonideal == Excess(nc, ideal)
  {
    hide Table, Filed, HhForward, NoDup, Tuned, Excess, Upto, Nodes, Threaded;
    nonideal, nc := 0, seq(bs.Length, _ => []);
    EmptyTable(bs[..], ideal);
    ForwardReady(buckets[..], chains, items);
    UptoStep(chains, 0);
    var i := 0;
    while i < buckets.Length
      invariant 0 <= i <= |chains| == buckets.Length && |nc| == bs.Length
      invariant buckets[..] == old(buckets[..]) && Filed(chains, items)
      invariant Table(bs[..], nc, Upto(chains, i)) && Tuned(bs[..], ideal) && nonideal == Excess(nc, ideal)
      invariant ForwardFrom(chains, i, items)
    {
      nonideal, nc := MoveBucket(buckets[i].head, i, bs, ideal, nonideal, chains, items, nc);
      i := i + 1;
    }
    UptoAll(chains, items);
  }

  lemma ForwardReady<D(!new)>(bs: seq<Bucket<D>>, chains: seq<Items<D>>, items: set<Elem<D>>)
    requires Table(bs, chains, items)
    ensures Filed(chains, items) && ForwardFrom(chains, 0, items) && |bs| == |chains| > 0
    ensures forall b :: 0 <= b < |chains| ==> bs[b].head == At(chains[b], 0)
  {
    hide Filed, HhForward;
  }

  method MoveBucket<D(!new)>(head: Elem?<D>, i: nat, bs: array<Bucket<D>>, ideal: nat, nonideal0: nat,
                             ghost chains: seq<Items<D>>, ghost items: set<Elem<D>>, ghost nc0: seq<Items<D>>)
    returns (nonideal: nat, ghost nc: seq<Items<D>>)
    requires i < |chains| && head == At(chains[i], 0) && Filed(chains, items) && ForwardFrom(chains, i, items)
    requires Table(bs[..], nc0, Upto(chains, i)) && Tuned(bs[..], ideal) && nonideal0 == Excess(nc0, ideal)
    modifies bs, items`hhNext, items`hhPrev
    ensures |nc| == |nc0| && Table(bs[..], nc, Upto(chains, i + 1)) && Tuned(bs[..], ideal)
    ensures nonideal == Excess(nc, ideal)
    ensures ForwardFrom(chains, i + 1, items)
  {
    hide Table, Filed, HhForward, NoDup, Tuned, Excess, Upto;
    UptoApart(chains, i, items);
    UptoStep(chains, i);
    FiledApart(chains, items, i);
    assert allocated(chains);
    ghost var done := Upto(chains, i);
    nonideal, nc := MoveChain(head, bs, ideal, nonideal0, chains[i], nc0, done);
    forall b | i < b < |chains| ensures HhForward(chains[b]) {
      assert old(HhForward(chains[b])) && Nodes(chains[b]) !! Nodes(chains[i]) && Nodes(chains[b]) !! done;
    }
  }

  lemma FiledApart<D(!new)>(chains: seq<Items<D>>, items: set<Elem<D>>, i: nat)
    requires i < |chains| && Filed(chains, items)
    ensures NoDup(chains[i]) && Nodes(chains[i]) <= items
    ensures forall b :: i < b < |chains| ==> Nodes(chains[b]) !! Nodes(chains[i])
  {
    assert InBucket(chains[i], i, |chains|, items);
    forall b | i < b < |chains| ensures Nodes(chains[b]) !! Nodes(chains[i]) {
      ChainsApart(chains, items, i, b);
    }
  }
}
