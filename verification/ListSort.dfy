/** HASH_SRT: the bottom-up mergesort of the doubly linked list of items. */
module ListSort {
  import opened Numbers
  import opened Sequences
  import opened Orders
  import opened HashItems
  import opened MergeSorts

  /** The list merged so far: it starts at list and ends at tail, which still leads anywhere. */
  ghost predicate Merged<D(!new)>(o: Items<D>, list: Elem?<D>, tail: Elem?<D>)
    reads o`next, o`prev
  {
    Open(o) && Backward(o) && list == At(o, 0) && tail == At(o, |o| - 1)
  }

  /** Appends e to the merged list; neither input list changes. */
  method Emit<D(!new)>(e: Elem<D>, list0: Elem?<D>, tail0: Elem?<D>, ghost o: Items<D>, ghost a: Items<D>,
                ghost b: Items<D>)
    returns (list: Elem?<D>, tail: Elem?<D>)
    requires NoDup(o + [e] + a + b) && Merged(o, list0, tail0) && Open(a) && Forward(b)
    modifies Nodes(o)`next, e`prev
    ensures Merged(o + [e], list, tail) && Open(a) && Forward(b)
  {
    ghost var t := o + [e] + a + b;
    assert forall i | 0 <= i < |o| :: t[i] == o[i];
    assert t[|o|] == e;
    assert forall i | 0 <= i < |a| :: t[|o| + 1 + i] == a[i];
    assert forall i | 0 <= i < |b| :: t[|o| + 1 + |a| + i] == b[i];
    list, tail := list0, tail0;
    if tail != null {
      tail.next := e;
    } else {
      list := e;
    }
    e.prev := tail;
    tail := e;
  }

  lemma MoveUp<D(!new)>(o: Items<D>, a: Items<D>, b: Items<D>)
    requires |b| > 0 && NoDup(o + a + b)
    ensures NoDup(o + [b[0]] + a + b[1..])
  {
    var e := b[0];
    assert o + a + b == (o + a) + [e] + b[1..];
    NoDupConcat(o + a, e, b[1..]);
    NoDupDrop(o + a, e, b[1..]);
    assert o + a + b[1..] == o + (a + b[1..]);
    assert forall x :: x in o + (a + b[1..]) ==> x in o + a || x in b[1..];
    NoDupInsert(o, e, a + b[1..]);
    assert o + [e] + (a + b[1..]) == o + [e] + a + b[1..];
  }

  lemma MoveNext<D(!new)>(o: Items<D>, a: Items<D>, b: Items<D>)
    requires |a| > 0 && NoDup(o + a + b)
    ensures NoDup(o + [a[0]] + a[1..] + b)
  {
    assert o + a + b == o + [a[0]] + a[1..] + b;
  }

  lemma MergeTakesA<D(!new)>(cmp: Cmp<D>, o: Items<D>, a: Items<D>, b: Items<D>)
    requires |a| > 0 && (|b| == 0 || cmp(a[0].data, b[0].data) <= 0)
    ensures o + Merge(cmp, a, b) == o + [a[0]] + Merge(cmp, a[1..], b)
  {
    assert Merge(cmp, a, b) == [a[0]] + Merge(cmp, a[1..], b) by {
      if |b| == 0 {
        assert a == [a[0]] + a[1..];
      }
    }
    hide Merge;
  }

  lemma MergeTakesB<D(!new)>(cmp: Cmp<D>, o: Items<D>, a: Items<D>, b: Items<D>)
    requires |b| > 0 && (|a| == 0 || cmp(a[0].data, b[0].data) > 0)
    ensures o + Merge(cmp, a, b) == o + [b[0]] + Merge(cmp, a, b[1..])
  {
    assert Merge(cmp, a, b) == [b[0]] + Merge(cmp, a, b[1..]) by {
      if |a| == 0 {
        assert b == [b[0]] + b[1..];
      }
    }
    hide Merge;
  }

  lemma OpenTail<D(!new)>(a: Items<D>)
    requires |a| > 0 && Open(a)
    ensures Open(a[1..]) && (|a| > 1 ==> a[0].next == a[1])
  {
  }

  lemma ForwardTail<D(!new)>(b: Items<D>)
    requires |b| > 0 && Forward(b)
    ensures Forward(b[1..]) && b[0].next == At(b, 1) == At(b[1..], 0)
  {
  }

  /** Merging a with the first qsize items of b behind o makes goal and leaves rest. */
  ghost predicate Toward<D(!new)>(cmp: Cmp<D>, o: Items<D>, a: Items<D>, b: Items<D>, qsize: nat,
                                  goal: Items<D>, rest: Items<D>) {
    var w := Min(qsize, |b|);
    NoDup(o + a + b) && o + Merge(cmp, a, b[..w]) == goal && b[w..] == rest
  }

  /** The next item comes from the run, not from b. */
  predicate FromRun<D(!new)>(cmp: Cmp<D>, psize: nat, p: Elem?<D>, qsize: nat, q: Elem?<D>)
    requires psize != 0 ==> p != null
  {
    if psize == 0 then false
    else if qsize == 0 || q == null then true
    else cmp(p.data, q.data) <= 0
  }

  lemma TakenA<D(!new)>(cmp: Cmp<D>, o: Items<D>, a: Items<D>, b: Items<D>, qsize: nat, goal: Items<D>, rest: Items<D>)
    requires Toward(cmp, o, a, b, qsize, goal, rest) && |a| > 0 && FromRun(cmp, |a|, a[0], qsize, At(b, 0))
    ensures Toward(cmp, o + [a[0]], a[1..], b, qsize, goal, rest)
  {
    hide NoDup, Merge;
    var w := Min(qsize, |b|);
    MergeTakesA(cmp, o, a, b[..w]);
    MoveNext(o, a, b);
  }

  lemma TakenB<D(!new)>(cmp: Cmp<D>, o: Items<D>, a: Items<D>, b: Items<D>, qsize: nat, goal: Items<D>, rest: Items<D>)
    requires Toward(cmp, o, a, b, qsize, goal, rest) && |b| > 0 && qsize > 0
    requires |a| == 0 || !FromRun(cmp, |a|, a[0], qsize, b[0])
    ensures Toward(cmp, o + [b[0]], a, b[1..], qsize - 1, goal, rest)
  {
    hide NoDup, Merge;
    var w := Min(qsize, |b|);
    MergeTakesB(cmp, o, a, b[..w]);
    assert b[..w][1..] == b[1..][..w-1] && b[w..] == b[1..][w-1..];
    MoveUp(o, a, b);
  }

  lemma MergeDone<D(!new)>(cmp: Cmp<D>, o: Items<D>, a: Items<D>, b: Items<D>, qsize: nat, goal: Items<D>,
                    rest: Items<D>)
    requires Toward(cmp, o, a, b, qsize, goal, rest) && |a| == 0 && (qsize == 0 || |b| == 0)
    ensures o == goal && b == rest && NoDup(o + b)
  {
    assert o + a + b == o + b;
    assert Min(qsize, |b|) == 0;
  }

  lemma Regroup<D(!new)>(o: Items<D>, e: Elem<D>, a: Items<D>, b: Items<D>)
    ensures (o + [e]) + a + b == o + [e] + a + b
  {
  }

  /** Merges the run a at p0 with up to insize items of the list b at q0. */
  method MergeRuns<D(!new)>(cmp: Cmp<D>, p0: Elem<D>, psize0: nat, q0: Elem?<D>, insize: nat,
                            list0: Elem?<D>, tail0: Elem?<D>, ghost o0: Items<D>, ghost a0: Items<D>,
                            ghost b0: Items<D>)
    returns (list: Elem?<D>, tail: Elem?<D>, q: Elem?<D>, ghost o: Items<D>)
    requires NoDup(o0 + a0 + b0) && Merged(o0, list0, tail0) && Open(a0) && Forward(b0)
    requires psize0 == |a0| > 0 && p0 == a0[0] && q0 == At(b0, 0)
    modifies Nodes(o0 + a0 + b0)`next, Nodes(o0 + a0 + b0)`prev
    ensures var w := Min(insize, |b0|);
      o == o0 + Merge(cmp, a0, b0[..w]) && Forward(b0[w..]) && q == At(b0[w..], 0) && NoDup(o + b0[w..])
    ensures Merged(o, list, tail)
  {
    hide NoDup, Open, Forward, Merged, Merge, Toward, FromRun;
    ghost var all := o0 + a0 + b0;
    ghost var w0 := Min(insize, |b0|);
    ghost var goal, rest := o0 + Merge(cmp, a0, b0[..w0]), b0[w0..];
    var p: Elem?<D>, psize, qsize := p0, psize0, insize;
    list, tail, q, o := list0, tail0, q0, o0;
    ghost var a, b := a0, b0;
    TowardIs(cmp, o, a, b, insize);
    while psize != 0 || (qsize != 0 && q != null)
      invariant Toward(cmp, o, a, b, qsize, goal, rest)
      invariant Merged(o, list, tail) && Open(a) && Forward(b)
      invariant psize == |a| && (psize > 0 ==> p == a[0]) && q == At(b, 0)
      invariant forall x :: x in o + a + b ==> x in all
      decreases |a| + |b|
    {
      var e: Elem<D>;
      InThree(o, a, b, all);
      if FromRun(cmp, psize, p, qsize, q) {
        FromRunIs(cmp, psize, p, qsize, q);
        TakenA(cmp, o, a, b, qsize, goal, rest);
        OpenTail(a);
        assert a == [a[0]] + a[1..];
        e, p, psize := p, p.next, psize - 1;
        a := a[1..];
      } else {
        FromRunIs(cmp, psize, p, qsize, q);
        TakenB(cmp, o, a, b, qsize, goal, rest);
        ForwardTail(b);
        assert b == [b[0]] + b[1..];
        e, q, qsize := q, q.next, qsize - 1;
        b := b[1..];
      }
      TowardParts(cmp, o + [e], a, b, qsize, goal, rest);
      assert e in all;
      list, tail := Emit(e, list, tail, o, a, b);
      o := o + [e];
    }
    MergeDone(cmp, o, a, b, qsize, goal, rest);
  }

  lemma InThree<D(!new)>(o: Items<D>, a: Items<D>, b: Items<D>, all: Items<D>)
    requires forall x :: x in o + a + b ==> x in all
    ensures forall x :: x in o ==> x in all
    ensures |a| > 0 ==> a[0] in all
    ensures |b| > 0 ==> b[0] in all
  {
    assert forall x | x in o :: x in o + a + b;
    assert forall x | x in a + b :: x in o + a + b;
  }

  lemma TowardIs<D(!new)>(cmp: Cmp<D>, o: Items<D>, a: Items<D>, b: Items<D>, qsize: nat)
    requires NoDup(o + a + b)
    ensures Toward(cmp, o, a, b, qsize, o + Merge(cmp, a, b[..Min(qsize, |b|)]), b[Min(qsize, |b|)..])
  {
  }

  lemma TowardParts<D(!new)>(cmp: Cmp<D>, o: Items<D>, a: Items<D>, b: Items<D>, qsize: nat, goal: Items<D>,
                      rest: Items<D>)
    requires Toward(cmp, o, a, b, qsize, goal, rest)
    ensures NoDup(o + a + b)
  {
  }

  lemma FromRunIs<D(!new)>(cmp: Cmp<D>, psize: nat, p: Elem?<D>, qsize: nat, q: Elem?<D>)
    requires psize != 0 ==> p != null
    ensures FromRun(cmp, psize, p, qsize, q) ==> psize > 0
    ensures !FromRun(cmp, psize, p, qsize, q) ==> psize == 0 || (qsize > 0 && q != null)
  {
  }

  /** Steps q past the next run of insize items, fewer at the end of the list. */
  method CutRun<D(!new)>(p: Elem<D>, insize: nat, ghost r: Items<D>) returns (psize: nat, q: Elem?<D>)
    requires insize > 0 && |r| > 0 && p == r[0] && Forward(r)
    ensures psize == Min(insize, |r|) && q == At(r, psize)
  {
    q, psize := p, 0;
    var i := 0;
    while i < insize
      invariant i == psize <= Min(insize, |r| - 1) && q == At(r, psize)
    {
      psize := psize + 1;
      q := q.next;
      if q == null {
        break;
      }
      i := i + 1;
    }
  }

  /** How far a pass is: o is merged, r is still to do, and nmerges counts the merges up to two. */
  ghost predicate PassState<D(!new)>(cmp: Cmp<D>, s: Items<D>, k: nat, o: Items<D>, r: Items<D>, nmerges: nat)
    requires k > 0
  {
    && NoDup(o + r) && o + Pass(cmp, r, k) == Pass(cmp, s, k) && |o| + |r| == |s|
    && (nmerges == 0 ==> |o| == 0)
    && (nmerges == 1 ==> |o| == Min(2 * k, |s|))
    && (nmerges > 1 ==> |o| > 2 * k)
  }

  lemma PassStep<D(!new)>(cmp: Cmp<D>, s: Items<D>, k: nat, o: Items<D>, r: Items<D>, nmerges: nat, u: Items<D>)
    requires k > 0 && |r| > 0 && PassState(cmp, s, k, o, r, nmerges)
    requires var m := Min(k, |r|); var b := r[m..]; var w := Min(k, |b|);
      u == o + Merge(cmp, r[..m], b[..w]) && NoDup(u + b[w..])
    ensures var e := Min(2 * k, |r|); var m := Min(k, |r|);
      Min(k, |r[m..]|) == e - m && r[m..][e-m..] == r[e..] && PassState(cmp, s, k, u, r[e..], nmerges + 1)
  {
    hide NoDup, Merge, Pass;
    var m, e := Min(k, |r|), Min(2 * k, |r|);
    assert r[m..][..e-m] == r[m..e] && r[m..][e-m..] == r[e..];
    PassUnfold(cmp, o, r, k);
  }

  lemma PassUnfold<D(!new)>(cmp: Cmp<D>, o: Items<D>, r: Items<D>, k: nat)
    requires k > 0 && |r| > 0
    ensures var m, e := Min(k, |r|), Min(2 * k, |r|);
      o + Pass(cmp, r, k) == o + Merge(cmp, r[..m], r[m..e]) + Pass(cmp, r[e..], k)
  {
    hide Merge;
  }

  lemma PassDone<D(!new)>(cmp: Cmp<D>, s: Items<D>, k: nat, o: Items<D>, r: Items<D>, nmerges: nat)
    requires k > 0 && |r| == 0 && PassState(cmp, s, k, o, r, nmerges)
    ensures o == Pass(cmp, s, k) && NoDup(o) && (|s| > 0 ==> (nmerges <= 1 <==> |s| <= 2 * k))
  {
    assert o + r == o;
  }

  lemma PassBegins<D(!new)>(cmp: Cmp<D>, s: Items<D>, k: nat)
    requires k > 0 && NoDup(s)
    ensures PassState(cmp, s, k, [], s, 0)
  {
    assert [] + s == s;
  }

  lemma RunApart<D(!new)>(cmp: Cmp<D>, s: Items<D>, k: nat, o: Items<D>, r: Items<D>, nmerges: nat, m: nat)
    requires k > 0 && m <= |r| && PassState(cmp, s, k, o, r, nmerges)
    ensures NoDup(o + r[..m] + r[m..]) && Nodes(o + r[..m] + r[m..]) == Nodes(o + r)
  {
    assert o + r[..m] + r[m..] == o + r;
  }

  lemma ForwardCut<D(!new)>(r: Items<D>, m: nat)
    requires m <= |r| && Forward(r)
    ensures Open(r[..m]) && Forward(r[m..]) && At(r, m) == At(r[m..], 0)
  {
  }

  lemma MergedNodes<D(!new)>(cmp: Cmp<D>, o: Items<D>, a: Items<D>, b: Items<D>, w: nat)
    requires w <= |b|
    ensures Nodes(o + Merge(cmp, a, b[..w]) + b[w..]) == Nodes(o + a + b)
  {
    hide Merge, Nodes;
    MergeItems(cmp, a, b[..w]);
    assert b == b[..w] + b[w..];
    SameMultiset(o + Merge(cmp, a, b[..w]) + b[w..], o + a + b);
  }

  lemma SameMultiset<D(!new)>(s: Items<D>, t: Items<D>)
    requires multiset(s) == multiset(t)
    ensures Nodes(s) == Nodes(t) && |s| == |t|
  {
    forall x ensures x in s <==> x in t {
      assert x in multiset(s) <==> x in multiset(t);
    }
    assert |multiset(s)| == |s| && |multiset(t)| == |t|;
  }

  /** Cuts two runs off r and merges them behind o. */
  method MergeNext<D(!new)>(cmp: Cmp<D>, p: Elem<D>, insize: nat, first0: Elem?<D>, last0: Elem?<D>,
                            ghost s: Items<D>, ghost o0: Items<D>, ghost r: Items<D>, ghost nmerges: nat)
    returns (first: Elem?<D>, last: Elem?<D>, q: Elem?<D>, ghost o: Items<D>)
    requires insize > 0 && |r| > 0 && p == r[0]
    requires PassState(cmp, s, insize, o0, r, nmerges) && Merged(o0, first0, last0) && Forward(r)
    modifies Nodes(o0 + r)`next, Nodes(o0 + r)`prev
    ensures var rest := r[Min(2 * insize, |r|)..];
      && PassState(cmp, s, insize, o, rest, nmerges + 1) && Nodes(o + rest) == Nodes(o0 + r)
      && Forward(rest) && q == At(rest, 0)
    ensures Merged(o, first, last)
  {
    hide NoDup, Open, Forward, Backward, Merged, Merge, PassState, Pass, Nodes, At;
    var psize;
    psize, q := CutRun(p, insize, r);
    RunApart(cmp, s, insize, o0, r, nmerges, psize);
    ForwardCut(r, psize);
    RunHead(r, psize);
    first, last, q, o := MergeRuns(cmp, p, psize, q, insize, first0, last0, o0, r[..psize], r[psize..]);
    MergedNodes(cmp, o0, r[..psize], r[psize..], Min(insize, |r| - psize));
    PassStep(cmp, s, insize, o0, r, nmerges, o);
  }

  lemma RunHead<D(!new)>(r: Items<D>, m: nat)
    requires 0 < m <= |r|
    ensures |r[..m]| == m && r[..m][0] == r[0] && |r[m..]| == |r| - m
  {
  }

  /** One pass over the list s, which becomes Pass(cmp, s, insize). */
  method SortPass<D(!new)>(cmp: Cmp<D>, p0: Elem<D>, insize: nat, ghost s: Items<D>)
    returns (list: Elem<D>, tail: Elem<D>, nmerges: nat)
    requires insize > 0 && |s| > 0 && NoDup(s) && Forward(s) && p0 == s[0]
    modifies Nodes(s)`next, Nodes(s)`prev
    ensures var t := Pass(cmp, s, insize);
      NoDup(t) && Forward(t) && Backward(t) && list == t[0] && tail == t[|t|-1]
    ensures nmerges <= 1 <==> |s| <= 2 * insize
  {
    hide NoDup, Open, Forward, Backward, Merged, Merge, PassState, Pass, Nodes;
    var p: Elem?<D> := p0;
    var first: Elem?<D>, last: Elem?<D> := null, null;
    nmerges := 0;
    ghost var o: Items<D>, r := [], s;
    PassBegins(cmp, s, insize);
    NothingMerged<D>();
    assert [] + s == s;
    while p != null
      invariant PassState(cmp, s, insize, o, r, nmerges)
      invariant Merged(o, first, last) && Forward(r) && p == At(r, 0)
      invariant Nodes(o + r) == Nodes(s)
      decreases |r|
    {
      first, last, p, o := MergeNext(cmp, p, insize, first, last, s, o, r, nmerges);
      nmerges := nmerges + 1;
      r := r[Min(2 * insize, |r|)..];
    }
    PassDone(cmp, s, insize, o, r, nmerges);
    MergedEnds(o, first, last);
    list, tail := first, last;
    assert o + r == o;
    InNodes(o);
    CloseList(o, tail);
  }

  lemma NothingMerged<D(!new)>()
    ensures Merged<D>([], null, null)
  {
  }

  lemma MergedEnds<D(!new)>(o: Items<D>, list: Elem?<D>, tail: Elem?<D>)
    requires |o| > 0 && Merged(o, list, tail)
    ensures list == o[0] && tail == o[|o|-1] && Open(o) && Backward(o)
  {
  }

  lemma InNodes<D(!new)>(o: Items<D>)
    ensures |o| > 0 ==> o[|o|-1] in Nodes(o)
  {
  }

  /** Ends the merged list. */
  method CloseList<D(!new)>(ghost o: Items<D>, tail: Elem<D>)
    requires NoDup(o) && Open(o) && |o| > 0 && tail == o[|o|-1]
    modifies tail`next
    ensures Forward(o)
  {
    tail.next := null;
  }

  /** The loop over passes of doubling length, on 32-bit counters. */
  method SortList<D(!new)>(cmp: Cmp<D>, head: Elem<D>, ghost s: Items<D>)
    returns (list: Elem<D>, tail: Elem<D>, ghost t: Items<D>)
    requires TotalPreorder(cmp) && 0 < |s| < U32 && NoDup(s) && Forward(s) && head == s[0]
    modifies Nodes(s)`next, Nodes(s)`prev
    ensures StablySorted(cmp, s, t) && NoDup(t) && Forward(t) && Backward(t) && list == t[0] && tail == t[|t|-1]
  {
    hide TotalPreorder, NoDup, Forward, Backward, Alike, Runs, Ordered, Pass, Nodes;
    list, tail, t := head, head, s;
    var insize, looping := 1, true;
    RunsOfOne(cmp, s);
    SameItself(cmp, s);
    while looping
      invariant SameItems(cmp, s, t) && |t| == |s| && Nodes(t) == Nodes(s)
      invariant NoDup(t) && Forward(t) && list == t[0]
      invariant looping ==> 0 < insize && (insize == 1 || insize < |s|) && Runs(cmp, t, insize)
      invariant !looping ==> Ordered(cmp, t) && Backward(t) && tail == t[|t|-1]
      decreases looping, |s| - insize
    {
      var nmerges;
      ghost var was := t;
      PassSame(cmp, s, t, insize);
      t := Pass(cmp, t, insize);
      SameMultiset(s, t);
      list, tail, nmerges := SortPass(cmp, list, insize, was);
      if nmerges <= 1 {
        looping := false;
        OneRun(cmp, t, 2 * insize);
      }
      insize := insize * 2 % U32;
    }
  }

  lemma SameItself<D(!new)>(cmp: Cmp<D>, s: Items<D>)
    ensures SameItems(cmp, s, s)
  {
  }
}
