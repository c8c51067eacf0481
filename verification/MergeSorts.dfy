/** What a bottom-up mergesort of a list computes, and why it is a stable sort. */
module MergeSorts {
  import opened Orders
  import opened HashItems

  type Items<D(!new)> = seq<Elem<D>>

  ghost predicate Ordered<D(!new)>(cmp: Cmp<D>, s: Items<D>) {
    forall i, j :: 0 <= i < j < |s| ==> Le(cmp, s[i].data, s[j].data)
  }

  /** The items that compare equal to x, in order. */
  ghost function Alike<D(!new)>(cmp: Cmp<D>, x: D, s: Items<D>): Items<D> {
    if |s| == 0 then [] else (if cmp(s[0].data, x) == 0 then [s[0]] else []) + Alike(cmp, x, s[1..])
  }

  /** t is s sorted, and items that compare equal keep their order. */
  ghost predicate StablySorted<D(!new)>(cmp: Cmp<D>, s: Items<D>, t: Items<D>) {
    Ordered(cmp, t) && SameItems(cmp, s, t)
  }

  ghost predicate SameItems<D(!new)>(cmp: Cmp<D>, s: Items<D>, t: Items<D>) {
    multiset(s) == multiset(t) && forall x :: Alike(cmp, x, s) == Alike(cmp, x, t)
  }

  ghost function Merge<D(!new)>(cmp: Cmp<D>, a: Items<D>, b: Items<D>): (r: Items<D>)
    ensures |r| == |a| + |b|
    decreases |a| + |b|
  {
    if |a| == 0 then b
    else if |b| == 0 then a
    else if cmp(a[0].data, b[0].data) <= 0 then [a[0]] + Merge(cmp, a[1..], b)
    else [b[0]] + Merge(cmp, a, b[1..])
  }

  function Min(m: nat, n: nat): nat {
    if m <= n then m else n
  }

  /** One pass: neighbouring runs of length k are merged. */
  ghost function Pass<D(!new)>(cmp: Cmp<D>, s: Items<D>, k: nat): (r: Items<D>)
    requires k > 0
    ensures |r| == |s|
    decreases |s|
  {
    if |s| == 0 then []
    else
      var m, e := Min(k, |s|), Min(2 * k, |s|);
      Merge(cmp, s[..m], s[m..e]) + Pass(cmp, s[e..], k)
  }

  /** Each run of length k is sorted. */
  ghost predicate Runs<D(!new)>(cmp: Cmp<D>, s: Items<D>, k: nat)
    requires k > 0
    decreases |s|
  {
    |s| == 0 || (Ordered(cmp, s[..Min(k, |s|)]) && Runs(cmp, s[Min(k, |s|)..], k))
  }

  // ----- merging -----

  lemma {:induction false} AlikeConcat<D(!new)>(cmp: Cmp<D>, x: D, a: Items<D>, b: Items<D>)
    ensures Alike(cmp, x, a + b) == Alike(cmp, x, a) + Alike(cmp, x, b)
  {
    if |a| == 0 {
      assert a + b == b;
    } else {
      assert (a + b)[1..] == a[1..] + b;
      AlikeConcat(cmp, x, a[1..], b);
    }
  }

  lemma {:induction false} MergeItems<D(!new)>(cmp: Cmp<D>, a: Items<D>, b: Items<D>)
    ensures multiset(Merge(cmp, a, b)) == multiset(a) + multiset(b)
    decreases |a| + |b|
  {
    if |a| == 0 || |b| == 0 {
    } else if cmp(a[0].data, b[0].data) <= 0 {
      assert a == [a[0]] + a[1..];
      MergeItems(cmp, a[1..], b);
    } else {
      assert b == [b[0]] + b[1..];
      MergeItems(cmp, a, b[1..]);
    }
  }

  lemma {:induction false} MergeOrdered<D(!new)>(cmp: Cmp<D>, a: Items<D>, b: Items<D>)
    requires TotalPreorder(cmp) && Ordered(cmp, a) && Ordered(cmp, b)
    ensures Ordered(cmp, Merge(cmp, a, b))
    decreases |a| + |b|
  {
    if |a| == 0 || |b| == 0 {
    } else if cmp(a[0].data, b[0].data) <= 0 {
      MergeOrdered(cmp, a[1..], b);
      MergeItems(cmp, a[1..], b);
      LeastOf(cmp, a[0], b);
      LeastFirst(cmp, a[0], a[1..], b, Merge(cmp, a[1..], b));
    } else {
      MergeOrdered(cmp, a, b[1..]);
      MergeItems(cmp, a, b[1..]);
      NotLess(cmp, b[0].data, a[0].data);
      LeastOf(cmp, b[0], a);
      LeastFirst(cmp, b[0], a, b[1..], Merge(cmp, a, b[1..]));
    }
  }

  lemma LeastOf<D(!new)>(cmp: Cmp<D>, x: Elem<D>, s: Items<D>)
    requires TotalPreorder(cmp) && Ordered(cmp, s) && |s| > 0 && Le(cmp, x.data, s[0].data)
    ensures forall i :: 0 <= i < |s| ==> Le(cmp, x.data, s[i].data)
  {
    forall i | 0 < i < |s| ensures Le(cmp, x.data, s[i].data) {
      LeTrans(cmp, x.data, s[0].data, s[i].data);
    }
  }

  lemma LeastFirst<D(!new)>(cmp: Cmp<D>, x: Elem<D>, a: Items<D>, b: Items<D>, m: Items<D>)
    requires multiset(m) == multiset(a) + multiset(b) && Ordered(cmp, m)
    requires forall i :: 0 <= i < |a| ==> Le(cmp, x.data, a[i].data)
    requires forall i :: 0 <= i < |b| ==> Le(cmp, x.data, b[i].data)
    ensures Ordered(cmp, [x] + m)
  {
    forall j | 0 <= j < |m| ensures Le(cmp, x.data, m[j].data) {
      assert m[j] in multiset(m);
      assert m[j] in a || m[j] in b;
    }
  }

  /** Everything in s comes after x. */
  lemma {:induction false} NoneAlike<D(!new)>(cmp: Cmp<D>, x: D, s: Items<D>)
    requires forall i :: 0 <= i < |s| ==> cmp(s[i].data, x) != 0
    ensures Alike(cmp, x, s) == []
  {
    if |s| > 0 {
      NoneAlike(cmp, x, s[1..]);
    }
  }

  /** Merging is stable: what compares equal is taken from a before b. */
  lemma {:induction false} MergeStable<D(!new)>(cmp: Cmp<D>, x: D, a: Items<D>, b: Items<D>)
    requires TotalPreorder(cmp) && Ordered(cmp, a) && Ordered(cmp, b)
    ensures Alike(cmp, x, Merge(cmp, a, b)) == Alike(cmp, x, a) + Alike(cmp, x, b)
    decreases |a| + |b|
  {
    MergeStep(cmp, a, b);
    hide Merge, Alike, TotalPreorder, Ordered;
    if |a| == 0 || |b| == 0 {
      AlikeConcat(cmp, x, a, b);
      assert a + b == Merge(cmp, a, b);
    } else if cmp(a[0].data, b[0].data) <= 0 {
      OrderedTail(cmp, a);
      MergeStable(cmp, x, a[1..], b);
      AlikeFirst(cmp, x, a[0], Merge(cmp, a[1..], b));
      AlikeFirst(cmp, x, a[0], a[1..]);
      assert a == [a[0]] + a[1..];
    } else {
      OrderedTail(cmp, b);
      MergeStable(cmp, x, a, b[1..]);
      AlikeFirst(cmp, x, b[0], Merge(cmp, a, b[1..]));
      AlikeFirst(cmp, x, b[0], b[1..]);
      assert b == [b[0]] + b[1..];
      if cmp(b[0].data, x) == 0 {
        forall i | 0 <= i < |a| ensures cmp(a[i].data, x) != 0 {
          LaterUnlike(cmp, a, i, b[0].data, x);
        }
        NoneAlike(cmp, x, a);
      }
    }
  }

  lemma MergeStep<D(!new)>(cmp: Cmp<D>, a: Items<D>, b: Items<D>)
    ensures |a| == 0 || |b| == 0 ==> Merge(cmp, a, b) == a + b
    ensures |a| > 0 && |b| > 0 ==>
      Merge(cmp, a, b) ==
      if cmp(a[0].data, b[0].data) <= 0 then [a[0]] + Merge(cmp, a[1..], b) else [b[0]] + Merge(cmp, a, b[1..])
  {
  }

  lemma OrderedTail<D(!new)>(cmp: Cmp<D>, s: Items<D>)
    requires Ordered(cmp, s) && |s| > 0
    ensures Ordered(cmp, s[1..])
  {
  }

  lemma AlikeFirst<D(!new)>(cmp: Cmp<D>, x: D, e: Elem<D>, s: Items<D>)
    ensures Alike(cmp, x, [e] + s) == (if cmp(e.data, x) == 0 then [e] else []) + Alike(cmp, x, s)
  {
    assert ([e] + s)[1..] == s;
  }

  lemma LaterUnlike<D(!new)>(cmp: Cmp<D>, a: Items<D>, i: nat, y: D, x: D)
    requires TotalPreorder(cmp) && Ordered(cmp, a) && i < |a| && cmp(a[0].data, y) > 0 && cmp(y, x) == 0
    ensures cmp(a[i].data, x) != 0
  {
    if cmp(a[i].data, x) == 0 {
      LeRefl(cmp, a[0].data);
      assert false;
    }
  }

  // ----- passes -----

  lemma {:induction false} PassItems<D(!new)>(cmp: Cmp<D>, s: Items<D>, k: nat)
    requires k > 0
    ensures multiset(Pass(cmp, s, k)) == multiset(s)
    decreases |s|
  {
    if |s| > 0 {
      hide Merge;
      var m, e := Min(k, |s|), Min(2 * k, |s|);
      assert s == s[..e] + s[e..] && s[..e] == s[..m] + s[m..e];
      MergeItems(cmp, s[..m], s[m..e]);
      PassItems(cmp, s[e..], k);
    }
  }

  lemma RunsTwo<D(!new)>(cmp: Cmp<D>, s: Items<D>, k: nat)
    requires k > 0 && |s| > 0 && Runs(cmp, s, k)
    ensures var m, e := Min(k, |s|), Min(2 * k, |s|);
      Ordered(cmp, s[..m]) && Ordered(cmp, s[m..e]) && Runs(cmp, s[e..], k)
  {
    var m, e := Min(k, |s|), Min(2 * k, |s|);
    var t := s[m..];
    if |t| > 0 {
      assert t[..Min(k, |t|)] == s[m..e] && t[Min(k, |t|)..] == s[e..];
    } else {
      assert s[m..e] == [] && s[e..] == [];
    }
  }

  lemma {:induction false} PassStable<D(!new)>(cmp: Cmp<D>, x: D, s: Items<D>, k: nat)
    requires k > 0 && TotalPreorder(cmp) && Runs(cmp, s, k)
    ensures Alike(cmp, x, Pass(cmp, s, k)) == Alike(cmp, x, s)
    decreases |s|
  {
    if |s| > 0 {
      hide Runs, Ordered, TotalPreorder, Alike;
      var m, e := Min(k, |s|), Min(2 * k, |s|);
      RunsTwo(cmp, s, k);
      MergeStable(cmp, x, s[..m], s[m..e]);
      PassStable(cmp, x, s[e..], k);
      AlikeConcat(cmp, x, Merge(cmp, s[..m], s[m..e]), Pass(cmp, s[e..], k));
      AlikeThree(cmp, x, s, m, e);
    }
  }

  lemma AlikeThree<D(!new)>(cmp: Cmp<D>, x: D, s: Items<D>, m: nat, e: nat)
    requires m <= e <= |s|
    ensures Alike(cmp, x, s) == Alike(cmp, x, s[..m]) + Alike(cmp, x, s[m..e]) + Alike(cmp, x, s[e..])
  {
    hide Alike;
    AlikeConcat(cmp, x, s[..m], s[m..e]);
    AlikeConcat(cmp, x, s[..e], s[e..]);
    assert s == s[..e] + s[e..] && s[..e] == s[..m] + s[m..e];
  }

  /** A pass doubles the length of the sorted runs. */
  lemma {:induction false} PassRuns<D(!new)>(cmp: Cmp<D>, s: Items<D>, k: nat)
    requires k > 0 && TotalPreorder(cmp) && Runs(cmp, s, k)
    ensures Runs(cmp, Pass(cmp, s, k), 2 * k)
    decreases |s|
  {
    if |s| > 0 {
      var m, e := Min(k, |s|), Min(2 * k, |s|);
      RunsTwo(cmp, s, k);
      MergeOrdered(cmp, s[..m], s[m..e]);
      PassRuns(cmp, s[e..], k);
      var a, b := Merge(cmp, s[..m], s[m..e]), Pass(cmp, s[e..], k);
      assert |a| == e;
      assert (a + b)[..e] == a && (a + b)[e..] == b;
    }
  }

  lemma {:induction false} RunsOfOne<D(!new)>(cmp: Cmp<D>, s: Items<D>)
    ensures Runs(cmp, s, 1)
  {
    if |s| > 0 {
      RunsOfOne(cmp, s[1..]);
    }
  }

  lemma OneRun<D(!new)>(cmp: Cmp<D>, s: Items<D>, k: nat)
    requires k >= |s| && k > 0 && Runs(cmp, s, k)
    ensures Ordered(cmp, s)
  {
    if |s| > 0 {
      assert s[..|s|] == s;
    }
  }

  lemma PassSame<D(!new)>(cmp: Cmp<D>, s: Items<D>, t: Items<D>, k: nat)
    requires k > 0 && TotalPreorder(cmp) && Runs(cmp, t, k) && SameItems(cmp, s, t)
    ensures SameItems(cmp, s, Pass(cmp, t, k)) && Runs(cmp, Pass(cmp, t, k), 2 * k)
  {
    PassItems(cmp, t, k);
    PassRuns(cmp, t, k);
    forall x ensures Alike(cmp, x, s) == Alike(cmp, x, Pass(cmp, t, k)) {
      PassStable(cmp, x, t, k);
    }
  }
}
