/** gnu_quicksort of ip2net/qsort.c. Pointers are modelled by element indexes. */
module Qsort {
  import opened Numbers
  import opened Orders

  // ----- rearranging a stretch -----

  /** t is s with the elements at lo..hi (inclusive) in some other order. */
  ghost predicate Rearranged<T(!new)>(s: seq<T>, t: seq<T>, lo: int, hi: int) {
    && |s| == |t| && multiset(t) == multiset(s)
    && (forall k :: 0 <= k < |s| && !(lo <= k <= hi) ==> t[k] == s[k])
    && (forall k :: 0 <= k < |s| && lo <= k <= hi ==> Among(s, lo, hi, t[k]))
  }

  ghost predicate Among<T(!new)>(s: seq<T>, lo: int, hi: int, x: T) {
    exists m :: 0 <= m < |s| && lo <= m <= hi && s[m] == x
  }

  function Swapped<T>(s: seq<T>, i: int, j: int): seq<T>
    requires 0 <= i < |s| && 0 <= j < |s|
  {
    s[i := s[j]][j := s[i]]
  }

  lemma SwappedMultiset<T>(s: seq<T>, i: int, j: int)
    requires 0 <= i < |s| && 0 <= j < |s|
    ensures multiset(Swapped(s, i, j)) == multiset(s)
  {
  }

  lemma RearrangedSwap<T(!new)>(s: seq<T>, t: seq<T>, lo: int, hi: int, i: int, j: int)
    requires Rearranged(s, t, lo, hi) && 0 <= i < |t| && 0 <= j < |t| && lo <= i <= hi && lo <= j <= hi
    ensures Rearranged(s, Swapped(t, i, j), lo, hi)
  {
    SwappedMultiset(t, i, j);
    var u := Swapped(t, i, j);
    forall k | 0 <= k < |s| && lo <= k <= hi ensures Among(s, lo, hi, u[k]) {
      var l := if k == i then j else if k == j then i else k;
      assert u[k] == t[l];
    }
  }

  lemma RearrangedRefl<T(!new)>(s: seq<T>, lo: int, hi: int)
    ensures Rearranged(s, s, lo, hi)
  {
  }

  method Swap<T>(a: array<T>, i: nat, j: nat)
    requires i < a.Length && j < a.Length
    modifies a
    ensures a[..] == Swapped(old(a[..]), i, j)
  {
    a[i], a[j] := a[j], a[i];
  }

  // ----- partitioning -----

  ghost predicate LowSide<T(!new)>(cmp: Cmp<T>, s: seq<T>, lo: int, left: int, p: T) {
    forall k :: 0 <= k < |s| && lo <= k < left ==> Le(cmp, s[k], p)
  }

  ghost predicate HighSide<T(!new)>(cmp: Cmp<T>, s: seq<T>, right: int, hi: int, p: T) {
    forall k :: 0 <= k < |s| && right < k <= hi ==> Le(cmp, p, s[k])
  }

  /** Puts two elements in order. */
  method CompareSwap<T(!new)>(a: array<T>, cmp: Cmp<T>, lo: nat, hi: nat, i: nat, j: nat, ghost s: seq<T>)
    returns (swapped: bool)
    requires TotalPreorder(cmp) && lo <= i <= hi && lo <= j <= hi < a.Length && i != j && Rearranged(s, a[..], lo, hi)
    modifies a
    ensures Rearranged(s, a[..], lo, hi)
    ensures Le(cmp, a[j], a[i])
    ensures forall k :: 0 <= k < a.Length && k != i && k != j ==> a[k] == old(a[k])
    ensures if swapped then a[i] == old(a[j]) && a[j] == old(a[i]) else a[i] == old(a[i]) && a[j] == old(a[j])
  {
    hide TotalPreorder, Rearranged, Le;
    NotLess(cmp, a[i], a[j]);
    swapped := cmp(a[i], a[j]) < 0;
    if swapped {
      RearrangedSwap(s, a[..], lo, hi, i, j);
      Swap(a, i, j);
    }
  }

  /** The median-of-three step: lo, mid and hi end up in order. */
  method MedianOfThree<T(!new)>(a: array<T>, cmp: Cmp<T>, lo: nat, mid: nat, hi: nat)
    requires TotalPreorder(cmp) && lo < mid < hi < a.Length
    modifies a
    ensures Rearranged(old(a[..]), a[..], lo, hi)
    ensures Le(cmp, a[lo], a[mid]) && Le(cmp, a[mid], a[hi])
  {
    hide TotalPreorder, Rearranged, Le;
    ghost var s := a[..];
    RearrangedRefl(s, lo, hi);
    var _ := CompareSwap(a, cmp, lo, hi, mid, lo, s);
    var swapped := CompareSwap(a, cmp, lo, hi, hi, mid, s);
    if swapped {
      var _ := CompareSwap(a, cmp, lo, hi, mid, lo, s);
    }
  }

  /** The unguarded scan from the left; it must stop at index stop at the latest. */
  method ScanUp<T(!new)>(a: array<T>, cmp: Cmp<T>, start: nat, mid: nat, ghost stop: nat) returns (left: nat)
    requires start <= stop < a.Length && mid < a.Length
    requires TotalPreorder(cmp) && Le(cmp, a[mid], a[stop])
    ensures start <= left <= stop && !(cmp(a[left], a[mid]) < 0)
    ensures LowSide(cmp, a[..], start, left, a[mid])
  {
    left := start;
    while cmp(a[left], a[mid]) < 0
      invariant start <= left <= stop && LowSide(cmp, a[..], start, left, a[mid])
      decreases stop - left
    {
      left := left + 1;
    }
  }

  /** The unguarded scan from the right. */
  method ScanDown<T(!new)>(a: array<T>, cmp: Cmp<T>, start: nat, mid: nat, ghost stop: nat) returns (right: nat)
    requires stop <= start < a.Length && mid < a.Length
    requires TotalPreorder(cmp) && Le(cmp, a[stop], a[mid])
    ensures stop <= right <= start && !(cmp(a[mid], a[right]) < 0)
    ensures HighSide(cmp, a[..], right, start, a[mid])
  {
    right := start;
    while cmp(a[mid], a[right]) < 0
      invariant stop <= right <= start && HighSide(cmp, a[..], right, start, a[mid])
      decreases right
    {
      right := right - 1;
    }
  }

  /** What a partition leaves behind: everything up to right is at most p, everything from left on at least p. */
  ghost predicate Split<T(!new)>(cmp: Cmp<T>, s: seq<T>, lo: int, right: int, left: int, hi: int, p: T) {
    lo <= right < left <= hi && LowSide(cmp, s, lo, left, p) && HighSide(cmp, s, right, hi, p)
  }

  /** The state of the "collapse the walls" loop around the pivot p at index mid. */
  ghost predicate Walls<T(!new)>(cmp: Cmp<T>, s: seq<T>, lo: int, left: int, right: int, hi: int, mid: int, p: T) {
    && 0 <= lo <= mid <= hi < |s| && lo < left <= hi && lo <= right < hi && s[mid] == p
    && LowSide(cmp, s, lo, left, p) && HighSide(cmp, s, right, hi, p)
  }

  lemma WallsStart<T(!new)>(cmp: Cmp<T>, s: seq<T>, lo: int, hi: int, mid: int)
    requires TotalPreorder(cmp) && 0 <= lo < mid < hi < |s| && Le(cmp, s[lo], s[mid]) && Le(cmp, s[mid], s[hi])
    ensures Walls(cmp, s, lo, lo + 1, hi - 1, hi, mid, s[mid])
  {
  }

  /** The scans moved left up to l and right down to r; both stand on elements that may change sides. */
  lemma WallsSwap<T(!new)>(cmp: Cmp<T>, s: seq<T>, lo: int, l: int, r: int, hi: int, mid: int, p: T)
    requires TotalPreorder(cmp) && Walls(cmp, s, lo, l, r, hi, mid, p) && l < r
    requires Le(cmp, p, s[l]) && Le(cmp, s[r], p)
    ensures var m := if mid == l then r else if mid == r then l else mid;
      Walls(cmp, Swapped(s, l, r), lo, l + 1, r - 1, hi, m, p)
  {
    hide TotalPreorder, Le;
  }

  lemma WallsMeet<T(!new)>(cmp: Cmp<T>, s: seq<T>, lo: int, l: int, hi: int, mid: int, p: T)
    requires TotalPreorder(cmp) && Walls(cmp, s, lo, l, l, hi, mid, p) && Le(cmp, p, s[l]) && Le(cmp, s[l], p)
    ensures Split(cmp, s, lo, l - 1, l + 1, hi, p)
  {
    hide TotalPreorder, Le;
  }

  /** Both scans together. */
  method Scan<T(!new)>(a: array<T>, cmp: Cmp<T>, left0: nat, right0: nat, mid: nat, ghost lo: nat, ghost hi: nat)
    returns (left: nat, right: nat)
    requires TotalPreorder(cmp) && mid < a.Length && hi < a.Length && left0 <= right0
    requires Walls(cmp, a[..], lo, left0, right0, hi, mid, a[mid])
    ensures Walls(cmp, a[..], lo, left, right, hi, mid, a[mid]) && left0 <= left && right <= right0
    ensures Le(cmp, a[mid], a[left]) && Le(cmp, a[right], a[mid])
  {
    ghost var s, p := a[..], a[mid];
    assert Le(cmp, p, s[hi]) && Le(cmp, s[lo], p);
    left := ScanUp(a, cmp, left0, mid, hi);
    right := ScanDown(a, cmp, right0, mid, lo);
    NotLess(cmp, s[left], p);
    NotLess(cmp, p, s[right]);
    hide TotalPreorder, Le;
    assert LowSide(cmp, s, lo, left, p);
    assert HighSide(cmp, s, right, hi, p);
  }

  /** One partitioning step of gnu_quicksort on lo..hi. */
  method Partition<T(!new)>(a: array<T>, cmp: Cmp<T>, lo: nat, hi: nat)
    returns (left: nat, right: nat, ghost p: T)
    requires TotalPreorder(cmp) && lo + 2 <= hi < a.Length
    modifies a
    ensures Rearranged(old(a[..]), a[..], lo, hi) && Split(cmp, a[..], lo, right, left, hi, p)
  {
    hide TotalPreorder, Rearranged, Le, LowSide, HighSide;
    ghost var s := a[..];
    var mid := lo + (hi - lo) / 2;
    MedianOfThree(a, cmp, lo, mid, hi);
    WallsStart(cmp, a[..], lo, hi, mid);
    left, right, p := lo + 1, hi - 1, a[mid];
    while true
      invariant Rearranged(s, a[..], lo, hi) && left <= right && Walls(cmp, a[..], lo, left, right, hi, mid, p)
      decreases hi - left
    {
      left, right := Scan(a, cmp, left, right, mid, lo, hi);
      if left < right {
        WallsSwap(cmp, a[..], lo, left, right, hi, mid, p);
        RearrangedSwap(s, a[..], lo, hi, left, right);
        Swap(a, left, right);
        if mid == left { mid := right; } else if mid == right { mid := left; }
        left, right := left + 1, right - 1;
      } else if left == right {
        WallsMeet(cmp, a[..], lo, left, hi, mid, p);
        left, right := left + 1, right - 1;
        break;
      }
      if !(left <= right) { break; }
    }
  }

  // ----- segments still to be partitioned -----

  const MAX_THRESH := 4

  datatype Segment = Segment(lo: int, hi: int)

  /** Everything before the segment is at most, everything behind it at least, what is inside. */
  ghost predicate Fenced<T(!new)>(cmp: Cmp<T>, s: seq<T>, g: Segment) {
    && (forall i, j :: 0 <= i < g.lo <= j <= g.hi < |s| ==> Le(cmp, s[i], s[j]))
    && (forall i, j :: 0 <= g.lo <= i <= g.hi < j < |s| ==> Le(cmp, s[i], s[j]))
  }

  /** One of the segments holds both positions. */
  ghost predicate Joined(segs: seq<Segment>, i: int, j: int) {
    exists q :: 0 <= q < |segs| && segs[q].lo <= i <= segs[q].hi && segs[q].lo <= j <= segs[q].hi
  }

  /** Elements more than MAX_THRESH apart are in order unless a segment holds both. */
  ghost predicate FarSorted<T(!new)>(cmp: Cmp<T>, s: seq<T>, segs: seq<Segment>) {
    forall i, j :: 0 <= i && i + MAX_THRESH < j < |s| ==> Le(cmp, s[i], s[j]) || Joined(segs, i, j)
  }

  ghost predicate Apart(segs: seq<Segment>, n: int) {
    && (forall q :: 0 <= q < |segs| ==> 0 <= segs[q].lo && segs[q].lo + MAX_THRESH <= segs[q].hi < n)
    && (forall q, r :: 0 <= q < r < |segs| ==> segs[q].hi < segs[r].lo || segs[r].hi < segs[q].lo)
  }

  ghost predicate Pending<T(!new)>(cmp: Cmp<T>, s: seq<T>, segs: seq<Segment>) {
    Apart(segs, |s|) && FarSorted(cmp, s, segs) && forall q :: 0 <= q < |segs| ==> Fenced(cmp, s, segs[q])
  }

  /** What gnu_quicksort does with the two parts of a partitioned segment. */
  function Next(rest: seq<Segment>, lo: int, right: int, left: int, hi: int): seq<Segment> {
    if right - lo <= MAX_THRESH then
      if hi - left <= MAX_THRESH then rest else rest + [Segment(left, hi)]
    else if hi - left <= MAX_THRESH then rest + [Segment(lo, right)]
    else if right - lo > hi - left then rest + [Segment(lo, right), Segment(left, hi)]
    else rest + [Segment(left, hi), Segment(lo, right)]
  }

  /** An element inside the rearranged stretch keeps its relation to one outside. */
  lemma FenceKept<T(!new)>(cmp: Cmp<T>, s: seq<T>, t: seq<T>, g: Segment, i: int, j: int)
    requires 0 <= g.lo <= g.hi < |s| && Rearranged(s, t, g.lo, g.hi) && Fenced(cmp, s, g)
    requires 0 <= i < j < |s| && (g.lo <= i <= g.hi < j || i < g.lo <= j <= g.hi)
    ensures Le(cmp, t[i], t[j])
  {
    if i < g.lo {
      var m :| 0 <= m < |s| && g.lo <= m <= g.hi && s[m] == t[j];
      assert Le(cmp, s[i], s[m]);
    } else {
      var m :| 0 <= m < |s| && g.lo <= m <= g.hi && s[m] == t[i];
      assert Le(cmp, s[m], s[j]);
    }
  }

  /** The fence around another segment survives. */
  lemma OtherFence<T(!new)>(cmp: Cmp<T>, s: seq<T>, t: seq<T>, g: Segment, h: Segment)
    requires 0 <= g.lo <= g.hi < |s| && 0 <= h.lo <= h.hi < |s| && (g.hi < h.lo || h.hi < g.lo)
    requires Rearranged(s, t, g.lo, g.hi) && Fenced(cmp, s, h)
    ensures Fenced(cmp, t, h)
  {
    forall i, j | 0 <= i < h.lo <= j <= h.hi < |t| ensures Le(cmp, t[i], t[j]) {
      if g.lo <= i <= g.hi {
        var m :| 0 <= m < |s| && g.lo <= m <= g.hi && s[m] == t[i];
        assert Le(cmp, s[m], s[j]);
      } else {
        assert Le(cmp, s[i], s[j]);
      }
    }
    forall i, j | 0 <= h.lo <= i <= h.hi < j < |t| ensures Le(cmp, t[i], t[j]) {
      if g.lo <= j <= g.hi {
        var m :| 0 <= m < |s| && g.lo <= m <= g.hi && s[m] == t[j];
        assert Le(cmp, s[i], s[m]);
      } else {
        assert Le(cmp, s[i], s[j]);
      }
    }
  }

  /** Across the split everything is in order. */
  lemma AcrossSplit<T(!new)>(cmp: Cmp<T>, t: seq<T>, lo: int, right: int, left: int, hi: int, p: T, i: int, j: int)
    requires TotalPreorder(cmp) && Split(cmp, t, lo, right, left, hi, p)
    requires 0 <= lo <= i < left && right < j <= hi < |t|
    ensures Le(cmp, t[i], t[j])
  {
    LeTrans(cmp, t[i], p, t[j]);
  }

  lemma PartFences<T(!new)>(cmp: Cmp<T>, s: seq<T>, t: seq<T>, g: Segment, right: int, left: int, p: T)
    requires TotalPreorder(cmp) && 0 <= g.lo <= g.hi < |s| && Rearranged(s, t, g.lo, g.hi) && Fenced(cmp, s, g)
    requires Split(cmp, t, g.lo, right, left, g.hi, p)
    ensures Fenced(cmp, t, Segment(g.lo, right)) && Fenced(cmp, t, Segment(left, g.hi))
  {
    hide TotalPreorder, Rearranged, Le, LowSide, HighSide, Fenced;
    assert |t| == |s| by { RearrangedLength(s, t, g.lo, g.hi); }
    forall i, j | 0 <= i < j < |t| && ((i < g.lo <= j <= g.hi) || (g.lo <= i <= g.hi < j) ||
      (g.lo <= i < left && right < j <= g.hi))
      ensures Le(cmp, t[i], t[j])
    {
      if g.lo <= i && j <= g.hi {
        AcrossSplit(cmp, t, g.lo, right, left, g.hi, p, i, j);
      } else {
        FenceKept(cmp, s, t, g, i, j);
      }
    }
    FencedIf(cmp, t, Segment(g.lo, right));
    FencedIf(cmp, t, Segment(left, g.hi));
  }

  lemma FencedIf<T(!new)>(cmp: Cmp<T>, s: seq<T>, g: Segment)
    requires forall i, j :: 0 <= i < g.lo <= j <= g.hi < |s| ==> Le(cmp, s[i], s[j])
    requires forall i, j :: 0 <= g.lo <= i <= g.hi < j < |s| ==> Le(cmp, s[i], s[j])
    ensures Fenced(cmp, s, g)
  {
  }

  lemma RearrangedLength<T(!new)>(s: seq<T>, t: seq<T>, lo: int, hi: int)
    requires Rearranged(s, t, lo, hi)
    ensures |t| == |s| && forall k :: 0 <= k < |s| && !(lo <= k <= hi) ==> t[k] == s[k]
  {
  }

  /** The segments of Next: those of rest, and the parts that are not small. */
  lemma NextIs(rest: seq<Segment>, lo: int, right: int, left: int, hi: int)
    ensures var n := Next(rest, lo, right, left, hi);
      && |rest| <= |n| <= |rest| + 2 && n[..|rest|] == rest
      && (forall q :: |rest| <= q < |n| ==> n[q] == Segment(lo, right) || n[q] == Segment(left, hi))
    ensures right - lo > MAX_THRESH ==> Segment(lo, right) in Next(rest, lo, right, left, hi)
    ensures hi - left > MAX_THRESH ==> Segment(left, hi) in Next(rest, lo, right, left, hi)
  {
    var n := Next(rest, lo, right, left, hi);
    assert right - lo > MAX_THRESH ==> n[|rest|] == Segment(lo, right) || n[|rest| + 1] == Segment(lo, right);
    assert hi - left > MAX_THRESH ==> n[|rest|] == Segment(left, hi) || n[|rest| + 1] == Segment(left, hi);
  }

  lemma JoinedIn(segs: seq<Segment>, g: Segment, i: int, j: int)
    requires g in segs && g.lo <= i <= g.hi && g.lo <= j <= g.hi
    ensures Joined(segs, i, j)
  {
  }

  lemma JoinedMore(rest: seq<Segment>, g: Segment, n: seq<Segment>, i: int, j: int)
    requires |rest| <= |n| && n[..|rest|] == rest && Joined(rest + [g], i, j)
    requires !(g.lo <= i <= g.hi && g.lo <= j <= g.hi)
    ensures Joined(n, i, j)
  {
    var segs := rest + [g];
    var q :| 0 <= q < |segs| && segs[q].lo <= i <= segs[q].hi && segs[q].lo <= j <= segs[q].hi;
    assert n[..|rest|][q] == n[q];
  }

  lemma FarStep<T(!new)>(cmp: Cmp<T>, s: seq<T>, t: seq<T>, rest: seq<Segment>, g: Segment, right: int, left: int, p: T)
    requires TotalPreorder(cmp) && 0 <= g.lo <= g.hi < |s| && Rearranged(s, t, g.lo, g.hi) && Fenced(cmp, s, g)
    requires FarSorted(cmp, s, rest + [g]) && Split(cmp, t, g.lo, right, left, g.hi, p)
    ensures FarSorted(cmp, t, Next(rest, g.lo, right, left, g.hi))
  {
    hide TotalPreorder, Rearranged, Le, LowSide, HighSide, Fenced, Joined, Next;
    var n := Next(rest, g.lo, right, left, g.hi);
    RearrangedLength(s, t, g.lo, g.hi);
    NextIs(rest, g.lo, right, left, g.hi);
    forall i, j | 0 <= i && i + MAX_THRESH < j < |t| ensures Le(cmp, t[i], t[j]) || Joined(n, i, j) {
      if g.lo <= i && j <= g.hi {
        if j <= right { JoinedIn(n, Segment(g.lo, right), i, j); }
        else if left <= i { JoinedIn(n, Segment(left, g.hi), i, j); }
        else { AcrossSplit(cmp, t, g.lo, right, left, g.hi, p, i, j); }
      } else if (i < g.lo && g.lo <= j <= g.hi) || (g.lo <= i <= g.hi && g.hi < j) {
        FenceKept(cmp, s, t, g, i, j);
      } else {
        assert t[i] == s[i] && t[j] == s[j];
        if Joined(rest + [g], i, j) {
          JoinedMore(rest, g, n, i, j);
        }
      }
    }
  }

  /** One round of the quicksort loop keeps the picture. */
  lemma PendingStep<T(!new)>(cmp: Cmp<T>, s: seq<T>, t: seq<T>, rest: seq<Segment>, g: Segment, right: int,
                      left: int, p: T)
    requires TotalPreorder(cmp) && Pending(cmp, s, rest + [g]) && Rearranged(s, t, g.lo, g.hi)
    requires Split(cmp, t, g.lo, right, left, g.hi, p)
    ensures Pending(cmp, t, Next(rest, g.lo, right, left, g.hi))
  {
    hide TotalPreorder, Rearranged, Le, LowSide, HighSide, Fenced, FarSorted, Next;
    var n := Next(rest, g.lo, right, left, g.hi);
    var segs := rest + [g];
    assert segs[|rest|] == g;
    assert Fenced(cmp, s, segs[|rest|]);
    RearrangedLength(s, t, g.lo, g.hi);
    FarStep(cmp, s, t, rest, g, right, left, p);
    PartFences(cmp, s, t, g, right, left, p);
    NextIs(rest, g.lo, right, left, g.hi);
    NextApart(rest, g, right, left, |s|);
    forall q | 0 <= q < |n| ensures Fenced(cmp, t, n[q]) {
      if q < |rest| {
        assert n[..|rest|][q] == n[q] && segs[q] == n[q];
        assert Fenced(cmp, s, segs[q]);
        OtherFence(cmp, s, t, g, n[q]);
      }
    }
  }

  lemma NextApart(rest: seq<Segment>, g: Segment, right: int, left: int, n: int)
    requires Apart(rest + [g], n) && g.lo <= right < left <= g.hi
    ensures Apart(Next(rest, g.lo, right, left, g.hi), n)
  {
    var segs := rest + [g];
    assert segs[|rest|] == g;
    assert forall q :: 0 <= q < |rest| ==> segs[q] == rest[q];
  }

  // ----- the stack -----

  /** The number of bits of size_t, which is also the number of stack entries. */
  const STACK_SIZE := 64

  /** The k-th pending segment has at most total / 2^k elements, because the larger
      part of a segment is pushed and the work goes on with the smaller one. */
  ghost predicate Light(segs: seq<Segment>, total: nat) {
    forall q :: 0 <= q < |segs| ==> segs[q].lo <= segs[q].hi && Weight(q, segs[q]) <= total
  }

  function Weight(q: nat, g: Segment): int { Pow2(q) * (g.hi - g.lo + 1) }

  lemma HalfLight(q: nat, z: nat, y: nat, total: nat)
    requires Pow2(q) * z <= total && 2 * y <= z
    ensures Pow2(q + 1) * y <= total
  {
    MulMono(Pow2(q), 2 * y, z);
    assert Pow2(q + 1) * y == Pow2(q) * (2 * y);
  }

  lemma LightStep(rest: seq<Segment>, g: Segment, right: int, left: int, total: nat)
    requires Light(rest + [g], total) && g.lo <= right < left <= g.hi
    ensures Light(Next(rest, g.lo, right, left, g.hi), total)
  {
    var segs, n := rest + [g], Next(rest, g.lo, right, left, g.hi);
    var d := |rest|;
    assert segs[d] == g;
    NextIs(rest, g.lo, right, left, g.hi);
    var z, l, r := g.hi - g.lo + 1, right - g.lo + 1, g.hi - left + 1;
    hide Pow2, Next;
    MulMono(Pow2(d), l, z);
    MulMono(Pow2(d), r, z);
    HalfLight(d, z, if l > r then r else l, total);
    assert Weight(d, g) <= total;
    forall q | 0 <= q < |n| ensures n[q].lo <= n[q].hi && Weight(q, n[q]) <= total {
      if q < d {
        assert n[..d][q] == n[q] && segs[q] == rest[q];
      } else {
        SmallerLast(rest, g.lo, right, left, g.hi, q);
      }
    }
  }

  lemma SmallerLast(rest: seq<Segment>, lo: int, right: int, left: int, hi: int, q: nat)
    requires |rest| <= q < |Next(rest, lo, right, left, hi)|
    ensures var n := Next(rest, lo, right, left, hi);
      && (n[q] == Segment(lo, right) || n[q] == Segment(left, hi)) && n[q].lo + MAX_THRESH < n[q].hi
      && (q == |rest| + 1 ==> n[q] == if right - lo > hi - left then Segment(left, hi) else Segment(lo, right))
      && q <= |rest| + 1
  {
  }

  /** A segment of MAX_THRESH or more elements is never pushed beyond the stack. */
  lemma StackFits(d: nat, z: nat, total: nat)
    requires Pow2(d) * z <= total < Pow2(STACK_SIZE) && z >= 4
    ensures d < STACK_SIZE - 2
  {
    if d >= STACK_SIZE - 2 {
      Pow2Mono(STACK_SIZE, d + 2);
      assert Pow2(d + 2) == Pow2(d) * 4;
      MulMono(Pow2(d), 4, z);
      assert false;
    }
  }

  /** What is left to do; every partition makes it smaller. */
  function Work(segs: seq<Segment>): int {
    if segs == [] then 0 else Work(segs[..|segs|-1]) + segs[|segs|-1].hi - segs[|segs|-1].lo
  }

  lemma WorkSnoc(rest: seq<Segment>, g: Segment)
    ensures Work(rest + [g]) == Work(rest) + g.hi - g.lo
  {
    assert (rest + [g])[..|rest|] == rest;
  }

  lemma {:induction false} WorkPositive(segs: seq<Segment>, n: int)
    requires Apart(segs, n)
    ensures Work(segs) >= 0
  {
    if segs != [] {
      WorkPositive(segs[..|segs|-1], n);
    }
  }

  lemma WorkStep(rest: seq<Segment>, g: Segment, right: int, left: int)
    requires g.lo <= right < left <= g.hi && g.lo < g.hi
    ensures Work(Next(rest, g.lo, right, left, g.hi)) < Work(rest + [g])
  {
    var l, r := Segment(g.lo, right), Segment(left, g.hi);
    WorkSnoc(rest, g);
    WorkSnoc(rest, l);
    WorkSnoc(rest, r);
    WorkSnoc(rest + [l], r);
    WorkSnoc(rest + [r], l);
    hide Work;
    assert rest + [l, r] == rest + [l] + [r] && rest + [r, l] == rest + [r] + [l];
  }

  /** The explicit stack holds all pending segments but the last, which is lo..hi,
      above the (NULL, NULL) entry that ends the loop. */
  ghost predicate OnStack(stack: array<Segment>, top: nat, lo: int, hi: int, segs: seq<Segment>)
    reads stack
  {
    && top == |segs| <= stack.Length
    && (top > 0 ==> segs[top-1] == Segment(lo, hi))
    && forall k :: 0 <= k < top - 1 ==> stack[k+1] == segs[k]
  }

  /** Chooses what to do next after a partition: ignore small parts, push the larger of two big ones. */
  method Choose(stack: array<Segment>, top0: nat, lo0: int, right: int, left: int, hi0: int, ghost rest: seq<Segment>)
    returns (top: nat, lo: int, hi: int)
    requires OnStack(stack, top0, lo0, hi0, rest + [Segment(lo0, hi0)]) && top0 < stack.Length
    modifies stack
    ensures OnStack(stack, top, lo, hi, Next(rest, lo0, right, left, hi0))
  {
    top, lo, hi := top0, lo0, hi0;
    ghost var segs := rest + [Segment(lo0, hi0)];
    assert forall k :: 0 <= k < top - 1 ==> stack[k+1] == segs[k] == rest[k];
    if right - lo <= MAX_THRESH {
      if hi - left <= MAX_THRESH {
        top := top - 1;
        lo, hi := stack[top].lo, stack[top].hi;
        assert top > 0 ==> stack[top-1+1] == segs[top-1] == rest[top-1];
      } else {
        lo := left;
      }
    } else if hi - left <= MAX_THRESH {
      hi := right;
    } else if right - lo > hi - left {
      stack[top], top := Segment(lo, right), top + 1;
      lo := left;
    } else {
      stack[top], top := Segment(left, hi), top + 1;
      hi := right;
    }
  }

  /** The first phase: afterwards elements more than MAX_THRESH apart are in order. */
  method QuickPhase<T(!new)>(a: array<T>, cmp: Cmp<T>)
    requires TotalPreorder(cmp) && MAX_THRESH < a.Length < Pow2(STACK_SIZE)
    modifies a
    ensures multiset(a[..]) == multiset(old(a[..])) && FarSorted(cmp, a[..], [])
  {
    hide TotalPreorder, Rearranged, Le, FarSorted, Fenced, LowSide, HighSide, Apart, Light, Pow2, Next, Work;
    var lo, hi := 0, a.Length - 1;
    var stack := new Segment[STACK_SIZE];
    var top: nat := 0;
    stack[top], top := Segment(-1, -1), top + 1;
    ghost var segs := [Segment(lo, hi)];
    WholePending(cmp, a[..]);
    while top > 0
      invariant multiset(a[..]) == multiset(old(a[..])) && OnStack(stack, top, lo, hi, segs)
      invariant Pending(cmp, a[..], segs) && Light(segs, a.Length)
      decreases Work(segs)
    {
      ghost var rest, g := segs[..top-1], Segment(lo, hi);
      assert segs == rest + [g];
      LastSegment(rest, g, a.Length);
      StackFits(|rest|, g.hi - g.lo + 1, a.Length);
      ghost var s := a[..];
      var left, right; ghost var p;
      left, right, p := Partition(a, cmp, lo, hi);
      RearrangedMultiset(s, a[..], lo, hi);
      PendingStep(cmp, s, a[..], rest, g, right, left, p);
      LightStep(rest, g, right, left, a.Length);
      WorkStep(rest, g, right, left);
      WorkPositive(Next(rest, lo, right, left, hi), a.Length);
      segs := Next(rest, lo, right, left, hi);
      top, lo, hi := Choose(stack, top, lo, right, left, hi, rest);
    }
  }

  lemma WholePending<T(!new)>(cmp: Cmp<T>, s: seq<T>)
    requires |s| > MAX_THRESH
    ensures Pending(cmp, s, [Segment(0, |s| - 1)]) && Light([Segment(0, |s| - 1)], |s|)
  {
    var segs := [Segment(0, |s| - 1)];
    assert Pow2(0) == 1;
    forall i, j | 0 <= i && i + MAX_THRESH < j < |s| ensures Joined(segs, i, j) {
      assert segs[0].lo <= i <= segs[0].hi && segs[0].lo <= j <= segs[0].hi;
    }
  }

  lemma LastSegment(rest: seq<Segment>, g: Segment, n: nat)
    requires Apart(rest + [g], n) && Light(rest + [g], n)
    ensures 0 <= g.lo && g.lo + MAX_THRESH <= g.hi < n && Weight(|rest|, g) <= n
  {
    hide Weight;
    assert (rest + [g])[|rest|] == g;
  }

  lemma RearrangedMultiset<T(!new)>(s: seq<T>, t: seq<T>, lo: int, hi: int)
    requires Rearranged(s, t, lo, hi)
    ensures multiset(t) == multiset(s)
  {
  }

  // ----- the final insertion sort -----

  /** The first element is the smallest. */
  ghost predicate LeastFirst<T(!new)>(cmp: Cmp<T>, s: seq<T>) {
    forall k :: 0 <= k < |s| ==> Le(cmp, s[0], s[k])
  }

  method FirstMinimum<T(!new)>(a: array<T>, cmp: Cmp<T>, thresh: nat) returns (tmp: nat)
    requires TotalPreorder(cmp) && thresh < a.Length
    ensures tmp <= thresh && forall k :: 0 <= k <= thresh ==> Le(cmp, a[tmp], a[k])
  {
    var run := 1;
    tmp := 0;
    LeRefl(cmp, a[0]);
    hide TotalPreorder, Le;
    while run <= thresh
      invariant 0 <= tmp < run <= thresh + 1
      invariant forall k :: 0 <= k < run ==> Le(cmp, a[tmp], a[k])
    {
      NotLess(cmp, a[run], a[tmp]);
      if cmp(a[run], a[tmp]) < 0 {
        forall k | 0 <= k < run ensures Le(cmp, a[run], a[k]) {
          LeTrans(cmp, a[run], a[tmp], a[k]);
        }
        tmp := run;
        LeRefl(cmp, a[run]);
      }
      run := run + 1;
    }
  }

  /** Moves the smallest of the first MAX_THRESH + 1 elements to the front; it is the smallest of all. */
  method PlaceMinimum<T(!new)>(a: array<T>, cmp: Cmp<T>)
    requires TotalPreorder(cmp) && a.Length > 0 && FarSorted(cmp, a[..], [])
    modifies a
    ensures multiset(a[..]) == multiset(old(a[..])) && LeastFirst(cmp, a[..])
  {
    hide TotalPreorder, Le, FarSorted, LeastFirst;
    var end := a.Length - 1;
    var thresh := if end < MAX_THRESH then end else MAX_THRESH;
    var tmp := FirstMinimum(a, cmp, thresh);
    ghost var s := a[..];
    MinimumOfAll(cmp, s, tmp, thresh);
    MinimumMoved(cmp, s, tmp);
    if tmp != 0 {
      Swap(a, tmp, 0);
    }
  }

  lemma MinimumOfAll<T(!new)>(cmp: Cmp<T>, s: seq<T>, tmp: int, thresh: int)
    requires TotalPreorder(cmp) && FarSorted(cmp, s, []) && 0 <= tmp <= thresh < |s|
    requires thresh == |s| - 1 || thresh == MAX_THRESH
    requires forall k :: 0 <= k <= thresh ==> Le(cmp, s[tmp], s[k])
    ensures forall k :: 0 <= k < |s| ==> Le(cmp, s[tmp], s[k])
  {
    forall k | thresh < k < |s| ensures Le(cmp, s[tmp], s[k]) {
      assert 0 + MAX_THRESH < k && !Joined([], 0, k);
      LeTrans(cmp, s[tmp], s[0], s[k]);
    }
  }

  lemma MinimumMoved<T(!new)>(cmp: Cmp<T>, s: seq<T>, tmp: int)
    requires 0 <= tmp < |s| && forall k :: 0 <= k < |s| ==> Le(cmp, s[tmp], s[k])
    ensures LeastFirst(cmp, Swapped(s, tmp, 0)) && multiset(Swapped(s, tmp, 0)) == multiset(s)
    ensures tmp == 0 ==> Swapped(s, tmp, 0) == s
  {
    SwappedMultiset(s, tmp, 0);
  }

  /** s with element run taken out and put back at position tmp. */
  function MovedBack<T>(s: seq<T>, tmp: nat, run: nat): seq<T>
    requires tmp <= run < |s|
  {
    s[..tmp] + [s[run]] + s[tmp..run] + s[run+1..]
  }

  lemma MovedBackMultiset<T>(s: seq<T>, tmp: nat, run: nat)
    requires tmp <= run < |s|
    ensures multiset(MovedBack(s, tmp, run)) == multiset(s)
  {
    assert s == s[..tmp] + s[tmp..run] + [s[run]] + s[run+1..];
  }

  /** The moving loop: elements tmp..run-1 go up by one place. */
  method MoveBack<T>(a: array<T>, tmp: nat, run: nat)
    requires tmp <= run < a.Length
    modifies a
    ensures a[..] == MovedBack(old(a[..]), tmp, run)
  {
    var c := a[run];
    var hi := run;
    while hi > tmp
      invariant tmp <= hi <= run
      invariant forall k :: 0 <= k < hi ==> a[k] == old(a[k])
      invariant forall k :: hi < k <= run ==> a[k] == old(a[k-1])
      invariant forall k :: run < k < a.Length ==> a[k] == old(a[k])
    {
      a[hi] := a[hi-1];
      hi := hi - 1;
    }
    a[hi] := c;
  }

  /** Inserting element run into the sorted stretch before it, at the right place. */
  lemma InsertedSorted<T(!new)>(cmp: Cmp<T>, s: seq<T>, tmp: nat, run: nat)
    requires TotalPreorder(cmp) && 0 < tmp <= run < |s| && Sorted(cmp, s[..run]) && LeastFirst(cmp, s)
    requires Le(cmp, s[tmp-1], s[run]) && forall k :: tmp <= k < run ==> Le(cmp, s[run], s[k])
    ensures Sorted(cmp, MovedBack(s, tmp, run)[..run+1]) && LeastFirst(cmp, MovedBack(s, tmp, run))
  {
    hide TotalPreorder, Le;
    var t := MovedBack(s, tmp, run);
    assert forall k :: 0 <= k < run ==> s[..run][k] == s[k];
    forall i, j | 0 <= i < j <= run ensures Le(cmp, t[i], t[j]) {
      var i', j' := if i < tmp then i else i - 1, if j < tmp then j else j - 1;
      if j == tmp {
        if i < tmp - 1 { LeTrans(cmp, s[i], s[tmp-1], s[run]); }
      } else if i == tmp {
        assert t[j] == s[j'];
      } else {
        assert t[i] == s[i'] && t[j] == s[j'];
        assert s[..run][i'] == s[i'] && s[..run][j'] == s[j'];
      }
    }
    forall k | 0 <= k < |t| ensures Le(cmp, t[0], t[k]) {
      assert t[0] == s[0] && t[k] == s[if k < tmp then k else if k == tmp then run else if k <= run then k - 1 else k];
    }
  }

  /** The unguarded scan to the left of element run; the smallest element at index 0 stops it. */
  method ScanBack<T(!new)>(a: array<T>, cmp: Cmp<T>, run: nat) returns (tmp: nat)
    requires TotalPreorder(cmp) && 0 < run < a.Length && !(cmp(a[run], a[0]) < 0)
    ensures 0 < tmp <= run && Le(cmp, a[tmp-1], a[run]) && forall k :: tmp <= k < run ==> Le(cmp, a[run], a[k])
  {
    hide TotalPreorder, Le;
    tmp := run - 1;
    while cmp(a[run], a[tmp]) < 0
      invariant 0 <= tmp < run && forall k :: tmp < k < run ==> Le(cmp, a[run], a[k])
      decreases tmp
    {
      NotLess(cmp, a[run], a[tmp]);
      tmp := tmp - 1;
    }
    NotLess(cmp, a[run], a[tmp]);
    tmp := tmp + 1;
  }

  /** One round of the insertion sort. */
  method InsertOne<T(!new)>(a: array<T>, cmp: Cmp<T>, run: nat)
    requires TotalPreorder(cmp) && 2 <= run < a.Length && Sorted(cmp, a[..run]) && LeastFirst(cmp, a[..])
    modifies a
    ensures multiset(a[..]) == multiset(old(a[..])) && Sorted(cmp, a[..run+1]) && LeastFirst(cmp, a[..])
  {
    hide TotalPreorder, Le, Sorted, LeastFirst;
    ghost var s := a[..];
    StopAtFirst(cmp, s, run);
    var tmp := ScanBack(a, cmp, run);
    assert s[..run] == a[..run];
    InsertedSorted(cmp, s, tmp, run);
    MovedBackMultiset(s, tmp, run);
    if tmp != run {
      MoveBack(a, tmp, run);
    } else {
      assert MovedBack(s, tmp, run) == s;
    }
    assert a[..run+1] == a[..][..run+1];
  }

  lemma StopAtFirst<T(!new)>(cmp: Cmp<T>, s: seq<T>, run: nat)
    requires TotalPreorder(cmp) && run < |s| && LeastFirst(cmp, s)
    ensures !(cmp(s[run], s[0]) < 0)
  {
  }

  method InsertionPhase<T(!new)>(a: array<T>, cmp: Cmp<T>)
    requires TotalPreorder(cmp) && a.Length > 0 && FarSorted(cmp, a[..], [])
    modifies a
    ensures multiset(a[..]) == multiset(old(a[..])) && Sorted(cmp, a[..])
  {
    PlaceMinimum(a, cmp);
    var run := 1;
    assert a.Length >= 2 ==> Sorted(cmp, a[..2]) by {
      if a.Length >= 2 {
        assert Le(cmp, a[..][0], a[..][1]);
      }
    }
    hide TotalPreorder, Le, Sorted, LeastFirst;
    SortedShort(cmp, a[..]);
    while run + 1 <= a.Length - 1
      invariant 1 <= run < a.Length || (a.Length == 1 && run == 1)
      invariant multiset(a[..]) == multiset(old(a[..])) && LeastFirst(cmp, a[..])
      invariant a.Length >= 2 ==> Sorted(cmp, a[..run+1])
    {
      run := run + 1;
      InsertOne(a, cmp, run);
    }
    assert a.Length >= 2 ==> a[..run+1] == a[..];
  }

  lemma SortedShort<T(!new)>(cmp: Cmp<T>, s: seq<T>)
    ensures |s| <= 1 ==> Sorted(cmp, s)
  {
  }

  /** gnu_quicksort. */
  method GnuQuicksort<T(!new)>(a: array<T>, cmp: Cmp<T>)
    requires TotalPreorder(cmp) && a.Length < Pow2(STACK_SIZE)
    modifies a
    ensures multiset(a[..]) == multiset(old(a[..])) && Sorted(cmp, a[..])
  {
    hide TotalPreorder, Pow2;
    if a.Length == 0 { return; }
    if a.Length > MAX_THRESH {
      QuickPhase(a, cmp);
    }
    InsertionPhase(a, cmp);
  }
}
