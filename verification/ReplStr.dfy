/** repl_str: replace all occurrences of a string, in two passes with a precomputed length. */
module ReplStr {
  import opened Numbers
  import opened Bytes

  const SIZE_RANGE := 0x1_0000_0000_0000_0000
  const CACHE_SZ_INC := 16
  const CACHE_SZ_INC_FACTOR := 3
  const CACHE_SZ_INC_MAX := 1048576

  predicate MatchAt(s: seq<Byte>, from: seq<Byte>, i: nat) {
    i + |from| <= |s| && s[i..i+|from|] == from
  }

  /** strstr from position i on; the length of s stands for no match. */
  function StrStr(s: seq<Byte>, from: seq<Byte>, i: nat): (p: nat)
    requires |from| > 0 && i <= |s|
    ensures i <= p <= |s| && (p < |s| ==> MatchAt(s, from, p))
    ensures forall j :: i <= j < p ==> !MatchAt(s, from, j)
    decreases |s| - i
  {
    if i == |s| || MatchAt(s, from, i) then i else StrStr(s, from, i + 1)
  }

  /** The text from position i on, with every occurrence replaced that a scan from left to right meets. */
  function Replaced(s: seq<Byte>, from: seq<Byte>, to: seq<Byte>, i: nat): seq<Byte>
    requires |from| > 0 && i <= |s|
    decreases |s| - i
  {
    if i == |s| then []
    else if MatchAt(s, from, i) then to + Replaced(s, from, to, i + |from|)
    else [s[i]] + Replaced(s, from, to, i + 1)
  }

  /** The positions of those occurrences. */
  function Positions(s: seq<Byte>, from: seq<Byte>, i: nat): seq<nat>
    requires |from| > 0 && i <= |s|
    decreases |s| - i
  {
    var p := StrStr(s, from, i);
    if p == |s| then [] else [p] + Positions(s, from, p + |from|)
  }

  // ----- what replacing means -----

  lemma ReplacedOne(s: seq<Byte>, from: seq<Byte>, to: seq<Byte>, i: nat)
    requires |from| > 0 && i < |s|
    ensures Replaced(s, from, to, i) ==
      if MatchAt(s, from, i) then to + Replaced(s, from, to, i + |from|) else [s[i]] + Replaced(s, from, to, i + 1)
  {
  }

  lemma PiecesOne(s: seq<Byte>, from: seq<Byte>, i: nat)
    requires |from| > 0 && i <= |s|
    ensures var p := StrStr(s, from, i);
      if p == |s| then Pieces(s, from, i) == [s[i..]]
      else p + |from| <= |s| && Pieces(s, from, i) == [s[i..p]] + Pieces(s, from, p + |from|)
  {
  }

  /** Text without a match is copied. */
  lemma {:induction false} CopyUpTo(s: seq<Byte>, from: seq<Byte>, to: seq<Byte>, i: nat, p: nat)
    requires |from| > 0 && i <= p <= |s| && forall j :: i <= j < p ==> !MatchAt(s, from, j)
    ensures Replaced(s, from, to, i) == s[i..p] + Replaced(s, from, to, p)
    decreases p - i
  {
    hide Replaced, MatchAt;
    if i == p {
      assert s[i..p] == [];
      assert [] + Replaced(s, from, to, p) == Replaced(s, from, to, p);
    } else {
      ReplacedOne(s, from, to, i);
      CopyUpTo(s, from, to, i + 1, p);
      assert s[i..p] == [s[i]] + s[i+1..p];
      assert [s[i]] + (s[i+1..p] + Replaced(s, from, to, p)) == [s[i]] + s[i+1..p] + Replaced(s, from, to, p);
    }
  }

  /** Replacing is to split at the leftmost occurrences that do not overlap and to join the pieces by the
      replacement. */
  function Pieces(s: seq<Byte>, from: seq<Byte>, i: nat): (ps: seq<seq<Byte>>)
    requires |from| > 0 && i <= |s|
    ensures |ps| > 0
    decreases |s| - i
  {
    var p := StrStr(s, from, i);
    if p == |s| then [s[i..]] else [s[i..p]] + Pieces(s, from, p + |from|)
  }

  function Join(ps: seq<seq<Byte>>, glue: seq<Byte>): seq<Byte>
    requires |ps| > 0
  {
    if |ps| == 1 then ps[0] else ps[0] + glue + Join(ps[1..], glue)
  }

  /** Joining the pieces by the pattern gives the input back, joining them by the replacement gives the output. */
  lemma {:induction false} SplitAndJoin(s: seq<Byte>, from: seq<Byte>, to: seq<Byte>, i: nat)
    requires |from| > 0 && i <= |s|
    ensures Join(Pieces(s, from, i), from) == s[i..]
    ensures Join(Pieces(s, from, i), to) == Replaced(s, from, to, i)
    decreases |s| - i
  {
    hide Replaced, Pieces, StrStr, Join;
    var p := StrStr(s, from, i);
    CopyUpTo(s, from, to, i, p);
    PiecesOne(s, from, i);
    if p == |s| {
      EmptyRest(s, from, to);
      JoinOne(s[i..], from);
      JoinOne(s[i..], to);
      assert s[i..p] + [] == s[i..];
    } else {
      var q := p + |from|;
      var rest := Pieces(s, from, q);
      ReplacedOne(s, from, to, p);
      assert s[p..q] == from;
      hide MatchAt;
      SplitAndJoin(s, from, to, q);
      JoinStep(s[i..p], rest, from);
      JoinStep(s[i..p], rest, to);
      assert s[i..] == s[i..p] + s[p..q] + s[q..];
    }
  }

  lemma JoinOne(p: seq<Byte>, glue: seq<Byte>)
    ensures Join([p], glue) == p
  {
  }

  lemma JoinStep(p: seq<Byte>, rest: seq<seq<Byte>>, glue: seq<Byte>)
    requires |rest| > 0
    ensures Join([p] + rest, glue) == p + glue + Join(rest, glue) == p + (glue + Join(rest, glue))
  {
    assert ([p] + rest)[1..] == rest;
  }

  /** Each piece ends at the first occurrence behind its start: the split is leftmost. */
  lemma {:induction false} PiecesLeftmost(s: seq<Byte>, from: seq<Byte>, i: nat, k: nat)
    requires |from| > 0 && i <= |s| && k < |Pieces(s, from, i)| - 1
    ensures var ps := Pieces(s, from, i)[k..]; StrStr(Join(ps, from), from, 0) == |ps[0]| < |Join(ps, from)|
    decreases k
  {
    hide Replaced, Pieces, StrStr, Join, MatchAt;
    var p := StrStr(s, from, i);
    PiecesOne(s, from, i);
    var ps := Pieces(s, from, i);
    if k == 0 {
      assert ps[0..] == ps;
      SplitAndJoin(s, from, from, i);
      SuffixMatch(s, from, i, p);
    } else {
      assert ps[1..] == Pieces(s, from, p + |from|) && ps[1..][k-1..] == ps[k..];
      PiecesLeftmost(s, from, p + |from|, k - 1);
    }
  }

  ghost predicate SliceIs(t: seq<Byte>, j: int, from: seq<Byte>) {
    0 <= j && j + |from| <= |t| && t[j..j+|from|] == from
  }

  /** The pattern stands in t at j only. */
  ghost predicate OnlyAt(t: seq<Byte>, from: seq<Byte>, at: int) {
    forall j :: SliceIs(t, j, from) ==> j == at
  }

  /** Up to its own end a piece does not hold the pattern: with the pattern behind it, that is the only one there;
      the last piece holds none. */
  lemma {:induction false} NoPatternLeft(s: seq<Byte>, from: seq<Byte>, i: nat, k: nat)
    requires |from| > 0 && i <= |s| && k < |Pieces(s, from, i)|
    ensures var ps := Pieces(s, from, i);
      if k < |ps| - 1 then OnlyAt(ps[k] + from, from, |ps[k]|) else OnlyAt(ps[k], from, -1)
    decreases k
  {
    hide Replaced, StrStr, Join, SliceIs, OnlyAt;
    var p := StrStr(s, from, i);
    PiecesOne(s, from, i);
    if k > 0 {
      NoPatternLeft(s, from, p + |from|, k - 1);
      hide MatchAt, Pieces;
      assert Pieces(s, from, i)[k] == Pieces(s, from, p + |from|)[k-1];
    } else {
      FirstPieceClean(s, from, i, p);
    }
  }

  lemma FirstPieceClean(s: seq<Byte>, from: seq<Byte>, i: nat, p: nat)
    requires |from| > 0 && i <= |s| && p == StrStr(s, from, i)
    ensures if p < |s| then OnlyAt(s[i..p] + from, from, p - i) else OnlyAt(s[i..], from, -1)
  {
    hide StrStr;
    if p < |s| {
      assert MatchAt(s, from, p);
      Adjacent(s, i, p, p + |from|);
      SliceClean(s, from, i, p, p + |from|);
    } else {
      assert s[i..|s|] == s[i..];
      SliceClean(s, from, i, p, |s|);
    }
  }

  /** If there is no match from i to p, a slice from i on holds the pattern at p only. */
  lemma SliceClean(s: seq<Byte>, from: seq<Byte>, i: nat, p: nat, end: nat)
    requires |from| > 0 && i <= p <= |s| && i <= end <= |s| && end <= p + |from|
    requires forall j :: i <= j < p ==> !MatchAt(s, from, j)
    ensures OnlyAt(s[i..end], from, p - i)
    ensures p == end ==> OnlyAt(s[i..end], from, -1)
  {
    var t := s[i..end];
    forall j | SliceIs(t, j, from) ensures j == p - i && p < end {
      SubSlice(s, i, end, j, |from|);
      assert MatchAt(s, from, i + j);
    }
  }

  lemma Adjacent(s: seq<Byte>, i: nat, p: nat, q: nat)
    requires i <= p <= q <= |s|
    ensures s[i..p] + s[p..q] == s[i..q]
  {
  }

  lemma SubSlice(s: seq<Byte>, i: nat, end: nat, j: nat, n: nat)
    requires i <= end <= |s| && j + n <= end - i
    ensures s[i..end][j..j+n] == s[i+j..i+j+n]
  {
    var a, b := s[i..end][j..j+n], s[i+j..i+j+n];
    assert forall k :: 0 <= k < n ==> a[k] == s[i+j+k] == b[k];
  }

  /** A search in a suffix finds the same place. */
  lemma SuffixMatch(s: seq<Byte>, from: seq<Byte>, i: nat, p: nat)
    requires |from| > 0 && i <= |s| && p == StrStr(s, from, i) < |s|
    ensures StrStr(s[i..], from, 0) == p - i
  {
    hide MatchAt, StrStr;
    var t := s[i..];
    forall j | 0 <= j <= |t| ensures MatchAt(t, from, j) <==> MatchAt(s, from, i + j) {
      MatchInSuffix(s, from, i, j);
    }
    var q := StrStr(t, from, 0);
    assert MatchAt(t, from, p - i) && MatchAt(s, from, i + (p - i));
    assert q <= p - i;
    assert MatchAt(t, from, q) == MatchAt(s, from, i + q);
  }

  lemma MatchInSuffix(s: seq<Byte>, from: seq<Byte>, i: nat, j: nat)
    requires i + j <= |s|
    ensures MatchAt(s[i..], from, j) <==> MatchAt(s, from, i + j)
  {
    if i + j + |from| <= |s| {
      assert s[i..][j..j+|from|] == s[i+j..i+j+|from|];
    }
  }

  // ----- lengths -----

  function Times(d: int, n: nat): int {
    d * n
  }

  lemma {:induction false} ReplacedLength(s: seq<Byte>, from: seq<Byte>, to: seq<Byte>, i: nat)
    requires |from| > 0 && i <= |s|
    ensures |Replaced(s, from, to, i)| == |s| - i + Times(|to| - |from|, |Positions(s, from, i)|)
    decreases |s| - i
  {
    hide Times, Replaced, Positions;
    if StrStr(s, from, i) < |s| {
      ReplacedLength(s, from, to, StrStr(s, from, i) + |from|);
      ReplacedFrom(s, from, to, i);
      OneMore(|to| - |from|, |Positions(s, from, StrStr(s, from, i) + |from|)|);
    } else {
      ReplacedNone(s, from, to, i);
      NoneReplaced(|to| - |from|);
    }
  }

  lemma NoneReplaced(d: int)
    ensures Times(d, 0) == 0
  {
  }

  lemma OneMore(d: int, n: nat)
    ensures Times(d, n + 1) == Times(d, n) + d
  {
    assert d * (n + 1) == d * n + d;
  }

  /** The text up to the first occurrence is copied, the occurrence replaced. */
  lemma ReplacedFrom(s: seq<Byte>, from: seq<Byte>, to: seq<Byte>, i: nat)
    requires |from| > 0 && i <= |s| && StrStr(s, from, i) < |s|
    ensures var p := StrStr(s, from, i);
      && p + |from| <= |s| && |Positions(s, from, i)| == |Positions(s, from, p + |from|)| + 1
      && |Replaced(s, from, to, i)| == p - i + |to| + |Replaced(s, from, to, p + |from|)|
  {
    var p := StrStr(s, from, i);
    MatchFits(s, from, i);
    CopiedLength(s, from, to, i, p);
    assert MatchAt(s, from, p);
    ReplacedAt(s, from, to, p);
    hide Replaced, Positions, StrStr, MatchAt;
  }

  lemma CopiedLength(s: seq<Byte>, from: seq<Byte>, to: seq<Byte>, i: nat, p: nat)
    requires |from| > 0 && i <= |s| && p == StrStr(s, from, i)
    ensures |Replaced(s, from, to, i)| == p - i + |Replaced(s, from, to, p)|
  {
    CopyUpTo(s, from, to, i, p);
    hide Replaced, StrStr, MatchAt;
  }

  lemma ReplacedNone(s: seq<Byte>, from: seq<Byte>, to: seq<Byte>, i: nat)
    requires |from| > 0 && i <= |s| && StrStr(s, from, i) == |s|
    ensures |Replaced(s, from, to, i)| == |s| - i && |Positions(s, from, i)| == 0
  {
    CopyUpTo(s, from, to, i, |s|);
    NoneLeft(s, from, i);
    assert |Replaced(s, from, to, |s|)| == 0;
    hide Replaced, Positions, StrStr, MatchAt;
  }

  function WrapSize(x: int): nat {
    x % SIZE_RANGE
  }

  /** The length as repl_str computes it, in size_t: tolen - fromlen wraps when the replacement is shorter. */
  function RetLen(orglen: nat, tolen: nat, fromlen: nat, count: nat): nat {
    WrapSize(orglen + WrapSize(WrapSize(tolen - fromlen) * count))
  }

  /** The precomputed length is the length of the result, as far as that fits a size_t. */
  lemma RetLenExact(s: seq<Byte>, from: seq<Byte>, to: seq<Byte>)
    requires |from| > 0
    ensures RetLen(|s|, |to|, |from|, |Positions(s, from, 0)|) == WrapSize(|Replaced(s, from, to, 0)|)
  {
    ReplacedLength(s, from, to, 0);
    var d, n := |to| - |from|, |Positions(s, from, 0)|;
    WrapProduct(d, n);
    WrapAdd(|s|, WrapSize(d) * n);
    WrapAdd(|s|, d * n);
  }

  lemma WrapMultiple(a: int, k: int)
    ensures WrapSize(a + SIZE_RANGE * k) == WrapSize(a)
  {
  }

  lemma WrapAdd(a: int, b: int)
    ensures WrapSize(a + WrapSize(b)) == WrapSize(a + b)
  {
    var k := b / SIZE_RANGE;
    assert a + b == a + WrapSize(b) + SIZE_RANGE * k;
    hide WrapSize;
    WrapMultiple(a + WrapSize(b), k);
  }

  lemma WrapProduct(d: int, n: nat)
    ensures WrapSize(WrapSize(d) * n) == WrapSize(d * n)
  {
    var k := d / SIZE_RANGE;
    assert d == WrapSize(d) + SIZE_RANGE * k;
    hide WrapSize;
    Expand(WrapSize(d), k, n);
    WrapMultiple(WrapSize(d) * n, k * n);
  }

  lemma Expand(r: int, k: int, n: int)
    ensures (r + SIZE_RANGE * k) * n == r * n + SIZE_RANGE * (k * n)
  {
  }

  // ----- the two passes -----

  /** The end of the text before occurrence k; behind the last one, the end of the string. */
  function Next(s: seq<Byte>, ps: seq<nat>, k: nat): nat {
    if k < |ps| then ps[k] else |s|
  }

  lemma FirstIs(s: seq<Byte>, from: seq<Byte>, i: nat)
    requires |from| > 0 && i <= |s|
    ensures Next(s, Positions(s, from, i), 0) == StrStr(s, from, i)
  {
  }

  /** Occurrence k is a match, and the next one is the first match behind it. */
  ghost predicate IsNext(s: seq<Byte>, from: seq<Byte>, ps: seq<nat>, k: nat)
    requires |from| > 0
  {
    && k < |ps| && MatchAt(s, from, ps[k])
    && Next(s, ps, k + 1) == StrStr(s, from, ps[k] + |from|)
  }

  lemma IsNextTail(s: seq<Byte>, from: seq<Byte>, p: nat, rest: seq<nat>, k: nat)
    requires |from| > 0 && IsNext(s, from, rest, k)
    ensures IsNext(s, from, [p] + rest, k + 1)
  {
    hide MatchAt, StrStr;
  }

  lemma FirstIsNext(s: seq<Byte>, from: seq<Byte>, i: nat)
    requires |from| > 0 && i <= |s| && |Positions(s, from, i)| > 0
    ensures IsNext(s, from, Positions(s, from, i), 0)
    ensures StrStr(s, from, i) + |from| <= |s|
    ensures Positions(s, from, i) == [StrStr(s, from, i)] + Positions(s, from, StrStr(s, from, i) + |from|)
  {
    MatchFits(s, from, i);
    FirstIs(s, from, StrStr(s, from, i) + |from|);
  }

  lemma {:induction false} NextIs(s: seq<Byte>, from: seq<Byte>, i: nat, k: nat)
    requires |from| > 0 && i <= |s| && k < |Positions(s, from, i)|
    ensures IsNext(s, from, Positions(s, from, i), k)
    decreases k
  {
    FirstIsNext(s, from, i);
    hide IsNext, Positions, StrStr;
    if k > 0 {
      var q := StrStr(s, from, i) + |from|;
      NextIs(s, from, q, k - 1);
      IsNextTail(s, from, StrStr(s, from, i), Positions(s, from, q), k - 1);
    }
  }

  lemma ReplacedAt(s: seq<Byte>, from: seq<Byte>, to: seq<Byte>, i: nat)
    requires |from| > 0 && MatchAt(s, from, i)
    ensures i + |from| <= |s| && Replaced(s, from, to, i) == to + Replaced(s, from, to, i + |from|)
  {
  }

  /** One occurrence: the replacement and the text up to the next one. */
  lemma ReplaceStep(s: seq<Byte>, from: seq<Byte>, to: seq<Byte>, ps: seq<nat>, k: nat)
    requires |from| > 0 && ps == Positions(s, from, 0) && k < |ps|
    ensures ps[k] + |from| <= Next(s, ps, k + 1) <= |s|
    ensures Replaced(s, from, to, ps[k]) ==
      to + s[ps[k]+|from|..Next(s, ps, k + 1)] + Replaced(s, from, to, Next(s, ps, k + 1))
  {
    NextIs(s, from, 0, k);
    var q := ps[k] + |from|;
    var n := StrStr(s, from, q);
    ReplacedAt(s, from, to, ps[k]);
    CopyUpTo(s, from, to, q, n);
    hide Replaced, StrStr, MatchAt, Positions;
    assert to + (s[q..n] + Replaced(s, from, to, n)) == to + s[q..n] + Replaced(s, from, to, n);
  }

  /** realloc of the position cache. */
  method Grow(cache: array<nat>, count: nat, size: nat) returns (r: array<nat>)
    requires count <= cache.Length && count <= size
    ensures fresh(r) && r.Length == size && r[..count] == cache[..count]
  {
    r := new nat[size](_ => 0);
    forall i | 0 <= i < count {
      r[i] := cache[i];
    }
  }

  /** Remembers a position, with a larger cache if it is full. */
  method Remember(posCache0: array<nat>, count: nat, cacheSzInc0: nat, p: nat) returns (posCache: array<nat>,
                  cacheSzInc: nat)
    requires count <= posCache0.Length && cacheSzInc0 > 0
    modifies posCache0
    ensures posCache == posCache0 || fresh(posCache)
    ensures count < posCache.Length && posCache[..count+1] == old(posCache0[..count]) + [p] && cacheSzInc > 0
  {
    posCache, cacheSzInc := posCache0, cacheSzInc0;
    var cacheSz := posCache.Length;
    if cacheSz < count + 1 {
      cacheSz := cacheSz + cacheSzInc;
      posCache := Grow(posCache, count, cacheSz);
      cacheSzInc := cacheSzInc * CACHE_SZ_INC_FACTOR;
      if cacheSzInc > CACHE_SZ_INC_MAX {
        cacheSzInc := CACHE_SZ_INC_MAX;
      }
    }
    posCache[count] := p;
    assert posCache[..count+1] == posCache[..count] + [p];
  }

  /** The first pass: finds the occurrences and remembers their positions. */
  method FindAll(s: seq<Byte>, from: seq<Byte>) returns (posCache: array<nat>, count: nat, orglen: nat)
    requires |from| > 0
    ensures count <= posCache.Length && posCache[..count] == Positions(s, from, 0) && orglen == |s| && fresh(posCache)
  {
    hide StrStr, MatchAt, Positions;
    var cacheSzInc := CACHE_SZ_INC;
    posCache := new nat[0];
    count := 0;
    var pstr := 0;
    var pstr2 := StrStr(s, from, 0);
    while pstr2 < |s|
      invariant pstr <= |s| && pstr2 == StrStr(s, from, pstr)
      invariant count <= posCache.Length && cacheSzInc > 0 && fresh(posCache)
      invariant posCache[..count] + Positions(s, from, pstr) == Positions(s, from, 0)
      decreases |s| - pstr
    {
      MatchFits(s, from, pstr);
      ghost var found, rest := posCache[..count], Positions(s, from, pstr2 + |from|);
      assert found + ([pstr2] + rest) == (found + [pstr2]) + rest;
      posCache, cacheSzInc := Remember(posCache, count, cacheSzInc, pstr2);
      count := count + 1;
      pstr := pstr2 + |from|;
      pstr2 := StrStr(s, from, pstr);
    }
    NoneLeft(s, from, pstr);
    orglen := pstr + (|s| - pstr);
  }

  lemma NoneLeft(s: seq<Byte>, from: seq<Byte>, i: nat)
    requires |from| > 0 && i <= |s| && StrStr(s, from, i) == |s|
    ensures Positions(s, from, i) == []
  {
  }

  lemma MatchFits(s: seq<Byte>, from: seq<Byte>, i: nat)
    requires |from| > 0 && i <= |s| && StrStr(s, from, i) < |s|
    ensures StrStr(s, from, i) + |from| <= |s|
    ensures Positions(s, from, i) == [StrStr(s, from, i)] + Positions(s, from, StrStr(s, from, i) + |from|)
  {
  }

  /** memcpy to index at. */
  method Copy(ret: array<Byte>, at: nat, bytes: seq<Byte>)
    requires at + |bytes| <= ret.Length
    modifies ret
    ensures ret[..at+|bytes|] == old(ret[..at]) + bytes
  {
    ghost var was := ret[..at];
    forall i | 0 <= i < |bytes| {
      ret[at + i] := bytes[i];
    }
    assert ret[..at] == was && ret[at..at+|bytes|] == bytes;
    assert ret[..at+|bytes|] == ret[..at] + ret[at..at+|bytes|];
  }

  /** repl_str for a pattern that is not empty and a result that fits into memory. */
  method Replace(s: seq<Byte>, from: seq<Byte>, to: seq<Byte>) returns (ret: array<Byte>)
    requires |from| > 0 && |Replaced(s, from, to, 0)| + 1 < SIZE_RANGE
    ensures fresh(ret) && ret.Length == |Replaced(s, from, to, 0)| + 1
    ensures ret[..ret.Length-1] == Replaced(s, from, to, 0) && ret[ret.Length-1] == 0
  {
    var posCache, count, orglen := FindAll(s, from);
    ghost var ps := posCache[..count];
    ghost var result := Replaced(s, from, to, 0);
    RetLenExact(s, from, to);
    Small(|result|);
    NothingFound(s, from, to);
    hide Replaced, Positions, StrStr, MatchAt, RetLen;
    var retlen := if count > 0 then RetLen(orglen, |to|, |from|, count) else orglen;
    assert retlen == |result|;
    ret := new Byte[retlen + 1];
    if count == 0 {
      Copy(ret, 0, s);
    } else {
      WriteAll(s, from, to, posCache, count, orglen, ret);
    }
    ret[retlen] := 0;
  }

  /** The second pass: copies the pieces and the replacements. */
  method WriteAll(s: seq<Byte>, from: seq<Byte>, to: seq<Byte>, posCache: array<nat>, count: nat, orglen: nat,
                  ret: array<Byte>)
    requires |from| > 0 && 0 < count <= posCache.Length && posCache[..count] == Positions(s, from, 0)
    requires orglen == |s| && posCache != (ret as object) && ret.Length == |Replaced(s, from, to, 0)| + 1
    modifies ret
    ensures ret[..ret.Length-1] == Replaced(s, from, to, 0)
  {
    hide Replaced, Positions, StrStr, MatchAt;
    ghost var ps, result := posCache[..count], Replaced(s, from, to, 0);
    FirstPiece(s, from, to);
    Copy(ret, 0, s[..posCache[0]]);
    var pret: nat := posCache[0];
    var i := 0;
    while i < count
      invariant 0 <= i <= count && posCache[..count] == ps && pret < ret.Length
      invariant Next(s, ps, i) <= |s| && ret[..pret] + Replaced(s, from, to, Next(s, ps, i)) == result
    {
      pret := WritePiece(s, from, to, posCache, count, orglen, ret, pret, i, ps);
      i := i + 1;
    }
    EmptyRest(s, from, to);
    assert ret[..pret] + [] == ret[..pret];
  }

  /** One round of the second pass: the replacement and the text up to the next occurrence. */
  method WritePiece(s: seq<Byte>, from: seq<Byte>, to: seq<Byte>, posCache: array<nat>, count: nat, orglen: nat,
                    ret: array<Byte>, pret0: nat, i: nat, ghost ps: seq<nat>) returns (pret: nat)
    requires |from| > 0 && ps == Positions(s, from, 0) && i < count <= posCache.Length && posCache[..count] == ps
    requires orglen == |s| && posCache != (ret as object)
    requires Next(s, ps, i) <= |s| && pret0 + |Replaced(s, from, to, Next(s, ps, i))| < ret.Length
    modifies ret
    ensures pret < ret.Length && Next(s, ps, i + 1) <= |s|
    ensures ret[..pret] + Replaced(s, from, to, Next(s, ps, i + 1)) ==
      old(ret[..pret0]) + Replaced(s, from, to, Next(s, ps, i))
  {
    hide Replaced, Positions, StrStr, MatchAt;
    ReplaceStep(s, from, to, ps, i);
    ghost var done := ret[..pret0];
    var pstr := posCache[i] + |from|;
    var cpylen := (if i == count - 1 then orglen else posCache[i+1]) - posCache[i] - |from|;
    assert Next(s, ps, i + 1) == pstr + cpylen;
    var piece := s[pstr..pstr+cpylen];
    Regroup(done, to, piece, Replaced(s, from, to, pstr + cpylen));
    hide Next;
    Copy(ret, pret0, to);
    pret := pret0 + |to|;
    Copy(ret, pret, piece);
    pret := pret + cpylen;
  }

  lemma Small(n: nat)
    requires n < SIZE_RANGE
    ensures WrapSize(n) == n
  {
  }

  lemma NothingFound(s: seq<Byte>, from: seq<Byte>, to: seq<Byte>)
    requires |from| > 0
    ensures |Positions(s, from, 0)| == 0 ==> Replaced(s, from, to, 0) == s
  {
    if |Positions(s, from, 0)| == 0 {
      CopyUpTo(s, from, to, 0, |s|);
      assert s[0..|s|] == s;
    }
  }

  lemma FirstPiece(s: seq<Byte>, from: seq<Byte>, to: seq<Byte>)
    requires |from| > 0 && |Positions(s, from, 0)| > 0
    ensures var p := Positions(s, from, 0)[0]; p <= |s| && s[..p] + Replaced(s, from, to, p) == Replaced(s, from, to, 0)
  {
    CopyUpTo(s, from, to, 0, StrStr(s, from, 0));
  }

  lemma Regroup(done: seq<Byte>, to: seq<Byte>, piece: seq<Byte>, rest: seq<Byte>)
    ensures done + (to + piece + rest) == done + to + piece + rest
    ensures |done + (to + piece + rest)| >= |done| + |to| + |piece|
  {
  }

  lemma EmptyRest(s: seq<Byte>, from: seq<Byte>, to: seq<Byte>)
    requires |from| > 0
    ensures Replaced(s, from, to, |s|) == []
  {
  }
}
