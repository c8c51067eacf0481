/** do_csum of checksum.c: the Internet checksum, summed in 64-bit words with end-around carry. */
module Checksum {
  import opened Numbers
  import opened Bytes

  const U64 := 0x1_0000_0000_0000_0000
  const M := 0xFFFF

  /** The sum of the 16-bit words, low byte first, an odd last byte padded with zero: section 2 of RFC 1071. */
  function WordSum(s: seq<Byte>): nat {
    if |s| == 0 then 0
    else if |s| == 1 then s[0]
    else s[0] + 256 * s[1] + WordSum(s[2..])
  }

  ghost predicate Congruent(a: int, b: int) {
    a % M == b % M
  }

  // ----- from64to16 -----

  /** The sum of the four 16-bit pieces of a 64-bit number. */
  function Pieces(x: nat): nat {
    x % 0x1_0000 + x / 0x1_0000 % 0x1_0000 + x / 0x1_0000_0000 % 0x1_0000 + x / 0x1_0000_0000_0000 % 0x1_0000
  }

  function From64To16(x: nat): nat {
    var u := Pieces(x);
    (u % 0x1_0000 + u / 0x1_0000 % 0x1_0000) % 0x1_0000
  }

  /** The last addition, which is truncated to 16 bits, does not carry out. */
  predicate NoCarryOut(x: nat) {
    var u := Pieces(x);
    u % 0x1_0000 + u / 0x1_0000 < 0x1_0000
  }

  lemma PiecesCongruent(x: nat)
    requires x < U64
    ensures Congruent(Pieces(x), x) && Pieces(x) <= 4 * M
  {
    var a, b, c, d := x % 0x1_0000, x / 0x1_0000 % 0x1_0000, x / 0x1_0000_0000 % 0x1_0000,
      x / 0x1_0000_0000_0000 % 0x1_0000;
    var y := x / 0x1_0000;
    var z := y / 0x1_0000;
    assert z == x / 0x1_0000_0000;
    assert z / 0x1_0000 == x / 0x1_0000_0000_0000;
    assert z == 0x1_0000 * d + c;
    assert y == 0x1_0000 * z + b;
    assert x == 0x1_0000 * y + a;
    assert x == Pieces(x) + M * (y + z + d);
    Multiple(Pieces(x), y + z + d);
  }

  lemma Multiple(a: int, k: int)
    ensures Congruent(a + M * k, a)
  {
  }

  /** The folded result is congruent to the accumulator exactly when the last addition does not carry out. */
  lemma FoldExact(x: nat)
    requires x < U64
    ensures From64To16(x) < 0x1_0000
    ensures Congruent(From64To16(x), x) <==> NoCarryOut(x)
  {
    PiecesCongruent(x);
    FoldParts(Pieces(x));
    hide Pieces;
  }

  /** Folding a number of at most 18 bits once more. */
  lemma FoldParts(u: nat)
    requires u <= 4 * M
    ensures var lo, hi := u % 0x1_0000, u / 0x1_0000;
      && hi % 0x1_0000 == hi
      && (Congruent((lo + hi) % 0x1_0000, u) <==> lo + hi < 0x1_0000)
  {
    var lo, hi := u % 0x1_0000, u / 0x1_0000;
    assert u == lo + hi + M * hi;
    Multiple(lo + hi, hi);
    if lo + hi >= 0x1_0000 {
      assert (lo + hi) % 0x1_0000 == lo + hi - 0x1_0000 <= 3;
    }
  }

  // ----- the accumulator -----

  /** What is left of the buffer, its address, and the sum so far. */
  datatype Cursor = Cursor(s: seq<Byte>, addr: nat, sum: nat)

  function Take(c: Cursor, n: nat): Cursor
    requires n <= |c.s|
  {
    Cursor(c.s[n..], c.addr + n, c.sum + FromLe(c.s[..n]))
  }

  /** The loop over 64-bit words: each addition wraps, and its carry is added in the next round. */
  function EndAround(s: seq<Byte>, result: nat, carry: nat): nat
    decreases |s|
  {
    if |s| < 8 then (result + carry) % U64
    else
      var w := FromLe(s[..8]);
      var next := ((result + carry) % U64 + w) % U64;
      EndAround(s[8..], next, if w > next then 1 else 0)
  }

  function Aligned2(c: Cursor): Cursor {
    if |c.s| >= 2 && c.addr / 2 % 2 == 1 then Take(c, 2) else c
  }

  function Aligned4(c: Cursor): Cursor {
    if |c.s| >= 4 && c.addr / 4 % 2 == 1 then Take(c, 4) else c
  }

  function Words64(c: Cursor): Cursor {
    if |c.s| < 8 then c
    else
      var n := |c.s| / 8 * 8;
      var r := EndAround(c.s, c.sum, 0);
      Cursor(c.s[n..], c.addr + n, r % U32 + r / U32)
  }

  function TakeIf(c: Cursor, n: nat): Cursor {
    if |c.s| >= n then Take(c, n) else c
  }

  function Rest(c: Cursor): Cursor {
    TakeIf(TakeIf(TakeIf(c, 4), 2), 1)
  }

  function Start(buf: seq<Byte>, addr: nat): Cursor
    requires |buf| > 0
  {
    if addr % 2 == 1 then Cursor(buf[1..], addr + 1, 256 * (buf[0] as int)) else Cursor(buf, addr, 0)
  }

  /** The accumulator of do_csum just before it is folded. */
  function Accumulator(buf: seq<Byte>, addr: nat): nat {
    if |buf| == 0 then 0 else Rest(Words64(Aligned4(Aligned2(Start(buf, addr))))).sum
  }

  function Swapped(v: nat): nat {
    v / 256 % 256 + 256 * (v % 256)
  }

  /** do_csum. */
  function Csum(buf: seq<Byte>, addr: nat): nat {
    var v := From64To16(Accumulator(buf, addr));
    if addr % 2 == 1 then Swapped(v) else v
  }

  // ----- the accumulator is congruent to the word sum -----

  lemma CongruentSum(a: int, b: int, c: int, d: int)
    requires Congruent(a, b) && Congruent(c, d)
    ensures Congruent(a + c, b + d)
  {
    var i, j := a / M - b / M, c / M - d / M;
    assert a + c == b + d + M * (i + j);
    Multiple(b + d, i + j);
  }

  lemma {:induction false} WordSumConcat(s: seq<Byte>, t: seq<Byte>)
    requires |s| % 2 == 0
    ensures WordSum(s + t) == WordSum(s) + WordSum(t)
  {
    if |s| == 0 {
      assert s + t == t;
    } else {
      assert (s + t)[2..] == s[2..] + t;
      WordSumConcat(s[2..], t);
    }
  }

  lemma WordSumSplit(s: seq<Byte>, n: nat)
    requires n <= |s| && n % 2 == 0
    ensures WordSum(s) == WordSum(s[..n]) + WordSum(s[n..])
  {
    assert s == s[..n] + s[n..];
    WordSumConcat(s[..n], s[n..]);
  }

  /** A little-endian word of an even number of bytes is congruent to the sum of its 16-bit words. */
  lemma {:induction false} WordCongruent(s: seq<Byte>)
    requires |s| % 2 == 0
    ensures Congruent(FromLe(s), WordSum(s))
  {
    if |s| > 0 {
      var t := s[2..];
      WordCongruent(t);
      assert s[1..][1..] == t;
      var x, y: int := FromLe(t), s[0] + 256 * (s[1] as int);
      assert FromLe(s) == y + 0x1_0000 * x;
      CongruentSum(y, y, x, WordSum(t));
      Multiple(y + x, x);
    }
  }

  lemma {:induction false} LeBound(s: seq<Byte>)
    ensures FromLe(s) < Pow2(8 * |s|)
  {
    if |s| > 0 {
      LeBound(s[1..]);
      Pow2Byte(|s|);
    }
  }

  lemma WordBounds(s: seq<Byte>)
    ensures |s| == 1 ==> FromLe(s) < 256
    ensures |s| == 2 ==> FromLe(s) < 0x1_0000
    ensures |s| == 4 ==> FromLe(s) < U32
    ensures |s| == 8 ==> FromLe(s) < U64
  {
    LeBound(s);
    assert Pow2(8) == 256;
    assert Pow2(16) == 0x1_0000;
    Pow2Is32();
    Pow2Is64();
  }

  lemma Pow2Is64()
    ensures Pow2(64) == U64
  {
    Pow2Is32();
    assert Pow2(40) == 256 * U32;
    assert Pow2(48) == 256 * Pow2(40);
    assert Pow2(56) == 256 * Pow2(48);
    assert Pow2(64) == 256 * Pow2(56);
  }

  /** c has not lost anything: its sum and what is left make up total. */
  ghost predicate Holds(c: Cursor, total: int) {
    Congruent(c.sum + WordSum(c.s), total)
  }

  lemma TakeHolds(c: Cursor, n: nat, total: int)
    requires n <= |c.s| && (n % 2 == 0 || n == |c.s| == 1) && Holds(c, total)
    ensures Holds(Take(c, n), total)
  {
    hide WordSum, FromLe;
    var a := c.s[..n];
    if n % 2 == 0 {
      WordSumSplit(c.s, n);
      WordCongruent(a);
    } else {
      LastByte(c.s);
    }
    var d := Take(c, n);
    CongruentSum(FromLe(a), WordSum(a), c.sum + WordSum(d.s), c.sum + WordSum(d.s));
  }

  lemma LastByte(s: seq<Byte>)
    requires |s| == 1
    ensures WordSum(s) == WordSum(s[..1]) + WordSum(s[1..]) && Congruent(FromLe(s[..1]), WordSum(s[..1]))
  {
    assert s[..1] == s && s[1..] == [];
  }

  /** No carry is lost: when the carry is set, the sum is small enough for it. */
  lemma {:induction false} EndAroundSum(s: seq<Byte>, result: nat, carry: nat)
    requires result + carry < U64 && carry <= 1
    ensures EndAround(s, result, carry) < U64
    ensures Congruent(EndAround(s, result, carry), result + carry + WordSum(s[..|s|/8*8]))
    decreases |s|
  {
    if |s| < 8 {
      assert s[..0] == [];
    } else {
      var w := FromLe(s[..8]);
      WordBounds(s[..8]);
      var sum := result + carry + w;
      var next := sum % U64;
      assert (result + carry) % U64 == result + carry;
      assert w > next <==> sum >= U64;
      var c := if w > next then 1 else 0;
      assert next + c < U64;
      EndAroundSum(s[8..], next, c);
      CarryCongruent(sum, next, c);
      RoundCongruent(s, result + carry, next + c, EndAround(s[8..], next, c));
    }
  }

  lemma RoundCongruent(s: seq<Byte>, before: nat, after: nat, end: nat)
    requires |s| >= 8 && Congruent(after, before + FromLe(s[..8]))
    requires var t := s[8..]; Congruent(end, after + WordSum(t[..|t|/8*8]))
    ensures Congruent(end, before + WordSum(s[..|s|/8*8]))
  {
    hide WordSum, FromLe;
    var n := |s| / 8 * 8;
    var a, b := s[..8], s[8..n];
    assert s[8..][..n-8] == b && s[..n] == a + b && |s[8..]| / 8 * 8 == n - 8;
    WordSumConcat(a, b);
    WordCongruent(a);
    CongruentSum(after, before + FromLe(a), WordSum(b), WordSum(b));
    CongruentSum(FromLe(a), WordSum(a), before + WordSum(b), before + WordSum(b));
  }

  lemma CarryCongruent(sum: nat, next: nat, carry: nat)
    requires sum < 2 * U64 && next == sum % U64 && carry == sum / U64
    ensures Congruent(next + carry, sum)
  {
    Multiple(next + carry, carry * ((U64 - 1) / M));
  }

  lemma Words64Holds(c: Cursor, total: int)
    requires Holds(c, total) && c.sum < U64
    ensures Holds(Words64(c), total) && |Words64(c).s| < 8
    ensures |c.s| >= 8 ==> Words64(c).sum < 2 * U32
    ensures |c.s| < 8 ==> Words64(c) == c
  {
    if |c.s| >= 8 {
      var n := |c.s| / 8 * 8;
      EndAroundSum(c.s, c.sum, 0);
      var r := EndAround(c.s, c.sum, 0);
      hide EndAround, WordSum;
      WordSumSplit(c.s, n);
      HalvesCongruent(r);
      var rest := c.s[n..];
      var w, v := WordSum(c.s[..n]), WordSum(rest);
      CongruentSum(r % U32 + r / U32, c.sum + w, v, v);
    }
  }

  lemma HalvesCongruent(r: nat)
    requires r < U64
    ensures Congruent(r % U32 + r / U32, r) && r % U32 + r / U32 < 2 * U32
  {
    var a, b := r % U32, r / U32;
    assert r == a + b + M * (b * ((U32 - 1) / M));
    Multiple(a + b, b * ((U32 - 1) / M));
  }

  lemma TakeBound(c: Cursor, n: nat)
    requires n <= |c.s| && (n == 1 || n == 2 || n == 4)
    ensures c.sum <= Take(c, n).sum < c.sum + (if n == 1 then 256 else if n == 2 then 0x1_0000 else U32)
  {
    WordBounds(c.s[..n]);
  }

  lemma AlignedHolds(c: Cursor, total: int)
    requires Holds(c, total) && c.sum < 0x1_0000
    ensures Holds(Aligned4(Aligned2(c)), total) && Aligned4(Aligned2(c)).sum < 2 * U32
  {
    hide Holds, Take;
    if |c.s| >= 2 {
      TakeHolds(c, 2, total);
      TakeBound(c, 2);
    }
    var d := Aligned2(c);
    if |d.s| >= 4 {
      TakeHolds(d, 4, total);
      TakeBound(d, 4);
    }
  }

  lemma RestHolds(c: Cursor, total: int)
    requires Holds(c, total) && |c.s| < 8 && c.sum < 2 * U32
    ensures Holds(Rest(c), total) && |Rest(c).s| == 0 && Rest(c).sum < 4 * U32
  {
    hide Holds;
    var d := TakeIf(c, 4);
    if |c.s| >= 4 {
      TakeHolds(c, 4, total);
      TakeBound(c, 4);
    }
    var e := TakeIf(d, 2);
    if |d.s| >= 2 {
      TakeHolds(d, 2, total);
      TakeBound(d, 2);
    }
    if |e.s| >= 1 {
      TakeHolds(e, 1, total);
      TakeBound(e, 1);
    }
  }

  lemma StartHolds(buf: seq<Byte>, addr: nat)
    requires |buf| > 0
    ensures Holds(Start(buf, addr), (if addr % 2 == 1 then 256 else 1) * WordSum(buf))
  {
    if addr % 2 == 1 {
      ShiftedSum(buf);
    }
    hide WordSum;
  }

  /** For any length and any alignment the accumulator is congruent to the word sum, times 256 for an odd start,
      and it never wraps outside the 64-bit loop. */
  lemma AccumulatorCongruent(buf: seq<Byte>, addr: nat)
    ensures Accumulator(buf, addr) < 4 * U32
    ensures Congruent(Accumulator(buf, addr), (if addr % 2 == 1 then 256 else 1) * WordSum(buf))
  {
    if |buf| > 0 {
      var total := (if addr % 2 == 1 then 256 else 1) * WordSum(buf);
      var c := Start(buf, addr);
      StartHolds(buf, addr);
      hide Start, Congruent, Holds, WordSum, Aligned2, Aligned4, Words64, Rest;
      AlignedHolds(c, total);
      Words64Holds(Aligned4(Aligned2(c)), total);
      RestHolds(Words64(Aligned4(Aligned2(c))), total);
      HoldsEnd(Rest(Words64(Aligned4(Aligned2(c)))), total);
    }
  }

  lemma HoldsEnd(c: Cursor, total: int)
    requires Holds(c, total) && |c.s| == 0
    ensures Congruent(c.sum, total)
  {
  }

  /** Summing from the second byte swaps the bytes of the sum. */
  lemma {:induction false} ShiftedSum(s: seq<Byte>)
    requires |s| > 0
    ensures Congruent(256 * (s[0] as int) + WordSum(s[1..]), 256 * WordSum(s))
  {
    var a: int := s[0];
    if |s| == 1 {
      assert s[1..] == [];
    } else {
      var b, t: int := s[1], WordSum(s[2..]);
      if |s| == 2 {
        assert WordSum(s[1..]) == b && t == 0;
      } else {
        ShiftedSum(s[2..]);
        assert s[1..][2..] == s[2..][1..];
        assert WordSum(s[1..]) == b + 256 * (s[2] as int) + WordSum(s[2..][1..]);
      }
      var u := WordSum(s[1..]) - b;
      assert Congruent(u, 256 * t);
      CongruentSum(256 * a + b, 256 * a + b, u, 256 * t);
      Multiple(256 * a + b + 256 * t, b);
    }
  }

  // ----- the result -----

  lemma SwapCongruent(v: nat, w: int)
    requires v < 0x1_0000
    ensures Swapped(v) < 0x1_0000
    ensures Congruent(Swapped(v), w) <==> Congruent(v, 256 * w)
  {
    var h, l := v / 256, v % 256;
    assert 256 * v == Swapped(v) + M * h;
    Multiple(Swapped(v), h);
    if Congruent(Swapped(v), w) {
      Times256(256 * v, w);
      Multiple(v, v);
    }
    if Congruent(v, 256 * w) {
      Times256(v, 256 * w);
      Multiple(w, w);
    }
  }

  lemma Times256(a: int, b: int)
    requires Congruent(a, b)
    ensures Congruent(256 * a, 256 * b)
  {
    var k := a / M - b / M;
    assert a == b + M * k;
    Multiple(256 * b, 256 * k);
  }

  /** do_csum is congruent to the word sum, whatever the alignment, exactly when the last addition
      of from64to16 does not carry out of 16 bits, that is, unless the pieces sum to 0x1FFFF. */
  lemma CsumExact(buf: seq<Byte>, addr: nat)
    ensures Csum(buf, addr) < 0x1_0000
    ensures Congruent(Csum(buf, addr), WordSum(buf)) <==> NoCarryOut(Accumulator(buf, addr))
    ensures NoCarryOut(Accumulator(buf, addr)) <==> Pieces(Accumulator(buf, addr)) != 0x1_FFFF
  {
    hide Accumulator, WordSum, From64To16, Swapped;
    var acc, w := Accumulator(buf, addr), WordSum(buf);
    AccumulatorCongruent(buf, addr);
    FoldExact(acc);
    SwapCongruent(From64To16(acc), w);
    FewPieces(acc);
  }

  // ----- zero -----

  ghost predicate AllZero(s: seq<Byte>) {
    forall i :: 0 <= i < |s| ==> s[i] == 0
  }

  lemma {:induction false} LeZero(s: seq<Byte>)
    ensures FromLe(s) == 0 <==> AllZero(s)
  {
    if |s| > 0 {
      LeZero(s[1..]);
      ZeroConcat(s, 1);
    }
  }

  lemma {:induction false} WordSumZero(s: seq<Byte>)
    ensures WordSum(s) == 0 <==> AllZero(s)
  {
    if |s| > 1 {
      WordSumZero(s[2..]);
      ZeroConcat(s, 2);
    }
  }

  lemma ZeroConcat(s: seq<Byte>, n: nat)
    requires n <= |s|
    ensures AllZero(s) <==> AllZero(s[..n]) && AllZero(s[n..])
  {
    if AllZero(s[..n]) && AllZero(s[n..]) {
      forall i | 0 <= i < |s| ensures s[i] == 0 {
        assert s[i] == if i < n then s[..n][i] else s[n..][i-n];
      }
    }
  }

  /** Nothing but zeros was or will be summed. */
  ghost predicate Zero(c: Cursor) {
    c.sum == 0 && AllZero(c.s)
  }

  lemma TakeZero(c: Cursor, n: nat)
    requires n <= |c.s|
    ensures Zero(Take(c, n)) <==> Zero(c)
  {
    LeZero(c.s[..n]);
    ZeroConcat(c.s, n);
    hide AllZero, FromLe;
  }

  /** The end-around sum is zero only for zeros: a sum that wraps leaves its carry. */
  lemma {:induction false} EndAroundZero(s: seq<Byte>, result: nat, carry: nat)
    requires result + carry < U64 && carry <= 1
    ensures EndAround(s, result, carry) == 0 <==> result == 0 && carry == 0 && AllZero(s[..|s|/8*8])
    decreases |s|
  {
    if |s| < 8 {
      assert s[..0] == [];
    } else {
      var w := FromLe(s[..8]);
      WordBounds(s[..8]);
      var sum := result + carry + w;
      var next := sum % U64;
      var c := if w > next then 1 else 0;
      assert (result + carry) % U64 == result + carry;
      assert w > next <==> sum >= U64;
      EndAroundZero(s[8..], next, c);
      LeZero(s[..8]);
      var n := |s| / 8 * 8;
      assert s[8..][..|s[8..]|/8*8] == s[..n][8..] && s[..n][..8] == s[..8];
      ZeroConcat(s[..n], 8);
    }
  }

  lemma Words64Zero(c: Cursor)
    requires c.sum < U64
    ensures Zero(Words64(c)) <==> Zero(c)
  {
    if |c.s| >= 8 {
      EndAroundSum(c.s, c.sum, 0);
      EndAroundZero(c.s, c.sum, 0);
      ZeroConcat(c.s, |c.s| / 8 * 8);
      hide AllZero, EndAround;
    }
  }

  /** The accumulator is zero only for a buffer of zeros. */
  lemma AccumulatorZero(buf: seq<Byte>, addr: nat)
    ensures Accumulator(buf, addr) == 0 <==> AllZero(buf)
  {
    if |buf| > 0 {
      var c := Start(buf, addr);
      ZeroConcat(buf, 1);
      assert Zero(c) <==> AllZero(buf);
      var total := (if addr % 2 == 1 then 256 else 1) * WordSum(buf);
      StartHolds(buf, addr);
      AlignedHolds(c, total);
      Words64Holds(Aligned4(Aligned2(c)), total);
      RestHolds(Words64(Aligned4(Aligned2(c))), total);
      AlignedZero(c);
      Words64Zero(Aligned4(Aligned2(c)));
      RestZero(Words64(Aligned4(Aligned2(c))));
    }
  }

  lemma AlignedZero(c: Cursor)
    ensures Zero(Aligned4(Aligned2(c))) <==> Zero(c)
  {
    hide Zero, Take;
    if |c.s| >= 2 {
      TakeZero(c, 2);
    }
    var d := Aligned2(c);
    if |d.s| >= 4 {
      TakeZero(d, 4);
    }
  }

  lemma RestZero(c: Cursor)
    ensures Zero(Rest(c)) <==> Zero(c)
  {
    hide Zero, Take;
    if |c.s| >= 4 {
      TakeZero(c, 4);
    }
    var d := TakeIf(c, 4);
    if |d.s| >= 2 {
      TakeZero(d, 2);
    }
    var e := TakeIf(d, 2);
    if |e.s| >= 1 {
      TakeZero(e, 1);
    }
  }

  /** The value of do_csum: 0 for a buffer of zeros and when the carry is lost, otherwise the one number from 1 to 65535
      that is congruent to the word sum. */
  lemma CsumValue(buf: seq<Byte>, addr: nat)
    ensures Csum(buf, addr) ==
      if AllZero(buf) || Pieces(Accumulator(buf, addr)) == 0x1_FFFF then 0 else (WordSum(buf) - 1) % 0xFFFF + 1
  {
    CsumExact(buf, addr);
    AccumulatorZero(buf, addr);
    WordSumZero(buf);
    AccumulatorCongruent(buf, addr);
    CsumZero(buf, addr);
    hide Csum, AllZero, Pieces, Accumulator, WordSum;
    if !AllZero(buf) && Pieces(Accumulator(buf, addr)) != 0x1_FFFF {
      Representative(Csum(buf, addr), WordSum(buf));
    }
  }

  lemma Representative(v: nat, w: nat)
    requires 0 < v < 0x1_0000 && w > 0 && Congruent(v, w)
    ensures v == (w - 1) % 0xFFFF + 1
  {
  }

  lemma CsumZero(buf: seq<Byte>, addr: nat)
    ensures Csum(buf, addr) == 0 <==> Accumulator(buf, addr) == 0 || Pieces(Accumulator(buf, addr)) == 0x1_FFFF
  {
    var acc := Accumulator(buf, addr);
    AccumulatorCongruent(buf, addr);
    FoldZero(acc);
    FoldExact(acc);
    hide Accumulator, From64To16;
    SwappedZero(From64To16(acc));
  }

  lemma SwappedZero(v: nat)
    requires v < 0x1_0000
    ensures Swapped(v) == 0 <==> v == 0
  {
  }

  lemma FoldZero(x: nat)
    requires x < 4 * U32
    ensures From64To16(x) == 0 <==> x == 0 || Pieces(x) == 0x1_FFFF
  {
    PiecesCongruent(x);
    FewPieces(x);
    PiecesZero(x);
    hide Pieces;
    var u := Pieces(x);
    var lo, hi := u % 0x1_0000, u / 0x1_0000;
    assert u == 0x1_0000 * hi + lo;
  }

  lemma PiecesZero(x: nat)
    requires x < U64
    ensures Pieces(x) == 0 <==> x == 0
  {
  }

  lemma FewPieces(x: nat)
    requires x < 4 * U32
    ensures NoCarryOut(x) <==> Pieces(x) != 0x1_FFFF
  {
    assert x / 0x1_0000_0000 <= 3;
    assert Pieces(x) <= 2 * M + 3;
    hide Pieces;
  }

  lemma {:induction false} AllOnes(s: seq<Byte>)
    requires forall i :: 0 <= i < |s| ==> s[i] == 0xFF
    ensures FromLe(s) == Pow2(8 * |s|) - 1
  {
    if |s| > 0 {
      AllOnes(s[1..]);
      Pow2Byte(|s|);
    }
  }

  lemma OneRound(s: seq<Byte>)
    requires |s| == 9 && (forall i :: 0 <= i < 8 ==> s[i] == 0xFF) && s[8] == 1
    ensures EndAround(s, 0, 0) == U64 - 1 && s[8..] == [1]
  {
    AllOnes(s[..8]);
    Pow2Is64();
    assert s[8..] == [1];
    assert EndAround([1], U64 - 1, 0) == U64 - 1;
    hide FromLe, Pow2;
  }

  /** An input on which the carry is lost: eight bytes 0xFF and one byte 1. */
  lemma LostCarry(buf: seq<Byte>)
    requires |buf| == 9 && (forall i :: 0 <= i < 8 ==> buf[i] == 0xFF) && buf[8] == 1
    ensures Csum(buf, 0) == 0 && !Congruent(Csum(buf, 0), WordSum(buf))
  {
    OneRound(buf);
    hide EndAround;
    var c := Cursor(buf, 0, 0);
    assert Aligned4(Aligned2(c)) == c;
    assert Words64(c) == Cursor([1], 8, 0x1_FFFF_FFFE);
    LastOne(Words64(c));
    assert Accumulator(buf, 0) == 0x1_FFFF_FFFF;
    hide Accumulator, WordSum;
    assert Pieces(0x1_FFFF_FFFF) == 0x1_FFFF;
    CsumExact(buf, 0);
  }

  lemma LastOne(c: Cursor)
    requires c.s == [1]
    ensures Rest(c).sum == c.sum + 1
  {
    assert c.s[..1] == [1] && [1 as Byte][1..] == [];
  }

  // ----- the loop -----

  type Word64 = w: int | 0 <= w < U64

  /** The loop over count 64-bit words at p; no addition but the two inside the loop wraps. */
  method SumWords64(buf: seq<Byte>, p0: nat, count0: nat, result0: Word64) returns (p: nat, result: Word64)
    requires p0 + 8 * count0 <= |buf| < p0 + 8 * count0 + 8 && count0 > 0
    ensures p == p0 + 8 * count0 && result == EndAround(buf[p0..], result0, 0)
  {
    hide FromLe;
    var count, carry := count0, 0;
    p, result := p0, result0;
    while count > 0
      invariant p == p0 + 8 * (count0 - count) && 0 <= count <= count0 && 0 <= carry <= 1
      invariant EndAround(buf[p..], result, carry) == EndAround(buf[p0..], result0, 0)
    {
      WordBounds(buf[p..p+8]);
      var w: Word64 := FromLe(buf[p..p+8]);
      assert buf[p..][..8] == buf[p..p+8] && buf[p..][8..] == buf[p+8..];
      count := count - 1;
      p := p + 8;
      result := (result + carry) % U64;
      result := (result + w) % U64;
      carry := if w > result then 1 else 0;
    }
    result := (result + carry) % U64;
  }

  /** The cursor at position p of the buffer. */
  function At(buf: seq<Byte>, addr: nat, p: nat, sum: nat): Cursor
    requires p <= |buf|
  {
    Cursor(buf[p..], addr + p, sum)
  }

  lemma AtParts(buf: seq<Byte>, addr: nat, p: nat, sum: nat)
    requires p <= |buf|
    ensures var c := At(buf, addr, p, sum); |c.s| == |buf| - p && c.addr == addr + p && c.sum == sum
  {
  }

  /** Adds the n-byte word at p. */
  method AddWord(buf: seq<Byte>, addr: nat, p: nat, result0: Word64, n: nat) returns (result: Word64)
    requires p + n <= |buf| && (n == 1 || n == 2 || n == 4) && result0 < 4 * U32
    ensures At(buf, addr, p + n, result) == Take(At(buf, addr, p, result0), n)
    ensures result < result0 + (if n == 1 then 256 else if n == 2 then 0x1_0000 else U32)
  {
    hide FromLe;
    WordBounds(buf[p..p+n]);
    assert buf[p..][..n] == buf[p..p+n] && buf[p..][n..] == buf[p+n..];
    result := result0 + FromLe(buf[p..p+n]);
  }

  /** The part of do_csum for count 32-bit words. */
  method SumWords32(buf: seq<Byte>, addr: nat, p0: nat, result0: Word64, count0: nat, len0: nat)
    returns (p: nat, result: Word64, len: nat)
    requires p0 <= |buf| && len0 == |buf| - p0 && count0 == len0 / 4 > 0 && result0 < 2 * 0x1_0000
    ensures p <= |buf| && |buf| - p == len0 % 4 == len % 4 && result < 3 * U32
    ensures At(buf, addr, p, result) == TakeIf(Words64(Aligned4(At(buf, addr, p0, result0))), 4)
  {
    hide At, Take, Words64;
    p, result, len := p0, result0, len0;
    AtParts(buf, addr, p, result);
    var count := count0;
    if (addr + p) / 4 % 2 == 1 {
      result := AddWord(buf, addr, p, result, 4);
      count, len, p := count - 1, len - 4, p + 4;
    }
    assert At(buf, addr, p, result) == Aligned4(At(buf, addr, p0, result0));
    hide Aligned4;
    p, result := SumFromBoundary(buf, addr, p, result, count / 2, len);
  }

  /** Whole 64-bit words, then a 32-bit word that is left over. */
  method SumFromBoundary(buf: seq<Byte>, addr: nat, p0: nat, result0: Word64, count: nat, len: nat)
    returns (p: nat, result: Word64)
    requires p0 <= |buf| && len == |buf| - p0 && count == len / 8 && result0 < 2 * U32
    ensures p <= |buf| && |buf| - p == len % 4 && result < 3 * U32
    ensures At(buf, addr, p, result) == TakeIf(Words64(At(buf, addr, p0, result0)), 4)
  {
    hide At, Take, Words64;
    AtParts(buf, addr, p0, result0);
    p, result := SumAligned(buf, addr, p0, result0, count);
    AtParts(buf, addr, p, result);
    if len / 4 % 2 == 1 {
      result := AddWord(buf, addr, p, result, 4);
      p := p + 4;
    }
  }

  /** The part of do_csum for count 64-bit words. */
  method SumAligned(buf: seq<Byte>, addr: nat, p0: nat, result0: Word64, count: nat) returns (p: nat, result: Word64)
    requires p0 <= |buf| && count == (|buf| - p0) / 8 && result0 < 2 * U32
    ensures p == p0 + 8 * count && At(buf, addr, p, result) == Words64(At(buf, addr, p0, result0)) && result < 2 * U32
  {
    hide FromLe, EndAround;
    p, result := p0, result0;
    if count != 0 {
      p, result := SumWords64(buf, p, count, result);
      HalvesCongruent(result);
      result := result % U32 + result / U32;
      assert buf[p0..][8 * count..] == buf[p..];
    }
  }

  /** The part of the loop nest that starts at a 32-bit boundary, or with less than a word. */
  method SumFromWord(buf: seq<Byte>, addr: nat, p0: nat, result0: Word64, count0: nat, len0: nat)
    returns (p: nat, result: Word64)
    requires p0 <= |buf| && len0 == |buf| - p0 && count0 == len0 / 2 && result0 < 2 * 0x1_0000
    ensures p <= |buf| && |buf| - p == len0 % 2 && result < 4 * U32
    ensures At(buf, addr, p, result) == TakeIf(TakeIf(Words64(Aligned4(At(buf, addr, p0, result0))), 4), 2)
  {
    hide At, Take, Words64, Aligned4, Aligned2;
    p, result := p0, result0;
    AtParts(buf, addr, p, result);
    var len, count := len0, count0 / 2;
    if count != 0 {
      p, result, len := SumWords32(buf, addr, p, result, count, len);
      AtParts(buf, addr, p, result);
    } else {
      TooShort(At(buf, addr, p, result));
    }
    if len / 2 % 2 == 1 {
      result := AddWord(buf, addr, p, result, 2);
      p := p + 2;
    }
  }

  /** The part of do_csum for whole 16-bit words; no addition wraps outside the 64-bit loop. */
  method SumWords(buf: seq<Byte>, addr: nat, p0: nat, result0: Word64) returns (p: nat, result: Word64)
    requires p0 <= |buf| && (addr + p0) % 2 == 0 && result0 < 0x1_0000
    ensures p <= |buf| && |buf| - p == (|buf| - p0) % 2 && result < 4 * U32
    ensures At(buf, addr, p, result) == TakeIf(TakeIf(Words64(Aligned4(Aligned2(At(buf, addr, p0, result0)))), 4), 2)
  {
    hide At, Take, Words64, Aligned4;
    p, result := p0, result0;
    AtParts(buf, addr, p, result);
    var len := |buf| - p0;
    var count := len / 2;
    if count != 0 {
      if (addr + p) / 2 % 2 == 1 {
        result := AddWord(buf, addr, p, result, 2);
        count, len, p := count - 1, len - 2, p + 2;
      }
      assert At(buf, addr, p, result) == Aligned2(At(buf, addr, p0, result0));
      p, result := SumFromWord(buf, addr, p, result, count, len);
    } else {
      TooShort(At(buf, addr, p, result));
    }
  }

  lemma TooShort(c: Cursor)
    requires |c.s| < 4
    ensures Aligned4(c) == c && Words64(c) == c && (|c.s| < 2 ==> Aligned2(c) == c)
  {
  }

  /** The part of do_csum before the fold. */
  method Accumulate(buf: seq<Byte>, addr: nat) returns (result: Word64)
    requires |buf| > 0
    ensures result == Accumulator(buf, addr)
  {
    var p := 0;
    result := 0;
    if addr % 2 == 1 {
      result, p := 256 * (buf[0] as int), 1;
    }
    assert buf[0..] == buf;
    assert At(buf, addr, p, result) == Start(buf, addr);
    hide At, Start, Aligned2, Aligned4, Words64, Take;
    p, result := SumWords(buf, addr, p, result);
    AtParts(buf, addr, p, result);
    if |buf| - p == 1 {
      result := AddWord(buf, addr, p, result, 1);
      p := p + 1;
      AtParts(buf, addr, p, result);
    }
  }

  lemma EmptyCsum(buf: seq<Byte>, addr: nat)
    requires |buf| == 0
    ensures Csum(buf, addr) == 0
  {
    assert Pieces(0) == 0;
  }

  lemma CsumIs(buf: seq<Byte>, addr: nat)
    ensures var v := From64To16(Accumulator(buf, addr)); Csum(buf, addr) == if addr % 2 == 1 then Swapped(v) else v
  {
  }

  /** do_csum on a little-endian machine, for a buffer at the address addr. */
  method DoCsum(buf: seq<Byte>, addr: nat) returns (u16: nat)
    ensures u16 == Csum(buf, addr)
  {
    hide Csum, Accumulator, From64To16, Swapped;
    if |buf| == 0 {
      EmptyCsum(buf, addr);
      return 0;
    }
    CsumIs(buf, addr);
    var result := Accumulate(buf, addr);
    u16 := From64To16(result);
    if addr % 2 == 1 {
      u16 := Swapped(u16);
    }
  }
}
