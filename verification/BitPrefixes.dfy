/** Bit prefixes as pools.c stores them, and the comparator kavl_bit_cmp. */
module BitPrefixes {
  import opened Numbers
  import opened Bytes


  /** bitlen leading bits (most significant first) of data. */
  datatype RawPrefix = Prefix(bitlen: nat, data: seq<Byte>)
  type Prefix = p: RawPrefix | p.bitlen <= 8 * |p.data| witness Prefix(0, [])

  function Sign(a: int, b: int): int {
    if a < b then -1 else if a == b then 0 else 1
  }

  /** memcmp, reduced to its sign. */
  function Memcmp(a: seq<Byte>, b: seq<Byte>): int
    requires |a| == |b|
  {
    if a == [] then 0
    else if a[0] != b[0] then Sign(a[0], b[0])
    else Memcmp(a[1..], b[1..])
  }

  /** kavl_bit_cmp. */
  function KavlBitCmp(p: Prefix, q: Prefix): int {
    var bitlen := if q.bitlen < p.bitlen then q.bitlen else p.bitlen;
    var df, bytes := bitlen % 8, bitlen / 8;
    var cmp := Memcmp(p.data[..bytes], q.data[..bytes]);
    if cmp != 0 || df == 0 then cmp
    else
      var c1, c2 := p.data[bytes] / Pow2(8 - df), q.data[bytes] / Pow2(8 - df);
      if c1 < c2 then -1 else if c1 == c2 then 0 else 1
  }

  // ----- meaning: sequences of bits -----

  type Bits = seq<bool>

  /** Bit i of a byte, counted from the most significant one. */
  function ByteBit(x: Byte, i: nat): bool
    requires i < 8
  {
    x / Pow2(7 - i) % 2 == 1
  }

  function ByteBits(x: Byte, n: nat): (r: Bits)
    requires n <= 8
    ensures |r| == n
  {
    seq(n, i requires 0 <= i < n => ByteBit(x, i))
  }

  function DataBits(d: seq<Byte>): (r: Bits)
    ensures |r| == 8 * |d|
  {
    if d == [] then [] else ByteBits(d[0], 8) + DataBits(d[1..])
  }

  function BitsOf(p: Prefix): (r: Bits)
    ensures |r| == p.bitlen
  {
    DataBits(p.data)[..p.bitlen]
  }

  /** Compares at the first position where two bit sequences differ; 0 when one continues the other. */
  function BitCmp(a: Bits, b: Bits): int {
    if a == [] || b == [] then 0
    else if a[0] != b[0] then (if b[0] then -1 else 1)
    else BitCmp(a[1..], b[1..])
  }

  lemma {:induction false} BitCmpConcat(a: Bits, a': Bits, b: Bits, b': Bits)
    requires |a| == |b|
    ensures BitCmp(a + a', b + b') == if BitCmp(a, b) != 0 then BitCmp(a, b) else BitCmp(a', b')
  {
    if a == [] {
      assert a + a' == a' && b + b' == b';
    } else {
      assert (a + a')[1..] == a[1..] + a' && (b + b')[1..] == b[1..] + b';
      BitCmpConcat(a[1..], a', b[1..], b');
    }
  }

  lemma HalfSign(x: nat, y: nat)
    ensures Sign(x, y) == if Sign(x / 2, y / 2) != 0 then Sign(x / 2, y / 2)
                          else if (x % 2 == 1) == (y % 2 == 1) then 0 else if y % 2 == 1 then -1 else 1
  {
  }

  lemma BitCmpOne(u: bool, v: bool)
    ensures BitCmp([u], [v]) == if u == v then 0 else if v then -1 else 1
  {
    assert BitCmp([u][1..], [v][1..]) == 0;
  }

  /** Taking one more bit of a byte. */
  lemma ByteBitsStep(x: Byte, n: nat)
    requires 0 < n <= 8
    ensures var v := x / Pow2(8 - n);
      ByteBits(x, n) == ByteBits(x, n - 1) + [v % 2 == 1] && x / Pow2(8 - (n - 1)) == v / 2 && v >= 0
  {
    HalfTwice(x, 8 - n);
    ByteBitIs(x, n);
    hide Pow2, ByteBits, ByteBit;
    ByteBitsSnoc(x, n);
  }

  lemma ByteBitIs(x: Byte, n: nat)
    requires 0 < n <= 8
    ensures var v := x / Pow2(8 - n); v >= 0 && ByteBit(x, n - 1) == (v % 2 == 1)
  {
  }

  lemma ByteBitsSnoc(x: Byte, n: nat)
    requires 0 < n <= 8
    ensures ByteBits(x, n) == ByteBits(x, n - 1) + [ByteBit(x, n - 1)]
  {
    hide ByteBit;
  }

  lemma ByteBitsPrefix(x: Byte, n: nat)
    requires n <= 8
    ensures ByteBits(x, 8)[..n] == ByteBits(x, n)
  {
    hide ByteBit;
  }

  lemma FirstByteBits(d: seq<Byte>)
    requires |d| > 0
    ensures DataBits(d) == ByteBits(d[0], 8) + DataBits(d[1..])
  {
    hide ByteBits;
  }

  lemma {:induction false} TopBits(x: Byte, y: Byte, n: nat)
    requires n <= 8
    ensures Sign(x / Pow2(8 - n), y / Pow2(8 - n)) == BitCmp(ByteBits(x, n), ByteBits(y, n))
  {
    if n == 0 {
      PowersOfTwo();
    } else {
      hide Pow2, BitCmp, ByteBits, Sign;
      TopBits(x, y, n - 1);
      ByteBitsStep(x, n);
      ByteBitsStep(y, n);
      var v, w := x / Pow2(8 - n), y / Pow2(8 - n);
      BitCmpConcat(ByteBits(x, n - 1), [v % 2 == 1], ByteBits(y, n - 1), [w % 2 == 1]);
      BitCmpOne(v % 2 == 1, w % 2 == 1);
      HalfSign(v, w);
    }
  }

  lemma PowersOfTwo()
    ensures Pow2(0) == 1 && Pow2(1) == 2 && Pow2(2) == 4 && Pow2(3) == 8 && Pow2(4) == 16
    ensures Pow2(5) == 32 && Pow2(6) == 64 && Pow2(7) == 128 && Pow2(8) == 256
  {
  }

  lemma HalfTwice(x: Byte, k: nat)
    requires k < 8
    ensures Pow2(k) > 0 && x / Pow2(k + 1) == x / Pow2(k) / 2
  {
    PowersOfTwo();
  }

  lemma {:induction false} BytesCompare(a: seq<Byte>, b: seq<Byte>)
    requires |a| == |b|
    ensures Memcmp(a, b) == BitCmp(DataBits(a), DataBits(b))
  {
    if a != [] {
      BytesCompare(a[1..], b[1..]);
      TopBits(a[0], b[0], 8);
      BitCmpConcat(ByteBits(a[0], 8), DataBits(a[1..]), ByteBits(b[0], 8), DataBits(b[1..]));
    }
  }

  lemma {:induction false} DataBitsConcat(a: seq<Byte>, b: seq<Byte>)
    ensures DataBits(a + b) == DataBits(a) + DataBits(b)
  {
    if a == [] {
      assert a + b == b;
    } else {
      assert (a + b)[1..] == a[1..] + b;
      DataBitsConcat(a[1..], b);
    }
  }

  /** The bits of a prefix cut at m: whole bytes, then the top bits of the next one. */
  lemma CutBits(d: seq<Byte>, m: nat)
    requires m <= 8 * |d|
    ensures m % 8 == 0 ==> DataBits(d)[..m] == DataBits(d[..m / 8])
    ensures m % 8 != 0 ==> DataBits(d)[..m] == DataBits(d[..m / 8]) + ByteBits(d[m / 8], m % 8)
  {
    hide DataBits, ByteBits;
    var k, r := m / 8, m % 8;
    assert m == 8 * k + r;
    assert d == d[..k] + d[k..];
    DataBitsConcat(d[..k], d[k..]);
    TakeConcat(DataBits(d[..k]), DataBits(d[k..]), r);
    if r != 0 {
      FirstByteBits(d[k..]);
      ByteBitsPrefix(d[k], r);
      TakeFirst(ByteBits(d[k], 8), DataBits(d[k..][1..]), r);
    }
  }

  lemma TakeConcat(a: Bits, b: Bits, r: nat)
    requires r <= |b|
    ensures (a + b)[..|a|+r] == a + b[..r] && (r == 0 ==> (a + b)[..|a|] == a)
  {
  }

  lemma TakeFirst(a: Bits, b: Bits, r: nat)
    requires r <= |a|
    ensures (a + b)[..r] == a[..r]
  {
  }

  lemma BitCmpCut(a: Bits, b: Bits, m: nat)
    requires m <= |a| && m <= |b| && (m == |a| || m == |b|)
    ensures BitCmp(a, b) == BitCmp(a[..m], b[..m])
  {
    assert a == a[..m] + a[m..] && b == b[..m] + b[m..];
    BitCmpConcat(a[..m], a[m..], b[..m], b[m..]);
  }

  /** kavl_bit_cmp compares at the first bit where the two prefixes differ, and calls
      them equal when one of them covers the other. */
  lemma ComparatorMeaning(p: Prefix, q: Prefix)
    ensures KavlBitCmp(p, q) == BitCmp(BitsOf(p), BitsOf(q))
  {
    hide DataBits, ByteBits, Memcmp, BitCmp, Pow2;
    var m := if q.bitlen < p.bitlen then q.bitlen else p.bitlen;
    var k := m / 8;
    var a, b := BitsOf(p), BitsOf(q);
    BitCmpCut(a, b, m);
    assert a[..m] == DataBits(p.data)[..m] && b[..m] == DataBits(q.data)[..m];
    CutBits(p.data, m);
    CutBits(q.data, m);
    BytesCompare(p.data[..k], q.data[..k]);
    if m % 8 != 0 {
      TopBits(p.data[k], q.data[k], m % 8);
      BitCmpConcat(DataBits(p.data[..k]), ByteBits(p.data[k], m % 8), DataBits(q.data[..k]),
        ByteBits(q.data[k], m % 8));
    }
  }

  // ----- the comparator as a relation -----

  lemma {:induction false} BitCmpOpposite(a: Bits, b: Bits)
    ensures BitCmp(b, a) == -BitCmp(a, b) && -1 <= BitCmp(a, b) <= 1
  {
    if a != [] && b != [] {
      BitCmpOpposite(a[1..], b[1..]);
    }
  }

  /** Equal means that one covers the other. */
  lemma {:induction false} BitCmpZero(a: Bits, b: Bits)
    ensures BitCmp(a, b) == 0 <==> a <= b || b <= a
  {
    if a != [] && b != [] {
      BitCmpZero(a[1..], b[1..]);
      assert a == [a[0]] + a[1..] && b == [b[0]] + b[1..];
    }
  }

  /** Smaller is transitive even though equal is not. */
  lemma {:induction false} BitCmpTransitive(a: Bits, b: Bits, c: Bits)
    requires BitCmp(a, b) < 0 && BitCmp(b, c) < 0
    ensures BitCmp(a, c) < 0
  {
    if a[0] == b[0] == c[0] {
      BitCmpTransitive(a[1..], b[1..], c[1..]);
    }
  }

  /** Equal is not transitive, so kavl_bit_cmp is no order on all prefixes. */
  lemma NoOrder()
    ensures var p, q, r: Prefix := Prefix(1, [128]), Prefix(0, []), Prefix(1, [0]);
      KavlBitCmp(p, q) == 0 && KavlBitCmp(q, r) == 0 && KavlBitCmp(p, r) > 0
  {
    PowersOfTwo();
  }

  // ----- coverage -----

  /** p covers every address that starts with its bits. */
  predicate Covers(p: Bits, a: Bits) { p <= a }

  predicate Covered(s: set<Bits>, a: Bits) {
    exists p :: p in s && Covers(p, a)
  }

  /** Two prefixes that cover the same address cover one another. */
  lemma CoverChain(p: Bits, q: Bits, a: Bits)
    requires Covers(p, a) && Covers(q, a)
    ensures if |p| <= |q| then Covers(p, q) else Covers(q, p)
  {
    assert p == a[..|p|] && q == a[..|q|];
  }
}
