/** Powers of two, and the facts about products and quotients that the solver does not find alone. */
module Numbers {
  /** The range of a 32-bit number. */
  const U32 := 0x1_0000_0000

  type Word = w: int | 0 <= w < U32

  function Pow2(n: nat): (r: nat)
    ensures r > 0
  {
    if n == 0 then 1 else 2 * Pow2(n - 1)
  }

  lemma {:induction false} Pow2Mono(m: nat, n: nat)
    requires m <= n
    ensures Pow2(m) <= Pow2(n)
  {
    if m < n {
      Pow2Mono(m, n - 1);
    }
  }

  lemma Pow2Next(n: nat)
    ensures Pow2(n + 1) == 2 * Pow2(n)
  {
  }

  lemma Pow2Is32()
    ensures Pow2(32) == U32
  {
    assert Pow2(8) == 256;
    assert Pow2(16) == 65536;
    assert Pow2(24) == 16777216;
  }

  lemma MulAtLeast(k: int, d: int)
    requires k >= 1 && d > 0
    ensures k * d >= d
  {
  }

  lemma Distribute(a: int, b: int, d: int)
    ensures (a - b) * d == a * d - b * d
  {
  }

  lemma DivModUnique(x: int, q: int, r: int, d: int)
    requires d > 0 && x == q * d + r && 0 <= r < d
    ensures x / d == q && x % d == r
  {
    var e, m := x / d, x % d;
    assert x == e * d + m && 0 <= m < d by { DivMod(x, d); }
    Distribute(e, q, d);
    Distribute(q, e, d);
    if e > q {
      MulAtLeast(e - q, d);
      assert false;
    } else if e < q {
      MulAtLeast(q - e, d);
      assert false;
    }
  }

  lemma DivMod(x: int, d: int)
    requires d > 0
    ensures x == x / d * d + x % d && 0 <= x % d < d
  {
  }

  lemma TwiceProduct(q: int, p: int)
    ensures q * (2 * p) == 2 * (q * p)
  {
  }

  lemma MulMono(p: nat, x: nat, y: nat)
    requires x <= y
    ensures 0 <= p * x <= p * y
  {
  }

  lemma DivAtMost(x: nat, n: nat, d: nat)
    requires d > 0 && x <= n * d
    ensures 0 <= x / d <= n
  {
    DivMod(x, d);
    if x / d > n {
      Distribute(x / d, n, d);
      MulAtLeast(x / d - n, d);
    }
  }

  lemma SmallMod(x: int, m: int)
    requires 0 <= x < m
    ensures x % m == x
  {
  }

  lemma DivMono(x: nat, y: nat, d: nat)
    requires x <= y && d > 0
    ensures x / d <= y / d
  {
    DivMod(x, d);
    DivMod(y, d);
    if x / d > y / d {
      Distribute(x / d, y / d, d);
      MulAtLeast(x / d - y / d, d);
    }
  }
}
