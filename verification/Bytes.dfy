/** Bytes, and numbers as little-endian bytes. */
module Bytes {
  import opened Numbers

  type Byte = b: int | 0 <= b < 256

  /** The n low bytes of v as they lie in the memory of a little-endian machine. */
  function ToLe(v: nat, n: nat): (r: seq<Byte>)
    ensures |r| == n
  {
    if n == 0 then [] else [v % 256] + ToLe(v / 256, n - 1)
  }

  function FromLe(s: seq<Byte>): nat {
    if |s| == 0 then 0 else s[0] + 256 * FromLe(s[1..])
  }

  lemma {:induction false} FromToLe(v: nat, n: nat)
    requires v < Pow2(8 * n)
    ensures FromLe(ToLe(v, n)) == v
  {
    if n > 0 {
      Pow2Byte(n);
      FromToLe(v / 256, n - 1);
      assert ToLe(v, n)[1..] == ToLe(v / 256, n - 1);
    }
  }

  lemma Pow2Byte(n: nat)
    requires n > 0
    ensures Pow2(8 * n) == 256 * Pow2(8 * (n - 1))
  {
    hide Pow2;
    var m := 8 * (n - 1);
    Pow2Next(m);
    Pow2Next(m + 1);
    Pow2Next(m + 2);
    Pow2Next(m + 3);
    Pow2Next(m + 4);
    Pow2Next(m + 5);
    Pow2Next(m + 6);
    Pow2Next(m + 7);
  }
}
