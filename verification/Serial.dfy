/** 32-bit sequence numbers that wrap around. */
module Serial {
  import opened Numbers

  const HALF := 0x8000_0000

  function Wrap(x: int): Word {
    x % U32
  }

  lemma WrapSub(a: int, b: int)
    ensures Wrap(Wrap(a) - Wrap(b)) == Wrap(a - b)
  {
    var i, j := a / U32, b / U32;
    assert Wrap(a) - Wrap(b) == (a - b) - U32 * (i - j);
  }

  lemma WrapAdd(a: int, b: int)
    ensures Wrap(Wrap(a) + b) == Wrap(a + b)
  {
    assert Wrap(a) + b == (a + b) - U32 * (a / U32);
  }

  lemma WrapWord(a: Word)
    ensures Wrap(a) == a
  {
  }

  /** The differences between a and the number that x wraps to. */
  lemma WrapBoth(a: Word, x: int)
    ensures Wrap(a - Wrap(x)) == Wrap(a - x)
    ensures Wrap(Wrap(x) - a) == if Wrap(a - x) == 0 then 0 else U32 - Wrap(a - x)
  {
    WrapWord(a);
    WrapSub(a, x);
    WrapSub(x, a);
    WrapNegative(a - x);
  }

  lemma WrapNegative(d: int)
    ensures Wrap(-d) == if Wrap(d) == 0 then 0 else U32 - Wrap(d)
  {
    assert d == U32 * (d / U32) + Wrap(d);
    assert -d == U32 * (-(d / U32)) - Wrap(d);
  }

  /** How far a lies ahead of b, if they are less than half the range apart. */
  lemma WrapNear(a: int, b: int)
    requires -HALF <= a - b < HALF
    ensures Wrap(Wrap(a) - Wrap(b)) == if a >= b then a - b else a - b + U32
  {
    WrapSub(a, b);
  }

  /** The top bit of the difference tells which of two near positions is ahead. */
  lemma Ahead(a: int, b: int)
    requires -HALF <= a - b < HALF
    ensures Wrap(Wrap(a) - Wrap(b)) < HALF <==> a >= b
  {
    WrapNear(a, b);
  }
}
