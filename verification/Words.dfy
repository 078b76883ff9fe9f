// Machine words, and sequences of them.

module Words {
  const WORD: int := 0x1_0000_0000

  type Byte = x: int | 0 <= x < 0x100
  type U16 = x: int | 0 <= x < 0x1_0000
  type U32 = x: int | 0 <= x < 0x1_0000_0000

  function Min(a: int, b: int): int {
    if a <= b then a else b
  }

  lemma ConcatAssociative<T>(a: seq<T>, b: seq<T>, c: seq<T>)
    ensures a + (b + c) == (a + b) + c
  {
  }

  // What is left of `s` after `n` elements have been read from its front.
  function Drop<T>(s: seq<T>, n: nat): seq<T> {
    if n <= |s| then s[n..] else []
  }

  lemma DivBracket(x: int, unit: int, a: int)
    requires 0 < unit
    ensures a <= x / unit <==> a * unit <= x
  {
    var q, r := x / unit, x % unit;
    assert x == q * unit + r;
    if a <= q {
      assert a * unit <= q * unit;
    } else {
      assert (q + 1) * unit <= a * unit;
    }
  }

  lemma MulMonotone(a: int, b: int, unit: int)
    requires a <= b && 0 <= unit
    ensures a * unit <= b * unit
  {
  }

  // A word cut at a multiple of `unit`.
  lemma DivMod(x: int, unit: int, q: int, r: int)
    requires 0 <= r < unit && x == q * unit + r
    ensures x / unit == q && x % unit == r
  {
    DivBracket(x, unit, q);
    DivBracket(x, unit, q + 1);
    assert (q + 1) * unit == q * unit + unit;
  }
}
