// Multiplying big integers by powers of two and of five, and the shift that puts a divisor in
// the form the division of `Bigint` wants.

module BigPowers {
  import opened Words
  import opened Bigint

  function Power(b: nat, n: nat): nat {
    if n == 0 then 1 else b * Power(b, n - 1)
  }

  lemma {:induction false} PowerSum(b: nat, m: nat, n: nat)
    ensures Power(b, m + n) == Power(b, m) * Power(b, n)
    decreases m
  {
    if m > 0 {
      PowerSum(b, m - 1, n);
      var x, y := Power(b, m - 1), Power(b, n);
      assert b * (x * y) == (b * x) * y;
    }
  }

  // Powers by repeated squaring.
  lemma {:induction false} PowerHalved(b: nat, n: nat)
    ensures Power(b * b, n / 2) * (if n % 2 == 1 then b else 1) == Power(b, n)
    decreases n
  {
    if n >= 2 {
      PowerHalved(b, n - 2);
      var p, q := Power(b * b, n / 2 - 1), if n % 2 == 1 then b else 1;
      assert n / 2 - 1 == (n - 2) / 2;
      assert Power(b, n) == b * (b * Power(b, n - 2));
      Regroup(b, p, q);
    }
  }

  lemma Regroup(b: int, p: int, q: int)
    ensures b * (b * (p * q)) == ((b * b) * p) * q
  {
    assert b * (p * q) == (b * p) * q;
    assert b * ((b * p) * q) == (b * (b * p)) * q;
    assert b * (b * p) == (b * b) * p;
  }

  lemma {:induction false} PowerPositive(b: nat, n: nat)
    requires b > 0
    ensures Power(b, n) > 0
  {
    if n > 0 {
      PowerPositive(b, n - 1);
    }
  }

  lemma Two()
    ensures forall i :: 0 <= i <= 31 ==> 0 < Power(2, i) <= 0x8000_0000
    ensures Power(2, 32) == WORD && Power(2, 27) == 0x800_0000 && Power(2, 28) == 0x1000_0000
  {
    assert Power(2, 4) == 16;
    PowerSum(2, 4, 4);
    PowerSum(2, 8, 8);
    PowerSum(2, 16, 8);
    assert Power(2, 3) == 8;
    PowerSum(2, 24, 3);
    PowerSum(2, 24, 4);
    PowerSum(2, 28, 4);
    assert Power(2, 31) == 0x8000_0000;
    forall i | 0 <= i <= 31
      ensures 0 < Power(2, i) <= 0x8000_0000
    {
      PowerPositive(2, i);
      TwoMonotone(i, 31);
    }
  }

  lemma {:induction false} TwoMonotone(m: nat, n: nat)
    requires m <= n
    ensures Power(2, m) <= Power(2, n)
    ensures m < n ==> 2 * Power(2, m) <= Power(2, n)
  {
    if m < n {
      TwoMonotone(m, n - 1);
    }
  }

  lemma {:induction false} PowOfTwo(n: nat)
    ensures Pow(n) == Power(2, 32 * n)
  {
    if n > 0 {
      PowOfTwo(n - 1);
      PowerSum(2, 32, 32 * (n - 1));
      Two();
    } 
  }

  // ---- shifting ----

  // A word shifted left with what was carried into its low bits, and the bits it gives away.
  lemma ShiftedWord(x: int, unit: int, over: int, z: int)
    requires unit * over == WORD && 0 < unit && 0 < over && 0 <= x < WORD && 0 <= z < unit
    ensures 0 <= x * unit % WORD + z < WORD && 0 <= x / over < unit
    ensures x * unit % WORD + z + x / over * WORD == x * unit + z
  {
    var q, r := x / over, x % over;
    assert x == q * over + r;
    assert x * unit == q * WORD + r * unit by {
      assert (q * over + r) * unit == q * (over * unit) + r * unit;
    }
    MulMonotone(r + 1, over, unit);
    assert (r + 1) * unit == r * unit + unit;
    MulMonotone(0, r, unit);
    DivMod(x * unit, WORD, q, r * unit);
    DivBracket(x, over, unit);
    DivBracket(x, over, 0);
  }

  // One word more of a product with a power of two.
  lemma ShiftStep(v': nat, b: Digits, i: nat, unit: nat, over: nat, z: nat)
    requires i < |b| && unit * over == WORD && 0 < unit && 0 < over && z < unit
    requires v' + z * Pow(i) == Val(b[..i]) * unit
    ensures var y, z' := b[i] * unit % WORD + z, b[i] / over;
      && 0 <= y < WORD && 0 <= z' < unit
      && v' + y * Pow(i) + z' * Pow(i + 1) == Val(b[..i + 1]) * unit
      && (b[i] != 0 ==> y != 0 || z' != 0)
  {
    hide Val, Pow;
    ShiftedWord(b[i], unit, over, z);
    CarryStep(Val(b[..i]), v', b[i], b[i] * unit % WORD + z, unit, z, b[i] / over, Pow(i), 0);
    ValTake(b, i);
    PowNext(i);
    MulMonotone(1, unit, b[i]);
  }

  // Puts the words of `b`, shifted by less than a word, into `low` from `n` on.
  method ShiftWords(low: array<U32>, n: nat, b: Digits, unit: nat, over: nat) returns (z: U32)
    requires b != [] && n + |b| < low.Length && unit * over == WORD && 0 < unit < WORD && 0 < over
    modifies low
    ensures low[..n] == old(low[..n])
    ensures Val(low[n..n + |b|]) + z * Pow(|b|) == Val(b) * unit
    ensures b[|b| - 1] != 0 ==> low[n + |b| - 1] != 0 || z != 0
  {
    hide Val, Pow;
    var i := 0;
    z := 0;
    NoWords();
    assert b[..0] == [] && low[n..n + 0] == [];
    while i < |b|
      invariant 0 <= i <= |b| && z < unit && low[..n] == old(low[..n])
      invariant Val(low[n..n + i]) + z * Pow(i) == Val(b[..i]) * unit
      invariant i > 0 && b[i - 1] != 0 ==> low[n + i - 1] != 0 || z != 0
    {
      ghost var before := low[n..n + i];
      ShiftStep(Val(before), b, i, unit, over, z);
      low[n + i], z := b[i] * unit % WORD + z, b[i] / over;
      assert low[n..n + i + 1] == before + [low[n + i]];
      ValPush(before, low[n + i]);
      i := i + 1;
    }
    assert b[..|b|] == b;
  }

  // Whole words first, then a shift by less than a word whose overflow is carried on.
  method LShift(b: Digits, k: nat) returns (r: Digits)
    requires b != []
    ensures Val(r) == Val(b) * Power(2, k)
    ensures Leads(b) ==> Leads(r)
    ensures |b| + k / 32 <= |r| <= |b| + k / 32 + 1
  {
    hide Val, Pow, Power;
    var n, bits := k / 32, k % 32;
    Two();
    var unit, over := Power(2, bits), Power(2, 32 - bits);
    PowerSum(2, bits, 32 - bits);
    PowerPositive(2, 32 - bits);
    var low := new U32[n + |b| + 1](_ => 0);
    assert low[..n] == Zeros(n);
    var z := ShiftWords(low, n, b, unit, over);
    var high := low[n..n + |b|];
    Topped(high, z);
    low[n + |b|] := z;
    r := low[..n + |b| + if z != 0 then 1 else 0];
    assert r == Zeros(n) + (high + if z != 0 then [z] else []);
    Shifted(high + if z != 0 then [z] else [], n);
    ShiftTwice(Val(b), bits, n);
  }

  lemma ShiftTwice(v: nat, bits: nat, n: nat)
    ensures v * Power(2, bits) * Pow(n) == v * Power(2, 32 * n + bits)
  {
    PowOfTwo(n);
    PowerSum(2, bits, 32 * n);
    Associate(v, Power(2, bits), Pow(n));
  }

  lemma Associate(a: int, b: int, c: int)
    ensures (a * b) * c == a * (b * c)
  {
  }

  // Zero words below.
  lemma Shifted(high: Digits, n: nat)
    ensures Val(Zeros(n) + high) == Val(high) * Pow(n)
  {
    hide Val, Pow;
    ValConcat(Zeros(n), high);
    NoZeros(n);
    Swapped(Pow(n), Val(high));
  }

  // What was carried out of the highest word above.
  lemma Topped(middle: Digits, z: U32)
    ensures Val(middle + if z != 0 then [z] else []) == Val(middle) + z * Pow(|middle|)
  {
    hide Val, Pow;
    ValPush(middle, z);
    assert middle + [] == middle;
  }

  lemma NoZeros(n: nat)
    ensures Val(Zeros(n)) == 0
  {
    ValZeros(Zeros(n), 0);
    assert Zeros(n)[..0] == [];
  }

  lemma Swapped(a: int, b: int)
    ensures a * b == b * a
  {
  }

  lemma Moved(w: nat, k: nat, d: nat)
    ensures w * Power(2, k) * Power(2, d) == w * Power(2, k + d)
  {
    PowerSum(2, k, d);
    Associate(w, Power(2, k), Power(2, d));
  }

  // A word that fills 32 bits when moved `k` places.
  lemma Filled(w: nat, k: nat)
    requires k < 32 && 0x8000_0000 <= w * Power(2, k) < WORD
    ensures Power(2, 31 - k) <= w < Power(2, 32 - k)
  {
    hide Power;
    Two();
    var p := Power(2, k);
    PowerSum(2, 31 - k, k);
    PowerSum(2, 32 - k, k);
    PowerSum(2, 31, 1);
    HalfWord();
    PowerPositive(2, k);
    if w >= Power(2, 32 - k) {
      MulMonotone(Power(2, 32 - k), w, p);
    }
    if w < Power(2, 31 - k) {
      Below(w, Power(2, 31 - k), p);
    }
  }

  // The highest bit that is set.
  predicate HighBit(w: int, j: nat) {
    j < 32 && Power(2, j) <= w < Power(2, j + 1)
  }

  lemma HalfWord()
    ensures Power(2, 31) == 0x8000_0000
    ensures Power(2, 16) == 0x1_0000 && Power(2, 8) == 0x100 && Power(2, 4) == 16 && Power(2, 2) == 4 && Power(2, 1) == 2 && Power(2, 0) == 1
  {
    assert Power(2, 4) == 16;
    PowerSum(2, 4, 4);
    PowerSum(2, 8, 8);
    PowerSum(2, 16, 8);
    PowerSum(2, 24, 4);
    assert Power(2, 3) == 8;
    PowerSum(2, 28, 3);
  }

  // The leading zero bits of a word.
  method HiZeroBits(w: U32) returns (k: nat)
    ensures w == 0 ==> k == 32
    ensures w != 0 ==> k < 32 && HighBit(w, 31 - k)
  {
    hide Power;
    var x: int := w;
    k := 0;
    HalfWord();
    if x < 0x1_0000 {
      Moved(w, 0, 16);
      k, x := 16, x * 0x1_0000;
    }
    if x < 0x100_0000 {
      Moved(w, k, 8);
      k, x := k + 8, x * 0x100;
    }
    if x < 0x1000_0000 {
      Moved(w, k, 4);
      k, x := k + 4, x * 16;
    }
    if x < 0x4000_0000 {
      Moved(w, k, 2);
      k, x := k + 2, x * 4;
    }
    if x < 0x8000_0000 {
      Moved(w, k, 1);
      k := k + 1;
      if x < 0x4000_0000 {
        return 32;
      }
    }
    Filled(w, k);
  }

  // ---- the normalised divisor ----

  lemma TopBits(s: Digits, j: nat)
    requires Leads(s) && HighBit(s[|s| - 1], j)
    ensures Power(2, 32 * (|s| - 1) + j) <= Val(s) < Power(2, 32 * (|s| - 1) + j + 1)
  {
    hide Val, Pow, Power;
    var n := |s| - 1;
    assert s[..n + 1] == s;
    ValTake(s, n);
    ValBound(s[..n]);
    PowOfTwo(n);
    PowerSum(2, j, 32 * n);
    PowerSum(2, j + 1, 32 * n);
    var w: nat, p := s[n], Pow(n);
    MulMonotone(Power(2, j), w, p);
    MulMonotone(w + 1, Power(2, j + 1), p);
    assert (w + 1) * p == w * p + p;
  }

  lemma SameExponent(v: nat, d: nat, e: nat)
    requires Power(2, d) <= v < Power(2, d + 1) && Power(2, e) <= v < Power(2, e + 1)
    ensures d == e
  {
    if d < e {
      TwoMonotone(d + 1, e);
    } else if e < d {
      TwoMonotone(e + 1, d);
    }
  }

  // What is missing for the highest bit of the first word to be its 27th.
  lemma Missing(h: nat, p2: nat)
    requires h < 32
    ensures (p2 + (h as int - 4 - p2) % 32 + 31 - h) % 32 == 27
  {
  }

  // How far to shift a divisor that is to be shifted by `p2` as well.
  method DShift(s: Digits, p2: int) returns (rv: nat, ghost j: nat)
    requires Leads(s)
    ensures rv < 32 && HighBit(s[|s| - 1], j)
    ensures ((if p2 > 0 then p2 else 0) + rv + j) % 32 == 27
  {
    hide HighBit;
    var h := HiZeroBits(s[|s| - 1]);
    var k := h as int - 4;
    if p2 > 0 {
      k := k - p2;
    }
    Missing(h, if p2 > 0 then p2 else 0);
    rv := k % 32;
    j := 31 - h;
  }

  // A divisor shifted by both has its first word from 2^27 to below 2^28.
  method Normalise(s: Digits, s2: nat) returns (r: Digits, rv: nat)
    requires Leads(s)
    ensures rv < 32 && Val(r) == Val(s) * Power(2, s2 + rv) && Leads(r)
    ensures 0x800_0000 <= r[|r| - 1] < 0x1000_0000
  {
    hide Power, HighBit, Val;
    ghost var j;
    rv, j := DShift(s, s2);
    r := LShift(s, s2 + rv);
    FirstWord(s, r, s2 + rv, j);
  }

  lemma FirstWord(s: Digits, r: Digits, k: nat, j: nat)
    requires Leads(s) && Leads(r) && HighBit(s[|s| - 1], j)
    requires Val(r) == Val(s) * Power(2, k) && (k + j) % 32 == 27
    ensures 0x800_0000 <= r[|r| - 1] < 0x1000_0000
  {
    hide Power, Val, HighBit;
    TopBits(s, j);
    var d := 32 * (|s| - 1) + j;
    PowerPositive(2, k);
    PowerSum(2, d, k);
    PowerSum(2, d + 1, k);
    MulMonotone(Power(2, d), Val(s), Power(2, k));
    Below(Val(s), Power(2, d + 1), Power(2, k));
    var j' := Exponent(r[|r| - 1]);
    TopBits(r, j');
    SameExponent(Val(r), d + k, 32 * (|r| - 1) + j');
    SameBit(|s| - 1, j, k, |r| - 1, j');
    Bit27(r[|r| - 1]);
  }

  lemma SameBit(m: nat, j: nat, k: nat, n: nat, j': nat)
    requires (k + j) % 32 == 27 && j' < 32 && 32 * m + j + k == 32 * n + j'
    ensures j' == 27
  {
  }

  lemma Bit27(w: int)
    requires HighBit(w, 27)
    ensures 0x800_0000 <= w < 0x1000_0000
  {
    hide Power;
    Two();
  }

  lemma Below(a: int, b: int, c: int)
    requires a < b && c > 0
    ensures a * c < b * c
  {
  }

  lemma Exponent(w: U32) returns (j: nat)
    requires w != 0
    ensures HighBit(w, j) && j < 32
  {
    hide Power;
    HalfWord();
    Two();
    j := 0;
    while Power(2, j + 1) <= w
      invariant j < 32 && Power(2, j) <= w
      decreases 32 - j
    {
      j := j + 1;
    }
  }

  // What is below ten times a normalised divisor has no more words than it.
  lemma DigitFits(b: Digits, s: Digits)
    requires Leads(s) && s[|s| - 1] < 0x1000_0000 && Trimmed(b) && Val(b) < 10 * Val(s)
    ensures |b| <= |s|
  {
    hide Val, Pow;
    var n := |s| - 1;
    if |b| > |s| {
      assert s[..n + 1] == s && b[..|b| - 1 + 1] == b;
      ValTake(s, n);
      ValBound(s[..n]);
      ValTake(b, |b| - 1);
      MulMonotone(1, b[|b| - 1], Pow(|b| - 1));
      PowMonotone(n + 1, |b| - 1);
      PowNext(n);
      MulMonotone(s[n], 0xFFF_FFFF, Pow(n));
    }
  }

  // ---- powers of five ----

  // The powers 5^4, 5^8, 5^16, ... made so far, which are shared by all conversions.
  class Fives {
    var powers: seq<Digits>

    ghost predicate Valid()
      reads this
    {
      && (powers != [] ==> Val(powers[0]) == 625)
      && forall i | 0 < i < |powers| :: Val(powers[i]) == Val(powers[i - 1]) * Val(powers[i - 1])
    }

    constructor ()
      ensures Valid()
    {
      powers := [];
    }

    // Multiplies by 5^k.
    method Pow5Mult(b: Big, k: nat) returns (r: Digits)
      requires Valid() && b.Valid() && (b.wds == 0 ==> b.x[0] == 0)
      modifies this, b, b.x
      ensures Valid() && old(powers) <= powers
      ensures Val(r) == old(b.Value()) * Power(5, k)
    {
      hide Power, Val;
      ghost var v := b.Value();
      Fifths(k, v);
      if k % 4 != 0 {
        b.MultAdd([5, 25, 125][k % 4 - 1], 0);
      }
      var kk := k / 4;
      r := b.x[..b.wds];
      NoWords();
      assert Val(r) == v * if k % 4 == 0 then 1 else [5, 25, 125][k % 4 - 1];
      if kk == 0 {
        return;
      }
      if powers == [] {
        IntegerOf(625);
        powers := [[625]];
      }
      var i := 0;
      while true
        invariant kk > 0 && 0 <= i < |powers| && Valid() && old(powers) <= powers
        invariant Val(r) * Power(Val(powers[i]), kk) == v * Power(5, k)
        decreases kk
      {
        PowerHalved(Val(powers[i]), kk);
        Odd(Val(r), Val(powers[i]), kk, v * Power(5, k));
        if kk % 2 == 1 {
          r := Mult(r, powers[i]);
        }
        kk := kk / 2;
        if kk == 0 {
          return;
        }
        if i + 1 == |powers| {
          var square := Mult(powers[i], powers[i]);
          powers := powers + [square];
        }
        i := i + 1;
      }
    }
  }

  lemma IntegerOf(w: U32)
    ensures Val([w]) == w
  {
    NoWords();
    ValPush([], w);
    assert [] + [w] == [w];
  }

  lemma Fifths(k: nat, v: nat)
    ensures v * (if k % 4 == 0 then 1 else [5, 25, 125][k % 4 - 1]) * Power(625, k / 4) == v * Power(5, k)
    ensures k < 4 ==> Power(625, k / 4) == 1
  {
    assert k < 4 ==> Power(625, k / 4) == 1;
    Quarter(k);
    hide Power;
    Associate(v, if k % 4 == 0 then 1 else [5, 25, 125][k % 4 - 1], Power(625, k / 4));
  }

  lemma Quarter(k: nat)
    ensures (if k % 4 == 0 then 1 else [5, 25, 125][k % 4 - 1]) * Power(625, k / 4) == Power(5, k)
  {
    hide Power;
    PowerHalved(5, k);
    PowerHalved(25, k / 2);
    assert k / 2 / 2 == k / 4;
    var p := Power(625, k / 4);
    match k % 4
    case 0 => assert k % 2 == 0 && k / 2 % 2 == 0;
    case 1 => assert k % 2 == 1 && k / 2 % 2 == 0;
    case 2 => assert k % 2 == 0 && k / 2 % 2 == 1;
    case _ => assert k % 2 == 1 && k / 2 % 2 == 1;
  }

  lemma Odd(r: nat, p: nat, k: nat, target: nat)
    requires r * Power(p, k) == target
    ensures (if k % 2 == 1 then r * p else r) * Power(p * p, k / 2) == target
    ensures k == 1 ==> r * p == target
  {
    PowerHalved(p, k);
    var q := Power(p * p, k / 2);
    Associate(r, p, q);
  }
}
