// Numbers in 64 bits, half of them behind the binary point: product, quotient and square root
// by word arithmetic.

module FixedPoint {
  import opened Words
  import opened BigPowers

  const ONE: int := 0x1_0000_0000
  const LIMIT: int := 0x1_0000_0000_0000_0000
  const HALF: int := 0x8000_0000_0000_0000

  type U64 = x: int | 0 <= x < 0x1_0000_0000_0000_0000
  type I64 = x: int | -0x8000_0000_0000_0000 <= x < 0x8000_0000_0000_0000

  // A whole number as 64 bits hold it, with a sign.
  function Wrapped(x: int): I64 {
    (x + HALF) % LIMIT - HALF
  }

  lemma WrappedSame(x: int, w: int)
    ensures Wrapped(x + w * LIMIT) == Wrapped(x)
  {
    DivMod(x + HALF, LIMIT, (x + HALF) / LIMIT, (x + HALF) % LIMIT);
    DivMod(x + w * LIMIT + HALF, LIMIT, (x + HALF) / LIMIT + w, (x + HALF) % LIMIT);
  }

  // How often a number that is not far outside wraps round.
  lemma WrappedOnce(x: int) returns (w: int)
    requires -LIMIT <= x < LIMIT
    ensures Wrapped(x) == x + w * LIMIT
    ensures w == if x >= HALF then -1 else if x < -HALF then 1 else 0
  {
    w := if x >= HALF then -1 else if x < -HALF then 1 else 0;
  }

  // ---- product ----

  // `x` units of `1 / unit`, to the nearest whole number, half away from zero.
  function Rounded(x: int, unit: int): int
    requires unit > 0
  {
    if x >= 0 then (x + unit / 2) / unit else -((-x + unit / 2) / unit)
  }

  // The high and low words are multiplied crosswise; 64 bits wrap round in the middle products
  // and again when the high half is moved up.
  method Mul(a: I64, b: I64) returns (r: I64)
    ensures r == Wrapped(Rounded(a * b, ONE))
  {
    hide Wrapped, Rounded;
    var A, C := a / ONE, b / ONE;
    var B, D := a % ONE, b % ONE;
    Halves(a, A, B);
    Halves(b, C, D);
    Crosswise(A, B, C, D);
    CrossBounds(A, B, C, D);
    var sum := A * D + C * B;
    ghost var w := WrappedOnce(sum);
    var AC := A * C;
    var AD_CB: I64 := Wrapped(sum);
    var BD := B * D;
    ghost var p := AC * LIMIT + AD_CB * ONE + BD;
    var hi, lo := High(AC, AD_CB, BD);
    SameSign(a, b, A, B, C, D, w);
    var neg := if hi < 0 then 1 else 0;
    var before := lo;
    lo := (lo - 0x8000_0000) % LIMIT;
    lo := (lo - neg) % LIMIT;
    Borrow(p, hi, before, neg, lo);
    if lo > before {
      hi := hi - 1;
    }
    r := Wrapped(Wrapped(hi * ONE + lo / ONE) + 1);
    Nearest(p, neg, hi, lo);
    RoundedLater(a * b, w);
    WrappedNext(hi * ONE + lo / ONE);
    WrappedSame(Rounded(a * b, ONE), w);
  }

  lemma Halves(a: I64, A: int, B: int)
    requires A == a / ONE && B == a % ONE
    ensures a == A * ONE + B && 0 <= B < ONE && -0x8000_0000 <= A < 0x8000_0000
  {
  }

  lemma Crosswise(A: int, B: int, C: int, D: int)
    ensures (A * ONE + B) * (C * ONE + D) == A * C * LIMIT + (A * D + C * B) * ONE + B * D
  {
    assert (A * ONE + B) * (C * ONE + D) == (A * ONE + B) * (C * ONE) + (A * ONE + B) * D;
    assert (A * ONE + B) * (C * ONE) == A * C * LIMIT + C * B * ONE;
    assert (A * ONE + B) * D == A * D * ONE + B * D;
  }

  predicate Half32(x: int) {
    -0x8000_0000 <= x < 0x8000_0000
  }

  // A signed and an unsigned word.
  lemma MixedBounds(A: int, D: int)
    requires Half32(A) && 0 <= D < ONE
    ensures -0x8000_0000 * 0xFFFF_FFFF <= A * D <= 0x7FFF_FFFF * 0xFFFF_FFFF
    ensures A >= 0 ==> 0 <= A * D <= A * 0xFFFF_FFFF
    ensures A <= 0 ==> A * D <= 0
  {
    MulMonotone(-0x8000_0000, A, D);
    MulMonotone(A, 0x7FFF_FFFF, D);
    if A >= 0 {
      MulMonotone(D, 0xFFFF_FFFF, A);
    } else {
      MulMonotone(0, D, -A);
    }
  }

  lemma CrossBounds(A: int, B: int, C: int, D: int)
    requires Half32(A) && Half32(C) && 0 <= B < ONE && 0 <= D < ONE
    ensures var sum := A * D + C * B; -LIMIT <= sum < LIMIT
    ensures 0 <= B * D <= 0xFFFF_FFFF * 0xFFFF_FFFF
    ensures A * D + C * B >= HALF ==> A * C >= 0x8000_0000
    ensures A * D + C * B < -HALF ==> A < 0 && C < 0
  {
    MixedBounds(A, D);
    MixedBounds(C, B);
    MulMonotone(B, 0xFFFF_FFFF, D);
    MulMonotone(D, 0xFFFF_FFFF, 0xFFFF_FFFF);
    if A * D + C * B >= HALF {
      assert A >= 1 && C >= 1;
      MulMonotone(0, C - 1, A - 1);
      assert (A - 1) * (C - 1) == A * C - A - C + 1;
    }
  }

  // The high and the low half of the sum, with the carry between them.
  method High(AC: int, AD_CB: int, BD: int) returns (hi: int, lo: int)
    requires 0 <= BD < LIMIT
    ensures 0 <= lo < LIMIT && hi * LIMIT + lo == AC * LIMIT + AD_CB * ONE + BD
  {
    hi := AC + AD_CB / ONE;
    var low := AD_CB % ONE * ONE;
    lo := (BD + low) % LIMIT;
    Carried(BD, low);
    if lo < BD {
      hi := hi + 1;
    }
  }

  lemma Carried(x: int, y: int)
    requires 0 <= x < LIMIT && 0 <= y < LIMIT
    ensures var z := (x + y) % LIMIT; z == x + y - if z < x then LIMIT else 0
  {
  }

  // A wrong turn of the middle sum leaves the sign as it is.
  lemma SameSign(a: int, b: int, A: int, B: int, C: int, D: int, w: int)
    requires Half32(A) && Half32(C) && 0 <= B < ONE && 0 <= D < ONE && a == A * ONE + B && b == C * ONE + D
    requires var sum := A * D + C * B;
      w == if sum >= HALF then -1 else if sum < -HALF then 1 else 0
    ensures var p := A * C * LIMIT + (A * D + C * B + w * LIMIT) * ONE + B * D;
      p == a * b + w * LIMIT * ONE && (p < 0 <==> a * b < 0)
  {
    Crosswise(A, B, C, D);
    CrossBounds(A, B, C, D);
    if w == 1 {
      MulMonotone(0, -a, -b);
      assert (-a) * (-b) == a * b;
    }
  }

  lemma Borrow(p: int, hi: int, before: int, neg: int, lo: int)
    requires 0 <= before < LIMIT && p == hi * LIMIT + before && 0 <= neg <= 1
    requires lo == ((before - 0x8000_0000) % LIMIT - neg) % LIMIT
    ensures 0 <= lo < LIMIT
    ensures (hi - if lo > before then 1 else 0) * LIMIT + lo == p - 0x8000_0000 - neg
  {
  }

  // Half a unit less, and one for a negative number, then the next whole unit.
  lemma Nearest(p: int, neg: int, hi: int, lo: int)
    requires 0 <= lo < LIMIT && hi * LIMIT + lo == p - 0x8000_0000 - neg && (neg == if p < 0 then 1 else 0)
    ensures hi * ONE + lo / ONE + 1 == Rounded(p, ONE)
  {
    var q := hi * ONE + lo / ONE;
    assert p - 0x8000_0000 - neg == q * ONE + lo % ONE;
    if p >= 0 {
      DivMod(p + 0x8000_0000, ONE, q + 1, lo % ONE);
    } else {
      DivMod(-p + 0x8000_0000, ONE, -q - 1, ONE - 1 - lo % ONE);
    }
  }

  lemma RoundedLater(x: int, w: int)
    requires x < 0 <==> x + w * LIMIT * ONE < 0
    ensures Rounded(x + w * LIMIT * ONE, ONE) == Rounded(x, ONE) + w * LIMIT
  {
    if x >= 0 {
      Later(x + ONE / 2, w * LIMIT);
    } else {
      Later(-x + ONE / 2, -w * LIMIT);
    }
  }

  lemma Later(x: int, w: int)
    ensures (x + w * ONE) / ONE == x / ONE + w
  {
    DivMod(x + w * ONE, ONE, x / ONE + w, x % ONE);
  }

  lemma WrappedNext(x: int)
    ensures Wrapped(Wrapped(x) + 1) == Wrapped(x + 1)
  {
  }

  // ---- quotient ----

  function Abs(x: int): nat {
    if x < 0 then -x else x
  }

  // The quotient of two numbers to the nearest, half away from zero.
  function RoundedQuotient(a: int, b: int): int
    requires b != 0
  {
    Rounded(if b < 0 then -a * ONE else a * ONE, Abs(b))
  }

  // Zero bits before the first that is set.
  method LeadingZeros(x: U64) returns (k: nat)
    requires x != 0
    ensures k < 64 && HALF <= Shl(x, k) < LIMIT
  {
    hide Power;
    var y: int := x;
    k := 0;
    HalfWord();
    while y < 0x1000_0000_0000_0000
      invariant 0 < y < LIMIT && y == x * Power(2, k) && k % 4 == 0 && k <= 60
      invariant y < 0x1000_0000_0000_0000 ==> k < 60
      decreases LIMIT - y
    {
      Moved(x, k, 4);
      k, y := k + 4, y * 16;
      AtMost(x, k, y);
    }
    while y < HALF
      invariant 0 < y < LIMIT && y == x * Power(2, k) && k <= 63
      decreases LIMIT - y
    {
      Moved(x, k, 1);
      k, y := k + 1, y * 2;
      AtMost(x, k, y);
    }
  }

  // What has not filled the word has been moved by fewer places than it has.
  lemma AtMost(x: nat, k: nat, y: int)
    requires x > 0 && y == x * Power(2, k) && y < LIMIT
    ensures k < 64 && (y < 0x1000_0000_0000_0000 ==> k < 60)
  {
    hide Power;
    MulMonotone(1, x, Power(2, k));
    PowerPositive(2, k);
    Two();
    PowerSum(2, 32, 32);
    PowerSum(2, 32, 28);
    if k >= 64 {
      TwoMonotone(64, k);
    } else if k >= 60 {
      TwoMonotone(60, k);
    }
  }

  // Zero digits at the end of the divisor are dropped with as many places of the result.
  method Reduced(divisor: nat) returns (d: nat, places: nat)
    requires 0 < divisor <= HALF
    ensures 0 < d <= HALF && places <= 33 && Power(2, places) * divisor == Power(2, 33) * d
  {
    hide Power;
    d, places := divisor, 33;
    while d % 16 == 0 && places >= 4
      invariant 0 < d <= HALF && places <= 33 && Power(2, places) * divisor == Power(2, 33) * d
    {
      DropFour(divisor, d, places);
      d, places := d / 16, places - 4;
    }
  }

  lemma DropFour(divisor: nat, d: nat, places: nat)
    requires d % 16 == 0 && places >= 4 && Power(2, places) * divisor == Power(2, 33) * d
    ensures Power(2, places - 4) * divisor == Power(2, 33) * (d / 16)
  {
    hide Power;
    PowerSum(2, 4, places - 4);
    HalfWord();
    var p, e, q := Power(2, places - 4), d / 16, Power(2, 33);
    Associate(16, p, divisor);
    assert q * (16 * e) == 16 * (q * e);
  }

  // One step of the division: the remainder is moved up as far as it goes, and divided.
  lemma DivideStep(twice: nat, q: nat, d: nat, r: nat, k: nat, bits: nat, part: nat, rest: nat)
    requires d > 0 && k <= bits && twice == 2 * (q * d) + r * Power(2, bits + 1)
    requires r * Power(2, k) == part * d + rest
    ensures twice == 2 * ((q + part * Power(2, bits - k)) * d) + 2 * rest * Power(2, bits - k)
  {
    hide Power;
    var p := Power(2, bits - k);
    PowerSum(2, k, bits - k + 1);
    PowerSum(2, 1, bits - k);
    HalfWord();
    Associate(r, Power(2, k), 2 * p);
    Spread(part * d + rest, part, d, rest, p, q);
  }

  lemma Spread(x: int, part: int, d: int, rest: int, p: int, q: int)
    requires x == part * d + rest
    ensures 2 * (q * d) + x * (2 * p) == 2 * ((q + part * p) * d) + 2 * rest * p
  {
    assert (q + part * p) * d == q * d + part * p * d;
    assert x * (2 * p) == 2 * (part * d * p) + 2 * (rest * p);
    assert part * d * p == part * p * d;
    assert 2 * rest * p == 2 * (rest * p);
  }

  function Shl(x: nat, k: nat): nat {
    x * Power(2, k)
  }

  // What has been divided, and what remains of it, at twice its place.
  ghost predicate Dividing(n: nat, whole: nat, d: nat, remainder: nat, bits: int) {
    bits >= -1 && 2 * n == 2 * (whole * d) + Shl(remainder, bits + 1) && (bits == -1 ==> remainder < 2 * d)
  }

  // One part of the quotient, from as many bits as the remainder can be moved up by.
  method DividePart(ghost n: nat, ghost whole: nat, d: nat, remainder: nat, bits: nat) returns (part: nat, rest: nat, left: nat)
    requires 0 < remainder < LIMIT && 0 < d <= HALF && Dividing(n, whole, d, remainder, bits)
    ensures left <= bits && rest < d
    ensures Dividing(n, whole + Shl(part, left), d, 2 * rest, left - 1)
  {
    hide Shl, Dividing;
    DividingFits(n, whole, d, remainder, bits);
    var shift := LeadingZeros(remainder);
    if shift > bits {
      MoreShift(remainder, bits, shift);
      shift := bits;
    }
    var moved: U64 := Shl(remainder, shift);
    QuotientOf(moved, d);
    part, rest, left := moved / d, moved % d, bits - shift;
    PartStep(n, whole, d, remainder, bits, shift, part, rest);
  }

  lemma DividingFits(n: nat, whole: nat, d: nat, remainder: nat, bits: int)
    requires Dividing(n, whole, d, remainder, bits)
    ensures bits >= -1 && (bits == -1 ==> remainder < 2 * d)
  {
  }

  lemma PartStep(n: nat, whole: nat, d: nat, remainder: nat, bits: nat, k: nat, part: nat, rest: nat)
    requires d > 0 && k <= bits && Dividing(n, whole, d, remainder, bits)
    requires Shl(remainder, k) == part * d + rest && rest < d
    ensures Dividing(n, whole + Shl(part, bits - k), d, 2 * rest, bits - k - 1)
  {
    hide Power;
    DivideStep(2 * n, whole, d, remainder, k, bits, part, rest);
  }

  lemma QuotientOf(x: nat, d: nat)
    requires d > 0
    ensures x == x / d * d + x % d && 0 <= x % d < d && x / d >= 0
  {
    DivBracket(x, d, 0);
  }

  // Divides part by part; what the quotient does not hold is lost.
  method Divide(dividend: nat, d: nat, places: nat) returns (quotient: nat)
    requires dividend < LIMIT && 0 < d <= HALF && places <= 33
    ensures quotient == Shl(dividend, places) / d % LIMIT
  {
    hide Shl, Dividing;
    ghost var n, whole := Shl(dividend, places), 0;
    var remainder, bits: int := dividend, places;
    quotient := 0;
    DivideFirst(dividend, d, places);
    while remainder != 0 && bits >= 0
      invariant -1 <= bits <= 33 && 0 <= remainder < LIMIT && whole >= 0
      invariant Dividing(n, whole, d, remainder, bits)
      invariant quotient == whole % LIMIT
      decreases bits
    {
      var part, rest, left := DividePart(n, whole, d, remainder, bits);
      quotient := (quotient + Shl(part, left) % LIMIT) % LIMIT;
      Lost(whole, Shl(part, left));
      whole := whole + Shl(part, left);
      remainder, bits := 2 * rest, left as int - 1;
    }
    DivideLast(n, whole, d, remainder, bits);
  }

  lemma DivideFirst(dividend: nat, d: nat, places: nat)
    ensures Dividing(Shl(dividend, places), 0, d, dividend, places)
  {
    hide Power;
    PowerSum(2, 1, places);
    HalfWord();
    assert dividend * (2 * Power(2, places)) == 2 * Shl(dividend, places);
  }

  lemma DivideLast(n: nat, whole: nat, d: nat, remainder: nat, bits: int)
    requires d > 0 && Dividing(n, whole, d, remainder, bits) && (remainder == 0 || bits < 0)
    ensures n / d == whole
  {
    NoPlaces();
    Divided(n, whole, d, remainder, Power(2, bits + 1));
  }

  lemma NoPlaces()
    ensures Power(2, 0) == 1
  {
  }

  lemma Lost(x: nat, y: nat)
    ensures (x % LIMIT + y % LIMIT) % LIMIT == (x + y) % LIMIT
  {
  }

  lemma MoreShift(r: nat, k: nat, shift: nat)
    requires k <= shift && Shl(r, shift) < LIMIT
    ensures Shl(r, k) < LIMIT
  {
    TwoMonotone(k, shift);
    MulMonotone(Power(2, k), Power(2, shift), r);
  }

  lemma Divided(n: nat, q: nat, d: nat, r: nat, p: nat)
    requires d > 0 && 2 * n == 2 * (q * d) + r * p && (r == 0 || (p == 1 && r < 2 * d))
    ensures n / d == q
  {
    assert r == 0 ==> r * p == 0;
    DivMod(n, d, q, n - q * d);
  }

  // The quotient of the absolute values to one place more than is kept, and rounded up from
  // there; none if there is nothing to divide by. (The absolute value of the least number is
  // taken to be what its bits say.)
  method Div(a: I64, b: I64) returns (r: I64)
    ensures b == 0 ==> r == 0
    ensures b != 0 ==> Abs(r) == (QuotientBits(a, b) + 1) % LIMIT / 2
    ensures b != 0 ==> (r == RoundedQuotient(a, b) <==> Abs(RoundedQuotient(a, b)) < HALF)
  {
    hide Power, RoundedQuotient, Shl, Abs;
    if b == 0 {
      return 0;
    }
    Absolute(a);
    Absolute(b);
    var d, places := Reduced(Abs(b));
    var quotient := Divide(Abs(a), d, places);
    SameQuotient(Abs(a), d, places, Abs(b));
    ghost var t := QuotientBits(a, b);
    quotient := (quotient + 1) % LIMIT;
    NextQuotient(t, quotient);
    r := quotient / 2;
    if (a < 0) != (b < 0) {
      r := -r;
    }
    Absolute(r);
    QuotientRounded(a, b, t, r);
  }

  lemma Absolute(x: I64)
    ensures 0 <= Abs(x) <= HALF && (x != 0 ==> Abs(x) > 0) && (x >= 0 ==> Abs(x) == x) && (x <= 0 ==> Abs(x) == 0 - x)
  {
  }

  // The quotient of the absolute values with 33 binary places.
  function QuotientBits(a: int, b: int): nat
    requires b != 0
  {
    QuotientOf(Shl(Abs(a), 33), Abs(b));
    Shl(Abs(a), 33) / Abs(b)
  }

  lemma NextQuotient(t: nat, q: int)
    requires q == (t % LIMIT + 1) % LIMIT
    ensures q == (t + 1) % LIMIT && (t + 1 < LIMIT ==> q == t + 1) && 0 <= q / 2 < HALF
  {
  }

  lemma SameQuotient(a: nat, d: nat, places: nat, b: nat)
    requires d > 0 && b > 0 && Power(2, places) * b == Power(2, 33) * d
    ensures Shl(a, places) / d == Shl(a, 33) / b
  {
    hide Power;
    var p, w := Power(2, places), Power(2, 33);
    var x, y := a * p, a * w;
    assert x * b == y * d by {
      Associate(a, p, b);
      Associate(a, w, d);
    }
    var q, r := x / d, x % d;
    DivMod(x, d, q, r);
    assert x == q * d + r;
    Fraction(x, d, y, b, q, r);
  }

  lemma Fraction(x: int, d: int, y: int, b: int, q: int, r: int)
    requires d > 0 && b > 0 && x * b == y * d && x == q * d + r && 0 <= r < d
    ensures y / b == q
  {
    assert (q * d + r) * b == q * b * d + r * b;
    var s := y - q * b;
    assert s * d == r * b by {
      assert (y - q * b) * d == y * d - q * b * d;
    }
    if s < 0 {
      MulMonotone(s, -1, d);
      MulMonotone(0, r, b);
    } else if s >= b {
      MulMonotone(b, s, d);
      Under(r, d, b);
    }
    DivMod(y, b, q, s);
  }

  lemma Under(r: int, d: int, b: int)
    requires r < d && b > 0
    ensures r * b < b * d
  {
  }

  // Half of one more than twice the quotient is the quotient to the nearest.
  lemma QuotientRounded(a: I64, b: I64, t: nat, r: I64)
    requires b != 0 && t == QuotientBits(a, b)
    requires Abs(r) == (t + 1) % LIMIT / 2 && (r == 0 || (r < 0 <==> (a < 0) != (b < 0)))
    ensures r == RoundedQuotient(a, b) <==> Abs(RoundedQuotient(a, b)) < HALF
  {
    hide Abs, QuotientBits, RoundedQuotient;
    Absolute(r);
    BitsRounded(a, b);
    RoundedAbs(a, b);
    var q := RoundedQuotient(a, b);
    Signed(r, q, t);
    Absolutes(r, q);
  }

  lemma Signed(r: int, q: int, t: nat)
    requires Abs(r) == (t + 1) % LIMIT / 2 && Abs(q) == (t + 1) / 2
    ensures Abs(r) < HALF && (Abs(q) < HALF ==> Abs(r) == Abs(q))
  {
  }

  lemma Absolutes(r: int, q: int)
    ensures Abs(r) == Abs(q) && (r == 0 || q == 0 || (r < 0 <==> q < 0)) ==> r == q
  {
  }

  lemma BitsRounded(a: int, b: int)
    requires b != 0
    ensures var x, u := Abs(a) * ONE, Abs(b); (QuotientBits(a, b) + 1) / 2 == (x + u / 2) / u
  {
    hide Power;
    PlacesOfTwo();
    var x := Abs(a) * ONE;
    assert Shl(Abs(a), 33) == 2 * x;
    HalfUp(x, Abs(b));
  }

  lemma RoundedAbs(a: int, b: int)
    requires b != 0
    ensures var x, u := Abs(a) * ONE, Abs(b); Abs(RoundedQuotient(a, b)) == (x + u / 2) / u
    ensures RoundedQuotient(a, b) == 0 || (RoundedQuotient(a, b) < 0 <==> (a < 0) != (b < 0))
  {
    var u := Abs(b);
    DivBracket(Abs(a) * ONE + u / 2, u, 0);
  }

  lemma PlacesOfTwo()
    ensures Power(2, 33) == 2 * ONE
  {
    hide Power;
    Two();
    HalfWord();
    PowerSum(2, 1, 32);
  }

  lemma HalfUp(x: nat, u: nat)
    requires u > 0
    ensures (2 * x / u + 1) / 2 == (x + u / 2) / u
  {
    var q, r := x / u, x % u;
    assert x == q * u + r;
    if 2 * r >= u {
      assert 2 * x == (2 * q + 1) * u + (2 * r - u) by {
        assert (2 * q + 1) * u == 2 * (q * u) + u;
      }
      DivMod(2 * x, u, 2 * q + 1, 2 * r - u);
      assert x + u / 2 == (q + 1) * u + (r + u / 2 - u) by {
        assert (q + 1) * u == q * u + u;
      }
      DivMod(x + u / 2, u, q + 1, r + u / 2 - u);
    } else {
      assert 2 * x == (2 * q) * u + 2 * r by {
        assert (2 * q) * u == 2 * (q * u);
      }
      DivMod(2 * x, u, 2 * q, 2 * r);
      DivMod(x + u / 2, u, q, r + u / 2);
    }
  }

  // ---- square root ----

  // `q` is the square root of `x` to the nearest: `4 * x` lies between the squares of the odd
  // numbers round `2 * q`, and is never one of them.
  predicate NearestRoot(q: nat, x: nat) {
    4 * x < (2 * q + 1) * (2 * q + 1) && (q > 0 ==> (2 * q - 1) * (2 * q - 1) < 4 * x)
  }

  predicate Root(q: nat, x: nat) {
    q * q <= x < (q + 1) * (q + 1)
  }

  // The root without its fraction, and what is left.
  predicate RootLeft(x: nat, q: nat, left: nat) {
    q * q + left == x && x < (q + 1) * (q + 1)
  }

  lemma OneRoot(p: nat, q: nat, x: nat)
    requires NearestRoot(p, x) && NearestRoot(q, x)
    ensures p == q
  {
    if p < q {
      Squares(2 * p + 1, 2 * q - 1);
    } else if q < p {
      Squares(2 * q + 1, 2 * p - 1);
    }
  }

  lemma Squares(a: nat, b: nat)
    requires a <= b
    ensures a * a <= b * b
  {
    MulMonotone(a, b, a);
    MulMonotone(a, b, b);
  }

  // The state of the search for a root, one binary digit at a time: what is found so far, `s`,
  // in the form in which it is compared, and what is left.
  ghost predicate Searching(x: nat, s: nat, k: nat, num: int, result: int) {
    && num == x - s * s && num >= 0 && result == s * Power(2, k)
    && x < (s + Power(2, k)) * (s + Power(2, k))
  }

  lemma DigitTaken(x: nat, s: nat, k: nat, num: int, result: int, bit: nat)
    requires k > 0 && Searching(x, s, k, num, result) && bit == Power(2, k - 1) * Power(2, k - 1)
    ensures num >= result + bit ==> Searching(x, s + Power(2, k - 1), k - 1, num - (result + bit), result / 2 + bit)
    ensures num < result + bit ==> Searching(x, s, k - 1, num, result / 2)
  {
    var p := Power(2, k - 1);
    assert Power(2, k) == 2 * p;
    hide Power;
    Square(s, p);
    Square(s + p, p);
    assert s * (2 * p) == 2 * (s * p);
    assert (s + p) * p == s * p + p * p;
    DivMod(result, 2, s * p, 0);
  }

  lemma Square(s: int, p: int)
    ensures (s + p) * (s + p) == s * s + 2 * (s * p) + p * p
  {
    assert (s + p) * (s + p) == s * (s + p) + p * (s + p);
  }

  // The square of the next digit, or nothing after the last.
  function BitOf(k: nat): nat {
    if k == 0 then 0 else Power(2, k - 1) * Power(2, k - 1)
  }

  lemma NextBit(k: nat)
    requires k > 0
    ensures BitOf(k) > 0 && BitOf(k) / 4 == BitOf(k - 1)
  {
    PowerPositive(2, k - 1);
    var p := Power(2, k - 1);
    MulMonotone(1, p, p);
    if k > 1 {
      var q := Power(2, k - 2);
      assert p * p == 4 * (q * q);
    }
  }

  // Finds the digits from `bit` down.
  method RootDigits(ghost x: nat, ghost s: nat, ghost k: nat, num: U64, result: U64, bit: U64) returns (left: U64, root: U64)
    requires Searching(x, s, k, num, result) && bit == BitOf(k) && result + 2 * bit < LIMIT
    ensures RootLeft(x, root, left)
  {
    hide Power, Searching, BitOf;
    ghost var t: nat, n: nat := s, k;
    left, root := num, result;
    var b: U64 := bit;
    NoBit();
    while b != 0
      invariant Searching(x, t, n, left, root) && b == BitOf(n) && root + 2 * b < LIMIT
      decreases n
    {
      NextBit(n);
      BitSquare(n);
      DigitTaken(x, t, n, left, root, b);
      if left >= root + b {
        left, root := left - (root + b), root / 2 + b;
        t := t + Power(2, n - 1);
      } else {
        root := root / 2;
      }
      b, n := b / 4, n - 1;
    }
    if n > 0 {
      NextBit(n);
    }
    Found(x, t, left, root);
  }

  lemma NoBit()
    ensures BitOf(0) == 0
  {
  }

  lemma BitSquare(k: nat)
    requires k > 0
    ensures BitOf(k) == Power(2, k - 1) * Power(2, k - 1)
  {
  }

  lemma Found(x: nat, s: nat, num: int, result: int)
    requires Searching(x, s, 0, num, result)
    ensures num >= 0 && RootLeft(x, result, num)
  {
    NoPlaces();
  }

  // Where the search starts: at the highest digit that is not too large.
  method FirstBit(v: nat) returns (bit: U64, ghost k: nat)
    requires v <= HALF
    ensures bit == BitOf(k) && k <= 32 && Searching(v, 0, k, v, 0) && 2 * bit < LIMIT
  {
    hide Power, Searching, BitOf;
    StartBits(v);
    bit, k := 0x4000_0000_0000_0000, 32;
    if v < 0x1_0000_0000_0000 {
      bit, k := 0x4000_0000_0000, 24;
    }
    NoBit();
    while bit > v
      invariant bit == BitOf(k) && k <= 32 && Searching(v, 0, k, v, 0) && 2 * bit < LIMIT
      decreases k
    {
      NextBit(k);
      BitSquare(k);
      NotThere(v, k);
      bit, k := bit / 4, k - 1;
    }
  }

  lemma StartBits(v: nat)
    requires v <= HALF
    ensures BitOf(32) == 0x4000_0000_0000_0000 && Searching(v, 0, 32, v, 0)
    ensures BitOf(24) == 0x4000_0000_0000
    ensures v < 0x1_0000_0000_0000 ==> Searching(v, 0, 24, v, 0)
  {
    hide Power;
    Two();
    HalfWord();
    PowerSum(2, 16, 8);
    PowerSum(2, 16, 4);
    PowerSum(2, 20, 2);
    PowerSum(2, 22, 1);
  }

  lemma NotThere(v: nat, k: nat)
    requires k > 0 && v < Power(2, k - 1) * Power(2, k - 1)
    ensures Searching(v, 0, k - 1, v, 0)
  {
  }

  // The root of the whole number, before its digits behind the point: what is left is moved up
  // with it, unless that leaves no room; then half a unit is taken to be in the root already,
  // and what is left is short by a quarter of a unit.
  method MoveUp(v: nat, num: U64, root: U64) returns (num': U64, root': U64, ghost x: nat, ghost s: nat)
    requires v <= HALF && RootLeft(v, root, num)
    ensures Searching(x, s, 16, num', root') && root' + 0x8000_0000 < LIMIT
    ensures x == Moved32(v, num)
  {
    hide Searching, Power, RootLeft;
    RootBound(v, num, root);
    WholeLeft(v, root, num);
    x := Moved32(v, num);
    if num > 0xFFFF_FFFF {
      num', root' := (num - root) * ONE - 0x8000_0000, root * ONE + 0x8000_0000;
      s := root * 0x1_0000 + 0x8000;
    } else {
      num', root' := num * ONE, root * ONE;
      s := root * 0x1_0000;
    }
    MovedUp(v, num, root, num', root', s);
  }

  // What the root is taken of.
  function Moved32(v: nat, num: nat): (x: nat)
    requires num <= v
  {
    if num > 0xFFFF_FFFF then v * ONE - 0x4000_0000 else v * ONE
  }

  lemma RootBound(v: nat, num: nat, root: nat)
    requires v <= HALF && RootLeft(v, root, num)
    ensures root <= 0xFFFF_FFFE && num <= 2 * root
  {
    Square(root, 1);
    if root >= 0xFFFF_FFFF {
      Squares(0xFFFF_FFFF, root);
    }
  }

  lemma MovedUp(v: nat, num: nat, root: nat, num': int, root': int, s: nat)
    requires RootLeft(v, root, num) && root <= 0xFFFF_FFFE
    requires if num > 0xFFFF_FFFF then
      num' == (num - root) * ONE - 0x8000_0000 && root' == root * ONE + 0x8000_0000 && s == root * 0x1_0000 + 0x8000
      else num' == num * ONE && root' == root * ONE && s == root * 0x1_0000
    ensures Searching(Moved32(v, num), s, 16, num', root')
  {
    HalfWord();
    hide Power;
    var m := root * 0x1_0000;
    assert m * m == root * root * ONE;
    assert m * 0x8000 == root * 0x8000_0000;
    Square(m, 0x8000);
    Square(root, 1);
    Square(m, 0x1_0000);
    assert m * 0x1_0000 == root * ONE;
    Squares(m + 0x1_0000, s + 0x1_0000);
  }

  lemma RoundUp(x: nat, q: nat, left: nat)
    requires RootLeft(x, q, left)
    ensures NearestRoot(if left > q then q + 1 else q, x)
  {
    Odd2(q);
    Odd2(q + 1);
    Square(q, 1);
    if q > 0 {
      Odd2(q - 1);
      Square(q - 1, 1);
    }
  }

  lemma Odd2(q: nat)
    ensures (2 * q + 1) * (2 * q + 1) == 4 * (q * q) + 4 * q + 1
  {
    Square(2 * q, 1);
    assert (2 * q) * (2 * q) == 4 * (q * q);
  }

  // The root without its fraction, whatever way it is found.
  ghost function FloorRoot(x: nat): (q: nat)
    ensures Root(q, x)
  {
    if x == 0 then 0 else
      var q := FloorRoot(x - 1);
      Square(q, 1);
      Square(q + 1, 1);
      if (q + 1) * (q + 1) <= x then q + 1 else q
  }

  lemma RootIs(q: nat, x: nat)
    requires Root(q, x)
    ensures q == FloorRoot(x)
  {
    var p := FloorRoot(x);
    if p < q {
      Squares(p + 1, q);
    } else if q < p {
      Squares(q + 1, p);
    }
  }

  // The square root of a number that takes more than 62 bits may be too small by one in its
  // last place: when too much is left of the whole number, and the root is above the middle
  // between two by so little that the missing quarter decides.
  ghost predicate Missed(v: nat) {
    var root, x := FloorRoot(v), v * ONE;
    var q := FloorRoot(x);
    v - root * root >= ONE && q < x - q * q <= q + 0x4000_0000
  }

  // Two searches, for the digits before and behind the point.
  method Roots(v: nat) returns (root: nat)
    requires v <= HALF
    ensures root <= 0x1_0000_0000_0000
    ensures NearestRoot(root, v * ONE) <==> !Missed(v)
    ensures Missed(v) ==> NearestRoot(root + 1, v * ONE)
  {
    hide Searching, BitOf, NearestRoot, Missed, RootLeft, Moved32;
    var bit, k := FirstBit(v);
    var num, whole := RootDigits(v, 0, k, v, 0, bit);
    WholeLeft(v, whole, num);
    ghost var left := num;
    ghost var x, s;
    var first;
    num, first, x, s := MoveUp(v, num, whole);
    SecondBit();
    num, root := RootDigits(x, s, 16, num, first, 0x4000_0000);
    RoundUp(x, root, num);
    SmallRoot(v, x, root, num);
    if num > root {
      root := root + 1;
    }
    MissedIff(v, left, whole, root);
  }

  lemma WholeLeft(v: nat, whole: nat, num: nat)
    requires RootLeft(v, whole, num)
    ensures num <= v && Moved32(v, num) <= v * ONE
  {
  }

  // The square root, with the sign of the number: to the nearest if and only if it is not
  // missed.
  method Sqrt(value: I64) returns (r: int)
    ensures -HALF < r < HALF && (value >= 0 ==> r >= 0) && (value <= 0 ==> r <= 0)
    ensures NearestRoot(Abs(r), Abs(value) * ONE) <==> !Missed(Abs(value))
    ensures Missed(Abs(value)) ==> NearestRoot(Abs(r) + 1, Abs(value) * ONE)
  {
    hide NearestRoot, Missed;
    var root := Roots(if value < 0 then -(value as int) else value);
    r := if value < 0 then -(root as int) else root;
    if value == 0 {
      ZeroRoot(root);
    }
  }

  lemma ZeroRoot(root: nat)
    requires NearestRoot(root, 0) <==> !Missed(0)
    ensures root == 0
  {
    SmallNotMissed(0);
  }

  lemma SecondBit()
    ensures BitOf(16) == 0x4000_0000
  {
    HalfWord();
    PowerSum(2, 8, 7);
    assert Power(2, 3) == 8;
    PowerSum(2, 4, 3);
  }

  lemma SmallRoot(v: nat, x: nat, root: nat, left: nat)
    requires v <= HALF && x <= v * ONE && RootLeft(x, root, left)
    ensures root < 0x1_0000_0000_0000
  {
    if root >= 0x1_0000_0000_0000 {
      Squares(0x1_0000_0000_0000, root);
    }
  }

  // A quarter of a unit less makes a difference only where the missed are.
  lemma MissedIff(v: nat, left: nat, whole: nat, p: nat)
    requires RootLeft(v, whole, left)
    requires NearestRoot(p, Moved32(v, left))
    ensures NearestRoot(p, v * ONE) <==> !Missed(v)
    ensures Missed(v) ==> NearestRoot(p + 1, v * ONE)
  {
    hide NearestRoot;
    RootIs(whole, v);
    var x := v * ONE;
    var q := FloorRoot(x);
    if left >= ONE {
      LargeRoot(v, q);
      QuarterIff(x, q, x - q * q, p);
    } else {
      assert Moved32(v, left) == x;
    }
  }

  lemma QuarterIff(x: nat, q: nat, l: nat, p: nat)
    requires q >= ONE && RootLeft(x, q, l) && x >= 0x4000_0000 && NearestRoot(p, x - 0x4000_0000)
    ensures NearestRoot(p, x) <==> !(q < l <= q + 0x4000_0000)
    ensures q < l <= q + 0x4000_0000 ==> NearestRoot(p + 1, x)
  {
    hide NearestRoot, RootLeft;
    RoundUp(x, q, l);
    QuarterLess(q, l, x);
    OneRoot(p, if l > q + 0x4000_0000 then q + 1 else q, x - 0x4000_0000);
    if NearestRoot(p, x) {
      OneRoot(p, if l > q then q + 1 else q, x);
    }
  }

  lemma LargeRoot(v: nat, q: nat)
    requires v >= ONE && Root(q, v * ONE)
    ensures q >= ONE
  {
    if q + 1 <= ONE {
      Squares(q + 1, ONE);
    }
  }

  lemma QuarterLess(q: nat, l: nat, x: nat)
    requires q >= ONE && RootLeft(x, q, l)
    ensures NearestRoot(if l > q + 0x4000_0000 then q + 1 else q, x - 0x4000_0000)
  {
    if l >= 0x4000_0000 {
      RoundUp(x - 0x4000_0000, q, l - 0x4000_0000);
    } else {
      Odd2(q);
      Odd2(q - 1);
      Square(q - 1, 1);
    }
  }

  // Below 2^62 nothing is missed.
  lemma SmallNotMissed(v: nat)
    requires v < 0x4000_0000_0000_0000
    ensures !Missed(v)
  {
    var root := FloorRoot(v);
    Square(root, 1);
    if root >= 0x8000_0000 {
      Squares(0x8000_0000, root);
    }
  }

  // But above, some are.
  lemma SomeMissed()
    ensures Missed(9000000005493484498)
  {
    var v, root, q := 9000000005493484498, 3000000000, 196608000060003;
    assert Root(root, v);
    RootIs(root, v);
    assert Root(q, v * ONE);
    RootIs(q, v * ONE);
  }
}
