// The decimal digits of a quotient of big integers, one division a digit, rounded half to
// even at the last.

module Decimal {
  import opened Words
  import opened Bigint
  import opened BigPowers

  type Digit = d: int | 0 <= d <= 9

  function Dec(s: seq<Digit>): nat {
    if s == [] then 0 else 10 * Dec(s[..|s| - 1]) + s[|s| - 1]
  }

  lemma DecPush(s: seq<Digit>, d: Digit)
    ensures Dec(s + [d]) == 10 * Dec(s) + d
  {
    assert (s + [d])[..|s|] == s;
  }

  // `n` units are as near to `x` as any number of units, and even if two are as near.
  ghost predicate Nearest(n: int, unit: nat, x: nat) {
    && -(unit as int) <= 2 * (n * unit - x) <= unit
    && (2 * (n * unit - x) == unit || 2 * (n * unit - x) == -(unit as int) ==> n % 2 == 0)
  }

  // Nothing else is.
  lemma NearestIsOne(n: int, m: int, unit: nat, x: nat)
    requires Nearest(n, unit, x) && Nearest(m, unit, x) && unit > 0
    ensures n == m
  {
    if n < m {
      NotBelow(n, m, unit, x);
    } else if m < n {
      NotBelow(m, n, unit, x);
    }
  }

  lemma TwoMore(n: int, unit: int)
    ensures (n + 1) * unit == n * unit + unit && (n + 2) * unit == n * unit + 2 * unit
  {
  }

  lemma NotBelow(n: int, m: int, unit: nat, x: nat)
    requires Nearest(n, unit, x) && Nearest(m, unit, x) && unit > 0
    ensures !(n < m)
  {
    if n < m {
      TwoMore(n, unit);
      if m > n + 1 {
        MulMonotone(n + 2, m, unit);
      }
    }
  }

  // The digits `r`, from the highest on, to `places` places.
  function Scaled(r: seq<Digit>, places: nat, carry: bool): nat
    requires |r| <= places
  {
    Dec(r) * Power(10, places - |r| + if carry then 1 else 0)
  }

  // The last digit that is not a nine goes up by one and those after it go; if there is none,
  // a one with as many zeros is what remains.
  method RoundOff(s: seq<Digit>) returns (r: seq<Digit>, carry: bool)
    requires s != [] && s[0] != 0
    ensures r != [] && |r| <= |s| && r[0] != 0 && r[|r| - 1] != 0
    ensures Scaled(r, |s|, carry) == Dec(s) + 1
  {
    hide Dec;
    var n := |s|;
    Unscaled(s);
    while true
      invariant 0 < n <= |s|
      invariant (Dec(s[..n]) + 1) * Power(10, |s| - n) == Dec(s) + 1
      decreases n
    {
      n := n - 1;
      assert s[..n + 1] == s[..n] + [s[n]];
      DecPush(s[..n], s[n]);
      if s[n] != 9 {
        break;
      }
      TenMore(Dec(s[..n]) + 1, |s| - n - 1);
      if n == 0 {
        OneLeft(|s|);
        return [1], true;
      }
    }
    r := s[..n] + [s[n] + 1];
    DecPush(s[..n], s[n] + 1);
    carry := false;
  }

  lemma Unscaled(s: seq<Digit>)
    ensures (Dec(s[..|s|]) + 1) * Power(10, |s| - |s|) == Dec(s) + 1
    ensures Dec(s[..|s|]) * Power(10, |s| - |s|) == Dec(s)
  {
    assert s[..|s|] == s;
  }

  lemma TenMore(a: nat, j: nat)
    ensures (10 * a) * Power(10, j) == a * Power(10, j + 1)
  {
    var p := Power(10, j);
    assert (10 * a) * p == a * (10 * p);
  }

  lemma OneLeft(n: nat)
    requires n > 0
    ensures Dec([1]) == 1 && Dec([]) == 0
    ensures Scaled([1], n, true) == Power(10, n)
  {
    DecPush([], 1);
    assert [] + [1] == [1 as Digit];
  }

  method TrimZeros(s: seq<Digit>) returns (r: seq<Digit>)
    requires s != [] && s[0] != 0
    ensures r != [] && |r| <= |s| && r[0] != 0 && r[|r| - 1] != 0
    ensures Scaled(r, |s|, false) == Dec(s)
  {
    hide Dec;
    var n := |s|;
    Unscaled(s);
    while s[n - 1] == 0
      invariant 0 < n <= |s|
      invariant Dec(s[..n]) * Power(10, |s| - n) == Dec(s)
      decreases n
    {
      n := n - 1;
      assert s[..n + 1] == s[..n] + [s[n]];
      DecPush(s[..n], s[n]);
      TenMore(Dec(s[..n]), |s| - n - 1);
    }
    r := s[..n];
  }

  // What the digits say, and what is left.
  ghost function Told(digits: seq<Digit>, unit: nat, left: nat): nat {
    Dec(digits) * unit + left
  }

  ghost function Places(b: nat, n: nat): nat {
    b * Power(10, n)
  }

  lemma NextDigit(digits: seq<Digit>, unit: nat, b: nat, x: nat, q: Digit, r: nat)
    requires Told(digits + [0], unit, b) == x && b == q * unit + r
    ensures Told(digits + [q], unit, r) == x
  {
    hide Dec;
    DecPush(digits, 0);
    DecPush(digits, q);
    var d := Dec(digits);
    assert (10 * d + q) * unit == (10 * d) * unit + q * unit;
  }

  lemma DigitBelow(b: nat, unit: nat)
    requires b < 10 * unit
    ensures b / unit <= 9 && (b >= unit ==> b / unit >= 1)
  {
    DivBracket(b, unit, 10);
    DivBracket(b, unit, 1);
  }

  lemma Exact(digits: seq<Digit>, unit: nat, b0: nat, n: nat)
    requires digits != [] && |digits| <= n && Told(digits, unit, 0) == Places(b0, |digits| - 1) && unit > 0
    ensures Nearest(Scaled(digits, n, false), unit, Places(b0, n - 1))
  {
    hide Power, Dec;
    var m := n - |digits|;
    var p := Power(10, m);
    PowerSum(10, |digits| - 1, m);
    assert |digits| - 1 + m == n - 1;
    Associate(b0, Power(10, |digits| - 1), p);
    assert (Dec(digits) * p) * unit == (Dec(digits) * unit) * p;
  }

  lemma RoundsUp(digits: nat, unit: nat, r: nat, x: nat)
    requires digits * unit + r == x && 0 <= r < unit
    requires 2 * r > unit || (2 * r == unit && digits % 2 == 1)
    ensures Nearest(digits + 1, unit, x)
  {
    assert (digits + 1) * unit == digits * unit + unit;
  }

  lemma RoundsDown(digits: nat, unit: nat, r: nat, x: nat)
    requires digits * unit + r == x && 0 <= r < unit
    requires 2 * r < unit || (2 * r == unit && digits % 2 == 0)
    ensures Nearest(digits, unit, x)
  {
  }

  // A number that is not zero, as the divisions leave it.
  lemma NotZero(s: Digits)
    requires Trimmed(s)
    ensures Val(s) == 0 <==> s == [] || (|s| == 1 && s[0] == 0)
    ensures Val(s) != 0 ==> Leads(s)
  {
    if s != [] && s[|s| - 1] != 0 {
      Positive(s);
    } else if |s| == 1 {
      IntegerOf(0);
      assert s == [0];
    }
  }

  // At most `ilim` digits of `b / s`, which has one before the point: all of them, if there are
  // no more, or rounded half to even; `carry` says that the point has moved.
  method FixedDigits(b: Big, s: Digits, ilim: nat) returns (r: seq<Digit>, carry: bool)
    requires b.Valid() && Trimmed(b.x[..b.wds]) && Leads(s) && s[|s| - 1] >= 0x1_0000 && s[|s| - 1] < 0x1000_0000
    requires Val(s) <= b.Value() < 10 * Val(s) && ilim > 0
    modifies b, b.x
    ensures r != [] && |r| <= ilim && r[0] != 0 && r[|r| - 1] != 0
    ensures Nearest(Scaled(r, ilim, carry), Val(s), Places(old(b.Value()), ilim - 1))
  {
    hide Val, Dec, Power, Leads, Nearest, Told, Places, Scaled;
    ghost var b0, unit := b.Value(), Val(s);
    var i := 1;
    var digits: seq<Digit> := [];
    assert digits + [0] == [0];
    First(b0, unit);
    NotZero(b.x[..b.wds]);
    Positive(s);
    while true
      invariant 1 <= i <= ilim && |digits| == i - 1 && b.Valid() && (b.x == old(b.x) || fresh(b.x))
      invariant Leads(b.x[..b.wds]) && b.wds > 0 && 0 < b.Value() < 10 * unit
      invariant Told(digits + [0], unit, b.Value()) == Places(b0, i - 1)
      invariant if i == 1 then b.Value() >= unit else digits[0] != 0
      decreases ilim - i
    {
      ghost var left := b.Value();
      var q := NextOf(b, s, digits, Places(b0, i - 1));
      FirstDigit(q, unit, left, b.Value());
      digits := digits + [q];
      if b.x[0] == 0 && b.wds <= 1 {
        Exact(digits, unit, b0, ilim);
        return digits, false;
      }
      if i >= ilim {
        break;
      }
      TenTimes(digits, unit, b.Value(), b0, i - 1);
      Tenfold(b);
      i := i + 1;
    }
    r, carry := LastDigit(b.x[..b.wds], s, digits, Places(b0, ilim - 1));
  }

  // Whether the last digit is rounded up: by what is left, twice, and the divisor.
  method LastDigit(left: Digits, s: Digits, digits: seq<Digit>, ghost x: nat) returns (r: seq<Digit>, carry: bool)
    requires Leads(left) && Leads(s) && Val(left) < Val(s) && digits != [] && digits[0] != 0
    requires Told(digits, Val(s), Val(left)) == x
    ensures r != [] && |r| <= |digits| && r[0] != 0 && r[|r| - 1] != 0
    ensures Nearest(Scaled(r, |digits|, carry), Val(s), x)
  {
    hide Val, Dec, Power, Nearest;
    var twice := LShift(left, 1);
    OneBit();
    var j := Cmp(twice, s);
    var dig := digits[|digits| - 1];
    Parity(digits);
    if j > 0 || (j == 0 && dig % 2 == 1) {
      RoundsUp(Dec(digits), Val(s), Val(left), x);
      r, carry := RoundOff(digits);
    } else {
      RoundsDown(Dec(digits), Val(s), Val(left), x);
      r := TrimZeros(digits);
      carry := false;
    }
  }

  method Tenfold(b: Big)
    requires b.Valid() && Leads(b.x[..b.wds])
    modifies b, b.x
    ensures b.Valid() && (b.x == old(b.x) || fresh(b.x)) && Leads(b.x[..b.wds]) && b.wds > 0
    ensures b.Value() == old(b.Value()) * 10
  {
    hide Val;
    b.MultAdd(10, 0);
  }

  method NextOf(b: Big, s: Digits, ghost digits: seq<Digit>, ghost x: nat) returns (q: Digit)
    requires b.Valid() && Leads(s) && Leads(b.x[..b.wds]) && s[|s| - 1] >= 0x1_0000 && s[|s| - 1] < 0x1000_0000
    requires b.Value() < 10 * Val(s) && Told(digits + [0], Val(s), b.Value()) == x
    modifies b`wds, b.x
    ensures b.Valid() && b.Value() < Val(s) && Told(digits + [q], Val(s), b.Value()) == x
    ensures b.Value() != 0 ==> Leads(b.x[..b.wds]) && b.wds > 0
    ensures b.Value() == 0 <==> b.x[0] == 0 && b.wds <= 1
    ensures old(b.Value()) == q * Val(s) + b.Value()
  {
    hide Val, Dec, Told;
    ghost var left, unit := b.Value(), Val(s);
    Positive(s);
    DigitFits(b.x[..b.wds], s);
    DigitBelow(left, unit);
    q := b.Quorem(s);
    NextDigit(digits, unit, left, x, q, b.Value());
    NotZero(b.x[..b.wds]);
  }

  lemma FirstDigit(q: nat, unit: nat, left: nat, r: nat)
    requires left == q * unit + r && r < unit
    ensures left >= unit || r == 0 < left ==> q != 0
  {
  }

  lemma First(b0: nat, unit: nat)
    ensures Told([0], unit, b0) == Places(b0, 0)
  {
    assert Dec([0]) == 0;
  }

  lemma TenTimes(digits: seq<Digit>, unit: nat, r: nat, b0: nat, n: nat)
    requires Told(digits, unit, r) == Places(b0, n)
    ensures Told(digits + [0], unit, r * 10) == Places(b0, n + 1)
  {
    DecPush(digits, 0);
    var p, d := Power(10, n), Dec(digits);
    hide Dec, Power;
    assert b0 * (10 * p) == 10 * (b0 * p);
    assert (10 * d) * unit == 10 * (d * unit);
  }

  lemma OneBit()
    ensures Power(2, 1) == 2
  {
    assert Power(2, 0) == 1;
  }

  lemma Parity(s: seq<Digit>)
    requires s != []
    ensures Dec(s) % 2 == s[|s| - 1] % 2
  {
  }
}
