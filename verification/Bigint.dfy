// The multiple-precision integers behind the conversion of decimal numbers: 32-bit words,
// least significant first, with carries and borrows propagated by loops.

module Bigint {
  import opened Words

  type Digits = seq<U32>

  function Pow(n: nat): (p: nat)
    ensures p > 0
  {
    if n == 0 then 1 else WORD * Pow(n - 1)
  }

  function Val(s: Digits): nat {
    if s == [] then 0 else Val(s[..|s| - 1]) + s[|s| - 1] * Pow(|s| - 1)
  }

  // No leading zero word, unless it is the only one.
  predicate Trimmed(s: Digits) {
    |s| <= 1 || s[|s| - 1] != 0
  }

  predicate Leads(s: Digits) {
    s != [] && s[|s| - 1] != 0
  }

  lemma ValPush(s: Digits, w: U32)
    ensures Val(s + [w]) == Val(s) + w * Pow(|s|)
  {
    assert (s + [w])[..|s|] == s;
  }

  lemma ValTake(s: Digits, i: nat)
    requires i < |s|
    ensures Val(s[..i + 1]) == Val(s[..i]) + s[i] * Pow(i)
  {
    assert s[..i + 1] == s[..i] + [s[i]];
    ValPush(s[..i], s[i]);
  }

  lemma {:induction false} ValBound(s: Digits)
    ensures Val(s) < Pow(|s|)
  {
    if s != [] {
      var n := |s| - 1;
      ValBound(s[..n]);
      var w: nat := s[n];
      MulMonotone(w + 1, WORD, Pow(n));
      assert (w + 1) * Pow(n) == w * Pow(n) + Pow(n);
    }
  }

  lemma {:induction false} PowMonotone(m: nat, n: nat)
    requires m <= n
    ensures Pow(m) <= Pow(n)
  {
    if m < n {
      PowMonotone(m, n - 1);
    }
  }

  lemma {:induction false} PowSum(m: nat, n: nat)
    ensures Pow(m + n) == Pow(m) * Pow(n)
    decreases n
  {
    if n > 0 {
      PowSum(m, n - 1);
      var a, b := Pow(m), Pow(n - 1);
      assert WORD * (a * b) == a * (WORD * b);
    }
  }

  lemma {:induction false} ValZeros(s: Digits, n: nat)
    requires n <= |s| && forall i | n <= i < |s| :: s[i] == 0
    ensures Val(s) == Val(s[..n])
    decreases |s|
  {
    if n < |s| {
      ValZeros(s[..|s| - 1], n);
      assert s[..|s| - 1][..n] == s[..n];
    } else {
      assert s[..n] == s;
    }
  }

  lemma {:induction false} ValConcat(a: Digits, b: Digits)
    ensures Val(a + b) == Val(a) + Pow(|a|) * Val(b)
    decreases |b|
  {
    if b == [] {
      assert a + b == a;
    } else {
      var n := |b| - 1;
      assert a + b == (a + b[..n]) + [b[n]];
      hide Pow;
      ValConcat(a, b[..n]);
      ValPush(a + b[..n], b[n]);
      PowSum(|a|, n);
      Distribute(Pow(|a|), Val(b[..n]), b[n], Pow(n));
    }
  }

  lemma Distribute(p: int, v: int, w: int, q: int)
    ensures p * (v + w * q) == p * v + w * (p * q)
  {
    assert p * (w * q) == w * (p * q);
  }

  lemma NoWords()
    ensures Val([]) == 0 && Pow(0) == 1
  {
  }

  lemma PowNext(n: nat)
    ensures Pow(n + 1) == WORD * Pow(n)
  {
  }

  // ---- comparing ----

  // With the same words above, the first word that differs decides.
  lemma FirstDifference(a: Digits, b: Digits, i: nat)
    requires i < |a| == |b| && a[i] < b[i] && a[i + 1..] == b[i + 1..]
    ensures Val(a) < Val(b)
  {
    assert a == a[..i + 1] + a[i + 1..] && b == b[..i + 1] + b[i + 1..];
    ValConcat(a[..i + 1], a[i + 1..]);
    ValConcat(b[..i + 1], b[i + 1..]);
    ValTake(a, i);
    ValTake(b, i);
    ValBound(a[..i]);
    var w: nat := a[i];
    MulMonotone(w + 1, b[i], Pow(i));
    assert (w + 1) * Pow(i) == w * Pow(i) + Pow(i);
  }

  lemma Shorter(a: Digits, b: Digits)
    requires |a| < |b| && Leads(b)
    ensures Val(a) < Val(b)
  {
    var n := |b| - 1;
    ValBound(a);
    PowMonotone(|a|, n);
    MulMonotone(1, b[n], Pow(n));
  }

  method Cmp(a: Digits, b: Digits) returns (r: int)
    requires (|a| < |b| ==> Leads(b)) && (|b| < |a| ==> Leads(a))
    ensures r < 0 <==> Val(a) < Val(b)
    ensures r > 0 <==> Val(a) > Val(b)
    ensures r == 0 <==> a == b
  {
    if |a| != |b| {
      if |a| < |b| {
        Shorter(a, b);
      } else {
        Shorter(b, a);
      }
      return |a| - |b|;
    }
    var i := |a|;
    while i > 0
      invariant 0 <= i <= |a| && a[i..] == b[i..]
    {
      i := i - 1;
      if a[i] != b[i] {
        if a[i] < b[i] {
          FirstDifference(a, b, i);
        } else {
          FirstDifference(b, a, i);
        }
        return if a[i] < b[i] then -1 else 1;
      }
    }
    r := 0;
  }

  // ---- one word of a product or a difference ----

  // `lo` out of `d * m + carry`, and what is carried on, at the place of weight `p`.
  lemma CarryStep(v: int, v': int, d: int, lo: int, m: int, carry: int, carry': int, p: int, a: int)
    requires v' + carry * p == v * m + a && lo + carry' * WORD == d * m + carry
    ensures (v' + lo * p) + carry' * (WORD * p) == (v + d * p) * m + a
  {
    assert (lo + carry' * WORD) * p == lo * p + carry' * (WORD * p);
    assert (d * m + carry) * p == d * p * m + carry * p;
    assert (v + d * p) * m == v * m + d * p * m;
  }

  // The same for `d - e * q`, with what the products carry and the differences borrow.
  lemma BorrowStep(v': int, v: int, u: int, d: int, e: int, r: int, q: int, lo: int, carry: int, carry': int, borrow: int, borrow': int, p: int)
    requires v' == v - q * u + (carry + borrow) * p
    requires lo + carry' * WORD == e * q + carry && r == d - lo - borrow + borrow' * WORD
    ensures v' + r * p == (v + d * p) - q * (u + e * p) + (carry' + borrow') * (WORD * p)
  {
    var x := e * q;
    assert r == d - (x + carry - carry' * WORD) - borrow + borrow' * WORD;
    assert r * p == d * p - x * p - carry * p + carry' * (WORD * p) - borrow * p + borrow' * (WORD * p) by {
      assert carry' * WORD * p == carry' * (WORD * p) && borrow' * WORD * p == borrow' * (WORD * p);
      assert r * p == d * p - (x + carry - carry' * WORD) * p - borrow * p + borrow' * WORD * p;
      assert (x + carry - carry' * WORD) * p == x * p + carry * p - carry' * WORD * p;
    }
    assert q * (u + e * p) == q * u + x * p;
    assert (carry + borrow) * p == carry * p + borrow * p;
    assert (carry' + borrow') * (WORD * p) == carry' * (WORD * p) + borrow' * (WORD * p);
  }

  lemma CarryBounds(d: int, m: int, carry: int, limit: int)
    requires 0 <= d < WORD && 0 <= m < limit && 0 <= carry <= limit <= WORD
    ensures var y := d * m + carry; 0 <= y / WORD <= limit && 0 <= y % WORD < WORD && y == y % WORD + y / WORD * WORD
  {
    MulMonotone(d, WORD - 1, m);
    var x := d * m;
    assert x <= 0xFFFF_FFFF * m;
    Halves(x + carry, limit);
  }

  lemma Grows(d: nat, m: nat)
    ensures m > 0 ==> d * m >= d
  {
  }

  lemma Halves(y: int, limit: int)
    requires 0 <= y <= 0x1_0000_0000 * limit
    ensures 0 <= y / WORD <= limit && 0 <= y % WORD < WORD && y == y % WORD + y / WORD * WORD
  {
  }

  class Big {
    var x: array<U32>
    var wds: nat

    ghost predicate Valid()
      reads this
    {
      wds <= x.Length && x.Length > 0
    }

    ghost function Value(): nat
      requires Valid()
      reads this, x
    {
      Val(x[..wds])
    }

    constructor (digits: Digits)
      requires digits != []
      ensures Valid() && x[..wds] == digits && fresh(x)
    {
      x := new U32[|digits|](i requires 0 <= i < |digits| => digits[i]);
      wds := |digits|;
    }

    // Multiplies by `m` and adds `a`, in place, in more words if need be. A number of no words,
    // which a division can leave, stays so, and loses what is added.
    method MultAdd(m: nat, a: nat)
      requires Valid() && m < WORD / 2 && a < WORD / 2
      requires wds == 0 ==> x[0] == 0
      modifies this, x
      ensures Valid() && (x == old(x) || fresh(x))
      ensures Value() == if old(wds) == 0 then 0 else old(Value()) * m + a
      ensures m > 0 && old(wds) > 0 && old(x[wds - 1]) != 0 ==> Leads(x[..wds])
    {
      hide Val, Pow;
      ghost var d := x[..];
      ghost var n := wds;
      var i, carry := 0, a;
      assert x[..0] == [] && d[..0] == [];
      NoWords();
      while true
        invariant 0 <= i <= x.Length && i <= (if wds == 0 then 1 else wds) && x == old(x) && wds == n && 0 <= carry <= WORD / 2
        invariant x[i..] == d[i..]
        invariant wds > 0 ==> Val(x[..i]) + carry * Pow(i) == Val(d[..i]) * m + a
        invariant wds == 0 ==> (i > 0 ==> carry == 0)
        invariant i > 0 && m > 0 && d[i - 1] != 0 ==> x[i - 1] != 0 || carry != 0
        decreases (if wds == 0 then 1 else wds) - i
      {
        if i > 0 && i >= wds {
          break;
        }
        CarryBounds(x[i], m, carry, WORD / 2);
        Grows(x[i], m);
        var y := x[i] * m + carry;
        if wds > 0 {
          CarryStep(Val(d[..i]), Val(x[..i]), d[i], y % WORD, m, carry, y / WORD, Pow(i), a);
          ValTake(d, i);
          PowNext(i);
        }
        ghost var before := x[..i];
        carry := y / WORD;
        x[i] := y % WORD;
        assert x[..i] == before;
        ValTake(x[..], i);
        assert x[..][..i] == x[..i] && x[..][..i + 1] == x[..i + 1];
        i := i + 1;
      }
      if carry != 0 {
        assert wds > 0 && i == wds;
        ghost var low := x[..wds];
        if wds >= x.Length {
          var larger := new U32[2 * x.Length];
          forall k | 0 <= k < wds {
            larger[k] := x[k];
          }
          x := larger;
          assert x[..wds] == low;
        }
        x[wds] := carry;
        wds := wds + 1;
        assert x[..wds] == low + [carry];
        ValPush(low, carry);
      }
    }

    // Subtracts `q` times `s`, word by word, from a number of as many words.
    method SubtractTimes(s: Digits, q: U32)
      requires Valid() && s != [] && |s| == wds && q * Val(s) <= Value() && q < WORD / 2
      modifies x
      ensures Value() == old(Value()) - q * Val(s)
    {
      hide Val, Pow;
      ghost var d := x[..wds];
      var i, borrow, carry := 0, 0, 0;
      assert x[..0] == [] && d[..0] == [] && s[..0] == [];
      NoWords();
      Twice(q, 0);
      while i < wds
        invariant 0 <= i <= wds && 0 <= borrow <= 1 && 0 <= carry <= WORD / 2 && x[i..wds] == d[i..]
        invariant Val(x[..i]) == Val(d[..i]) - q * Val(s[..i]) + (carry + borrow) * Pow(i)
      {
        CarryBounds(s[i], q, carry, WORD / 2);
        var ys := s[i] * q + carry;
        var y := x[i] as int - ys % WORD - borrow;
        Wrapped(x[i], ys % WORD, borrow);
        ghost var borrow' := if y < 0 then 1 else 0;
        BorrowStep(Val(x[..i]), Val(d[..i]), Val(s[..i]), d[i], s[i], y % WORD, q, ys % WORD, carry, ys / WORD, borrow, borrow', Pow(i));
        ValTake(d, i);
        ValTake(s, i);
        PowNext(i);
        ghost var before := x[..i];
        carry := ys / WORD;
        borrow := if y < 0 then 1 else 0;
        x[i] := y % WORD;
        assert x[..i] == before && x[..][..i] == x[..i] && x[..][..i + 1] == x[..i + 1];
        ValTake(x[..], i);
        i := i + 1;
      }
      assert d[..wds] == d && s[..wds] == s;
      ValBound(x[..wds]);
      NothingLeft(Val(x[..wds]), Val(d) - q * Val(s), carry + borrow, Pow(wds));
    }

    // Drops leading zero words from `n` on; the word at `n` is known to be zero.
    method Trim(n: nat)
      requires Valid() && n < wds && forall i | n <= i < wds :: x[i] == 0
      modifies this`wds
      ensures Valid() && wds <= n && Value() == old(Value()) && Trimmed(x[..wds])
      ensures n > 0 ==> wds > 0
      ensures wds == 0 ==> x[0] == 0
    {
      var e, m := n, n;
      ghost var w := wds;
      while e > 0
        invariant 0 <= e == m <= n && wds == w && (n > 0 ==> m > 0) && forall i | m <= i < w :: x[i] == 0
      {
        if e - 1 == 0 || x[e - 1] != 0 {
          break;
        }
        e, m := e - 1, m - 1;
      }
      ValZeros(x[..wds], m);
      assert x[..wds][..m] == x[..m];
      wds := m;
    }

    // Subtracts the estimate's multiple, which is never too large. One more than the divisor's
    // first word must itself be a word, or the estimate would divide by zero.
    method Reduce(s: Digits) returns (q: nat)
      requires Valid() && Leads(s) && wds == |s| && Trimmed(x[..wds]) && s[|s| - 1] < 0xFFFF_FFFF
      modifies this`wds, x
      ensures Valid() && wds <= |s| && Trimmed(x[..wds]) && (wds == 0 ==> x[0] == 0)
      ensures old(Value()) == q * Val(s) + Value()
      ensures q == EstimateOf(old(x[wds - 1]), s[|s| - 1])
      ensures s[|s| - 1] >= 0x1_0000 ==> old(Value()) < (q + 2) * Val(s)
    {
      hide Val, Pow, EstimateOf;
      var n := |s| - 1;
      Estimate(x[..wds], s);
      q := EstimateOf(x[n], s[n]);
      EstimateIs(x[n], s[n]);
      if q != 0 {
        SubtractTimes(s, q);
        if x[n] == 0 {
          Trim(n);
        }
      } else {
        Twice(0, Val(s));
      }
    }

    // Subtracts once more if there is still room.
    method Correct(s: Digits) returns (more: bool)
      requires Valid() && Leads(s) && wds <= |s| && Trimmed(x[..wds]) && (wds == 0 ==> x[0] == 0)
      modifies this`wds, x
      ensures Valid() && wds <= |s| && Trimmed(x[..wds]) && (wds == 0 ==> x[0] == 0)
      ensures more <==> old(Value()) >= Val(s)
      ensures Value() == old(Value()) - if more then Val(s) else 0
    {
      hide Val, Pow;
      var n := |s| - 1;
      var c := Cmp(x[..wds], s);
      more := c >= 0;
      if more {
        SameLength(x[..wds], s);
        Twice(1, Val(s));
        SubtractTimes(s, 1);
        if x[n] == 0 {
          Trim(n);
        }
      }
    }

    // One digit of a quotient: what is divided is reduced in place. The first word of each
    // gives an estimate that is never too large, and a comparison corrects it by one. That is
    // enough if and only if the estimate is short by at most one, as it is for every divisor
    // whose first word has more than 16 bits. No divisor may have a first word of all ones:
    // one more wraps round to zero, and the estimate would divide by it.
    method Quorem(s: Digits) returns (q: nat)
      requires Valid() && Leads(s) && wds <= |s| && Trimmed(x[..wds]) && (wds == 0 ==> x[0] == 0)
      requires wds == |s| ==> s[|s| - 1] < 0xFFFF_FFFF
      modifies this`wds, x
      ensures Valid() && wds <= |s| && Trimmed(x[..wds]) && (wds == 0 ==> x[0] == 0)
      ensures old(Value()) == q * Val(s) + Value()
      ensures old(wds) == |s| ==>
        (Value() < Val(s) <==> old(Value()) < (EstimateOf(old(x[wds - 1]), s[|s| - 1]) + 2) * Val(s))
      ensures old(wds) < |s| || s[|s| - 1] >= 0x1_0000 ==> q == old(Value()) / Val(s) && Value() == old(Value()) % Val(s)
    {
      hide Val, Pow, EstimateOf, Leads;
      Positive(s);
      if wds < |s| {
        Shorter(x[..wds], s);
        Twice(0, Val(s));
        QuotientIs(0, Val(s), Value(), Value());
        return 0;
      }
      ghost var b := Value();
      q := Reduce(s);
      ghost var first, left := q, Value();
      var more := Correct(s);
      if more {
        q := q + 1;
        Twice(first, Val(s));
      }
      QuotientIs(q, Val(s), b, Value());
      Correction(first, q, Val(s), b, left, Value());
    }
  }

  // A word less two others, wrapped round when it is negative.
  lemma Wrapped(b: U32, lo: U32, borrow: int)
    requires 0 <= borrow <= 1
    ensures var y := b as int - lo - borrow; y % WORD == y + if y < 0 then WORD else 0
  {
  }

  // What is left to carry or borrow at the end would make the result as large as its words
  // allow, so there is nothing.
  lemma NothingLeft(v: nat, r: int, c: int, p: nat)
    requires v == r + c * p && 0 <= r && v < p && c >= 0
    ensures v == r
  {
    if c > 0 {
      MulMonotone(1, c, p);
    }
  }

  // The quotient of the first words, rounded so as not to be too large.
  function EstimateOf(top: int, unit: int): (q: int)
    requires top >= 0 && unit >= 0
    ensures q >= 0
  {
    DivBracket(top, unit + 1, 0);
    top / (unit + 1)
  }

  lemma EstimateIs(top: int, unit: int)
    requires top >= 0 && unit >= 0
    ensures EstimateOf(top, unit) == top / (unit + 1)
  {
  }

  lemma Estimate(b: Digits, s: Digits)
    requires |b| == |s| && Leads(s)
    ensures var q := EstimateOf(b[|s| - 1], s[|s| - 1]);
      && q * Val(s) <= Val(b) && 0 <= q < WORD / 2
      && (s[|s| - 1] >= 0x1_0000 ==> Val(b) < (q + 2) * Val(s))
  {
    hide Val, Pow;
    var n := |s| - 1;
    var u: int, v: int, p := b[n], s[n], Pow(n);
    assert b[..n + 1] == b && s[..n + 1] == s;
    ValTake(b, n);
    ValTake(s, n);
    ValBound(b[..n]);
    ValBound(s[..n]);
    EstimateBounds(u, v);
    var q := EstimateOf(u, v);
    Lower(q, u, v, p, Val(s), Val(b));
    if v >= 0x1_0000 {
      Upper(q, u, v, p, Val(s), Val(b));
    }
  }

  lemma EstimateBounds(u: int, v: int)
    requires 0 <= u < WORD && 0 < v < WORD
    ensures var q := EstimateOf(u, v);
      q * (v + 1) <= u < (q + 1) * (v + 1) && 0 <= q < WORD / 2 && (v >= 0x1_0000 ==> q < v)
  {
    var q := EstimateOf(u, v);
    DivBracket(u, v + 1, q);
    DivBracket(u, v + 1, q + 1);
    MulMonotone(2, v + 1, q);
    if v >= 0x1_0000 && q >= 0x1_0000 {
      MulMonotone(0x1_0000, q, v + 1);
    }
  }

  lemma Lower(q: int, u: int, v: int, p: int, s: int, b: int)
    requires 0 <= q && q * (v + 1) <= u && 0 <= v && 0 < p && s <= v * p + p && u * p <= b
    ensures q * s <= b
  {
    assert (v + 1) * p == v * p + p;
    MulMonotone(s, (v + 1) * p, q);
    MulMonotone(q * (v + 1), u, p);
    assert q * ((v + 1) * p) == (q * (v + 1)) * p;
  }

  lemma Upper(q: int, u: int, v: int, p: int, s: int, b: int)
    requires 0 <= q < v && u < (q + 1) * (v + 1) && 0 < p && v * p <= s && b < u * p + p
    ensures b < (q + 2) * s
  {
    assert (q + 1) * (v + 1) == q * v + q + v + 1 && (q + 2) * v == q * v + 2 * v;
    MulMonotone(u + 1, (q + 2) * v, p);
    MulMonotone(v * p, s, q + 2);
    assert (q + 2) * (v * p) == ((q + 2) * v) * p;
  }

  lemma Twice(q: nat, s: nat)
    ensures 0 * s == 0 && 1 * s == s && (q + 1) * s == q * s + s
  {
  }

  lemma Positive(s: Digits)
    requires Leads(s)
    ensures Val(s) > 0
  {
    Shorter([], s);
  }

  lemma SameLength(b: Digits, s: Digits)
    requires Val(b) >= Val(s) && |b| <= |s| && Leads(s)
    ensures |b| == |s|
  {
    if |b| < |s| {
      Shorter(b, s);
    }
  }

  lemma QuotientIs(q: nat, s: nat, b: nat, r: nat)
    requires s > 0 && b == q * s + r
    ensures r < s ==> q == b / s && r == b % s
  {
    if r < s {
      DivMod(b, s, q, r);
    }
  }

  // The correction is enough if and only if the estimate is short by at most one.
  lemma Correction(first: nat, q: nat, s: nat, b: nat, left: nat, r: nat)
    requires s > 0 && b == first * s + left && (if left >= s then q == first + 1 && r == left - s else q == first && r == left)
    ensures r < s <==> b < (first + 2) * s
  {
    assert (first + 2) * s == first * s + 2 * s;
  }

  // ---- products ----

  lemma AddStep(v': int, v: int, u: int, d: int, e: int, lo: int, y: int, carry: int, carry': int, p: int)
    requires v' + carry * p == v + y * u && lo + carry' * WORD == e * y + d + carry
    ensures (v' + lo * p) + carry' * (WORD * p) == (v + d * p) + y * (u + e * p)
  {
    assert (lo + carry' * WORD) * p == lo * p + carry' * (WORD * p);
    var x := e * y;
    assert (x + d + carry) * p == x * p + d * p + carry * p;
    assert y * (u + e * p) == y * u + x * p;
  }

  lemma AddBounds(e: U32, y: U32, d: U32, carry: U32)
    ensures var z := e as int * y + d + carry; 0 <= z / WORD < WORD && z == z % WORD + z / WORD * WORD
  {
    var a: nat, b: nat := e, y;
    MulMonotone(a, 0xFFFF_FFFF, b);
    var x := a * b;
    assert x <= 0xFFFF_FFFF * b;
    Squares(x + d + carry);
  }

  lemma Squares(z: int)
    requires 0 <= z < 0x1_0000_0000 * 0x1_0000_0000
    ensures 0 <= z / WORD < WORD && z == z % WORD + z / WORD * WORD
  {
  }

  // Adds `y` times `a` to the words of `c` from `j` on.
  method AddTimes(c: array<U32>, j: nat, a: Digits, y: U32)
    requires j + |a| < c.Length && c[j + |a|] == 0
    modifies c
    ensures c[..j] == old(c[..j]) && c[j + |a| + 1..] == old(c[j + |a| + 1..])
    ensures Val(c[j..j + |a| + 1]) == Val(old(c[j..j + |a|])) + y * Val(a)
  {
    hide Val, Pow;
    ghost var c0 := c[..];
    ghost var d := c[j..j + |a|];
    var i, carry: U32 := 0, 0;
    NoWords();
    Twice(y, 0);
    assert c[j..j + 0] == [] && d[..0] == [] && a[..0] == [];
    while i < |a|
      invariant 0 <= i <= |a| && forall k | 0 <= k < j || j + i <= k < c.Length :: c[k] == c0[k]
      invariant Val(c[j..j + i]) + carry * Pow(i) == Val(d[..i]) + y * Val(a[..i])
    {
      AddBounds(a[i], y, c[j + i], carry);
      var z := a[i] as int * y + c[j + i] + carry;
      assert c[j + i] == d[i];
      AddStep(Val(c[j..j + i]), Val(d[..i]), Val(a[..i]), d[i], a[i], z % WORD, y, carry, z / WORD, Pow(i));
      ValTake(d, i);
      ValTake(a, i);
      PowNext(i);
      ghost var before := c[j..j + i];
      carry := z / WORD;
      c[j + i] := z % WORD;
      assert c[j..j + i] == before && c[j..j + i + 1] == before + [c[j + i]];
      ValPush(before, c[j + i]);
      i := i + 1;
    }
    assert d[..|a|] == d && a[..|a|] == a;
    ghost var before := c[j..j + |a|];
    c[j + |a|] := carry;
    assert c[j..j + |a|] == before && c[j..j + |a| + 1] == before + [carry];
    ValPush(before, carry);
  }

  lemma MoreWords(c: Digits, c': Digits, j: nat, n: nat, a: nat, b: nat, y: nat)
    requires j + n < |c| == |c'| && c'[..j] == c[..j] && Val(c'[j..j + n + 1]) == Val(c[j..j + n]) + y * a
    requires Val(c[..j + n]) == a * b
    ensures Val(c'[..j + 1 + n]) == a * (b + y * Pow(j))
  {
    hide Val, Pow;
    assert c'[..j + 1 + n] == c'[..j] + c'[j..j + n + 1] && c[..j + n] == c[..j] + c[j..j + n];
    ValConcat(c'[..j], c'[j..j + n + 1]);
    ValConcat(c[..j], c[j..j + n]);
    var p, v := Pow(j), Val(c[j..j + n]);
    assert p * (v + y * a) == p * v + a * (y * p) by {
      assert p * (y * a) == a * (y * p) by { Swap(p, y, a); }
    }
  }

  lemma NoMore(c: Digits, n: nat, a: nat, b: nat, p: nat)
    requires n < |c| && c[n] == 0 && Val(c[..n]) == a * b
    ensures Val(c[..n + 1]) == a * (b + 0 * p)
  {
    ValTake(c, n);
  }

  lemma Swap(p: int, y: int, a: int)
    ensures p * (y * a) == a * (y * p)
  {
    assert p * (y * a) == (p * y) * a;
  }

  // The exact product, in the sum of the words of both; leading zero words are dropped.
  method Mult(a0: Digits, b0: Digits) returns (r: Digits)
    ensures Val(r) == Val(a0) * Val(b0) && |r| <= |a0| + |b0| && (r == [] || Leads(r))
  {
    hide Val, Pow;
    var a, b := a0, b0;
    if |a| < |b| {
      a, b := b, a;
    }
    var wc := |a| + |b|;
    var c := new U32[wc](_ => 0);
    ValZeros(c[..|a|], 0);
    NoWords();
    assert c[..|a|][..0] == [] && b[..0] == [];
    var j := 0;
    while j < |b|
      invariant 0 <= j <= |b| && c.Length == wc
      invariant forall k | j + |a| <= k < wc :: c[k] == 0
      invariant Val(c[..j + |a|]) == Val(a) * Val(b[..j])
    {
      var y := b[j];
      ValTake(b, j);
      ghost var before := c[..];
      if y != 0 {
        AddTimes(c, j, a, y);
        MoreWords(before, c[..], j, |a|, Val(a), Val(b[..j]), y);
      } else {
        NoMore(c[..], j + |a|, Val(a), Val(b[..j]), Pow(j));
        assert c[..][..j + |a|] == c[..j + |a|] && c[..][..j + |a| + 1] == c[..j + 1 + |a|];
      }
      j := j + 1;
    }
    assert b[..|b|] == b && c[..] == c[..wc];
    r := Significant(c, 0);
  }

  // The words up to the highest that is not zero, but at least `least`.
  method Significant(c: array<U32>, least: nat) returns (r: Digits)
    requires least <= c.Length
    ensures Val(r) == Val(c[..]) && least <= |r| <= c.Length
    ensures |r| > least ==> Leads(r)
  {
    hide Val;
    var n := c.Length;
    while n > least
      invariant least <= n <= c.Length && forall k | n <= k < c.Length :: c[k] == 0
    {
      if c[n - 1] != 0 {
        break;
      }
      n := n - 1;
    }
    ValZeros(c[..], n);
    assert c[..][..n] == c[..n];
    r := c[..n];
  }

  // ---- differences ----

  // The distance of two numbers, and whether the second was the larger.
  method Diff(a0: Digits, b0: Digits) returns (r: Digits, negative: bool)
    requires a0 != [] && b0 != [] && (|a0| < |b0| ==> Leads(b0)) && (|b0| < |a0| ==> Leads(a0))
    ensures Val(r) as int == if negative then Val(b0) - Val(a0) else Val(a0) - Val(b0)
    ensures negative <==> Val(a0) < Val(b0)
    ensures Trimmed(r)
  {
    hide Val, Pow;
    var i := Cmp(a0, b0);
    negative := false;
    if i == 0 {
      NoWords();
      ValPush([], 0);
      assert [] + [0] == [0 as U32];
      return [0], false;
    }
    var a, b := a0, b0;
    if i < 0 {
      a, b, negative := b, a, true;
    }
    var c := new U32[|a|](_ => 0);
    var k, borrow := 0, 0;
    NoWords();
    assert c[..0] == [] && a[..0] == [];
    if |a| < |b| {
      Shorter(a, b);
    }
    ghost var e := b + Zeros(|a| - |b|);
    assert e[..0] == [];
    while k < |a|
      invariant 0 <= k <= |a| && 0 <= borrow <= 1 && c.Length == |a|
      invariant Val(c[..k]) == Val(a[..k]) - 1 * Val(e[..k]) + (0 + borrow) * Pow(k)
    {
      ghost var d: U32 := e[k];
      var y := if k < |b| then a[k] as int - b[k] - borrow else a[k] as int - borrow;
      Wrapped(a[k], d, borrow);
      ghost var borrow' := if y < 0 then 1 else 0;
      BorrowStep(Val(c[..k]), Val(a[..k]), Val(e[..k]), a[k], d, y % WORD, 1, d, 0, 0, borrow, borrow', Pow(k));
      ValTake(a, k);
      ValTake(e, k);
      PowNext(k);
      ghost var before := c[..k];
      borrow := if y < 0 then 1 else 0;
      c[k] := y % WORD;
      assert c[..k] == before && c[..][..k] == c[..k] && c[..][..k + 1] == c[..k + 1];
      ValTake(c[..], k);
      k := k + 1;
    }
    assert a[..|a|] == a && e[..|a|] == e && c[..|a|] == c[..];
    ValZeros(e, |b|);
    assert e[..|b|] == b;
    ValBound(c[..]);
    NothingLeft(Val(c[..]), Val(a) - Val(b), borrow, Pow(|a|));
    r := Significant(c, 1);
  }

  function Zeros(n: nat): (s: Digits)
    ensures |s| == n && forall i | 0 <= i < n :: s[i] == 0
  {
    seq(n, _ => 0)
  }
}
