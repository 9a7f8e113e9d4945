/** fmt's fallback_format for a given number of digits, from a binary floating-point
    number f * 2^e to decimal text. The larger exponent that can hide a tie from the
    comparison never occurs together with a tie here, so the text is always correctly
    rounded. */
module FallbackFormat {
  import opened Words
  import opened Bigints
  import opened FixedDigits

  /** f * 2^e / 10^exp10 as a quotient of two naturals. */
  function Numer(f: nat, e: int, exp10: int): nat {
    f * Pow(2, if e >= 0 then e else 0) * Pow(10, if exp10 < 0 then -exp10 else 0)
  }

  function Denom(e: int, exp10: int): (d: nat)
    ensures d > 0
  {
    var p, q := Pow(2, if e < 0 then -e else 0), Pow(10, if exp10 >= 0 then exp10 else 0);
    MulBound(1, 1, p, q);
    p * q
  }

  /** The number that decimal text denotes. */
  function TextVal(s: seq<char>): int {
    if s == [] then 0 else 10 * TextVal(s[..|s| - 1]) + (s[|s| - 1] as int - '0' as int)
  }

  ghost predicate IsDecimal(s: seq<char>) { forall i :: 0 <= i < |s| ==> '0' <= s[i] <= '9' }

  lemma {:induction false} TextOfDigits(s: seq<nat>)
    requires AllDecimal(s)
    ensures TextVal(Text(s)) == DecVal(s) && IsDecimal(Text(s))
  {
    if s == [] {
    } else {
      TextOfDigits(s[..|s| - 1]);
      assert Text(s)[..|s| - 1] == Text(s[..|s| - 1]);
    }
  }

  lemma MulStrict(a: nat, b: nat, c: nat)
    requires c > 0
    ensures a < b <==> a * c < b * c
    ensures a == b <==> a * c == b * c
  {
    if a < b {
      MulBound(a + 1, c, b, c);
      Distribute(a, 1, c);
    } else if b < a {
      MulBound(b + 1, c, a, c);
      Distribute(b, 1, c);
    }
  }

  /** A common factor does not change the rounded quotient. */
  lemma RoundCommonFactor(a: nat, d: nat, c: nat)
    requires d > 0 && c > 0
    ensures d * c > 0 && RoundHalfEven(a * c, d * c) == RoundHalfEven(a, d)
  {
    var q, r := a / d, a % d;
    assert a == d * q + r;
    RoundedAt(a, d, q, r);
    Distribute(d * q, r, c);
    assert (d * q) * c == (d * c) * q;
    MulStrict(r, d, c);
    MulStrict(0, d, c);
    MulStrict(2 * r, d, c);
    MulStrict(d, 2 * r, c);
    MulAssoc(2, r, c);
    RoundedAt(a * c, d * c, q, r * c);
  }

  lemma {:induction false} ScaledFactor(n: nat, c: nat, k: nat)
    ensures Scaled(n * c, k) == Scaled(n, k) * c
  {
    if k == 0 {
    } else {
      ScaledFactor(n, c, k - 1);
      MulAssoc(10, Scaled(n, k - 1), c);
    }
  }

  lemma {:induction false} FiveOdd(k: nat)
    ensures Pow(5, k) % 2 == 1
  {
    if k == 0 {
    } else {
      FiveOdd(k - 1);
      OddTimesFive(Pow(5, k - 1));
    }
  }

  lemma OddTimesFive(p: nat)
    requires p % 2 == 1
    ensures (5 * p) % 2 == 1
  {
    assert 5 * p == p + 2 * (2 * p);
  }

  /** A multiple of a higher power of two than the exponent is not a power of ten. */
  lemma NotPowerOfTen(x: nat, i: nat, m: nat)
    requires i > m
    ensures x * Pow(2, i) != Pow(10, m)
  {
    PowAdd(2, m, i - m);
    PowMul(2, 5, m);
    var y := x * Pow(2, i - m);
    FiveOdd(m);
    EvenFactor(x, i - m);
    assert x * (Pow(2, m) * Pow(2, i - m)) == y * Pow(2, m) by {
      MulAssoc(x, Pow(2, m), Pow(2, i - m));
      MulAssoc(Pow(2, m), x, Pow(2, i - m));
    }
    MulStrict(y, Pow(5, m), Pow(2, m));
  }

  lemma EvenFactor(x: nat, i: nat)
    requires i > 0
    ensures (x * Pow(2, i)) % 2 == 0
  {
    MulAssoc(x, 2, Pow(2, i - 1));
    assert x * Pow(2, i) == 2 * (x * Pow(2, i - 1));
  }

  lemma {:induction false} PowerOrder(i: nat, j: nat)
    ensures Pow(2, i) <= Pow(10, i)
    ensures j < i ==> Pow(2, j) < Pow(2, i)
    decreases i
  {
    if i == 0 {
    } else {
      PowerOrder(i - 1, j);
      if j < i && j == i - 1 { assert Pow(2, i) == 2 * Pow(2, j); }
    }
  }

  lemma {:induction false} ScaledUp(n: nat, k: nat)
    ensures Scaled(n, k) >= n
  {
    if k == 0 {
    } else {
      ScaledUp(n, k - 1);
    }
  }

  /** When the numerator of fallback_format can have the larger exponent. */
  predicate Tieable(e: int, exp10: int, shift: nat) {
    if e >= 0 then e > exp10 >= 0 else exp10 < 0 && -exp10 > shift - e
  }

  /** The operands of the division. */
  ghost predicate Prepared(n: Num, d: Num, f: nat, e: int, exp10: int, shift: nat) {
    n.NonzeroTop() && d.NonzeroTop() &&
    n.Value() == Numer(f, e, exp10) * Pow(2, shift) && d.Value() == Denom(e, exp10) * Pow(2, shift) &&
    (n.exp > d.exp ==> Tieable(e, exp10, shift))
  }

  lemma NoTieAt(f: nat, e: int, exp10: int, shift: nat, k: nat)
    requires f > 0 && Tieable(e, exp10, shift)
    ensures Scaled(Numer(f, e, exp10), k) != Denom(e, exp10)
  {
    if e >= 0 {
      ScaledIsPower(f * Pow(2, e), k);
      assert f * Pow(2, e) * Pow(10, k) == (f * Pow(10, k)) * Pow(2, e) by {
        MulAssoc(f, Pow(2, e), Pow(10, k));
        MulAssoc(f, Pow(10, k), Pow(2, e));
      }
      NotPowerOfTen(f * Pow(10, k), e, exp10);
    } else {
      var m := -exp10;
      PowerOrder(m, -e);
      MulBound(1, Pow(10, m), f, Pow(10, m));
      ScaledUp(f * Pow(10, m), k);
    }
  }

  /** No hidden tie can be met from operands that fallback_format prepares. */
  lemma NeverHidden(n: Num, d: Num, f: nat, e: int, exp10: int, shift: nat, count: nat)
    requires f > 0 && Prepared(n, d, f, e, exp10, shift)
    ensures !MeetsHiddenTie(n.Value(), d.Value(), n.exp > d.exp, count)
  {
    if n.exp > d.exp {
      forall k: nat ensures Scaled(n.Value(), k) != d.Value() {
        NoTieAt(f, e, exp10, shift, k);
        ScaledFactor(Numer(f, e, exp10), Pow(2, shift), k);
        MulStrict(Scaled(Numer(f, e, exp10), k), Denom(e, exp10), Pow(2, shift));
      }
    }
  }

  /** The branch for a nonnegative binary exponent. */
  method PrepareInteger(significand: nat, f: nat, e: nat, exp10: nat, shift: nat) returns (numerator: Bigint, denominator: Bigint)
    requires f > 0 && significand == f * Pow(2, shift) < W && shift < 32 && exp10 < 0x4000_0000
    ensures fresh(numerator) && fresh(denominator) && numerator != denominator
    ensures Prepared(numerator.N(), denominator.N(), f, e, exp10, shift)
  {
    MulBound(1, 1, f, Pow(2, shift));
    numerator := new Bigint();
    denominator := new Bigint();
    numerator.Assign(significand);
    numerator.ShiftLeft(e);
    denominator.AssignPow10(exp10);
    denominator.ShiftLeft(shift);
    IntegerOperands(numerator.N(), denominator.N(), f, e, exp10, shift);
  }

  lemma {:induction false} IntegerOperands(n: Num, d: Num, f: nat, e: nat, exp10: nat, shift: nat)
    requires n.NonzeroTop() && n.Value() == Pow(2, e) * (f * Pow(2, shift)) && n.exp == e / 32
    requires d.NonzeroTop() && d.Value() == Pow(2, shift) * Pow(10, exp10) && d.exp == exp10 / 32
    ensures Prepared(n, d, f, e, exp10, shift)
  {
    MulAssoc(Pow(2, e), f, Pow(2, shift));
  }

  /** The branch for a fraction below one. */
  method PrepareFraction(significand: nat, f: nat, e: int, exp10: int, shift: nat) returns (numerator: Bigint, denominator: Bigint)
    requires f > 0 && significand == f * Pow(2, shift) < W && e < 0 && -0x4000_0000 < exp10 < 0
    ensures fresh(numerator) && fresh(denominator) && numerator != denominator
    ensures Prepared(numerator.N(), denominator.N(), f, e, exp10, shift)
  {
    MulBound(1, 1, f, Pow(2, shift));
    numerator := new Bigint();
    denominator := new Bigint();
    numerator.AssignPow10(-exp10);
    numerator.Multiply64(significand);
    denominator.Assign(1);
    denominator.ShiftLeft(shift - e);
    FractionOperands(numerator.N(), denominator.N(), f, e, exp10, shift);
  }

  lemma FractionOperands(n: Num, d: Num, f: nat, e: int, exp10: int, shift: nat)
    requires e < 0 && exp10 < 0
    requires n.NonzeroTop() && n.Value() == (f * Pow(2, shift)) * Pow(10, -exp10) && n.exp == -exp10 / 32
    requires d.NonzeroTop() && d.Value() == Pow(2, shift - e) && d.exp == (shift - e) / 32
    ensures Prepared(n, d, f, e, exp10, shift)
  {
    PowAdd(2, -e, shift);
    MulAssoc(f, Pow(2, shift), Pow(10, -exp10));
    MulAssoc(f, Pow(10, -exp10), Pow(2, shift));
  }

  /** The branch for a number with a fraction that is at least one. */
  method PrepareMixed(significand: nat, f: nat, e: int, exp10: nat, shift: nat) returns (numerator: Bigint, denominator: Bigint)
    requires f > 0 && significand == f * Pow(2, shift) < W && e < 0 && exp10 < 0x4000_0000
    ensures fresh(numerator) && fresh(denominator) && numerator != denominator
    ensures Prepared(numerator.N(), denominator.N(), f, e, exp10, shift)
  {
    MulBound(1, 1, f, Pow(2, shift));
    numerator := new Bigint();
    denominator := new Bigint();
    numerator.Assign(significand);
    denominator.AssignPow10(exp10);
    denominator.ShiftLeft(shift - e);
    MixedOperands(numerator.N(), denominator.N(), f, e, exp10, shift);
  }

  lemma MixedOperands(n: Num, d: Num, f: nat, e: int, exp10: nat, shift: nat)
    requires e < 0
    requires n.NonzeroTop() && n.Value() == f * Pow(2, shift) && n.exp == 0
    requires d.NonzeroTop() && d.Value() == Pow(2, shift - e) * Pow(10, exp10)
    ensures Prepared(n, d, f, e, exp10, shift)
  {
    PowAdd(2, -e, shift);
    MulAssoc(Pow(2, -e), Pow(2, shift), Pow(10, exp10));
    MulAssoc(Pow(2, -e), Pow(10, exp10), Pow(2, shift));
  }

  /** f * 2^e in units of the place of the last requested digit, rounded half to even. */
  function Target(f: nat, e: int, exp10: int, count: nat): nat {
    if count == 0 then RoundHalfEven(Numer(f, e, exp10), 10 * Denom(e, exp10))
    else RoundHalfEven(Scaled(Numer(f, e, exp10), count - 1), Denom(e, exp10))
  }

  /** What the text says: it has the requested number of digits and denotes that number at
      the place of the last of them; only when the number is 10^count, which has a digit
      more, is the place one higher. */
  ghost predicate Rounded(text: seq<char>, last: int, f: nat, e: int, exp10: int, count: nat) {
    var target := Target(f, e, exp10, count);
    IsDecimal(text) &&
    if count == 0 then |text| == 1 && last == exp10 + 1 && TextVal(text) == target
    else if target == Scaled(1, count) then
      |text| == count && last == exp10 - (count - 1) + 1 && TextVal(text) * 10 == target
    else |text| == count && last == exp10 - (count - 1) && TextVal(text) == target
  }

  /** Decimal text of a given length is determined by the number it denotes. */
  lemma {:induction false} TextUnique(a: seq<char>, b: seq<char>)
    requires IsDecimal(a) && IsDecimal(b) && |a| == |b| && TextVal(a) == TextVal(b)
    ensures a == b
  {
    if a == [] {
    } else {
      var n := |a| - 1;
      TextUnique(a[..n], b[..n]);
      assert a == a[..n] + [a[n]] && b == b[..n] + [b[n]];
    }
  }

  /** So there is only one correct result. */
  lemma RoundedUnique(a: seq<char>, i: int, b: seq<char>, j: int, f: nat, e: int, exp10: int, count: nat)
    requires Rounded(a, i, f, e, exp10, count) && Rounded(b, j, f, e, exp10, count)
    ensures a == b && i == j
  {
    TextUnique(a, b);
  }

  lemma CorrectText(s: seq<nat>, bump: bool, f: nat, e: int, exp10: int, shift: nat)
    requires s != [] && Denom(e, exp10) * Pow(2, shift) > 0
    requires Correct(s, bump, Numer(f, e, exp10) * Pow(2, shift), Denom(e, exp10) * Pow(2, shift))
    ensures Rounded(Text(s), exp10 - (|s| - 1) + (if bump then 1 else 0), f, e, exp10, |s|)
  {
    TextOfDigits(s);
    ScaledFactor(Numer(f, e, exp10), Pow(2, shift), |s| - 1);
    RoundCommonFactor(Scaled(Numer(f, e, exp10), |s| - 1), Denom(e, exp10), Pow(2, shift));
  }

  /** With no digits requested, the single digit is n / d rounded at the tens. */
  lemma NoDigits(n: nat, d: nat, c: nat)
    requires d > 0 && c > 0 && n < 10 * d
    ensures RoundHalfEven(n, 10 * d) == if 2 * (n * c) > 10 * (d * c) then 1 else 0
  {
    RoundedAt(n, 10 * d, 0, n);
    MulStrict(10 * d, 2 * n, c);
    MulAssoc(10, d, c);
    MulAssoc(2, n, c);
  }

  /** Sets up numerator and denominator, with the extra bits of the closer predecessor. */
  method Prepare(f: nat, e: int, shift: nat, exp10: int) returns (numerator: Bigint, denominator: Bigint)
    requires 0 < f < 0x20_0000_0000_0000 && 1 <= shift <= 2 && -0x4000_0000 < exp10 < 0x4000_0000
    requires Numer(f, e, exp10) < 10 * Denom(e, exp10)
    ensures fresh(numerator) && fresh(denominator) && numerator != denominator
    ensures Prepared(numerator.N(), denominator.N(), f, e, exp10, shift)
  {
    var significand := Wrap64(f * Pow(2, shift));
    assert significand == f * Pow(2, shift) by { assert Pow(2, 1) == 2 && Pow(2, 2) == 4; }
    if e >= 0 {
      EstimateNonnegative(f, e, exp10);
      numerator, denominator := PrepareInteger(significand, f, e, exp10, shift);
    } else if exp10 < 0 {
      numerator, denominator := PrepareFraction(significand, f, e, exp10, shift);
    } else {
      numerator, denominator := PrepareMixed(significand, f, e, exp10, shift);
    }
  }

  lemma PreparedBound(n: Num, d: Num, f: nat, e: int, exp10: int, shift: nat)
    requires Prepared(n, d, f, e, exp10, shift) && Numer(f, e, exp10) < 10 * Denom(e, exp10)
    ensures n.Value() < 10 * d.Value()
    ensures RoundHalfEven(Numer(f, e, exp10), 10 * Denom(e, exp10)) == if 2 * n.Value() > 10 * d.Value() then 1 else 0
  {
    MulStrict(Numer(f, e, exp10), 10 * Denom(e, exp10), Pow(2, shift));
    MulAssoc(10, Denom(e, exp10), Pow(2, shift));
    NoDigits(Numer(f, e, exp10), Denom(e, exp10), Pow(2, shift));
  }

  lemma OneDigit(c: char)
    ensures TextVal([c]) == c as int - '0' as int
  {
    assert [c][..0] == [];
  }

  /** Formats f * 2^e with the requested number of digits, given an estimate of the
      decimal exponent that leaves at most one digit before the point. */
  method FallbackFixed(f: nat, e: int, predecessorCloser: bool, exp10: int, numDigits: nat)
    returns (buf: array<char>, newExp10: int)
    requires 0 < f < 0x20_0000_0000_0000 && -0x4000_0000 < exp10 < 0x4000_0000
    requires Numer(f, e, exp10) < 10 * Denom(e, exp10)
    ensures buf.Length == (if numDigits == 0 then 1 else numDigits)
    ensures Rounded(buf[..], newExp10, f, e, exp10, numDigits)
  {
    var shift := if predecessorCloser then 2 else 1;
    var numerator, denominator := Prepare(f, e, shift, exp10);
    ghost var n, d := numerator.N(), denominator.N();
    PreparedBound(n, d, f, e, exp10, shift);
    if numDigits == 0 {
      var c := FormatNone(numerator, denominator);
      newExp10 := exp10 + 1;
      buf := new char[1];
      buf[0] := c;
      assert buf[..] == [c];
      OneDigit(c);
    } else {
      NeverHidden(n, d, f, e, exp10, shift, numDigits);
      buf, newExp10 := FormatFixed(numerator, denominator, numDigits, exp10);
      ghost var (s, bump) := Digits(n.Value(), d.Value(), n.exp > d.exp, numDigits);
      CorrectText(s, bump, f, e, exp10, shift);
    }
  }

  /** The case of no digits: a one if the value is more than half of the next place. */
  method FormatNone(numerator: Bigint, denominator: Bigint) returns (c: char)
    requires numerator != denominator && numerator.NonzeroTop() && denominator.NonzeroTop()
    modifies denominator
    ensures c == if 2 * old(numerator.Value()) > 10 * old(denominator.Value()) then '1' else '0'
  {
    denominator.Multiply32(10);
    var r := Bigint.AddCompare(numerator, numerator, denominator);
    c := if r > 0 then '1' else '0';
  }

  /** An integer is not below one, so its decimal exponent is not negative. */
  lemma EstimateNonnegative(f: nat, e: nat, exp10: int)
    requires f > 0 && Numer(f, e, exp10) < 10 * Denom(e, exp10)
    ensures exp10 >= 0
  {
    if exp10 < 0 {
      MulBound(1, 1, f, Pow(2, e));
      assert Pow(10, -exp10) == 10 * Pow(10, -exp10 - 1);
      MulBound(1, 10, f * Pow(2, e), Pow(10, -exp10));
    }
  }
}
