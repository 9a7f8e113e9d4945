/** The fixed-precision tail of fmt's fallback_format: decimal digits of a
    quotient of two bigints, rounded half to even. */
module FixedDigits {
  import opened Words
  import opened Bigints

  function DecVal(s: seq<nat>): nat {
    if s == [] then 0 else 10 * DecVal(s[..|s| - 1]) + s[|s| - 1]
  }

  /** n * 10^k. */
  function Scaled(n: nat, k: nat): (r: nat) {
    if k == 0 then n else 10 * Scaled(n, k - 1)
  }

  lemma {:induction false} ScaledIsPower(n: nat, k: nat)
    ensures Scaled(n, k) == n * Pow(10, k)
  {
    if k == 0 {
    } else {
      ScaledIsPower(n, k - 1);
      MulAssoc(10, n, Pow(10, k - 1));
    }
  }

  /** The integer nearest to a / d, ties to the even neighbour. */
  function RoundHalfEven(a: nat, d: nat): nat
    requires d > 0
  {
    if 2 * (a % d) > d || (2 * (a % d) == d && (a / d) % 2 == 1) then a / d + 1 else a / d
  }

  /** The division step of the digit loop on values: quotient, remainder, and
      whether the numerator still has the larger exponent. */
  function DivStep(n: nat, d: nat, tieable: bool): (nat, nat, bool)
    requires d > 0
  {
    if n < d || (tieable && n == d) then (0, n, tieable) else (n / d, n % d, false)
  }

  /** k digits, the scaled remainder after them, and the exponent flag. */
  function Emit(n: nat, d: nat, tieable: bool, k: nat): (r: (seq<nat>, nat, bool))
    requires d > 0
    ensures |r.0| == k
  {
    if k == 0 then ([], n, tieable)
    else
      var (ds, m, t) := Emit(n, d, tieable, k - 1);
      var (q, r, t') := DivStep(m, d, t);
      (ds + [q], 10 * r, t')
  }

  /** Moves a digit 10 at index i to the left. */
  function Propagate(s: seq<nat>, i: nat): (r: seq<nat>)
    requires i < |s|
    ensures |r| == |s|
    decreases i
  {
    if i > 0 && s[i] == 10 then Propagate(s[i := 0][i - 1 := s[i - 1] + 1], i - 1) else s
  }

  /** The digits ds followed by q, or by q rounded up with the carry propagated;
      the flag says that the decimal exponent is bumped. */
  function Finish(ds: seq<nat>, q: nat, up: bool): (r: (seq<nat>, bool))
    ensures |r.0| == |ds| + 1
  {
    if !up then (ds + [q], false)
    else if q != 9 then (ds + [q + 1], false)
    else
      var s := Propagate(ds + [10], |ds|);
      if s[0] == 10 then (s[0 := 1], true) else (s, false)
  }

  predicate RoundsUp(r: nat, d: nat, q: nat) { 2 * r > d || (2 * r == d && q % 2 == 1) }

  /** The digits written for n / d, and whether the decimal exponent is bumped. */
  function Digits(n: nat, d: nat, tieable: bool, count: nat): (r: (seq<nat>, bool))
    requires d > 0 && count > 0
    ensures |r.0| == count
  {
    var (ds, m, t) := Emit(n, d, tieable, count - 1);
    var (q, r, _) := DivStep(m, d, t);
    Finish(ds, q, RoundsUp(r, d, q))
  }

  ghost predicate AllDecimal(s: seq<nat>) { forall i :: 0 <= i < |s| ==> s[i] <= 9 }

  /** The digits denote the correctly rounded quotient; the exponent is bumped exactly
      when that needs one digit more than there are. */
  ghost predicate Correct(s: seq<nat>, bump: bool, n: nat, d: nat)
    requires d > 0 && s != []
  {
    AllDecimal(s) && DecVal(s) * (if bump then 10 else 1) == RoundHalfEven(Scaled(n, |s| - 1), d) &&
    (bump <==> RoundHalfEven(Scaled(n, |s| - 1), d) == Scaled(1, |s|))
  }

  /** The digit loop meets, before its last digit, a numerator equal to the
      denominator that is hidden by a larger exponent. */
  ghost predicate MeetsHiddenTie(n: nat, d: nat, tieable: bool, count: nat) {
    tieable && exists k: nat :: k + 1 < count && Scaled(n, k) == d
  }

  /** Digits and scaled remainder of a long division of a; the exponent flag has
      survived only if nothing was subtracted yet. */
  ghost predicate Dividing(s: (seq<nat>, nat, bool), d: nat, a: nat, tieable: bool) {
    AllDecimal(s.0) && s.1 < 10 * d && 10 * (d * DecVal(s.0)) + s.1 == a &&
    (s.2 ==> tieable && s.1 == a && DecVal(s.0) == 0)
  }

  /** k digits of long division, as long as no hidden tie comes before them. */
  lemma {:induction false} EmitExact(n: nat, d: nat, tieable: bool, k: nat)
    requires d > 0 && n < 10 * d && !MeetsHiddenTie(n, d, tieable, k + 1)
    ensures Dividing(Emit(n, d, tieable, k), d, Scaled(n, k), tieable)
  {
    if k == 0 {
    } else {
      EmitExact(n, d, tieable, k - 1);
      var s := Emit(n, d, tieable, k - 1);
      EmitStep(s.0, s.1, s.2, d, Scaled(n, k - 1), tieable);
    }
  }

  /** One more digit of the quotient of a. */
  lemma EmitStep(ds: seq<nat>, m: nat, t: bool, d: nat, a: nat, tieable: bool)
    requires d > 0 && Dividing((ds, m, t), d, a, tieable) && !(tieable && a == d)
    ensures var (q, r, t') := DivStep(m, d, t); Dividing((ds + [q], 10 * r, t'), d, 10 * a, tieable)
  {
    var (q, r, t') := DivStep(m, d, t);
    QuotientDigit(m, d, q, r, t);
    DecValSnoc(ds, q);
    NextRemainder(d, DecVal(ds), q);
  }

  lemma QuotientDigit(m: nat, d: nat, q: nat, r: nat, t: bool)
    requires d > 0 && m < 10 * d && !(t && m == d) && DivStep(m, d, t).0 == q && DivStep(m, d, t).1 == r
    ensures q <= 9 && r < d && m == d * q + r
  {
    MulBound(if q > 10 then 10 else q, d, q, d);
  }

  lemma NextRemainder(d: nat, v: nat, q: nat)
    ensures d * (10 * v + q) == 10 * (d * v) + d * q
  {
    Distribute(10 * v, q, d);
    MulAssoc(10, v, d);
  }

  lemma DecValSnoc(s: seq<nat>, x: nat)
    ensures DecVal(s + [x]) == 10 * DecVal(s) + x
  {
    assert (s + [x])[..|s|] == s;
  }

  lemma {:induction false} MoveCarry(s: seq<nat>, i: nat)
    requires 0 < i < |s| && s[i] == 10
    ensures DecVal(s[i := 0][i - 1 := s[i - 1] + 1]) == DecVal(s)
  {
    var n := |s| - 1;
    var s' := s[i := 0][i - 1 := s[i - 1] + 1];
    if i < n {
      MoveCarry(s[..n], i);
      assert s'[..n] == s[..n][i := 0][i - 1 := s[i - 1] + 1];
    } else {
      assert s'[..n][..n - 1] == s[..n][..n - 1];
    }
  }

  /** Moving a 10 to the left keeps the value; it ends in a proper digit or in
      front of zeros. */
  lemma {:induction false} PropagateValue(s: seq<nat>, i: nat)
    requires i < |s| && s[i] <= 10 && forall j :: 0 <= j < i ==> s[j] <= 9
    ensures var r := Propagate(s, i);
            DecVal(r) == DecVal(s) && r[0] <= 10 && (forall j :: i < j < |s| ==> r[j] == s[j]) &&
            (r[0] == 10 ==> forall j :: 0 < j <= i ==> r[j] == 0) &&
            (forall j :: 0 < j <= i ==> r[j] <= 9)
    decreases i
  {
    if i == 0 || s[i] != 10 {
    } else {
      MoveCarry(s, i);
      PropagateValue(s[i := 0][i - 1 := s[i - 1] + 1], i - 1);
    }
  }

  lemma {:induction false} DecValLead(s: seq<nat>)
    requires s != [] && s[0] == 10 && forall j :: 0 < j < |s| ==> s[j] == 0
    ensures DecVal(s) == 10 * DecVal(s[0 := 1])
  {
    var n := |s| - 1;
    if n == 0 {
    } else {
      DecValLead(s[..n]);
      assert s[0 := 1][..n] == s[..n][0 := 1];
    }
  }

  /** n digits denote a number below 10^n. */
  lemma {:induction false} DecValBound(s: seq<nat>)
    requires AllDecimal(s)
    ensures DecVal(s) < Scaled(1, |s|)
  {
    if s == [] {
    } else {
      DecValBound(s[..|s| - 1]);
    }
  }

  /** A ten in front of zeros is the next power of ten. */
  lemma {:induction false} DecValTen(s: seq<nat>)
    requires s != [] && s[0] == 10 && forall j :: 0 < j < |s| ==> s[j] == 0
    ensures DecVal(s) == Scaled(1, |s|)
  {
    var n := |s| - 1;
    if n == 0 {
      assert s[..0] == [];
      assert Scaled(1, 1) == 10 * Scaled(1, 0);
    } else {
      DecValTen(s[..n]);
    }
  }

  /** Appending a digit needs no further digit. */
  lemma {:induction false} PlainValue(ds: seq<nat>, q: nat)
    requires AllDecimal(ds) && q <= 9
    ensures AllDecimal(ds + [q]) && DecVal(ds + [q]) == 10 * DecVal(ds) + q < Scaled(1, |ds| + 1)
  {
    DecValSnoc(ds, q);
    DecValBound(ds + [q]);
  }

  /** Appending a ten and propagating it. */
  lemma {:induction false} CarriedValue(ds: seq<nat>)
    requires AllDecimal(ds)
    ensures var s := Propagate(ds + [10], |ds|);
            DecVal(s) == 10 * DecVal(ds) + 10 && AllDecimal(s[0 := 1]) &&
            (if s[0] == 10 then DecVal(s) == Scaled(1, |s|) && DecVal(s) == 10 * DecVal(s[0 := 1])
             else AllDecimal(s) && DecVal(s) < Scaled(1, |s|))
  {
    DecValSnoc(ds, 10);
    PropagateValue(ds + [10], |ds|);
    var s := Propagate(ds + [10], |ds|);
    if s[0] == 10 {
      DecValLead(s);
      DecValTen(s);
    } else {
      DecValBound(s);
    }
  }

  lemma {:induction false} FinishValue(ds: seq<nat>, q: nat, up: bool)
    requires AllDecimal(ds) && q <= 9
    ensures var (s, bump) := Finish(ds, q, up);
            var total := 10 * DecVal(ds) + q + (if up then 1 else 0);
            AllDecimal(s) && DecVal(s) * (if bump then 10 else 1) == total && (bump <==> total == Scaled(1, |s|))
  {
    if up && q == 9 {
      CarriedValue(ds);
    } else {
      PlainValue(ds, if up then q + 1 else q);
    }
  }

  /** The last division step and its rounding decision; a hidden tie at the very
      last digit is repaired by rounding up. */
  lemma RoundedQuotient(a: nat, d: nat, v: nat, m: nat, t: bool)
    requires d > 0 && 10 * (d * v) + m == a && m < 10 * d && (t ==> v == 0)
    ensures var (q, r, _) := DivStep(m, d, t);
            q <= 9 && RoundHalfEven(a, d) == 10 * v + q + (if RoundsUp(r, d, q) then 1 else 0)
  {
    var (q, r, _) := DivStep(m, d, t);
    if t && m == d {
      RoundedAt(a, d, 1, 0);
    } else {
      QuotientDigit(m, d, q, r, t);
      RoundedStep(a, d, v, q, r);
    }
  }

  lemma RoundedStep(a: nat, d: nat, v: nat, q: nat, r: nat)
    requires r < d && 10 * (d * v) + (d * q + r) == a
    ensures RoundHalfEven(a, d) == 10 * v + q + (if RoundsUp(r, d, q) then 1 else 0)
  {
    NextRemainder(d, v, q);
    RoundedAt(a, d, 10 * v + q, r);
    assert (10 * v + q) % 2 == q % 2;
  }

  lemma RoundedAt(a: nat, d: nat, quotient: nat, r: nat)
    requires r < d && a == d * quotient + r
    ensures RoundHalfEven(a, d) == quotient + (if RoundsUp(r, d, quotient) then 1 else 0)
  {
    DivUnique(a, d, quotient, r);
  }

  /** The digits are correctly rounded when no hidden tie is met. */
  lemma DigitsCorrect(n: nat, d: nat, tieable: bool, count: nat)
    requires d > 0 && count > 0 && n < 10 * d && !MeetsHiddenTie(n, d, tieable, count)
    ensures var (s, bump) := Digits(n, d, tieable, count); Correct(s, bump, n, d)
  {
    EmitExact(n, d, tieable, count - 1);
    var (ds, m, t) := Emit(n, d, tieable, count - 1);
    var (q, r, _) := DivStep(m, d, t);
    RoundedQuotient(Scaled(n, count - 1), d, DecVal(ds), m, t);
    FinishValue(ds, q, RoundsUp(r, d, q));
  }

  /** Up to a hidden tie at digit k the loop writes zeros and only scales. */
  lemma {:induction false} EmitBeforeTie(n: nat, d: nat, k: nat, j: nat)
    requires d > 0 && Scaled(n, k) == d && j <= k + 1
    ensures Emit(n, d, true, j).1 == Scaled(n, j) && Emit(n, d, true, j).2
  {
    if j == 0 {
    } else {
      EmitBeforeTie(n, d, k, j - 1);
      if j - 1 < k {
        TenTimesBelow(n, j - 1, k);
      }
    }
  }

  lemma {:induction false} TenTimesBelow(n: nat, j: nat, k: nat)
    requires j < k && Scaled(n, k) > 0
    ensures Scaled(n, j) < Scaled(n, k)
  {
    if j == k - 1 {
    } else {
      TenTimesBelow(n, j, k - 1);
    }
  }

  /** The digit after the hidden tie is a 10, and nothing repairs it. */
  lemma {:induction false} EmitAfterTie(n: nat, d: nat, k: nat, j: nat)
    requires d > 0 && Scaled(n, k) == d && j >= k + 2
    ensures var (ds, m, t) := Emit(n, d, true, j); ds[k + 1] == 10 && m == 0 && !t
  {
    if j == k + 2 {
      EmitBeforeTie(n, d, k, k + 1);
      DivUnique(10 * d, d, 10, 0);
    } else {
      EmitAfterTie(n, d, k, j - 1);
    }
  }

  /** Digit generation is correctly rounded exactly when it meets no hidden tie. */
  lemma DigitsCorrectIff(n: nat, d: nat, tieable: bool, count: nat)
    requires d > 0 && count > 0 && n < 10 * d
    ensures var (s, bump) := Digits(n, d, tieable, count);
            Correct(s, bump, n, d) <==> !MeetsHiddenTie(n, d, tieable, count)
  {
    if MeetsHiddenTie(n, d, tieable, count) {
      var k: nat :| k + 1 < count && Scaled(n, k) == d;
      if k + 2 == count {
        EmitBeforeTie(n, d, k, k + 1);
        DivUnique(10 * d, d, 10, 0);
      } else {
        EmitAfterTie(n, d, k, count - 1);
      }
      assert Digits(n, d, tieable, count).0[k + 1] == 10;
    } else {
      DigitsCorrect(n, d, tieable, count);
    }
  }

  lemma StepRange(m: nat, d: nat, t: bool)
    requires d > 0 && m <= 10 * d
    ensures DivStep(m, d, t).0 <= 10 && DivStep(m, d, t).1 <= d
  {
    var q := m / d;
    MulBound(if q > 11 then 11 else q, d, q, d);
  }

  lemma {:induction false} EmitRange(n: nat, d: nat, tieable: bool, k: nat)
    requires d > 0 && n < 10 * d
    ensures Emit(n, d, tieable, k).1 <= 10 * d
    ensures forall i :: 0 <= i < k ==> Emit(n, d, tieable, k).0[i] <= 10
  {
    if k == 0 {
    } else {
      EmitRange(n, d, tieable, k - 1);
      var (_, m, t) := Emit(n, d, tieable, k - 1);
      StepRange(m, d, t);
    }
  }

  /** The character '0' + x, which for 10 is the overflow character. */
  function DigitChar(x: nat): char { if x <= 11 then (48 + x) as char else '?' }

  function Text(s: seq<nat>): (r: seq<char>)
    ensures |r| == |s| && forall i :: 0 <= i < |s| ==> r[i] == DigitChar(s[i])
  {
    seq(|s|, i requires 0 <= i < |s| => DigitChar(s[i]))
  }

  /** The numerator is canonical, or a zero that compares below the denominator. */
  ghost predicate Reduced(n: Bigint, d: Bigint) reads n, d {
    n.NonzeroTop() || (n.Value() == 0 && Sized(n.N(), d.N()))
  }

  /** One digit: divide, and scale the remainder unless it is the last. */
  method NextDigit(numerator: Bigint, denominator: Bigint) returns (digit: nat)
    requires numerator != denominator && denominator.NonzeroTop() && Reduced(numerator, denominator)
    requires numerator.Value() <= 10 * denominator.Value()
    modifies numerator
    ensures denominator.Value() > 0 && Reduced(numerator, denominator)
    ensures (digit, numerator.Value(), numerator.exp > denominator.exp)
            == DivStep(old(numerator.Value()), denominator.Value(), old(numerator.exp) > denominator.exp)
  {
    DivisorPositive(denominator.N());
    ghost var n, d := numerator.Value(), denominator.Value();
    digit := numerator.DivModAssign(denominator);
    if n >= d { assert n / d >= 1; }
  }

  method EmitDigits(numerator: Bigint, denominator: Bigint, buf: array<char>)
    requires numerator != denominator && denominator.NonzeroTop() && Reduced(numerator, denominator)
    requires numerator.Value() < 10 * denominator.Value() && buf.Length > 0
    modifies numerator, buf
    ensures denominator.Value() > 0 && Reduced(numerator, denominator)
    ensures var (ds, m, t) := Emit(old(numerator.Value()), denominator.Value(),
                                   old(numerator.exp) > denominator.exp, buf.Length - 1);
            buf[..buf.Length - 1] == Text(ds) && numerator.Value() == m &&
            (numerator.exp > denominator.exp <==> t)
  {
    DivisorPositive(denominator.N());
    ghost var n, d, tieable := numerator.Value(), denominator.Value(), numerator.exp > denominator.exp;
    var i := 0;
    while i < buf.Length - 1
      invariant i <= buf.Length - 1 && denominator.N() == old(denominator.N())
      invariant Reduced(numerator, denominator)
      invariant buf[..i] == Text(Emit(n, d, tieable, i).0)
      invariant numerator.Value() == Emit(n, d, tieable, i).1
      invariant (numerator.exp > denominator.exp) == Emit(n, d, tieable, i).2
    {
      EmitRange(n, d, tieable, i);
      ghost var before := buf[..i];
      var digit := NextDigit(numerator, denominator);
      buf[i] := DigitChar(digit);
      assert buf[..i + 1] == before + [DigitChar(digit)];
      assert Text(Emit(n, d, tieable, i + 1).0) == Text(Emit(n, d, tieable, i).0) + [DigitChar(digit)];
      numerator.Multiply32(10);
      i := i + 1;
    }
  }

  lemma MoveCarryText(s: seq<nat>, i: nat)
    requires 0 < i < |s| && s[i - 1] <= 10
    ensures Text(s)[i := '0'][i - 1 := DigitChar(s[i - 1] + 1)] == Text(s[i := 0][i - 1 := s[i - 1] + 1])
    ensures DigitChar(s[i - 1] + 1) == (Text(s)[i - 1] as int + 1) as char
  {
  }

  /** The carry loop on the characters, with s the digits they stand for. */
  method PropagateInPlace(buf: array<char>, ghost s: seq<nat>) returns (ghost t: seq<nat>)
    requires buf.Length > 0 && buf[..] == Text(s) && forall j :: 0 <= j < |s| ==> s[j] <= 10
    modifies buf
    ensures t == Propagate(s, |s| - 1) && buf[..] == Text(t) && t[0] <= 11
  {
    t := s;
    var i := buf.Length - 1;
    while i > 0 && buf[i] == DigitChar(10)
      invariant 0 <= i < |t| == |s| == buf.Length && buf[..] == Text(t)
      invariant Propagate(t, i) == Propagate(s, |s| - 1)
      invariant forall j :: 0 <= j < |t| ==> t[j] <= if j < i then 10 else 11
    {
      ghost var was := buf[..];
      assert was[i] == buf[i] && was[i - 1] == buf[i - 1];
      MoveCarryText(t, i);
      buf[i] := '0';
      buf[i - 1] := (buf[i - 1] as int + 1) as char;
      assert buf[..] == was[i := '0'][i - 1 := DigitChar(t[i - 1] + 1)];
      t := t[i := 0][i - 1 := t[i - 1] + 1];
      i := i - 1;
    }
    assert buf[i] == buf[..][i];
  }

  /** Writes the last digit, rounded up or not; ds are the digits before it. */
  method FinishInPlace(buf: array<char>, lastDigit: nat, up: bool, ghost ds: seq<nat>) returns (bump: bool)
    requires buf.Length == |ds| + 1 && buf[..|ds|] == Text(ds) && lastDigit <= 10
    requires forall j :: 0 <= j < |ds| ==> ds[j] <= 10
    modifies buf
    ensures (buf[..], bump) == (Text(Finish(ds, lastDigit, up).0), Finish(ds, lastDigit, up).1)
  {
    var last, digit := buf.Length - 1, lastDigit;
    bump := false;
    if up {
      if digit == 9 {
        buf[last] := DigitChar(10);
        assert buf[..] == buf[..last] + [DigitChar(10)] == Text(ds + [10]);
        ghost var t := PropagateInPlace(buf, ds + [10]);
        assert buf[0] == buf[..][0];
        if buf[0] == DigitChar(10) {
          buf[0] := '1';
          bump := true;
          assert buf[..] == Text(t[0 := 1]);
        }
        return;
      }
      digit := digit + 1;
    }
    buf[last] := DigitChar(digit);
    assert buf[..] == buf[..last] + [DigitChar(digit)] == Text(ds + [digit]);
  }

  /** The last digit and the decision to round it up. */
  method LastDigit(numerator: Bigint, denominator: Bigint) returns (digit: nat, up: bool)
    requires numerator != denominator && denominator.NonzeroTop() && Reduced(numerator, denominator)
    requires numerator.Value() <= 10 * denominator.Value()
    modifies numerator
    ensures denominator.Value() > 0
    ensures var (q, r, _) := DivStep(old(numerator.Value()), denominator.Value(), old(numerator.exp) > denominator.exp);
            digit == q && up == RoundsUp(r, denominator.Value(), q)
  {
    digit := NextDigit(numerator, denominator);
    var result := Bigint.AddCompare(numerator, numerator, denominator);
    up := result > 0 || (result == 0 && digit % 2 != 0);
  }

  /** Writes the digits of the specification. */
  method WriteDigits(numerator: Bigint, denominator: Bigint, numDigits: nat) returns (buf: array<char>, bump: bool)
    requires numDigits > 0 && numerator != denominator
    requires denominator.NonzeroTop() && Reduced(numerator, denominator)
    requires numerator.Value() < 10 * denominator.Value()
    modifies numerator
    ensures denominator.Value() > 0
    ensures (buf[..], bump) == var d := Digits(old(numerator.Value()), denominator.Value(),
                                               old(numerator.exp) > denominator.exp, numDigits);
                               (Text(d.0), d.1)
  {
    DivisorPositive(denominator.N());
    ghost var n, d, tieable := numerator.Value(), denominator.Value(), numerator.exp > denominator.exp;
    ghost var (ds, m, t) := Emit(n, d, tieable, numDigits - 1);
    EmitRange(n, d, tieable, numDigits - 1);
    StepRange(m, d, t);
    ghost var (q, r, _) := DivStep(m, d, t);
    assert Digits(n, d, tieable, numDigits) == Finish(ds, q, RoundsUp(r, d, q));
    buf := new char[numDigits];
    EmitDigits(numerator, denominator, buf);
    var digit, up := LastDigit(numerator, denominator);
    bump := FinishInPlace(buf, digit, up, ds);
  }

  /** Writes numDigits digits of numerator / denominator, rounded half to even. */
  method FormatFixed(numerator: Bigint, denominator: Bigint, numDigits: nat, exp10: int)
    returns (buf: array<char>, newExp10: int)
    requires numDigits > 0 && numerator != denominator
    requires denominator.NonzeroTop() && Reduced(numerator, denominator)
    requires numerator.Value() < 10 * denominator.Value()
    modifies numerator
    ensures denominator.Value() > 0
    ensures var n, d := old(numerator.Value()), denominator.Value();
            var tieable := old(numerator.exp) > denominator.exp;
            var (s, bump) := Digits(n, d, tieable, numDigits);
            buf[..] == Text(s) &&
            newExp10 == exp10 - (numDigits - 1) + (if bump then 1 else 0) &&
            (Correct(s, bump, n, d) <==> !MeetsHiddenTie(n, d, tieable, numDigits))
  {
    DivisorPositive(denominator.N());
    DigitsCorrectIff(numerator.Value(), denominator.Value(), numerator.exp > denominator.exp, numDigits);
    var bump;
    buf, bump := WriteDigits(numerator, denominator, numDigits);
    newExp10 := exp10 - (numDigits - 1) + (if bump then 1 else 0);
  }
}
