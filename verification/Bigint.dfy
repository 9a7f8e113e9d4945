/** fmt's arbitrary-precision integer: bigits updated in place by carry loops. */
module Bigints {
  import opened Words
  import opened Columns

  /** Two canonical numbers that are equal although one stores low zero bigits
      which the other keeps in its exponent. */
  ghost predicate HiddenTie(x: Num, y: Num) {
    x.exp != y.exp && x.NumBigits() == y.NumBigits() &&
    if x.exp < y.exp then LowZeros(x.bigits, y.bigits) else LowZeros(y.bigits, x.bigits)
  }

  ghost predicate LowZeros(long: seq<Bigit>, short: seq<Bigit>) {
    var k := |long| - |short|;
    k >= 0 && long[k..] == short && forall i :: 0 <= i < k ==> long[i] == 0
  }

  /** x may be compared with y by size: a zero must not claim more bigits than y. */
  ghost predicate Sized(x: Num, y: Num) {
    x.NonzeroTop() || x.NumBigits() <= y.NumBigits()
  }

  lemma LowZerosValue(long: seq<Bigit>, short: seq<Bigit>, e: nat)
    requires |long| >= |short| && long[|long| - |short|..] == short
    ensures Shl(Val(long), e) >= Shl(Val(short), e + |long| - |short|)
    ensures Shl(Val(long), e) == Shl(Val(short), e + |long| - |short|) <==> LowZeros(long, short)
  {
    var k := |long| - |short|;
    var low := Val(long[..k]);
    ValSplit(long, k);
    ShlAdd(low, Shl(Val(short), k), e);
    ShlShl(Val(short), k, e);
    ShlStrict(0, low, e);
    ShlZero(e);
    ValZero(long[..k]);
    assert LowZeros(long, short) <==> forall i :: 0 <= i < k ==> long[..k][i] == 0;
  }

  /** Equal values with equal lengths stored alike can differ only by low zeros. */
  lemma TieValue(x: Num, y: Num)
    requires x.NumBigits() == y.NumBigits() && x.exp <= y.exp
    requires x.bigits[y.exp - x.exp..] == y.bigits
    ensures x.Value() >= y.Value()
    ensures x.Value() == y.Value() <==> (x.exp == y.exp || HiddenTie(x, y))
  {
    LowZerosValue(x.bigits, y.bigits, x.exp);
  }

  lemma FewerBigits(x: Num, y: Num)
    requires x.NumBigits() < y.NumBigits() && y.NonzeroTop()
    ensures x.Value() < y.Value()
  {
    Magnitude(x);
    Magnitude(y);
    ShlUp(1, x.NumBigits(), y.NumBigits() - 1);
  }

  lemma FirstDifference(x: Num, y: Num, k: nat)
    requires x.NumBigits() == y.NumBigits() && x.exp <= k && y.exp <= k < x.NumBigits()
    requires x.bigits[k + 1 - x.exp..] == y.bigits[k + 1 - y.exp..]
    requires x.Digit(k) > y.Digit(k)
    ensures x.Value() > y.Value()
  {
    FromIsVal(x, k + 1);
    FromIsVal(y, k + 1);
    HighDecides(x, y, k);
  }

  /** One step of a scaling loop: the next bigit x times the factor. */
  lemma ScaleStep(r: seq<nat>, t: seq<nat>, x: nat, factor: nat, d: nat, c: nat, c': nat)
    requires |r| == |t| && Val(r) + Shl(c, |r|) == Val(Scaled(factor, t))
    requires d + B * c' == factor * x + c
    ensures Val(r + [d]) + Shl(c', |r| + 1) == Val(Scaled(factor, t + [x]))
  {
    CarryStep(r, d, c, c', factor * x, Val(Scaled(factor, t)));
    ValSnoc(Scaled(factor, t), factor * x);
    assert Scaled(factor, t + [x]) == Scaled(factor, t) + [factor * x];
  }

  /** The invariant of a scaling loop over s: below i the products are done. */
  ghost predicate Scaling(bigits: seq<Bigit>, s: seq<Bigit>, i: nat, c: nat, factor: nat) {
    i <= |bigits| == |s| && bigits[i..] == s[i..] &&
    Val(bigits[..i]) + Shl(c, i) == Val(Scaled(factor, s[..i]))
  }

  lemma ScalingStep(bigits: seq<Bigit>, s: seq<Bigit>, i: nat, c: nat, factor: nat, d: Bigit, c': nat)
    requires Scaling(bigits, s, i, c, factor) && i < |s|
    requires d + B * c' == factor * s[i] + c
    ensures Scaling(bigits[i := d], s, i + 1, c', factor)
  {
    ScaleStep(bigits[..i], s[..i], s[i], factor, d, c, c');
    assert bigits[i := d][..i + 1] == bigits[..i] + [d];
    assert s[..i + 1] == s[..i] + [s[i]];
  }

  lemma ScalingDone(bigits: seq<Bigit>, s: seq<Bigit>, c: nat, factor: nat)
    requires Scaling(bigits, s, |s|, c, factor)
    ensures Val(bigits) + Shl(c, |bigits|) == factor * Val(s)
  {
    assert bigits[..|s|] == bigits && s[..|s|] == s;
    ValScaled(factor, s, 0);
    assert Scaled(factor, s) + Zeros(0) == Scaled(factor, s);
  }

  /** Scaling a canonical number by a positive factor keeps its length filled. */
  lemma ScaledTop(r: seq<Bigit>, t: seq<Bigit>, factor: nat)
    requires Val(r) == factor * Val(t) && factor > 0
    requires |r| == |t| > 0 && t[|t| - 1] != 0
    ensures r[|r| - 1] != 0
  {
    TopBound(t);
    TopBound(r);
    MulBound(1, Val(t), factor, Val(t));
  }

  function Halves(w: Word): (r: (Bigit, Bigit))
    ensures r.0 + B * r.1 == w
  {
    (Wrap32(w), w / B)
  }

  function Times(x: Bigit, y: Bigit): (r: Word)
    ensures r == x * y
  {
    MulBound(x, y, B - 1, B - 1);
    x * y
  }

  /** One bigit times a 32-bit factor plus a carry: the low bigit and the carry. */
  function MultiplyBigit(x: Bigit, value: Bigit, carry: Bigit): (r: (Bigit, Bigit))
    ensures r.0 + B * r.1 == value * x + carry
  {
    MulBound(value, x, B - 1, B - 1);
    Halves(value * x + carry)
  }

  /** One bigit times a 64-bit factor plus a 64-bit carry. No 64-bit intermediate
      overflows; the new carry reaches at most 2^64 - 1. */
  function MultiplyWide(x: Bigit, value: Word, carry: Word): (r: (Bigit, Word))
    ensures r.0 + B * r.1 == value * x + carry
  {
    var (lower, upper) := Halves(value);
    var result := MultiplyBigit(x, lower, carry % B);
    WideStep(x, lower, upper, value, carry, result.0, result.1);
    (result.0, x * upper + result.1 + carry / B)
  }

  lemma WideStep(x: Bigit, lower: Bigit, upper: Bigit, value: Word, carry: Word, d: Bigit, c: Bigit)
    requires value == lower + B * upper && d + B * c == lower * x + carry % B
    ensures d + B * (x * upper + c + carry / B) == value * x + carry
    ensures x * upper + c + carry / B < W
  {
    Distribute(lower, B * upper, x);
    MulAssoc(B, upper, x);
    MulBound(value, x, W - 1, B - 1);
  }

  /** x - y - borrow in 64-bit arithmetic, with the sign bit as the next borrow. */
  function SubtractBigit(x: Bigit, y: Bigit, borrow: nat): (r: (Bigit, nat))
    requires borrow <= 1
    ensures r.1 <= 1 && r.0 + y + borrow == x + B * r.1
  {
    var result := Wrap64(x - y - borrow);
    (Wrap32(result), result / 0x8000_0000_0000_0000)
  }

  lemma ModUnique(x: nat, c: nat, r: nat)
    requires x == c * B + r && r < B
    ensures x % B == r
  {}

  lemma DivUnique(n: nat, d: nat, q: nat, r: nat)
    requires n == q * d + r && r < d
    ensures n / d == q && n % d == r
  {
    var q', r' := n / d, n % d;
    assert n == q' * d + r';
    if q < q' { MulBound(q + 1, d, q', d); Distribute(q, 1, d); }
    if q' < q { MulBound(q' + 1, d, q, d); Distribute(q', 1, d); }
  }

  lemma SplitWord(b: Bigit, p: nat, q: nat, carry: nat)
    requires p > 0 && q > 0 && p * q == B && carry < p
    ensures b / q < p
    ensures Wrap32(b * p) + carry < B
    ensures Wrap32(b * p) + carry + B * (b / q) == p * b + carry
  {
    var c, r := b / q, b % q;
    assert b == c * q + r;
    Distribute(c * q, r, p);
    MulAssoc(c, q, p);
    MulBound(r, p, q - 1, p);
    Distribute(q, -1, p);
    ModUnique(b * p, c, r * p);
    if c >= p { MulBound(p, q, c, q); }
  }

  /** (x << shift) + carry with p = 2^shift, and the bits shifted out. */
  function ShiftBigit(x: Bigit, p: nat, q: nat, carry: Bigit): (r: (Bigit, Bigit))
    requires p > 0 && q > 0 && p * q == B && carry < p
    ensures r.0 + B * r.1 == p * x + carry
    ensures r.1 < p
  {
    SplitWord(x, p, q, carry);
    (Wrap32(x * p) + carry, x / q)
  }

  lemma WordIsPow2()
    ensures Pow(2, 32) == B
  {
    assert Pow(2, 2) == 4;
    PowAdd(2, 2, 2);
    PowAdd(2, 4, 4);
    PowAdd(2, 8, 8);
    PowAdd(2, 16, 16);
  }

  lemma {:induction false} ShlIsPow2(v: nat, k: nat)
    ensures Shl(v, k) == Pow(2, 32 * k) * v
  {
    if k == 0 {
    } else {
      ShlIsPow2(v, k - 1);
      PowAdd(2, 32, 32 * (k - 1));
      WordIsPow2();
      MulAssoc(B, Pow(2, 32 * (k - 1)), v);
    }
  }

  lemma ShiftedValue(v: nat, e: nat, shift: nat)
    ensures Pow(2, shift % 32) * Shl(v, e + shift / 32) == Pow(2, shift) * Shl(v, e)
  {
    ShlShl(v, e, shift / 32);
    ShlIsPow2(Shl(v, e), shift / 32);
    PowAdd(2, shift % 32, 32 * (shift / 32));
    MulAssoc(Pow(2, shift % 32), Pow(2, 32 * (shift / 32)), Shl(v, e));
  }

  /** The invariant of squaring s: below k the columns are written, and the
      accumulator holds the carry into column k. */
  ghost predicate Squaring(bigits: seq<Bigit>, s: seq<Bigit>, k: nat, carry: nat) {
    k <= |bigits| == 2 * |s| && carry <= |s| * B &&
    Val(bigits[..k]) + Shl(carry, k) == Val(Product(s, s)[..k])
  }

  lemma SquaringStep(bigits: seq<Bigit>, s: seq<Bigit>, k: nat, carry: nat, total: nat)
    requires Squaring(bigits, s, k, carry) && k < 2 * |s|
    requires total == carry + Column(s, s, k, 0)
    ensures Squaring(bigits[k := total % B], s, k + 1, total / B)
  {
    var p := Product(s, s);
    ProductIsColumns(s, s, k);
    CarryStep(bigits[..k], total % B, carry, total / B, p[k], Val(p[..k]));
    ValSnoc(p[..k], p[k]);
    assert p[..k + 1] == p[..k] + [p[k]];
    assert bigits[k := total % B][..k + 1] == bigits[..k] + [total % B];
    ColumnTotal(s, k, carry);
  }

  /** With |s| terms a column total stays below |s| * 2^64, its carry below |s| * 2^32. */
  lemma ColumnTotal(s: seq<Bigit>, k: nat, carry: nat)
    requires carry <= |s| * B
    ensures carry + Column(s, s, k, 0) <= |s| * W
    ensures (carry + Column(s, s, k, 0)) / B <= |s| * B
  {
    ColumnBound(s, k, 0);
    Distribute(B, (B - 1) * (B - 1), |s|);
    MulBound(|s|, B + (B - 1) * (B - 1), |s|, W);
    assert |s| * W == B * (|s| * B);
  }

  lemma SquaringDone(bigits: seq<Bigit>, s: seq<Bigit>, carry: nat)
    requires Squaring(bigits, s, 2 * |s|, carry)
    ensures Val(bigits) == Val(s) * Val(s)
  {
    ValProduct(s, s);
    assert bigits[..2 * |s|] == bigits && Product(s, s)[..2 * |s|] == Product(s, s);
    NoCarryOut(s, Val(bigits), carry);
  }

  lemma NoCarryOut(s: seq<Bigit>, r: nat, carry: nat)
    requires r + Shl(carry, 2 * |s|) == Val(s) * Val(s)
    ensures carry == 0 && r == Val(s) * Val(s)
  {
    ValBound(s);
    SquareBound(Val(s), Shl(1, |s|));
    ShlMul(Shl(1, |s|), 1, |s|);
    ShlShl(1, |s|, |s|);
    ShlStrict(carry, 1, 2 * |s|);
    ShlZero(2 * |s|);
  }

  lemma SquareBound(v: nat, m: nat)
    requires v < m
    ensures v * v < m * m
  {
    MulBound(v, v, v, m);
    assert v * m < m * m;
  }

  lemma SquareTop(s: seq<Bigit>, r: seq<Bigit>)
    requires s != [] && s[|s| - 1] != 0 && Val(r) == Val(s) * Val(s)
    requires r != [] && (|r| > 1 ==> r[|r| - 1] != 0)
    ensures r[|r| - 1] != 0
  {
    TopBound(s);
    ShlStrict(1, 0, |s| - 1);
    MulBound(1, 1, Val(s), Val(s));
    ValZero(r);
  }

  /** Squaring doubles the exponent. */
  lemma SquareValue(v: nat, e: nat)
    ensures Shl(v * v, 2 * e) == Shl(v, e) * Shl(v, e)
  {
    ShlShl(v * v, e, e);
    ShlMul(v, v, e);
    ShlMul(Shl(v, e), v, e);
    assert v * Shl(v, e) == Shl(v, e) * v;
  }

  lemma {:induction false} ValInjective(s: seq<Bigit>, t: seq<Bigit>)
    requires |s| == |t| && Val(s) == Val(t)
    ensures s == t
  {
    if s == [] {
    } else {
      assert s[0] == t[0];
      ValInjective(s[1..], t[1..]);
      assert s == [s[0]] + s[1..] && t == [t[0]] + t[1..];
    }
  }

  /** Hidden ties are exactly the equal values held with different exponents. */
  lemma HiddenTieIff(x: Num, y: Num)
    requires y.NonzeroTop() && Sized(x, y)
    ensures HiddenTie(x, y) <==> x.exp != y.exp && x.Value() == y.Value()
  {
    if x.exp != y.exp && x.Value() == y.Value() {
      if x.NumBigits() < y.NumBigits() { FewerBigits(x, y); }
      if y.NumBigits() < x.NumBigits() { FewerBigits(y, x); }
      if x.exp < y.exp { EqualTops(x, y); } else { EqualTops(y, x); }
    } else if HiddenTie(x, y) {
      if x.exp < y.exp { TieValue(x, y); } else { TieValue(y, x); }
    }
  }

  lemma EqualTops(x: Num, y: Num)
    requires x.NumBigits() == y.NumBigits() && x.exp < y.exp && x.Value() == y.Value()
    ensures HiddenTie(x, y)
  {
    if x.From(y.exp) > y.From(y.exp) { HighDecides(x, y, y.exp); }
    if y.From(y.exp) > x.From(y.exp) { HighDecides(y, x, y.exp); }
    FromIsVal(x, y.exp);
    FromIsVal(y, y.exp);
    assert y.bigits[0..] == y.bigits;
    ValInjective(x.bigits[y.exp - x.exp..], y.bigits);
    TieValue(x, y);
  }

  lemma {:induction false} PlacesApart(a: nat, b: nat, c: nat, k: nat)
    ensures a + b > c ==> Shl(a, k) + Shl(b, k) >= Shl(c, k) + Shl(1, k)
    ensures c >= a + b + 2 ==> Shl(c, k) >= Shl(a, k) + Shl(b, k) + Shl(1, k) + Shl(1, k)
  {
    ShlAdd(a, b, k);
    ShlAdd(c, 1, k);
    ShlAdd(1, 1, k);
    ShlAdd(a + b, 2, k);
    ShlStrict(a + b, c + 1, k);
    ShlStrict(c, a + b + 2, k);
  }

  /** The high parts decide a sum once they are ahead by one, or behind by two. */
  lemma SumDecides(x: Num, y: Num, z: Num, k: nat)
    ensures x.From(k) + y.From(k) > z.From(k) ==> x.Value() + y.Value() > z.Value()
    ensures z.From(k) >= x.From(k) + y.From(k) + 2 ==> x.Value() + y.Value() < z.Value()
  {
    SplitAt(x, k);
    SplitAt(y, k);
    SplitAt(z, k);
    PlacesApart(x.From(k), y.From(k), z.From(k), k);
  }

  lemma FromStep(x: Num, k: nat)
    ensures x.From(k) == x.Digit(k) + B * x.From(k + 1)
  {}

  /** One position of the scan: d is the new running difference. */
  lemma ScanStep(x: Num, y: Num, z: Num, k: nat, above: nat, d: int)
    requires z.From(k + 1) == x.From(k + 1) + y.From(k + 1) + above
    requires d == z.Digit(k) + B * above - x.Digit(k) - y.Digit(k)
    ensures z.From(k) == x.From(k) + y.From(k) + d
    ensures d < 0 ==> x.Value() + y.Value() > z.Value()
    ensures d > 1 ==> x.Value() + y.Value() < z.Value()
  {
    FromStep(x, k);
    FromStep(y, k);
    FromStep(z, k);
    SumDecides(x, y, z, k);
  }

  /** Sums whose sizes already decide the comparison. */
  lemma SumSizes(x: Num, y: Num, z: Num)
    requires z.NonzeroTop()
    ensures x.NumBigits() + 1 < z.NumBigits() && y.NumBigits() + 1 < z.NumBigits() ==>
              x.Value() + y.Value() < z.Value()
    ensures x.NonzeroTop() && x.NumBigits() > z.NumBigits() ==> x.Value() > z.Value()
  {
    if x.NumBigits() + 1 < z.NumBigits() && y.NumBigits() + 1 < z.NumBigits() {
      var m := z.NumBigits() - 2;
      Magnitude(x);
      Magnitude(y);
      Magnitude(z);
      ShlUp(1, x.NumBigits(), m);
      ShlUp(1, y.NumBigits(), m);
    } else if x.NonzeroTop() && x.NumBigits() > z.NumBigits() {
      FewerBigits(z, x);
    }
  }

  lemma ValueFrom(x: Num, k: nat)
    requires k <= x.exp
    ensures x.Value() == Shl(x.From(k), k)
  {
    FromBelow(x, k);
    ShlShl(Val(x.bigits), x.exp - k, k);
  }

  lemma {:induction false} ShlSign(a: nat, b: nat, c: nat, k: nat)
    ensures Sign(Shl(a, k) + Shl(b, k) - Shl(c, k)) == Sign(a + b - c)
  {
    ShlAdd(a, b, k);
    ShlStrict(a + b, c, k);
    ShlStrict(c, a + b, k);
  }

  /** At the lowest exponent nothing is left below, so high parts decide exactly. */
  lemma SumExact(x: Num, y: Num, z: Num, k: nat)
    requires k <= x.exp && k <= y.exp && k <= z.exp
    ensures Sign(x.Value() + y.Value() - z.Value()) == Sign(x.From(k) + y.From(k) - z.From(k))
  {
    ValueFrom(x, k);
    ValueFrom(y, k);
    ValueFrom(z, k);
    ShlSign(x.From(k), y.From(k), z.From(k), k);
  }

  /** From position k up, z is ahead of x + y by at most one. */
  ghost predicate Scanned(x: Num, y: Num, z: Num, k: nat, above: nat) {
    above <= 1 && z.From(k) == x.From(k) + y.From(k) + above
  }

  lemma ScanStart(x: Num, y: Num, z: Num)
    requires x.NumBigits() <= z.NumBigits() && y.NumBigits() <= z.NumBigits()
    ensures Scanned(x, y, z, z.NumBigits(), 0)
  {}

  /** The scan ends at the lowest exponent. */
  lemma ScanEnd(x: Num, y: Num, z: Num, k: nat, above: nat)
    requires k <= x.exp && k <= y.exp && k <= z.exp && Scanned(x, y, z, k, above)
    ensures Sign(x.Value() + y.Value() - z.Value()) == if above != 0 then -1 else 0
  {
    SumExact(x, y, z, k);
  }

  /** What a comparison result says about two numbers: it is the sign of their
      difference just when they are not a hidden tie. */
  ghost predicate Compared(x: Num, y: Num, r: int) {
    (y.NonzeroTop() && Sized(x, y) ==> (r == Sign(x.Value() - y.Value()) <==> !HiddenTie(x, y))) &&
    (HiddenTie(x, y) ==> r == if x.exp < y.exp then 1 else -1)
  }

  lemma ComparedBySize(x: Num, y: Num)
    requires x.NumBigits() != y.NumBigits()
    ensures Compared(x, y, if x.NumBigits() > y.NumBigits() then 1 else -1)
  {
    if y.NonzeroTop() && x.NumBigits() < y.NumBigits() { FewerBigits(x, y); }
    if x.NonzeroTop() && x.NumBigits() > y.NumBigits() { FewerBigits(y, x); }
  }

  lemma ComparedAt(x: Num, y: Num, k: nat)
    requires x.NumBigits() == y.NumBigits() && x.exp <= k && y.exp <= k < x.NumBigits()
    requires x.bigits[k + 1 - x.exp..] == y.bigits[k + 1 - y.exp..]
    requires x.Digit(k) != y.Digit(k)
    ensures Compared(x, y, if x.Digit(k) > y.Digit(k) then 1 else -1)
  {
    if x.Digit(k) > y.Digit(k) { FirstDifference(x, y, k); } else { FirstDifference(y, x, k); }
    if HiddenTie(x, y) {
      if x.exp < y.exp { TieValue(x, y); } else { TieValue(y, x); }
    }
  }

  lemma ComparedByLength(x: Num, y: Num)
    requires x.NumBigits() == y.NumBigits()
    requires x.exp <= y.exp ==> x.bigits[y.exp - x.exp..] == y.bigits
    requires y.exp <= x.exp ==> y.bigits[x.exp - y.exp..] == x.bigits
    ensures Compared(x, y, Sign(y.exp - x.exp))
  {
    if x.exp <= y.exp { TieValue(x, y); } else { TieValue(y, x); }
  }

  /** The borrow loop stays at one bigit, so a borrow out of the overlap of s
      with t, placed at offset d, must stop there. */
  ghost predicate BorrowStops(s: seq<Bigit>, t: seq<Bigit>, d: nat) {
    var k := d + |t|;
    k >= |s| || s[k] != 0 || Val(s[..k]) >= Shl(Val(t), d)
  }

  /** The invariant of subtracting t, placed at offset d, from s: below i it is done. */
  ghost predicate Subtracting(bigits: seq<Bigit>, s: seq<Bigit>, t: seq<Bigit>, d: nat, j: nat, borrow: nat) {
    var i := d + j;
    j <= |t| && i <= |bigits| == |s| && bigits[i..] == s[i..] && borrow <= 1 &&
    Val(bigits[..i]) + Shl(Val(t[..j]), d) == Val(s[..i]) + Shl(borrow, i)
  }

  lemma SubtractingStep(
    bigits: seq<Bigit>, s: seq<Bigit>, t: seq<Bigit>, d: nat, j: nat, borrow: nat, r: Bigit, borrow': nat)
    requires Subtracting(bigits, s, t, d, j, borrow) && j < |t| && d + j < |s|
    requires borrow' <= 1 && r + t[j] + borrow == s[d + j] + B * borrow'
    ensures Subtracting(bigits[d + j := r], s, t, d, j + 1, borrow')
  {
    var i := d + j;
    PrefixVal(bigits[i := r], i);
    assert bigits[i := r][..i] == bigits[..i];
    PrefixVal(s, i);
    PrefixVal(t, j);
    ShlAdd(Val(t[..j]), Shl(t[j], j), d);
    ShlShl(t[j], j, d);
    ShlPlaces(r, t[j], borrow, s[i], borrow', i);
  }

  lemma PrefixVal(s: seq<nat>, i: nat)
    requires i < |s|
    ensures Val(s[..i + 1]) == Val(s[..i]) + Shl(s[i], i)
  {
    ValSnoc(s[..i], s[i]);
    assert s[..i + 1] == s[..i] + [s[i]];
  }

  lemma ShlPlaces(r: nat, t: nat, borrow: nat, x: nat, borrow': nat, i: nat)
    requires r + t + borrow == x + B * borrow'
    ensures Shl(r, i) + Shl(t, i) + Shl(borrow, i) == Shl(x, i) + Shl(borrow', i + 1)
  {
    ShlAdd(r, t, i);
    ShlAdd(r + t, borrow, i);
    ShlAdd(x, B * borrow', i);
    ShlStep(borrow', i);
  }

  /** The whole difference in terms of its bigit k. */
  lemma {:induction false} SplitMid(s: seq<Bigit>, k: nat)
    requires k < |s|
    ensures Val(s) == Val(s[..k]) + Shl(s[k], k) + Shl(Val(s[k + 1..]), k + 1)
  {
    ValSplit(s, k);
    assert s[k..][1..] == s[k + 1..];
    ShlAdd(s[k], B * Val(s[k + 1..]), k);
    ShlStep(Val(s[k + 1..]), k);
  }

  /** After the overlap, with r the bigit that the borrow loop leaves at k. */
  lemma BorrowOut(bigits: seq<Bigit>, s: seq<Bigit>, t: seq<Bigit>, d: nat, r: Bigit)
    requires Subtracting(bigits, s, t, d, |t|, 1) && d + |t| < |s|
    ensures s[d + |t|] > 0 && r == s[d + |t|] - 1 ==>
              Val(bigits[d + |t| := r]) + Shl(Val(t), d) == Val(s)
    ensures s[d + |t|] == 0 ==>
              Val(bigits[d + |t| := r]) + Shl(Val(t), d) > Val(s) && Val(s[..d + |t|]) < Shl(Val(t), d)
  {
    var k := d + |t|;
    assert t[..|t|] == t;
    SplitMid(s, k);
    SplitMid(bigits[k := r], k);
    assert bigits[k := r][..k] == bigits[..k];
    assert bigits[k := r][k + 1..] == s[k + 1..];
    ValBound(bigits[..k]);
    ShlZero(k);
    ShlStrict(0, 1, k);
    if s[k] > 0 && r == s[k] - 1 { ShlAdd(r, 1, k); }
  }

  lemma NoBorrowOut(bigits: seq<Bigit>, s: seq<Bigit>, t: seq<Bigit>, d: nat)
    requires Subtracting(bigits, s, t, d, |t|, 0)
    ensures Val(bigits) + Shl(Val(t), d) == Val(s)
    ensures Val(s[..d + |t|]) >= Shl(Val(t), d)
  {
    var k := d + |t|;
    assert t[..|t|] == t;
    ValSplit(s, k);
    ValSplit(bigits, k);
    ShlZero(k);
  }

  /** A minuend that is large enough has a bigit for the borrow to go to. */
  lemma BorrowHasRoom(bigits: seq<Bigit>, s: seq<Bigit>, t: seq<Bigit>, d: nat)
    requires Subtracting(bigits, s, t, d, |t|, 1) && Val(s) >= Shl(Val(t), d)
    ensures d + |t| < |s|
  {
    if d + |t| == |s| {
      assert t[..|t|] == t && s[..|s|] == s && bigits[..|s|] == bigits;
      ValBound(bigits);
    }
  }

  lemma Aligned(x: Num, y: Num)
    requires x.exp <= y.exp
    ensures y.Value() == Shl(Shl(Val(y.bigits), y.exp - x.exp), x.exp)
    ensures x.Value() >= y.Value() <==> Val(x.bigits) >= Shl(Val(y.bigits), y.exp - x.exp)
    ensures y.NonzeroTop() && x.Value() >= y.Value() ==> x.NumBigits() >= y.NumBigits()
  {
    ShlShl(Val(y.bigits), y.exp - x.exp, x.exp);
    ShlStrict(Val(x.bigits), Shl(Val(y.bigits), y.exp - x.exp), x.exp);
    if y.NonzeroTop() && x.NumBigits() < y.NumBigits() { FewerBigits(x, y); }
  }

  /** A difference of aligned values, in terms of the stored bigits. */
  lemma {:induction false} AlignedDifference(v: nat, w: nat, u: nat, e: nat)
    requires u >= w
    ensures Shl(v, e) == Shl(u, e) - Shl(w, e) <==> v + w == u
  {
    ShlAdd(v, w, e);
    ShlStrict(v + w, u, e);
    ShlStrict(u, v + w, e);
  }

  lemma ExactDifference(x: Num, y: Num, r: seq<Bigit>)
    requires x.exp <= y.exp && x.Value() >= y.Value()
    ensures Shl(Val(r), x.exp) == x.Value() - y.Value() <==> Val(r) + Shl(Val(y.bigits), y.exp - x.exp) == Val(x.bigits)
  {
    Aligned(x, y);
    AlignedDifference(Val(r), Shl(Val(y.bigits), y.exp - x.exp), Val(x.bigits), x.exp);
  }

  lemma FewExtraBigits(x: Num, y: Num)
    requires x.NonzeroTop() && y.NonzeroTop() && x.Value() < 0x8000_0000 * y.Value()
    ensures x.NumBigits() <= y.NumBigits() + 1
  {
    if x.NumBigits() > y.NumBigits() + 1 {
      Magnitude(x);
      Magnitude(y);
      ShlUp(1, y.NumBigits() + 1, x.NumBigits() - 1);
    }
  }

  lemma StartSubtracting(s: seq<Bigit>, t: seq<Bigit>, d: nat)
    requires d <= |s|
    ensures Subtracting(s, s, t, d, 0, 0)
  {
    ShlZero(d);
    assert t[..0] == [];
  }

  lemma {:induction false} PowMul(a: nat, b: nat, k: nat)
    ensures Pow(a, k) * Pow(b, k) == Pow(a * b, k)
  {
    if k == 0 {
    } else {
      PowMul(a, b, k - 1);
      MulAssoc(a * Pow(a, k - 1), b, Pow(b, k - 1));
      MulAssoc(b, a, Pow(a, k - 1));
      MulAssoc(a * b, Pow(a, k - 1), Pow(b, k - 1));
    }
  }

  /** A power of five with exponent m needs at most m + 1 bigits. */
  lemma {:induction false} FivesLength(x: Num, m: nat)
    requires x.NonzeroTop() && x.Value() == Pow(5, m) && x.exp == 0
    ensures |x.bigits| <= m + 1
  {
    Magnitude(x);
    FivesBound(m);
    ShlStrict(0, 1, m);
    ShlZero(m);
    if |x.bigits| > m + 1 { ShlUp(1, m + 1, |x.bigits| - 1); }
  }

  lemma {:induction false} FivesBound(m: nat)
    ensures Pow(5, m) <= Shl(1, m)
  {
    if m == 0 {
    } else {
      FivesBound(m - 1);
    }
  }

  lemma Parity(q: nat, b: nat)
    requires b < 2
    ensures (2 * q + b) % 2 == b
  {}

  /** The bit that follows the quotient q of e by 2 * bit. */
  lemma HalvedQuotient(e: nat, bit: nat, q: nat, r: nat)
    requires e == (q * 2) * bit + r && r < 2 * bit
    ensures e / bit == 2 * q + (if r < bit then 0 else 1) && (e / bit) % 2 == if r < bit then 0 else 1
  {
    Parity(q, if r < bit then 0 else 1);
    if r < bit {
      DivUnique(e, bit, 2 * q, r);
    } else {
      Distribute(2 * q, 1, bit);
      DivUnique(e, bit, 2 * q + 1, r - bit);
    }
  }

  lemma NextBit(e: nat, m: nat, bit: nat, r: nat)
    requires e == m * (2 * bit) + r && r < 2 * bit && bit > 0
    ensures e == (m * 2) * bit + r
    ensures var m' := 2 * m + (if r < bit then 0 else 1);
            m' <= e && e == m' * bit + if r < bit then r else r - bit
  {
    MulAssoc(m, 2, bit);
    Distribute(2 * m, 1, bit);
    var m' := 2 * m + (if r < bit then 0 else 1);
    MulBound(m', 1, m', bit);
  }

  /** One round of binary exponentiation: a square, then a factor 5 for a set bit. */
  lemma BinaryRound(m: nat, half: nat)
    requires m == 2 * half || m == 2 * half + 1
    ensures Pow(5, m) == (if m == 2 * half then 1 else 5) * (Pow(5, half) * Pow(5, half))
  {
    PowAdd(5, half, half);
  }

  lemma DivisorPositive(y: Num)
    requires y.NonzeroTop()
    ensures y.Value() > 0
  {
    Magnitude(y);
    ShlStrict(0, 1, y.NumBigits() - 1);
    ShlZero(y.NumBigits() - 1);
  }

  lemma OneBigit(x: Num)
    requires |x.bigits| > 1 ==> x.NonzeroTop()
    ensures x.NonzeroTop() || x.Value() == 0
  {
    ValZero(x.bigits);
    ShlZero(x.exp);
  }

  /** One stored bigit below the divisor's exponent claims no more than it does. */
  lemma StillSized(x: Num, y: Num)
    requires y.NonzeroTop() && x.exp <= y.exp
    requires x.NonzeroTop() || |x.bigits| <= 1 || x.NumBigits() <= y.NumBigits()
    ensures Sized(x, y)
  {}

  /** [0, 1] and [1] with exponent 1 are both 2^32, and compare as unequal. */
  lemma HiddenTieExample()
    ensures HiddenTie(Num([0, 1], 0), Num([1], 1)) && Num([0, 1], 0).Value() == Num([1], 1).Value()
  {
    assert [0, 1][1..] == [1];
    TieValue(Num([0, 1], 0), Num([1], 1));
  }

  /** 2^64 - 1 borrows across a zero bigit, which the borrow loop gets wrong. */
  lemma LostBorrowExample()
    ensures Val([0, 0, 1]) >= Val([1]) && !BorrowStops([0, 0, 1], [1], 0)
  {
    assert [0, 0, 1][1..] == [0, 1] && [0, 1][1..] == [1] && [1][1..] == [];
    assert [0, 0, 1][..1] == [0] && [0][1..] == [];
    assert Val([1]) == 1 && Val([0, 1]) == B && Val([0]) == 0;
  }

  class Bigint {
    var bigits: seq<Bigit>
    var exp: nat

    ghost function N(): Num reads this { Num(bigits, exp) }

    ghost function Value(): nat reads this { N().Value() }

    ghost predicate NonzeroTop() reads this { N().NonzeroTop() }

    constructor ()
      ensures bigits == [] && exp == 0
    {
      bigits, exp := [], 0;
    }

    method Assign(n: nat)
      requires n < W
      modifies this
      ensures Value() == n && exp == 0
      ensures if n == 0 then bigits == [0] else NonzeroTop()
    {
      var out: seq<Bigit> := [Wrap32(n)];
      var m: nat := n / B;
      assert Val(out) == n % B by { assert out[1..] == []; }
      assert Shl(m, 1) == B * Shl(m, 0);
      while m != 0
        invariant out != [] && m < W
        invariant Val(out) + Shl(m, |out|) == n
        invariant m == 0 && n != 0 ==> out[|out| - 1] != 0
        invariant n == 0 ==> out == [0]
      {
        CarryStep(out, m % B, m, m / B, 0, n);
        ShlZero(|out|);
        out := out + [Wrap32(m)];
        m := m / B;
      }
      ShlZero(|out|);
      bigits, exp := out, 0;
    }

    method RemoveLeadingZeros()
      modifies this`bigits
      ensures Val(bigits) == old(Val(bigits))
      ensures |bigits| <= |old(bigits)| && (old(bigits) != [] ==> bigits != [])
      ensures |bigits| > 1 ==> NonzeroTop()
    {
      var num := |bigits| - 1;
      assert bigits[..num + 1] == bigits;
      while num > 0 && bigits[num] == 0
        invariant -1 <= num < |bigits| && (bigits != [] ==> num >= 0)
        invariant bigits == old(bigits) && Val(bigits[..num + 1]) == Val(bigits)
      {
        assert bigits[..num + 1] == bigits[..num] + [0];
        ValSnoc(bigits[..num], 0);
        ShlZero(num);
        num := num - 1;
      }
      bigits := bigits[..num + 1];
    }

    method Multiply32(value: nat)
      requires 0 < value < B
      modifies this`bigits
      ensures Value() == value * old(Value())
      ensures |old(bigits)| <= |bigits| <= |old(bigits)| + 1
      ensures old(NonzeroTop()) ==> NonzeroTop()
      ensures old(Value()) == 0 ==> |bigits| == |old(bigits)|
    {
      ghost var s := bigits;
      var carry: Bigit, i, n := 0, 0, |bigits|;
      while i < n
        invariant i <= n == |s| && Scaling(bigits, s, i, carry, value)
      {
        var result := MultiplyBigit(bigits[i], value, carry);
        ScalingStep(bigits, s, i, carry, value, result.0, result.1);
        bigits := bigits[i := result.0];
        carry := result.1;
        i := i + 1;
      }
      FinishScaling(s, carry, value);
    }

    method Multiply64(value: nat)
      requires 0 < value < W
      modifies this`bigits
      ensures Value() == value * old(Value())
      ensures |old(bigits)| <= |bigits|
      ensures old(NonzeroTop()) ==> NonzeroTop()
      ensures old(Value()) == 0 ==> |bigits| == |old(bigits)|
    {
      ghost var s := bigits;
      var carry: Word, i, n := 0, 0, |bigits|;
      while i < n
        invariant i <= n == |s| && carry < W && Scaling(bigits, s, i, carry, value)
      {
        var result := MultiplyWide(bigits[i], value, carry);
        ScalingStep(bigits, s, i, carry, value, result.0, result.1);
        bigits := bigits[i := result.0];
        carry := result.1;
        i := i + 1;
      }
      FinishScaling(s, carry, value);
    }

    /** The end of every scaling loop: append the carry. */
    method FinishScaling(ghost s: seq<Bigit>, carry: nat, ghost value: nat)
      requires carry < W && value > 0 && Scaling(bigits, s, |s|, carry, value)
      modifies this`bigits
      ensures Value() == value * Shl(Val(s), exp)
      ensures |s| <= |bigits| && (carry < B ==> |bigits| <= |s| + 1)
      ensures Num(s, exp).NonzeroTop() ==> NonzeroTop()
      ensures Shl(Val(s), exp) == 0 ==> |bigits| == |s|
    {
      ScalingDone(bigits, s, carry, value);
      ShlMul(value, Val(s), exp);
      ShlStrict(carry, 0, |bigits|);
      ShlStrict(0, Val(s), exp);
      ShlZero(exp);
      PushCarry(carry, value * Val(s));
      if Num(s, exp).NonzeroTop() && |bigits| == |s| { ScaledTop(bigits, s, value); }
    }

    /** Appends what is left of a carry: at most two bigits, none for zero. */
    method PushCarry(c: nat, ghost v: nat)
      requires c < W && Val(bigits) + Shl(c, |bigits|) == v
      modifies this`bigits
      ensures Val(bigits) == v
      ensures if c == 0 then bigits == old(bigits) else |bigits| > |old(bigits)| && NonzeroTop()
      ensures c < B ==> |bigits| <= |old(bigits)| + 1
    {
      var carry: nat := c;
      ShlZero(|bigits|);
      while carry != 0
        invariant carry < W && Val(bigits) + Shl(carry, |bigits|) == v
        invariant carry == 0 ==> Val(bigits) == v
        invariant |bigits| >= |old(bigits)|
        invariant c < B ==> |bigits| + (if carry == 0 then 0 else 1) <= |old(bigits)| + 1
        invariant if c == 0 then bigits == old(bigits) && carry == 0
                  else carry == c || (|bigits| > |old(bigits)| && (carry != 0 || NonzeroTop()))
      {
        ghost var before, was := bigits, carry;
        bigits := bigits + [Wrap32(carry)];
        carry := carry / B;
        CarryStep(before, was % B, was, carry, 0, v);
        ShlZero(|before|);
        ShlZero(|bigits|);
      }
    }

    method ShiftLeft(shift: nat)
      modifies this
      ensures Value() == Pow(2, shift) * old(Value()) && exp == old(exp) + shift / 32
      ensures old(NonzeroTop()) ==> NonzeroTop()
    {
      ShiftedValue(Val(bigits), exp, shift);
      exp := exp + shift / 32;
      var low := shift % 32;
      if low == 0 { return; }
      ShiftBits(low);
    }

    method ShiftBits(shift: nat)
      requires 0 < shift < 32
      modifies this`bigits
      ensures Value() == Pow(2, shift) * old(Value())
      ensures old(NonzeroTop()) ==> NonzeroTop()
    {
      ghost var s := bigits;
      var p, q := Pow(2, shift), Pow(2, 32 - shift);
      PowAdd(2, shift, 32 - shift);
      WordIsPow2();
      var carry: Bigit, i, n := 0, 0, |bigits|;
      while i < n
        invariant i <= n == |s| && carry < p && Scaling(bigits, s, i, carry, p)
      {
        var result := ShiftBigit(bigits[i], p, q, carry);
        ScalingStep(bigits, s, i, carry, p, result.0, result.1);
        bigits := bigits[i := result.0];
        carry := result.1;
        i := i + 1;
      }
      FinishScaling(s, carry, p);
    }

    /** Grows or cuts the storage; new bigits are not initialized. */
    method Resize(n: nat)
      modifies this`bigits
      ensures |bigits| == n
      ensures forall i :: 0 <= i < n && i < |old(bigits)| ==> bigits[i] == old(bigits)[i]
    {
      bigits := seq(n, i requires 0 <= i < n reads this => if i < |bigits| then bigits[i] else 0);
    }

    /** Moving the storage out leaves the size as it was, so the result can be
        written over it; the column sums then run over the moved copy. */
    method Square()
      requires |bigits| < 0x4000_0000
      modifies this
      ensures Value() == old(Value()) * old(Value()) && exp == 2 * old(exp)
      ensures old(NonzeroTop()) ==> NonzeroTop()
      ensures |bigits| <= 2 * |old(bigits)|
    {
      var n := bigits;
      WriteColumns(n);
      RemoveLeadingZeros();
      SquareValue(Val(n), exp);
      exp := exp * 2;
      if Num(n, exp).NonzeroTop() { SquareTop(n, bigits); }
    }

    method WriteColumns(n: seq<Bigit>)
      requires |n| < 0x4000_0000
      modifies this`bigits
      ensures |bigits| == 2 * |n| && Val(bigits) == Val(n) * Val(n)
    {
      var num := |n|;
      Resize(2 * num);
      var sum := new Accumulator();
      assert bigits[..0] == [] && Product(n, n)[..0] == [];
      var k := 0;
      while k < num
        invariant k <= num && sum.Valid() && fresh(sum)
        invariant Squaring(bigits, n, k, sum.Value())
      {
        WriteColumn(n, k, 0, sum);
        k := k + 1;
      }
      while k < 2 * num
        invariant num <= k <= 2 * num && sum.Valid() && fresh(sum)
        invariant Squaring(bigits, n, k, sum.Value())
      {
        ColumnSkip(n, k, k - (num - 1));
        WriteColumn(n, k, k - (num - 1), sum);
        k := k + 1;
      }
      SquaringDone(bigits, n, sum.Value());
    }

    /** One round of either column loop. */
    method WriteColumn(n: seq<Bigit>, k: nat, start: nat, sum: Accumulator)
      requires |n| < 0x4000_0000 && sum.Valid() && Squaring(bigits, n, k, sum.Value()) && k < 2 * |n|
      requires start <= k < start + |n| && start <= |n| && Column(n, n, k, start) == Column(n, n, k, 0)
      modifies this`bigits, sum
      ensures sum.Valid() && Squaring(bigits, n, k + 1, sum.Value())
    {
      AddColumn(n, k, start, sum);
      StoreColumn(n, k, sum);
    }

    /** Adds the cross products of one column, from partner indices i and k - i. */
    static method AddColumn(n: seq<Bigit>, k: nat, start: nat, sum: Accumulator)
      requires |n| < 0x4000_0000 && sum.Valid() && start <= k < start + |n| && start <= |n|
      requires sum.Value() <= |n| * B && Column(n, n, k, start) == Column(n, n, k, 0)
      modifies sum
      ensures sum.Valid() && sum.Value() == old(sum.Value()) + Column(n, n, k, 0)
    {
      ghost var total := sum.Value() + Column(n, n, k, 0);
      assert total < WW by { ColumnTotal(n, k, sum.Value()); }
      var i, j := start, k - start;
      while j >= 0 && i < |n|
        invariant start <= i <= |n| && j == k - i && j < |n|
        invariant sum.Valid() && sum.Value() + Column(n, n, k, i) == total
      {
        var term: Word := Times(n[i], n[j]);
        sum.Add(term);
        i, j := i + 1, j - 1;
      }
      if j < 0 { ColumnDone(n, k, i); }
    }

    method StoreColumn(ghost n: seq<Bigit>, k: nat, sum: Accumulator)
      requires sum.Valid() && k < 2 * |n|
      requires Column(n, n, k, 0) <= sum.Value()
      requires Squaring(bigits, n, k, sum.Value() - Column(n, n, k, 0))
      modifies this`bigits, sum
      ensures sum.Valid() && Squaring(bigits, n, k + 1, sum.Value())
    {
      SquaringStep(bigits, n, k, sum.Value() - Column(n, n, k, 0), sum.Value());
      bigits := bigits[k := sum.Low32()];
      sum.ShiftRight32();
    }

    method Align(other: Bigint)
      requires this != other
      modifies this
      ensures Value() == old(Value())
      ensures exp == if old(exp) > other.exp then other.exp else old(exp)
      ensures N().NumBigits() == old(N().NumBigits())
      ensures old(NonzeroTop()) ==> NonzeroTop()
    {
      var diff := exp - other.exp;
      if diff <= 0 { return; }
      ghost var s := bigits;
      MoveUp(diff);
      bigits := seq(diff, _ => 0) + bigits[diff..];
      exp := exp - diff;
      assert bigits[diff..] == s;
      LowZerosValue(bigits, s, exp);
    }

    method MoveUp(diff: nat)
      modifies this`bigits
      ensures |bigits| == |old(bigits)| + diff && bigits[diff..] == old(bigits)
    {
      ghost var s := bigits;
      var num := |bigits|;
      Resize(num + diff);
      var i, j := num - 1, num - 1 + diff;
      while i >= 0
        invariant -1 <= i < num && j == i + diff && |bigits| == num + diff
        invariant forall k :: 0 <= k <= i ==> bigits[k] == s[k]
        invariant forall k :: i < k < num ==> bigits[k + diff] == s[k]
      {
        bigits := bigits[j := bigits[i]];
        i, j := i - 1, j - 1;
      }
    }

    /** The sign of lhs - rhs, except that a hidden tie is decided by the stored
        lengths. */
    static method Compare(lhs: Bigint, rhs: Bigint) returns (r: int)
      ensures Compared(lhs.N(), rhs.N(), r)
    {
      ghost var x, y := lhs.N(), rhs.N();
      var numLhs, numRhs := |lhs.bigits| + lhs.exp, |rhs.bigits| + rhs.exp;
      if numLhs != numRhs {
        ComparedBySize(x, y);
        return if numLhs > numRhs then 1 else -1;
      }
      var i, j := |lhs.bigits| - 1, |rhs.bigits| - 1;
      var end := if i - j < 0 then 0 else i - j;
      while i >= end
        invariant end - 1 <= i < |lhs.bigits| && -1 <= j < |rhs.bigits|
        invariant i + lhs.exp == j + rhs.exp
        invariant lhs.bigits[i + 1..] == rhs.bigits[j + 1..]
      {
        var l, m := lhs.bigits[i], rhs.bigits[j];
        if l != m {
          ComparedAt(x, y, i + x.exp);
          return if l > m then 1 else -1;
        }
        assert lhs.bigits[i..] == [l] + lhs.bigits[i + 1..];
        assert rhs.bigits[j..] == [m] + rhs.bigits[j + 1..];
        i, j := i - 1, j - 1;
      }
      ComparedByLength(x, y);
      return if i == j then 0 else if i > j then 1 else -1;
    }

    static function GetBigit(n: Bigint, i: nat): (r: Bigit)
      reads n
      ensures r == n.N().Digit(i)
    {
      if i >= n.exp && i < |n.bigits| + n.exp then n.bigits[i - n.exp] else 0
    }

    /** The sign of lhs1 + lhs2 - rhs. */
    static method AddCompare(lhs1: Bigint, lhs2: Bigint, rhs: Bigint) returns (r: int)
      ensures rhs.NonzeroTop() && Sized(lhs1.N(), rhs.N()) && Sized(lhs2.N(), rhs.N()) ==>
                r == Sign(lhs1.Value() + lhs2.Value() - rhs.Value())
    {
      var num1, num2 := |lhs1.bigits| + lhs1.exp, |lhs2.bigits| + lhs2.exp;
      var maxLhs := if num1 > num2 then num1 else num2;
      var numRhs := |rhs.bigits| + rhs.exp;
      if rhs.NonzeroTop() {
        SumSizes(lhs1.N(), lhs2.N(), rhs.N());
        SumSizes(lhs2.N(), lhs1.N(), rhs.N());
      }
      if maxLhs + 1 < numRhs { return -1; }
      if maxLhs > numRhs { return 1; }
      r := ScanSum(lhs1, lhs2, rhs);
    }

    /** One position of the scan: a verdict, or the borrow to carry on with. */
    static method ScanBigit(lhs1: Bigint, lhs2: Bigint, rhs: Bigint, i: nat, borrow: Word, ghost above: nat)
      returns (r: int, next: Word)
      requires borrow == B * above && Scanned(lhs1.N(), lhs2.N(), rhs.N(), i + 1, above)
      ensures r != 0 ==> r == Sign(lhs1.Value() + lhs2.Value() - rhs.Value())
      ensures r == 0 ==> Scanned(lhs1.N(), lhs2.N(), rhs.N(), i, next)
    {
      var sum: Word := GetBigit(lhs1, i) + GetBigit(lhs2, i);
      var rhsBigit := GetBigit(rhs, i);
      ScanStep(lhs1.N(), lhs2.N(), rhs.N(), i, above, rhsBigit + borrow - sum);
      if sum > rhsBigit + borrow { return 1, 0; }
      next := rhsBigit + borrow - sum;
      r := if next > 1 then -1 else 0;
    }

    /** Scans the bigits of a sum from the top with a running borrow. */
    static method ScanSum(lhs1: Bigint, lhs2: Bigint, rhs: Bigint) returns (r: int)
      requires lhs1.N().NumBigits() <= rhs.N().NumBigits()
      requires lhs2.N().NumBigits() <= rhs.N().NumBigits()
      ensures r == Sign(lhs1.Value() + lhs2.Value() - rhs.Value())
    {
      ghost var x, y, z := lhs1.N(), lhs2.N(), rhs.N();
      var minExp := if lhs1.exp < lhs2.exp then lhs1.exp else lhs2.exp;
      minExp := if rhs.exp < minExp then rhs.exp else minExp;
      var borrow: Word, i := 0, |rhs.bigits| + rhs.exp - 1;
      ghost var above: nat := 0;
      ScanStart(x, y, z);
      while i >= minExp
        invariant minExp - 1 <= i && borrow == B * above && Scanned(x, y, z, i + 1, above)
      {
        r, borrow := ScanBigit(lhs1, lhs2, rhs, i, borrow, above);
        if r != 0 { return; }
        above := borrow;
        borrow := borrow * B;
        i := i - 1;
      }
      ScanEnd(x, y, z, minExp, above);
      return if borrow != 0 then -1 else 0;
    }

    /** Subtracts an aligned number that is not larger. The result is exact just
        when a borrow out of the overlap meets a nonzero bigit. */
    method SubtractAligned(other: Bigint)
      requires this != other && other.NonzeroTop()
      requires other.exp >= exp && Value() >= other.Value()
      modifies this`bigits
      ensures Value() == old(Value()) - other.Value() <==>
                BorrowStops(old(bigits), other.bigits, other.exp - exp)
      ensures bigits != [] && |bigits| <= |old(bigits)| && (|bigits| > 1 ==> NonzeroTop())
    {
      ghost var s := bigits;
      Aligned(N(), other.N());
      SubtractBigits(other);
      RemoveLeadingZeros();
      ExactDifference(Num(s, exp), other.N(), bigits);
    }

    /** The two loops of subtract_aligned. */
    method SubtractBigits(other: Bigint)
      requires this != other && other.exp >= exp && N().NumBigits() >= other.N().NumBigits()
      requires Val(bigits) >= Shl(Val(other.bigits), other.exp - exp)
      modifies this`bigits
      ensures |bigits| == |old(bigits)|
      ensures Val(bigits) + Shl(Val(other.bigits), other.exp - exp) == Val(old(bigits)) <==>
                BorrowStops(old(bigits), other.bigits, other.exp - exp)
    {
      ghost var s, t, d := bigits, other.bigits, other.exp - exp;
      var i, borrow := SubtractOverlap(other);
      if borrow == 1 { BorrowHasRoom(bigits, s, t, d); }
      BorrowAt(i, borrow, s, t, d);
    }

    method SubtractOverlap(other: Bigint) returns (i: nat, borrow: nat)
      requires this != other && other.exp >= exp && N().NumBigits() >= other.N().NumBigits()
      modifies this`bigits
      ensures i == other.exp - exp + |other.bigits|
      ensures Subtracting(bigits, old(bigits), other.bigits, other.exp - exp, |other.bigits|, borrow)
    {
      ghost var s, t, d := bigits, other.bigits, other.exp - exp;
      i, borrow := other.exp - exp, 0;
      var j, n := 0, |other.bigits|;
      StartSubtracting(bigits, t, d);
      while j != n
        invariant j <= n && i == d + j && Subtracting(bigits, s, t, d, j, borrow)
      {
        var result := SubtractBigit(bigits[i], other.bigits[j], borrow);
        SubtractingStep(bigits, s, t, d, j, borrow, result.0, result.1);
        bigits := bigits[i := result.0];
        borrow := result.1;
        i, j := i + 1, j + 1;
      }
    }

    /** The borrow loop as written: it does not move on to the next bigit. */
    method BorrowAt(i: nat, b: nat, ghost s: seq<Bigit>, ghost t: seq<Bigit>, ghost d: nat)
      requires i == d + |t| && Subtracting(bigits, s, t, d, |t|, b) && (b == 1 ==> i < |s|)
      modifies this`bigits
      ensures |bigits| == |s|
      ensures Val(bigits) + Shl(Val(t), d) == Val(s) <==> BorrowStops(s, t, d)
    {
      var borrow, bits := b, bigits;
      while borrow > 0
        invariant borrow <= 1 && |bigits| == |s|
        invariant borrow == 1 ==> b == 1
        invariant b == 1 ==> bigits == bits[i := bigits[i]]
        invariant b == 0 ==> bigits == bits
        invariant b == 1 && borrow == 1 ==> bigits[i] == s[i] || (s[i] == 0 && bigits[i] == B - 1)
        invariant b == 1 && borrow == 0 ==> bigits[i] == if s[i] > 0 then s[i] - 1 else B - 2
        decreases if borrow == 0 then 0 else if bigits[i] == 0 then 2 else 1
      {
        var result := SubtractBigit(bigits[i], 0, borrow);
        bigits := bigits[i := result.0];
        borrow := result.1;
      }
      if b == 1 { BorrowOut(bits, s, t, d, bigits[i]); } else { NoBorrowOut(bits, s, t, d); }
    }

    /** Divides by repeated subtraction: leaves the remainder and returns the
        quotient, which must fit an int. The one failing family is an equal
        divisor hidden by a larger exponent: it is reported as 0. */
    method DivModAssign(divisor: Bigint) returns (quotient: nat)
      requires this != divisor && divisor.NonzeroTop() && Sized(N(), divisor.N())
      requires Value() < 0x8000_0000 * divisor.Value()
      modifies this
      ensures old(Value()) < divisor.Value() || (old(exp) > divisor.exp && old(Value()) == divisor.Value()) ==>
                quotient == 0 && N() == old(N())
      ensures old(exp) <= divisor.exp || old(Value()) != divisor.Value() ==>
                quotient == old(Value()) / divisor.Value() && Value() == old(Value()) % divisor.Value()
      ensures quotient > 0 ==> exp <= divisor.exp
      ensures Sized(N(), divisor.N())
      ensures old(NonzeroTop()) || old(Value()) == 0 ==> NonzeroTop() || Value() == 0
    {
      ghost var v, dv := Value(), divisor.Value();
      DivisorPositive(divisor.N());
      var c := Compare(this, divisor);
      HiddenTieIff(N(), divisor.N());
      if c < 0 {
        if v < dv { DivUnique(v, dv, 0, v); }
        return 0;
      }
      Align(divisor);
      StillSized(N(), divisor.N());
      quotient := SubtractWhileNotLess(divisor);
      DivUnique(v, dv, quotient, Value());
    }

    /** The do loop of divmod_assign. */
    method SubtractWhileNotLess(divisor: Bigint) returns (quotient: nat)
      requires this != divisor && divisor.NonzeroTop() && Sized(N(), divisor.N()) && exp <= divisor.exp
      requires divisor.Value() <= Value() < 0x8000_0000 * divisor.Value()
      modifies this`bigits
      ensures quotient > 0 && quotient * divisor.Value() + Value() == old(Value()) && Value() < divisor.Value()
      ensures Sized(N(), divisor.N()) && (NonzeroTop() || Value() == 0)
    {
      ghost var v, dv := Value(), divisor.Value();
      DivisorPositive(divisor.N());
      quotient := 0;
      var c := 0;
      while c >= 0
        invariant quotient * dv + Value() == v && Value() <= v
        invariant Sized(N(), divisor.N())
        invariant c >= 0 <==> Value() >= dv
        invariant c < 0 ==> quotient > 0 && (NonzeroTop() || Value() == 0)
        decreases Value()
      {
        c := SubtractOnce(divisor);
        Distribute(quotient, 1, dv);
        quotient := quotient + 1;
      }
    }

    /** One subtraction and the comparison after it. */
    method SubtractOnce(divisor: Bigint) returns (c: int)
      requires this != divisor && divisor.NonzeroTop() && Sized(N(), divisor.N()) && exp <= divisor.exp
      requires divisor.Value() <= Value() < 0x8000_0000 * divisor.Value()
      modifies this`bigits
      ensures Value() == old(Value()) - divisor.Value() && (c >= 0 <==> Value() >= divisor.Value())
      ensures Sized(N(), divisor.N()) && (NonzeroTop() || Value() == 0)
    {
      if NonzeroTop() { FewExtraBigits(N(), divisor.N()); }
      SubtractAligned(divisor);
      StillSized(N(), divisor.N());
      OneBigit(N());
      HiddenTieIff(N(), divisor.N());
      c := Compare(this, divisor);
    }

    /** Binary exponentiation of 5, then a shift. An exponent of 2^30 or more
        would overflow the int bitmask. */
    method AssignPow10(e: nat)
      requires e < 0x4000_0000
      modifies this
      ensures Value() == Pow(10, e) && NonzeroTop() && exp == e / 32
    {
      if e == 0 {
        Assign(1);
        return;
      }
      var bitmask := 1;
      ghost var k: nat := 0;
      while e >= bitmask
        invariant bitmask == Pow(2, k) && bitmask <= 2 * e
        decreases 2 * e - bitmask
      {
        bitmask := bitmask * 2;
        k := k + 1;
      }
      RaiseFive(e, bitmask / 2, k - 1);
      ShiftLeft(e);
      PowMul(2, 5, e);
    }

    /** One round: square, then multiply if the bit is set. */
    method RaiseRound(e: nat, bitmask: nat, ghost m: nat, ghost r: nat)
      requires e < 0x4000_0000 && e == (m * 2) * bitmask + r && r < 2 * bitmask && m <= e
      requires exp == 0 && NonzeroTop() && Value() == Pow(5, m)
      modifies this
      ensures exp == 0 && NonzeroTop() && Value() == Pow(5, 2 * m + if r < bitmask then 0 else 1)
    {
      HalvedQuotient(e, bitmask, m, r);
      BinaryRound(e / bitmask, m);
      FivesLength(N(), m);
      Square();
      if (e / bitmask) % 2 == 1 { Multiply32(5); }
    }

    method RaiseFive(e: nat, top: nat, ghost topBit: nat)
      requires top == Pow(2, topBit) && top <= e < 2 * top && e < 0x4000_0000
      modifies this
      ensures Value() == Pow(5, e) && NonzeroTop() && exp == 0
    {
      ghost var k, m: nat, r: nat, full := topBit, 1, e - top, top;
      Assign(5);
      assert Pow(5, 1) == 5 * Pow(5, 0);
      var bitmask := top / 2;
      while bitmask != 0
        invariant if k == 0 then bitmask == 0 else bitmask == Pow(2, k - 1)
        invariant full == (if bitmask == 0 then 1 else 2 * bitmask) && m <= e == m * full + r && r < full
        invariant exp == 0 && NonzeroTop() && Value() == Pow(5, m)
        decreases k
      {
        NextBit(e, m, bitmask, r);
        RaiseRound(e, bitmask, m, r);
        m, r, full := 2 * m + (if r < bitmask then 0 else 1), if r < bitmask then r else r - bitmask, bitmask;
        bitmask := bitmask / 2;
        k := k - 1;
      }
    }
  }
}
