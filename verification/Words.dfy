/** Positional numbers over 32-bit words: the values that fmt's bigint stores,
    a sequence of bigits (least significant first) with a shared exponent that
    counts implicit low zero bigits. */
module Words {
  const B: nat := 0x1_0000_0000
  const W: nat := 0x1_0000_0000_0000_0000

  const WW: nat := 0x1_0000_0000_0000_0000_0000_0000_0000_0000

  type Bigit = x: nat | x < B

  /** uint64_t: a value of this type shows that an operation does not overflow. */
  type Word = x: nat | x < W

  /** Conversions to uint32_t and uint64_t. */
  function Wrap32(x: int): (r: Bigit) { x % B }
  function Wrap64(x: int): (r: Word) { x % W }

  function Sign(x: int): int { if x > 0 then 1 else if x < 0 then -1 else 0 }

  function Pow(b: nat, k: nat): (p: nat)
    ensures b > 0 ==> p > 0
  {
    if k == 0 then 1 else b * Pow(b, k - 1)
  }

  /** v * B^k. */
  function Shl(v: nat, k: nat): nat {
    if k == 0 then v else B * Shl(v, k - 1)
  }

  /** The value of a coefficient sequence at base B; coefficients may exceed B. */
  function Val(s: seq<nat>): nat {
    if s == [] then 0 else s[0] + B * Val(s[1..])
  }

  lemma MulBound(a: nat, b: nat, x: nat, y: nat)
    requires a <= x && b <= y
    ensures a * b <= x * y
  {
    assert a * b <= x * b;
    assert x * b <= x * y;
  }

  lemma Distribute(a: int, b: int, p: int)
    ensures (a + b) * p == a * p + b * p
  {}

  lemma MulAssoc(a: int, b: int, c: int)
    ensures a * (b * c) == (a * b) * c == b * (a * c)
  {}

  lemma {:induction false} PowAdd(b: nat, i: nat, j: nat)
    ensures Pow(b, i + j) == Pow(b, i) * Pow(b, j)
  {
    if i == 0 {
    } else {
      PowAdd(b, i - 1, j);
      MulAssoc(b, Pow(b, i - 1), Pow(b, j));
    }
  }

  lemma {:induction false} ShlAdd(a: nat, b: nat, k: nat)
    ensures Shl(a + b, k) == Shl(a, k) + Shl(b, k)
  {
    if k == 0 {
    } else {
      ShlAdd(a, b, k - 1);
    }
  }

  lemma {:induction false} ShlZero(k: nat)
    ensures Shl(0, k) == 0
  {
    if k == 0 {
    } else {
      ShlZero(k - 1);
    }
  }

  lemma {:induction false} ShlShl(v: nat, j: nat, k: nat)
    ensures Shl(Shl(v, j), k) == Shl(v, j + k)
  {
    if k == 0 {
    } else {
      ShlShl(v, j, k - 1);
    }
  }

  lemma ShlStep(v: nat, k: nat)
    ensures Shl(B * v, k) == Shl(v, k + 1)
  {
    ShlShl(v, 1, k);
    assert Shl(v, 1) == B * Shl(v, 0);
  }

  lemma {:induction false} ShlMul(f: nat, v: nat, k: nat)
    ensures Shl(f * v, k) == f * Shl(v, k)
  {
    if k == 0 {
    } else {
      ShlMul(f, v, k - 1);
      MulAssoc(B, f, Shl(v, k - 1));
    }
  }

  lemma {:induction false} ShlStrict(a: nat, b: nat, k: nat)
    ensures a < b <==> Shl(a, k) < Shl(b, k)
    ensures a <= Shl(a, k)
  {
    if k == 0 {
    } else {
      ShlStrict(a, b, k - 1);
    }
  }

  lemma {:induction false} ShlUp(v: nat, i: nat, j: nat)
    requires i <= j
    ensures Shl(v, i) <= Shl(v, j)
  {
    if i == j {
    } else {
      ShlUp(v, i, j - 1);
    }
  }

  lemma {:induction false} ValAppend(s: seq<nat>, t: seq<nat>)
    ensures Val(s + t) == Val(s) + Shl(Val(t), |s|)
  {
    if s == [] {
      assert s + t == t;
    } else {
      ValAppend(s[1..], t);
      assert (s + t)[1..] == s[1..] + t;
    }
  }

  lemma ValSnoc(s: seq<nat>, x: nat)
    ensures Val(s + [x]) == Val(s) + Shl(x, |s|)
  {
    ValAppend(s, [x]);
    assert [x][1..] == [];
  }

  lemma ValSplit(s: seq<nat>, k: nat)
    requires k <= |s|
    ensures Val(s) == Val(s[..k]) + Shl(Val(s[k..]), k)
  {
    assert s == s[..k] + s[k..];
    ValAppend(s[..k], s[k..]);
  }

  lemma {:induction false} ValBound(s: seq<Bigit>)
    ensures Val(s) < Shl(1, |s|)
  {
    if s == [] {
    } else {
      ValBound(s[1..]);
    }
  }

  lemma {:induction false} ValZero(s: seq<nat>)
    ensures Val(s) == 0 <==> forall i :: 0 <= i < |s| ==> s[i] == 0
  {
    if s == [] {
    } else {
      ValZero(s[1..]);
      if Val(s) == 0 {
        forall i | 0 <= i < |s| ensures s[i] == 0 {
          if i > 0 { assert s[i] == s[1..][i - 1]; }
        }
      }
    }
  }

  /** A sequence whose top bigit is nonzero fills its length, and conversely. */
  lemma TopBound(s: seq<Bigit>)
    requires s != []
    ensures s[|s| - 1] != 0 <==> Val(s) >= Shl(1, |s| - 1)
  {
    var t, top := s[..|s| - 1], s[|s| - 1];
    assert s == t + [top];
    ValSnoc(t, top);
    ValBound(t);
    ShlStrict(top, 1, |t|);
    ShlZero(|t|);
  }

  /** One step of every carry loop: a digit leaves, the carry moves up one place. */
  lemma CarryStep(r: seq<nat>, d: nat, c: nat, c': nat, x: nat, v: nat)
    requires Val(r) + Shl(c, |r|) == v
    requires d + B * c' == c + x
    ensures Val(r + [d]) + Shl(c', |r| + 1) == v + Shl(x, |r|)
  {
    ValSnoc(r, d);
    ShlStep(c', |r|);
    ShlAdd(d, B * c', |r|);
    ShlAdd(c, x, |r|);
  }

  /** A number as the bigint object holds it. */
  datatype Num = Num(bigits: seq<Bigit>, exp: nat) {
    function NumBigits(): nat { |bigits| + exp }

    function Value(): nat { Shl(Val(bigits), exp) }

    predicate NonzeroTop() { bigits != [] && bigits[|bigits| - 1] != 0 }

    /** The bigit at absolute position k, zero outside the stored window. */
    function Digit(k: nat): Bigit {
      if exp <= k < NumBigits() then bigits[k - exp] else 0
    }

    /** The number floor(Value / B^k), read off from the top. */
    function From(k: nat): nat
      decreases NumBigits() - k
    {
      if k >= NumBigits() then 0 else Digit(k) + B * From(k + 1)
    }

    /** The value of the bigits below position k. */
    function Low(k: nat): nat {
      if k == 0 then 0 else Low(k - 1) + Shl(Digit(k - 1), k - 1)
    }
  }

  lemma {:induction false} FromIsVal(x: Num, k: nat)
    requires x.exp <= k <= x.NumBigits()
    ensures x.From(k) == Val(x.bigits[k - x.exp..])
    decreases x.NumBigits() - k
  {
    if k == x.NumBigits() {
    } else {
      FromIsVal(x, k + 1);
      assert x.bigits[k - x.exp..][1..] == x.bigits[k + 1 - x.exp..];
    }
  }

  lemma {:induction false} FromBelow(x: Num, k: nat)
    requires k <= x.exp
    ensures x.From(k) == Shl(Val(x.bigits), x.exp - k)
    decreases x.exp - k
  {
    if k == x.exp {
      FromIsVal(x, k);
      assert x.bigits[0..] == x.bigits;
    } else {
      FromBelow(x, k + 1);
    }
  }

  /** Any position splits a value into a high part and a low part below B^k. */
  lemma {:induction false} SplitAt(x: Num, k: nat)
    ensures x.Value() == x.Low(k) + Shl(x.From(k), k)
    ensures x.Low(k) < Shl(1, k)
  {
    if k == 0 {
      FromBelow(x, 0);
    } else {
      SplitAt(x, k - 1);
      SplitDigit(x.Digit(k - 1), x.From(k), k - 1);
    }
  }

  /** One digit moves from the high part to the low part. */
  lemma SplitDigit(d: Bigit, f: nat, k: nat)
    ensures Shl(d + B * f, k) == Shl(d, k) + Shl(f, k + 1)
    ensures Shl(1, k) + Shl(d, k) <= Shl(1, k + 1)
  {
    ShlStep(f, k);
    ShlAdd(d, B * f, k);
    ShlStep(1, k);
    ShlAdd(1, d, k);
    ShlStrict(B, 1 + d, k);
  }

  /** A larger high part decides the comparison of two values. */
  lemma HighDecides(x: Num, y: Num, k: nat)
    requires x.From(k) > y.From(k)
    ensures x.Value() > y.Value()
  {
    SplitAt(x, k);
    SplitAt(y, k);
    ShlAdd(y.From(k), 1, k);
    ShlStrict(x.From(k), y.From(k) + 1, k);
  }

  /** A nonzero top bigit puts the value between two neighbouring powers of B. */
  lemma Magnitude(x: Num)
    ensures x.Value() < Shl(1, x.NumBigits())
    ensures x.NonzeroTop() ==> x.Value() >= Shl(1, x.NumBigits() - 1)
  {
    SplitAt(x, x.NumBigits());
    ShlZero(x.NumBigits());
    if x.NonzeroTop() {
      TopBound(x.bigits);
      ShlShl(1, |x.bigits| - 1, x.exp);
      ShlStrict(Val(x.bigits), Shl(1, |x.bigits| - 1), x.exp);
    }
  }
}
