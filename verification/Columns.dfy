/** Column sums of a schoolbook product, and the accumulators that add them up. */
module Columns {
  import opened Words

  /** Sum of the products s[j] * t[k - j] for j >= i. */
  function Column(s: seq<nat>, t: seq<nat>, k: nat, i: nat): nat
    decreases |s| - i
  {
    if i >= |s| then 0
    else Cell(s, t, k, i) + Column(s, t, k, i + 1)
  }

  function Zeros(n: nat): (z: seq<nat>)
    ensures |z| == n && forall i :: 0 <= i < n ==> z[i] == 0
  {
    seq(n, _ => 0)
  }

  function Added(s: seq<nat>, t: seq<nat>): (r: seq<nat>)
    requires |s| == |t|
    ensures |r| == |s|
  {
    seq(|s|, i requires 0 <= i < |s| => s[i] + t[i])
  }

  function Scaled(x: nat, s: seq<nat>): (r: seq<nat>)
    ensures |r| == |s|
  {
    seq(|s|, i requires 0 <= i < |s| => x * s[i])
  }

  /** The coefficients of the product, one per column. */
  function Product(s: seq<nat>, t: seq<nat>): (r: seq<nat>)
    ensures |r| == |s| + |t|
  {
    if s == [] then Zeros(|t|)
    else Added(Scaled(s[0], t) + Zeros(|s|), [0] + Product(s[1..], t))
  }

  lemma {:induction false} ValAdded(s: seq<nat>, t: seq<nat>)
    requires |s| == |t|
    ensures Val(Added(s, t)) == Val(s) + Val(t)
  {
    if s == [] {
    } else {
      ValAdded(s[1..], t[1..]);
      assert Added(s, t)[1..] == Added(s[1..], t[1..]);
    }
  }

  lemma {:induction false} ValScaled(x: nat, s: seq<nat>, n: nat)
    ensures Val(Scaled(x, s) + Zeros(n)) == x * Val(s)
  {
    if s == [] {
      ValZero(Scaled(x, s) + Zeros(n));
    } else {
      ValScaled(x, s[1..], n);
      assert (Scaled(x, s) + Zeros(n))[1..] == Scaled(x, s[1..]) + Zeros(n);
      ScaledSum(x, s[0], Val(s[1..]));
    }
  }

  lemma ScaledSum(x: nat, a: nat, v: nat)
    ensures x * (a + B * v) == x * a + B * (x * v)
  {
    Distribute(a, B * v, x);
    MulAssoc(B, v, x);
  }

  lemma {:induction false} ValProduct(s: seq<nat>, t: seq<nat>)
    ensures Val(Product(s, t)) == Val(s) * Val(t)
  {
    if s == [] {
      ValZero(Zeros(|t|));
    } else {
      var p := Product(s[1..], t);
      ValProduct(s[1..], t);
      ValScaled(s[0], t, |s|);
      ValAdded(Scaled(s[0], t) + Zeros(|s|), [0] + p);
      assert ([0] + p)[1..] == p;
      Distribute(s[0], B * Val(s[1..]), Val(t));
      MulAssoc(B, Val(s[1..]), Val(t));
    }
  }

  lemma {:induction false} ColumnTail(s: seq<nat>, t: seq<nat>, k: nat, i: nat)
    requires s != []
    ensures Column(s, t, k + 1, i + 1) == Column(s[1..], t, k, i)
    ensures Column(s, t, 0, i + 1) == 0
    decreases |s| - i
  {
    if i + 1 >= |s| {
    } else {
      ColumnTail(s, t, k, i + 1);
    }
  }

  /** Column k of the product is the sum of the cross products on that diagonal. */
  lemma {:induction false} ProductIsColumns(s: seq<nat>, t: seq<nat>, k: nat)
    requires k < |s| + |t|
    ensures Product(s, t)[k] == Column(s, t, k, 0)
  {
    if s == [] {
    } else {
      ProductAt(s, t, k);
      ColumnHead(s, t, k);
      ColumnTail(s, t, if k == 0 then 0 else k - 1, 0);
      if k > 0 { ProductIsColumns(s[1..], t, k - 1); }
    }
  }

  /** The cross product of s[i] in column k. */
  function Cell(s: seq<nat>, t: seq<nat>, k: nat, i: nat): nat
    requires i < |s|
  {
    if i <= k < i + |t| then s[i] * t[k - i] else 0
  }

  lemma ColumnHead(s: seq<nat>, t: seq<nat>, k: nat)
    requires s != []
    ensures Column(s, t, k, 0) == Cell(s, t, k, 0) + Column(s, t, k, 1)
  {}

  lemma ProductAt(s: seq<nat>, t: seq<nat>, k: nat)
    requires s != [] && k < |s| + |t|
    ensures Product(s, t)[k] == Cell(s, t, k, 0) + if k == 0 then 0 else Product(s[1..], t)[k - 1]
  {
    var row, rest := Scaled(s[0], t) + Zeros(|s|), Product(s[1..], t);
    assert Product(s, t) == Added(row, [0] + rest);
    AddedAt(row, [0] + rest, k);
    RowAt(s, t, k);
    ShiftedAt(rest, k);
  }

  lemma AddedAt(s: seq<nat>, t: seq<nat>, k: nat)
    requires k < |s| == |t|
    ensures Added(s, t)[k] == s[k] + t[k]
  {}

  lemma RowAt(s: seq<nat>, t: seq<nat>, k: nat)
    requires s != [] && k < |s| + |t|
    ensures (Scaled(s[0], t) + Zeros(|s|))[k] == Cell(s, t, k, 0)
  {}

  lemma ShiftedAt(p: seq<nat>, k: nat)
    requires k <= |p|
    ensures ([0] + p)[k] == if k == 0 then 0 else p[k - 1]
  {}

  /** Below i every partner index is past the end, so a loop may start at i. */
  lemma {:induction false} ColumnSkip(s: seq<nat>, k: nat, i: nat)
    requires i == 0 || k >= i - 1 + |s|
    ensures Column(s, s, k, i) == Column(s, s, k, 0)
  {
    if i == 0 {
    } else {
      ColumnSkip(s, k, i - 1);
    }
  }

  lemma {:induction false} ColumnDone(s: seq<nat>, k: nat, i: nat)
    requires i > k
    ensures Column(s, s, k, i) == 0
    decreases |s| - i
  {
    if i >= |s| {
    } else {
      ColumnDone(s, k, i + 1);
    }
  }

  lemma {:induction false} ColumnBound(s: seq<Bigit>, k: nat, i: nat)
    requires i <= |s|
    ensures Column(s, s, k, i) <= (|s| - i) * ((B - 1) * (B - 1))
    decreases |s| - i
  {
    if i >= |s| {
    } else {
      ColumnBound(s, k, i + 1);
      if i <= k < i + |s| { MulBound(s[i], s[k - i], B - 1, B - 1); }
      Distribute(1, |s| - (i + 1), (B - 1) * (B - 1));
    }
  }

  lemma ShiftedWords(lower: nat, upper: nat)
    requires lower < W && upper < W
    ensures Wrap64(upper * B) == (upper % B) * B
    ensures (upper % B) * B + lower / B + W * (upper / B) == (lower + W * upper) / B
  {
    var h, l := upper / B, upper % B;
    assert upper * B == l * B + h * W;
    assert (l * B + h * W) % W == l * B;
    assert lower + W * upper == lower + B * (B * upper);
  }

  /** fmt's two-word accumulator, used where no 128-bit integer type exists. */
  class Accumulator {
    var lower: nat
    var upper: nat

    ghost predicate Valid() reads this { lower < W && upper < W }

    ghost function Value(): nat reads this { lower + W * upper }

    constructor ()
      ensures Valid() && Value() == 0
    {
      lower, upper := 0, 0;
    }

    method Add(n: nat)
      requires Valid() && n < W
      modifies this
      ensures Valid()
      ensures Value() == (old(Value()) + n) % WW
      ensures old(Value()) + n < WW ==> Value() == old(Value()) + n
    {
      lower := Wrap64(lower + n);
      if lower < n { upper := Wrap64(upper + 1); }
    }

    /** The two halves joined by `|` occupy disjoint bits, so the join is a sum. */
    method ShiftRight32()
      requires Valid()
      modifies this
      ensures Valid()
      ensures Value() == old(Value()) / B
    {
      ShiftedWords(lower, upper);
      lower := Wrap64(upper * B) + lower / B;
      upper := upper / B;
    }

    function Low32(): (r: Bigit)
      requires Valid()
      reads this
      ensures r == Value() % B
    {
      Wrap32(lower)
    }
  }
}
