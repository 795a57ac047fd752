/** Field elements of ed25519.cpp: ten signed limbs, alternately of 26 and 25 bits. */
module Fe10 {
  import F = Field25519

  /** The value of limbs of any size. */
  function Val(s: seq<int>): int
    requires |s| == 10
  {
    s[0] + 0x4000000 * s[1] + 0x8000000000000 * s[2] + 0x20000000000000000000 * s[3]
      + 0x40000000000000000000000000 * s[4] + 0x100000000000000000000000000000000 * s[5]
      + 0x200000000000000000000000000000000000000 * s[6]
      + 0x800000000000000000000000000000000000000000000 * s[7]
      + 0x1000000000000000000000000000000000000000000000000000 * s[8]
      + 0x4000000000000000000000000000000000000000000000000000000000 * s[9]
  }

  /** The weight of limb i, 2^(25.5 i) rounded up to a power of two. */
  function Weight(i: nat): nat
    requires i < 10
  {
    if i == 0 then 0x1
    else if i == 1 then 0x4000000
    else if i == 2 then 0x8000000000000
    else if i == 3 then 0x20000000000000000000
    else if i == 4 then 0x40000000000000000000000000
    else if i == 5 then 0x100000000000000000000000000000000
    else if i == 6 then 0x200000000000000000000000000000000000000
    else if i == 7 then 0x800000000000000000000000000000000000000000000
    else if i == 8 then 0x1000000000000000000000000000000000000000000000000000
    else 0x4000000000000000000000000000000000000000000000000000000000
  }

  function Elt(s: seq<int>): F.Fp
    requires |s| == 10
  {
    F.Reduce(Val(s))
  }

  // ----- multiplication -----

  /** A product of two 32-bit variables in 64 bits. */
  function Mul64(x: int, y: int): int { x * y }

  /** The sum of products, added up from the left. */
  function Sum(t: seq<(int, int)>): int {
    if t == [] then 0 else Sum(t[..|t| - 1]) + Mul64(t[|t| - 1].0, t[|t| - 1].1)
  }

  /** The products that h0 .. h9 of fe_mul sum, by their 32-bit factors. */
  function MulTerms(f: seq<int>, g: seq<int>, k: nat): (t: seq<(int, int)>)
    requires |f| == 10 && |g| == 10 && k < 10
    ensures |t| == 10
  {
    if k == 0 then
      [(f[0], g[0]), (2 * f[1], 19 * g[9]), (f[2], 19 * g[8]), (2 * f[3], 19 * g[7]), (f[4], 19 * g[6]),
       (2 * f[5], 19 * g[5]), (f[6], 19 * g[4]), (2 * f[7], 19 * g[3]), (f[8], 19 * g[2]),
       (2 * f[9], 19 * g[1])]
    else if k == 1 then
      [(f[0], g[1]), (f[1], g[0]), (f[2], 19 * g[9]), (f[3], 19 * g[8]), (f[4], 19 * g[7]), (f[5], 19 * g[6]),
       (f[6], 19 * g[5]), (f[7], 19 * g[4]), (f[8], 19 * g[3]), (f[9], 19 * g[2])]
    else if k == 2 then
      [(f[0], g[2]), (2 * f[1], g[1]), (f[2], g[0]), (2 * f[3], 19 * g[9]), (f[4], 19 * g[8]),
       (2 * f[5], 19 * g[7]), (f[6], 19 * g[6]), (2 * f[7], 19 * g[5]), (f[8], 19 * g[4]),
       (2 * f[9], 19 * g[3])]
    else if k == 3 then
      [(f[0], g[3]), (f[1], g[2]), (f[2], g[1]), (f[3], g[0]), (f[4], 19 * g[9]), (f[5], 19 * g[8]),
       (f[6], 19 * g[7]), (f[7], 19 * g[6]), (f[8], 19 * g[5]), (f[9], 19 * g[4])]
    else if k == 4 then
      [(f[0], g[4]), (2 * f[1], g[3]), (f[2], g[2]), (2 * f[3], g[1]), (f[4], g[0]), (2 * f[5], 19 * g[9]),
       (f[6], 19 * g[8]), (2 * f[7], 19 * g[7]), (f[8], 19 * g[6]), (2 * f[9], 19 * g[5])]
    else if k == 5 then
      [(f[0], g[5]), (f[1], g[4]), (f[2], g[3]), (f[3], g[2]), (f[4], g[1]), (f[5], g[0]), (f[6], 19 * g[9]),
       (f[7], 19 * g[8]), (f[8], 19 * g[7]), (f[9], 19 * g[6])]
    else if k == 6 then
      [(f[0], g[6]), (2 * f[1], g[5]), (f[2], g[4]), (2 * f[3], g[3]), (f[4], g[2]), (2 * f[5], g[1]),
       (f[6], g[0]), (2 * f[7], 19 * g[9]), (f[8], 19 * g[8]), (2 * f[9], 19 * g[7])]
    else if k == 7 then
      [(f[0], g[7]), (f[1], g[6]), (f[2], g[5]), (f[3], g[4]), (f[4], g[3]), (f[5], g[2]), (f[6], g[1]),
       (f[7], g[0]), (f[8], 19 * g[9]), (f[9], 19 * g[8])]
    else if k == 8 then
      [(f[0], g[8]), (2 * f[1], g[7]), (f[2], g[6]), (2 * f[3], g[5]), (f[4], g[4]), (2 * f[5], g[3]),
       (f[6], g[2]), (2 * f[7], g[1]), (f[8], g[0]), (2 * f[9], 19 * g[9])]
    else
      [(f[0], g[9]), (f[1], g[8]), (f[2], g[7]), (f[3], g[6]), (f[4], g[5]), (f[5], g[4]), (f[6], g[3]),
       (f[7], g[2]), (f[8], g[1]), (f[9], g[0])]
  }

  function Column(f: seq<int>, g: seq<int>, k: nat): int
    requires |f| == 10 && |g| == 10 && k < 10
  {
    Sum(MulTerms(f, g, k))
  }

  function Columns(f: seq<int>, g: seq<int>): (h: seq<int>)
    requires |f| == 10 && |g| == 10
    ensures |h| == 10
  {
    seq(10, k requires 0 <= k < 10 => Column(f, g, k))
  }

  /** The products that h0 .. h9 of fe_sq sum. */
  function SquareTerms(f: seq<int>, k: nat): (t: seq<(int, int)>)
    requires |f| == 10 && k < 10
    ensures |t| == if k % 2 == 0 then 6 else 5
  {
    if k == 0 then
      [(f[0], f[0]), (2 * f[1], 38 * f[9]), (2 * f[2], 19 * f[8]), (2 * f[3], 38 * f[7]),
       (2 * f[4], 19 * f[6]), (f[5], 38 * f[5])]
    else if k == 1 then
      [(2 * f[0], f[1]), (f[2], 38 * f[9]), (2 * f[3], 19 * f[8]), (f[4], 38 * f[7]), (2 * f[5], 19 * f[6])]
    else if k == 2 then
      [(2 * f[0], f[2]), (2 * f[1], f[1]), (2 * f[3], 38 * f[9]), (2 * f[4], 19 * f[8]), (2 * f[5], 38 * f[7]),
       (f[6], 19 * f[6])]
    else if k == 3 then
      [(2 * f[0], f[3]), (2 * f[1], f[2]), (f[4], 38 * f[9]), (2 * f[5], 19 * f[8]), (f[6], 38 * f[7])]
    else if k == 4 then
      [(2 * f[0], f[4]), (2 * f[1], 2 * f[3]), (f[2], f[2]), (2 * f[5], 38 * f[9]), (2 * f[6], 19 * f[8]),
       (f[7], 38 * f[7])]
    else if k == 5 then
      [(2 * f[0], f[5]), (2 * f[1], f[4]), (2 * f[2], f[3]), (f[6], 38 * f[9]), (2 * f[7], 19 * f[8])]
    else if k == 6 then
      [(2 * f[0], f[6]), (2 * f[1], 2 * f[5]), (2 * f[2], f[4]), (2 * f[3], f[3]), (2 * f[7], 38 * f[9]),
       (f[8], 19 * f[8])]
    else if k == 7 then
      [(2 * f[0], f[7]), (2 * f[1], f[6]), (2 * f[2], f[5]), (2 * f[3], f[4]), (f[8], 38 * f[9])]
    else if k == 8 then
      [(2 * f[0], f[8]), (2 * f[1], 2 * f[7]), (2 * f[2], f[6]), (2 * f[3], 2 * f[5]), (f[4], f[4]),
       (f[9], 38 * f[9])]
    else
      [(2 * f[0], f[9]), (2 * f[1], f[8]), (2 * f[2], f[7]), (2 * f[3], f[6]), (2 * f[4], f[5])]
  }

  function SquareColumn(f: seq<int>, k: nat): int
    requires |f| == 10 && k < 10
  {
    Sum(SquareTerms(f, k))
  }

  function SquareColumns(f: seq<int>): (h: seq<int>)
    requires |f| == 10
    ensures |h| == 10
  {
    seq(10, k requires 0 <= k < 10 => SquareColumn(f, k))
  }

  /** The limb of g that limb i of f meets in column k. */
  function Partner(k: nat, i: nat): (j: nat)
    requires k < 10 && i < 10
    ensures j < 10
  {
    if k >= i then k - i else k + 10 - i
  }

  /** Two odd limbs meet half a bit above their column. */
  function Twice(i: nat, j: nat): int { if i % 2 == 1 && j % 2 == 1 then 2 else 1 }

  /** What a product of limb i is multiplied by in column k: 19 for what wraps round. */
  function Factor(i: nat, k: nat): int
    requires k < 10 && i < 10
  {
    Twice(i, Partner(k, i)) * (if k < i then 19 else 1)
  }

  /** Limb i, with factor 1, times g: what goes beyond 2^255 comes back times 19. */
  function Shifted(g: seq<int>, i: nat): (s: seq<int>)
    requires |g| == 10 && i < 10
    ensures |s| == 10
  {
    seq(10, k requires 0 <= k < 10 => Factor(i, k) * g[Partner(k, i)])
  }

  /** What went beyond. */
  function Beyond(g: seq<int>, i: nat): (s: seq<int>)
    requires |g| == 10 && i < 10
    ensures |s| == 10
  {
    seq(10, k requires 0 <= k < 10 => if k < i then Twice(i, Partner(k, i)) * g[Partner(k, i)] else 0)
  }

  lemma ShiftedBy0(g: seq<int>)
    requires |g| == 10
    ensures Weight(0) * Val(g) == Val(Shifted(g, 0)) + F.P * Val(Beyond(g, 0))
  {}

  lemma ShiftedBy1(g: seq<int>)
    requires |g| == 10
    ensures Weight(1) * Val(g) == Val(Shifted(g, 1)) + F.P * Val(Beyond(g, 1))
  {}

  lemma ShiftedBy2(g: seq<int>)
    requires |g| == 10
    ensures Weight(2) * Val(g) == Val(Shifted(g, 2)) + F.P * Val(Beyond(g, 2))
  {}

  lemma ShiftedBy3(g: seq<int>)
    requires |g| == 10
    ensures Weight(3) * Val(g) == Val(Shifted(g, 3)) + F.P * Val(Beyond(g, 3))
  {}

  lemma ShiftedBy4(g: seq<int>)
    requires |g| == 10
    ensures Weight(4) * Val(g) == Val(Shifted(g, 4)) + F.P * Val(Beyond(g, 4))
  {}

  lemma ShiftedBy5(g: seq<int>)
    requires |g| == 10
    ensures Weight(5) * Val(g) == Val(Shifted(g, 5)) + F.P * Val(Beyond(g, 5))
  {}

  lemma ShiftedBy6(g: seq<int>)
    requires |g| == 10
    ensures Weight(6) * Val(g) == Val(Shifted(g, 6)) + F.P * Val(Beyond(g, 6))
  {}

  lemma ShiftedBy7(g: seq<int>)
    requires |g| == 10
    ensures Weight(7) * Val(g) == Val(Shifted(g, 7)) + F.P * Val(Beyond(g, 7))
  {}

  lemma ShiftedBy8(g: seq<int>)
    requires |g| == 10
    ensures Weight(8) * Val(g) == Val(Shifted(g, 8)) + F.P * Val(Beyond(g, 8))
  {}

  lemma ShiftedBy9(g: seq<int>)
    requires |g| == 10
    ensures Weight(9) * Val(g) == Val(Shifted(g, 9)) + F.P * Val(Beyond(g, 9))
  {}

  /** Shifting is multiplication by the weight, up to multiples of P. */
  lemma ShiftedValue(g: seq<int>, i: nat)
    requires |g| == 10 && i < 10
    ensures Weight(i) * Val(g) == Val(Shifted(g, i)) + F.P * Val(Beyond(g, i))
  {
    hide Val, Shifted, Beyond, Weight;
    if i == 0 {
      ShiftedBy0(g);
    } else if i == 1 {
      ShiftedBy1(g);
    } else if i == 2 {
      ShiftedBy2(g);
    } else if i == 3 {
      ShiftedBy3(g);
    } else if i == 4 {
      ShiftedBy4(g);
    } else if i == 5 {
      ShiftedBy5(g);
    } else if i == 6 {
      ShiftedBy6(g);
    } else if i == 7 {
      ShiftedBy7(g);
    } else if i == 8 {
      ShiftedBy8(g);
    } else {
      ShiftedBy9(g);
    }
  }

  /** A row of the multiplication: one limb of f times all of g. */
  function Row(x: int, g: seq<int>, i: nat): (s: seq<int>)
    requires |g| == 10 && i < 10
    ensures |s| == 10
  {
    seq(10, k requires 0 <= k < 10 => Factor(i, k) * Mul64(x, g[Partner(k, i)]))
  }

  /** The first n rows. */
  function Rows(f: seq<int>, g: seq<int>, n: nat): (s: seq<int>)
    requires |f| == 10 && |g| == 10 && n <= 10
    ensures |s| == 10
  {
    if n == 0 then seq(10, k => 0) else Plus(Rows(f, g, n - 1), Row(f[n - 1], g, n - 1))
  }

  function Plus(s: seq<int>, t: seq<int>): (u: seq<int>)
    requires |s| == |t| == 10
    ensures |u| == 10
  {
    seq(10, k requires 0 <= k < 10 => s[k] + t[k])
  }

  /** The value of the first n limbs. */
  function Front(f: seq<int>, n: nat): int
    requires |f| == 10 && n <= 10
  {
    if n == 0 then 0 else Front(f, n - 1) + Weight(n - 1) * f[n - 1]
  }

  lemma PlusValue(s: seq<int>, t: seq<int>)
    requires |s| == |t| == 10
    ensures Val(Plus(s, t)) == Val(s) + Val(t)
  {}

  lemma ScaledValue(x: int, s: seq<int>, t: seq<int>)
    requires |s| == |t| == 10 && forall k :: 0 <= k < 10 ==> t[k] == x * s[k]
    ensures Val(t) == x * Val(s)
  {}

  lemma FrontValue(f: seq<int>)
    requires |f| == 10
    ensures Front(f, 10) == Val(f)
  {
    hide Weight;
    assert Front(f, 1) == Front(f, 0) + Weight(0) * f[0];
    assert Front(f, 2) == Front(f, 1) + Weight(1) * f[1];
    assert Front(f, 3) == Front(f, 2) + Weight(2) * f[2];
    assert Front(f, 4) == Front(f, 3) + Weight(3) * f[3];
    assert Front(f, 5) == Front(f, 4) + Weight(4) * f[4];
    assert Front(f, 6) == Front(f, 5) + Weight(5) * f[5];
    assert Front(f, 7) == Front(f, 6) + Weight(6) * f[6];
    assert Front(f, 8) == Front(f, 7) + Weight(7) * f[7];
    assert Front(f, 9) == Front(f, 8) + Weight(8) * f[8];
    assert Front(f, 10) == Front(f, 9) + Weight(9) * f[9];
    Weights(f);
  }

  lemma Weights(f: seq<int>)
    requires |f| == 10
    ensures Val(f) == Weight(0) * f[0] + Weight(1) * f[1] + Weight(2) * f[2] + Weight(3) * f[3] + Weight(4) * f[4]
      + Weight(5) * f[5] + Weight(6) * f[6] + Weight(7) * f[7] + Weight(8) * f[8] + Weight(9) * f[9]
  {
  }

  lemma RowIsScaled(x: int, g: seq<int>, i: nat)
    requires |g| == 10 && i < 10
    ensures forall k :: 0 <= k < 10 ==> Row(x, g, i)[k] == x * Shifted(g, i)[k]
  {
    hide Factor, Partner;
    forall k | 0 <= k < 10
      ensures Row(x, g, i)[k] == x * Shifted(g, i)[k]
    {
      F.MulAssociates(Factor(i, k), x, g[Partner(k, i)]);
      F.MulCommutes(Factor(i, k), x);
      F.MulAssociates(x, Factor(i, k), g[Partner(k, i)]);
    }
  }

  lemma RowValue(x: int, g: seq<int>, i: nat)
    requires |g| == 10 && i < 10
    ensures F.Reduce(Val(Row(x, g, i))) == F.Reduce(Weight(i) * x * Val(g))
  {
    hide Val, Weight, Shifted, Beyond, F.Reduce, Row;
    RowIsScaled(x, g, i);
    ScaledValue(x, Shifted(g, i), Row(x, g, i));
    ShiftedValue(g, i);
    var v, b := Val(Shifted(g, i)), Val(Beyond(g, i));
    Scaled(x, Weight(i), Val(g), v, b);
    F.ReduceShift(x * v, x * b);
  }

  lemma Scaled(x: int, w: int, v: int, s: int, b: int)
    requires w * v == s + F.P * b
    ensures w * x * v == x * s + F.P * (x * b)
  {
    assert x * (w * v) == x * s + F.P * (x * b);
  }

  lemma {:induction false} RowsValue(f: seq<int>, g: seq<int>, n: nat)
    requires |f| == 10 && |g| == 10 && n <= 10
    ensures F.Reduce(Val(Rows(f, g, n))) == F.Reduce(Front(f, n) * Val(g))
  {
    hide Weight, Row, F.Reduce, F.Add, Plus;
    if n == 0 {
      assert Val(Rows(f, g, 0)) == 0;
    } else {
      hide Val;
      var x := f[n - 1];
      RowsValue(f, g, n - 1);
      RowValue(x, g, n - 1);
      PlusValue(Rows(f, g, n - 1), Row(x, g, n - 1));
      F.ReduceAdd(Val(Rows(f, g, n - 1)), Val(Row(x, g, n - 1)));
      F.ReduceAdd(Front(f, n - 1) * Val(g), Weight(n - 1) * x * Val(g));
      F.MulDistributes(Front(f, n - 1), Weight(n - 1) * x, Val(g));
    }
  }

  /** What row i has in column k. */
  function Cell(f: seq<int>, g: seq<int>, k: nat, i: nat): int
    requires |f| == 10 && |g| == 10 && k < 10 && i < 10
  {
    Factor(i, k) * Mul64(f[i], g[Partner(k, i)])
  }

  lemma RowsUnrolled(f: seq<int>, g: seq<int>, k: nat)
    requires |f| == 10 && |g| == 10 && k < 10
    ensures Rows(f, g, 10)[k] == Cell(f, g, k, 0) + Cell(f, g, k, 1) + Cell(f, g, k, 2) + Cell(f, g, k, 3)
      + Cell(f, g, k, 4) + Cell(f, g, k, 5) + Cell(f, g, k, 6) + Cell(f, g, k, 7) + Cell(f, g, k, 8) + Cell(f, g, k, 9)
  {
    hide Rows, Cell;
    NoRows(f, g, k);
    RowsStep(f, g, k, 1);
    RowsStep(f, g, k, 2);
    RowsStep(f, g, k, 3);
    RowsStep(f, g, k, 4);
    RowsStep(f, g, k, 5);
    RowsStep(f, g, k, 6);
    RowsStep(f, g, k, 7);
    RowsStep(f, g, k, 8);
    RowsStep(f, g, k, 9);
    RowsStep(f, g, k, 10);
  }

  lemma NoRows(f: seq<int>, g: seq<int>, k: nat)
    requires |f| == 10 && |g| == 10 && k < 10
    ensures Rows(f, g, 0)[k] == 0
  {}

  lemma RowsStep(f: seq<int>, g: seq<int>, k: nat, n: nat)
    requires |f| == 10 && |g| == 10 && k < 10 && 0 < n <= 10
    ensures Rows(f, g, n)[k] == Rows(f, g, n - 1)[k] + Cell(f, g, k, n - 1)
  {
    hide Mul64, Factor;
  }

  lemma SumStep(t: seq<(int, int)>, n: nat)
    requires n < |t|
    ensures Sum(t[..n + 1]) == Sum(t[..n]) + Mul64(t[n].0, t[n].1)
  {
    hide Mul64;
    assert t[..n + 1][..n] == t[..n];
  }

  lemma EmptySum(t: seq<(int, int)>)
    ensures Sum(t[..0]) == 0
  {}

  /** Five products, and the sums of six and ten from there. */
  lemma Sum5(t: seq<(int, int)>)
    requires |t| >= 5
    ensures Sum(t[..5]) == Mul64(t[0].0, t[0].1) + Mul64(t[1].0, t[1].1) + Mul64(t[2].0, t[2].1) + Mul64(t[3].0, t[3].1)
      + Mul64(t[4].0, t[4].1)
  {
    hide Mul64, Sum;
    EmptySum(t);
    SumStep(t, 0);
    SumStep(t, 1);
    SumStep(t, 2);
    SumStep(t, 3);
    SumStep(t, 4);
  }

  function Cells(f: seq<int>, g: seq<int>, k: nat): int
    requires |f| == 10 && |g| == 10 && k < 10
  {
    Cell(f, g, k, 0) + Cell(f, g, k, 1) + Cell(f, g, k, 2) + Cell(f, g, k, 3) + Cell(f, g, k, 4)
      + Cell(f, g, k, 5) + Cell(f, g, k, 6) + Cell(f, g, k, 7) + Cell(f, g, k, 8) + Cell(f, g, k, 9)
  }

  /** A factor 2 or 19 is taken in before multiplying, in 32 bits. */
  predicate IsFactored(f: seq<int>, g: seq<int>, k: nat, i: nat, t: (int, int))
    requires |f| == 10 && |g| == 10 && k < 10 && i < 10
  {
    var j := Partner(k, i);
    t == (Twice(i, j) * f[i], if k < i then 19 * g[j] else g[j])
  }

  lemma FirstTerms(f: seq<int>, g: seq<int>, k: nat)
    requires |f| == 10 && |g| == 10 && k < 10
    ensures var t := MulTerms(f, g, k);
      && IsFactored(f, g, k, 0, t[0]) && IsFactored(f, g, k, 1, t[1])
      && IsFactored(f, g, k, 2, t[2]) && IsFactored(f, g, k, 3, t[3]) && IsFactored(f, g, k, 4, t[4])
  {}

  lemma LastTerms(f: seq<int>, g: seq<int>, k: nat)
    requires |f| == 10 && |g| == 10 && k < 10
    ensures var t := MulTerms(f, g, k);
      && IsFactored(f, g, k, 5, t[5]) && IsFactored(f, g, k, 6, t[6])
      && IsFactored(f, g, k, 7, t[7]) && IsFactored(f, g, k, 8, t[8]) && IsFactored(f, g, k, 9, t[9])
  {}

  lemma MulTermsAre(f: seq<int>, g: seq<int>, k: nat)
    requires |f| == 10 && |g| == 10 && k < 10
    ensures forall i :: 0 <= i < 10 ==> IsFactored(f, g, k, i, MulTerms(f, g, k)[i])
  {
    hide IsFactored, MulTerms;
    FirstTerms(f, g, k);
    LastTerms(f, g, k);
  }

  lemma FactorsOut(f: seq<int>, g: seq<int>, k: nat, i: nat)
    requires |f| == 10 && |g| == 10 && k < 10 && i < 10
    ensures var t := MulTerms(f, g, k)[i]; Mul64(t.0, t.1) == Cell(f, g, k, i)
  {
    hide MulTerms, Partner;
    MulTermsAre(f, g, k);
  }

  /** The sum the code writes for a column is the sum of what the rows have there. */
  lemma ColumnIsCells(f: seq<int>, g: seq<int>, k: nat)
    requires |f| == 10 && |g| == 10 && k < 10
    ensures Column(f, g, k) == Cells(f, g, k)
  {
    hide Mul64, MulTerms, Cell, Sum;
    var t := MulTerms(f, g, k);
    Sum5(t);
    SumStep(t, 5);
    SumStep(t, 6);
    SumStep(t, 7);
    SumStep(t, 8);
    SumStep(t, 9);
    assert t[..10] == t;
    forall i | 0 <= i < 10
      ensures Mul64(t[i].0, t[i].1) == Cell(f, g, k, i)
    {
      FactorsOut(f, g, k, i);
    }
  }

  /** The sums of fe_mul stand for the product modulo P. */
  lemma ColumnsValue(f: seq<int>, g: seq<int>)
    requires |f| == 10 && |g| == 10
    ensures Elt(Columns(f, g)) == F.Mul(Elt(f), Elt(g))
  {
    hide Val, Column, Rows, Cell, F.Reduce, F.Mul;
    forall k | 0 <= k < 10
      ensures Columns(f, g)[k] == Rows(f, g, 10)[k]
    {
      ColumnIsCells(f, g, k);
      RowsUnrolled(f, g, k);
    }
    assert Columns(f, g) == Rows(f, g, 10);
    RowsValue(f, g, 10);
    FrontValue(f);
    F.ReduceMul(Val(f), Val(g));
  }

  lemma SquareSum(f: seq<int>, k: nat)
    requires |f| == 10 && k < 10
    ensures var t := SquareTerms(f, k);
      SquareColumn(f, k) == Mul64(t[0].0, t[0].1) + Mul64(t[1].0, t[1].1) + Mul64(t[2].0, t[2].1) + Mul64(t[3].0, t[3].1)
        + Mul64(t[4].0, t[4].1) + if k % 2 == 0 then Mul64(t[5].0, t[5].1) else 0
  {
    hide Mul64, SquareTerms, Sum;
    var t := SquareTerms(f, k);
    Sum5(t);
    if k % 2 == 0 {
      SumStep(t, 5);
    }
    assert t[..|t|] == t;
  }

  lemma SquareFactors(x: int, y: int)
    ensures Mul64(x, y) == Mul64(y, x)
    ensures Mul64(2 * x, y) == 2 * Mul64(x, y) == Mul64(2 * y, x)
    ensures Mul64(x, 19 * y) == 19 * Mul64(x, y) == Mul64(y, 19 * x)
    ensures Mul64(2 * x, 19 * y) == 38 * Mul64(x, y) == Mul64(2 * y, 19 * x)
    ensures Mul64(2 * x, 2 * y) == 4 * Mul64(x, y)
    ensures Mul64(x, 38 * y) == 38 * Mul64(x, y)
    ensures Mul64(2 * x, 38 * y) == 76 * Mul64(x, y)
  {}

  lemma SquareColumn0(f: seq<int>)
    requires |f| == 10
    ensures SquareColumn(f, 0) == Column(f, f, 0)
  {
    hide Mul64, SquareColumn, Column;
    ColumnIsCells(f, f, 0);
    SquareSum(f, 0);
    SquareFactors(f[0], f[0]);
    SquareFactors(f[1], f[9]);
    SquareFactors(f[2], f[8]);
    SquareFactors(f[3], f[7]);
    SquareFactors(f[4], f[6]);
    SquareFactors(f[5], f[5]);
  }

  lemma SquareColumn1(f: seq<int>)
    requires |f| == 10
    ensures SquareColumn(f, 1) == Column(f, f, 1)
  {
    hide Mul64, SquareColumn, Column;
    ColumnIsCells(f, f, 1);
    SquareSum(f, 1);
    SquareFactors(f[0], f[1]);
    SquareFactors(f[2], f[9]);
    SquareFactors(f[3], f[8]);
    SquareFactors(f[4], f[7]);
    SquareFactors(f[5], f[6]);
  }

  lemma SquareColumn2(f: seq<int>)
    requires |f| == 10
    ensures SquareColumn(f, 2) == Column(f, f, 2)
  {
    hide Mul64, SquareColumn, Column;
    ColumnIsCells(f, f, 2);
    SquareSum(f, 2);
    SquareFactors(f[0], f[2]);
    SquareFactors(f[1], f[1]);
    SquareFactors(f[3], f[9]);
    SquareFactors(f[4], f[8]);
    SquareFactors(f[5], f[7]);
    SquareFactors(f[6], f[6]);
  }

  lemma SquareColumn3(f: seq<int>)
    requires |f| == 10
    ensures SquareColumn(f, 3) == Column(f, f, 3)
  {
    hide Mul64, SquareColumn, Column;
    ColumnIsCells(f, f, 3);
    SquareSum(f, 3);
    SquareFactors(f[0], f[3]);
    SquareFactors(f[1], f[2]);
    SquareFactors(f[4], f[9]);
    SquareFactors(f[5], f[8]);
    SquareFactors(f[6], f[7]);
  }

  lemma SquareColumn4(f: seq<int>)
    requires |f| == 10
    ensures SquareColumn(f, 4) == Column(f, f, 4)
  {
    hide Mul64, SquareColumn, Column;
    ColumnIsCells(f, f, 4);
    SquareSum(f, 4);
    SquareFactors(f[0], f[4]);
    SquareFactors(f[1], f[3]);
    SquareFactors(f[2], f[2]);
    SquareFactors(f[5], f[9]);
    SquareFactors(f[6], f[8]);
    SquareFactors(f[7], f[7]);
  }

  lemma SquareColumn5(f: seq<int>)
    requires |f| == 10
    ensures SquareColumn(f, 5) == Column(f, f, 5)
  {
    hide Mul64, SquareColumn, Column;
    ColumnIsCells(f, f, 5);
    SquareSum(f, 5);
    SquareFactors(f[0], f[5]);
    SquareFactors(f[1], f[4]);
    SquareFactors(f[2], f[3]);
    SquareFactors(f[6], f[9]);
    SquareFactors(f[7], f[8]);
  }

  lemma SquareColumn6(f: seq<int>)
    requires |f| == 10
    ensures SquareColumn(f, 6) == Column(f, f, 6)
  {
    hide Mul64, SquareColumn, Column;
    ColumnIsCells(f, f, 6);
    SquareSum(f, 6);
    SquareFactors(f[0], f[6]);
    SquareFactors(f[1], f[5]);
    SquareFactors(f[2], f[4]);
    SquareFactors(f[3], f[3]);
    SquareFactors(f[7], f[9]);
    SquareFactors(f[8], f[8]);
  }

  lemma SquareColumn7(f: seq<int>)
    requires |f| == 10
    ensures SquareColumn(f, 7) == Column(f, f, 7)
  {
    hide Mul64, SquareColumn, Column;
    ColumnIsCells(f, f, 7);
    SquareSum(f, 7);
    SquareFactors(f[0], f[7]);
    SquareFactors(f[1], f[6]);
    SquareFactors(f[2], f[5]);
    SquareFactors(f[3], f[4]);
    SquareFactors(f[8], f[9]);
  }

  lemma SquareColumn8(f: seq<int>)
    requires |f| == 10
    ensures SquareColumn(f, 8) == Column(f, f, 8)
  {
    hide Mul64, SquareColumn, Column;
    ColumnIsCells(f, f, 8);
    SquareSum(f, 8);
    SquareFactors(f[0], f[8]);
    SquareFactors(f[1], f[7]);
    SquareFactors(f[2], f[6]);
    SquareFactors(f[3], f[5]);
    SquareFactors(f[4], f[4]);
    SquareFactors(f[9], f[9]);
  }

  lemma SquareColumn9(f: seq<int>)
    requires |f| == 10
    ensures SquareColumn(f, 9) == Column(f, f, 9)
  {
    hide Mul64, SquareColumn, Column;
    ColumnIsCells(f, f, 9);
    SquareSum(f, 9);
    SquareFactors(f[0], f[9]);
    SquareFactors(f[1], f[8]);
    SquareFactors(f[2], f[7]);
    SquareFactors(f[3], f[6]);
    SquareFactors(f[4], f[5]);
  }

  /** fe_sq sums what fe_mul sums for two equal operands. */
  lemma SquareColumnsAgree(f: seq<int>)
    requires |f| == 10
    ensures SquareColumns(f) == Columns(f, f)
  {
    hide Column, SquareColumn;
    forall k | 0 <= k < 10
      ensures SquareColumn(f, k) == Column(f, f, k)
    {
      if k == 0 {
        SquareColumn0(f);
      } else if k == 1 {
        SquareColumn1(f);
      } else if k == 2 {
        SquareColumn2(f);
      } else if k == 3 {
        SquareColumn3(f);
      } else if k == 4 {
        SquareColumn4(f);
      } else if k == 5 {
        SquareColumn5(f);
      } else if k == 6 {
        SquareColumn6(f);
      } else if k == 7 {
        SquareColumn7(f);
      } else if k == 8 {
        SquareColumn8(f);
      } else {
        SquareColumn9(f);
      }
    }
  }
}
