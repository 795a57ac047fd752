/** The carries of fe_mul and fe_sq, and the bounds they need and leave. */
module Fe10Carry {
  import opened MachineInts
  import opened Bytes
  import opened Fe10
  import F = Field25519

  type Limbs64 = s: seq<i64> | |s| == 10 witness seq(10, i => 0)

  /** Even limbs are at most e in size, odd ones at most o. */
  predicate Bounded(s: seq<int>, e: int, o: int) {
    forall k :: 0 <= k < |s| ==> if k % 2 == 0 then -e <= s[k] <= e else -o <= s[k] <= o
  }

  const IN_EVEN: int := 110729625 // 1.65 * 2^26
  const IN_ODD: int := 55364812 // 1.65 * 2^25
  const OUT_EVEN: int := 33889976 // 1.01 * 2^25
  const OUT_ODD: int := 16944988 // 1.01 * 2^24
  const TERM: int := 0x400_0000_0000_0000 // 2^58

  function Size(x: int): nat { if x < 0 then -x else x }

  lemma ProductBounded(x: int, y: int, m: int, n: int)
    requires Size(x) <= m && Size(y) <= n
    ensures Size(x * y) <= m * n
  {
    Product(Size(x), m, Size(y), n);
    SizeOfProduct(x, y);
  }

  lemma SizeOfProduct(x: int, y: int)
    ensures Size(x * y) == Size(x) * Size(y)
  {
    Signs(Size(x), Size(y));
  }

  lemma Signs(a: nat, b: nat)
    ensures a * b >= 0 && (-(a as int)) * b == -(a * b) && a * (-(b as int)) == -(a * b) && (-(a as int)) * (-(b as int)) == a * b
  {}

  predicate Is32(x: int) { -0x8000_0000 <= x < 0x8000_0000 }

  predicate Is64(x: int) { -0x8000_0000_0000_0000 <= x < 0x8000_0000_0000_0000 }

  /** Every factor fits in 32 bits, and every product and every running sum in 64. */
  ghost predicate NothingOverflows(t: seq<(int, int)>) {
    && (forall i :: 0 <= i < |t| ==> Is32(t[i].0) && Is32(t[i].1) && Is64(t[i].0 * t[i].1))
    && (forall n :: 0 <= n <= |t| ==> Is64(Sum(t[..n])))
  }

  /** The first factors are at most m in size, the second ones at most n. */
  predicate Factors(t: seq<(int, int)>, m: nat, n: nat) {
    forall i :: 0 <= i < |t| ==> Size(t[i].0) <= m && Size(t[i].1) <= n
  }

  lemma {:induction false} SumBounded(t: seq<(int, int)>, m: nat, n: nat, b: nat)
    requires Factors(t, m, n) && m * n <= b
    ensures Size(Sum(t)) <= |t| * b
  {
    if t != [] {
      var i := |t| - 1;
      SumBounded(t[..i], m, n, b);
      ProductBounded(t[i].0, t[i].1, m, n);
      assert |t| * b == i * b + b;
    }
  }

  lemma FactorsFit(t: seq<(int, int)>, m: nat, n: nat, b: nat)
    requires Factors(t, m, n) && m * n <= b && m < 0x8000_0000 && n < 0x8000_0000 && |t| * b < 0x8000_0000_0000_0000
    ensures NothingOverflows(t)
  {
    forall i | 0 <= i < |t|
      ensures Is32(t[i].0) && Is32(t[i].1) && Is64(t[i].0 * t[i].1)
    {
      ProductBounded(t[i].0, t[i].1, m, n);
      Product(1, |t|, b, b);
    }
    forall i | 0 <= i <= |t|
      ensures Is64(Sum(t[..i]))
    {
      SumBounded(t[..i], m, n, b);
      Product(i, |t|, b, b);
    }
  }

  lemma MulFactors(f: seq<int>, g: seq<int>, k: nat)
    requires |f| == |g| == 10 && k < 10
    requires Bounded(f, IN_EVEN, IN_ODD) && Bounded(g, IN_EVEN, IN_ODD)
    ensures Factors(MulTerms(f, g, k), IN_EVEN, 19 * IN_EVEN)
  {
    hide MulTerms;
    MulTermsAre(f, g, k);
  }

  /** Within the stated bounds fe_mul overflows nowhere. */
  lemma MulFits(f: seq<int>, g: seq<int>, k: nat)
    requires |f| == |g| == 10 && k < 10
    requires Bounded(f, IN_EVEN, IN_ODD) && Bounded(g, IN_EVEN, IN_ODD)
    ensures NothingOverflows(MulTerms(f, g, k)) && Size(Column(f, g, k)) <= 10 * TERM
  {
    hide MulTerms, Bounded, Sum, Factors, NothingOverflows;
    MulFactors(f, g, k);
    FactorsFit(MulTerms(f, g, k), IN_EVEN, 19 * IN_EVEN, TERM);
    SumBounded(MulTerms(f, g, k), IN_EVEN, 19 * IN_EVEN, TERM);
  }

  lemma SquareFactorsBounded(f: seq<int>, k: nat)
    requires |f| == 10 && k < 10 && Bounded(f, IN_EVEN, IN_ODD)
    ensures Factors(SquareTerms(f, k), 2 * IN_EVEN, 19 * IN_EVEN)
  {
    hide SquareTerms, Factors;
    if k < 4 {
      FirstSquareFactors(f, k);
    } else if k < 7 {
      NextSquareFactors(f, k);
    } else {
      LastSquareFactors(f, k);
    }
  }

  lemma FirstSquareFactors(f: seq<int>, k: nat)
    requires |f| == 10 && k < 4 && Bounded(f, IN_EVEN, IN_ODD)
    ensures Factors(SquareTerms(f, k), 2 * IN_EVEN, 19 * IN_EVEN)
  {}

  lemma NextSquareFactors(f: seq<int>, k: nat)
    requires |f| == 10 && 4 <= k < 7 && Bounded(f, IN_EVEN, IN_ODD)
    ensures Factors(SquareTerms(f, k), 2 * IN_EVEN, 19 * IN_EVEN)
  {}

  lemma LastSquareFactors(f: seq<int>, k: nat)
    requires |f| == 10 && 7 <= k < 10 && Bounded(f, IN_EVEN, IN_ODD)
    ensures Factors(SquareTerms(f, k), 2 * IN_EVEN, 19 * IN_EVEN)
  {}

  /** Nor does fe_sq, whose products are up to twice as large. */
  lemma SquareFits(f: seq<int>, k: nat)
    requires |f| == 10 && k < 10 && Bounded(f, IN_EVEN, IN_ODD)
    ensures NothingOverflows(SquareTerms(f, k))
  {
    hide SquareTerms, Bounded, Sum, Factors, NothingOverflows;
    SquareFactorsBounded(f, k);
    FactorsFit(SquareTerms(f, k), 2 * IN_EVEN, 19 * IN_EVEN, 2 * TERM);
  }

  lemma ColumnsBounded(f: seq<int>, g: seq<int>)
    requires |f| == |g| == 10
    requires Bounded(f, IN_EVEN, IN_ODD) && Bounded(g, IN_EVEN, IN_ODD)
    ensures Bounded(Columns(f, g), 10 * TERM, 10 * TERM)
  {
    hide Column;
    forall k | 0 <= k < 10
      ensures -10 * TERM <= Column(f, g, k) <= 10 * TERM
    {
      MulFits(f, g, k);
    }
  }

  function Radix(i: nat): int { if i % 2 == 0 then 0x400_0000 else 0x200_0000 }

  function RoundingCarry(x: int, i: nat): int {
    if i % 2 == 0 then (x + 0x200_0000) / 0x400_0000 else (x + 0x100_0000) / 0x200_0000
  }

  /** Limb i is rounded to less than half its radix; the carry goes to the next limb,
      or from the last one, times 19, to the first. */
  function Carried(h: seq<int>, i: nat): (t: seq<int>)
    requires |h| == 10 && i < 10
    ensures |t| == 10
  {
    var carry := RoundingCarry(h[i], i);
    if i < 9 then h[i + 1 := h[i + 1] + carry][i := h[i] - carry * Radix(i)]
    else h[0 := h[0] + carry * 19][9 := h[9] - carry * Radix(9)]
  }

  lemma UpdateValue(s: seq<int>, i: nat, v: int)
    requires |s| == 10 && i < 10
    ensures Val(s[i := v]) == Val(s) + Weight(i) * (v - s[i])
  {}

  lemma NextWeight(i: nat)
    requires i < 10
    ensures if i < 9 then Weight(i + 1) == Weight(i) * Radix(i) else F.P + 19 == Weight(i) * Radix(i)
  {}

  lemma CarriedValue(h: seq<int>, i: nat)
    requires |h| == 10 && i < 10
    ensures Elt(Carried(h, i)) == Elt(h)
  {
    hide F.Reduce, Val, Weight, Radix;
    var carry := RoundingCarry(h[i], i);
    var next := if i < 9 then i + 1 else 0;
    var h1 := h[next := h[next] + carry * (if i < 9 then 1 else 19)];
    UpdateValue(h, next, h1[next]);
    UpdateValue(h1, i, h[i] - carry * Radix(i));
    NextWeight(i);
    MovesUp(Weight(i), Radix(i), carry);
    WeightZero();
    F.ReduceShift(Val(h), -carry);
  }

  lemma WeightZero()
    ensures Weight(0) == 1
  {}

  lemma MovesUp(w: int, r: int, c: int)
    ensures w * (-(c * r)) == -((w * r) * c)
  {}

  const M: int := 0x3000_0000_0000_0000

  /** h[i] and the limb its carry goes to, before and after. */
  predicate CarriedLimbs(h: seq<int>, i: nat, t: seq<int>)
    requires |h| == |t| == 10 && i < 10
  {
    && -(Radix(i) / 2) <= t[i] < Radix(i) / 2
    && (if i < 9 then t[i] + Radix(i) * t[i + 1] == h[i] + Radix(i) * h[i + 1]
        else 19 * t[9] + Radix(9) * t[0] == 19 * h[9] + Radix(9) * h[0])
    && forall j :: 0 <= j < 10 && j != i && j != (i + 1) % 10 ==> t[j] == h[j]
  }

  lemma CarriedFits(h: seq<int>, i: nat)
    requires |h| == 10 && i < 10 && -M <= h[i] <= M && -M <= h[(i + 1) % 10] <= M
    ensures var t := Carried(h, i);
      CarriedLimbs(h, i, t) && -0x8000_0000_0000_0000 <= t[(i + 1) % 10] < 0x8000_0000_0000_0000
  {
    var carry := RoundingCarry(h[i], i);
    assert -(Radix(i) / 2) <= h[i] - carry * Radix(i) < Radix(i) / 2;
  }

  method Carry(h: Limbs64, i: nat) returns (t: Limbs64)
    requires i < 10 && -M <= h[i] <= M && -M <= h[(i + 1) % 10] <= M
    ensures Elt(t) == Elt(h) && CarriedLimbs(h, i, t)
  {
    hide Elt, RoundingCarry, Carried, CarriedLimbs, Radix;
    CarriedValue(h, i);
    CarriedFits(h, i);
    CarriedElsewhere(h, i);
    t := Carried(h, i);
  }

  lemma CarriedElsewhere(h: Limbs64, i: nat)
    requires i < 10 && CarriedLimbs(h, i, Carried(h, i))
    ensures forall j :: 0 <= j < 10 && j != (i + 1) % 10 ==> -0x8000_0000_0000_0000 <= Carried(h, i)[j] < 0x8000_0000_0000_0000
  {}

  const B: int := 10 * TERM

  predicate Within(x: int, m: int) { -m <= x <= m }

  /** The first four carries: limbs 0, 1, 4 and 5 become small. */
  method FirstCarries(h: Limbs64) returns (t: Limbs64)
    requires Bounded(h, B, B)
    ensures Elt(t) == Elt(h)
    ensures Within(t[0], 0x200_0000) && Within(t[1], 0x100_0000) && Within(t[4], 0x200_0000) && Within(t[5], 0x100_0000)
    ensures forall k :: 0 <= k < 10 ==> Within(t[k], B + 0x40_0000_0000)
  {
    hide Elt;
    t := Carry(h, 0);
    t := Carry(t, 4);
    t := Carry(t, 1);
    t := Carry(t, 5);
  }

  /** The next four: limbs 2, 3, 6 and 7. */
  method NextCarries(h: Limbs64) returns (t: Limbs64)
    requires Within(h[0], 0x200_0000) && Within(h[1], 0x100_0000) && Within(h[4], 0x200_0000) && Within(h[5], 0x100_0000)
    requires forall k :: 0 <= k < 10 ==> Within(h[k], B + 0x40_0000_0000)
    ensures Elt(t) == Elt(h)
    ensures Within(t[0], 0x200_0000) && Within(t[2], 0x200_0000) && Within(t[6], 0x200_0000)
    ensures Within(t[1], 0x100_0000) && Within(t[3], 0x100_0000) && Within(t[5], 0x100_0000) && Within(t[7], 0x100_0000)
    ensures Within(t[4], 0x40_0000_0000) && Within(t[8], B + 0x80_0000_0000) && Within(t[9], B + 0x40_0000_0000)
  {
    hide Elt;
    t := Carry(h, 2);
    t := Carry(t, 6);
    t := Carry(t, 3);
    t := Carry(t, 7);
  }

  /** Limb 4 again, and limb 8. */
  method LateCarries(h: Limbs64) returns (t: Limbs64)
    requires Within(h[0], 0x200_0000) && Within(h[2], 0x200_0000) && Within(h[6], 0x200_0000)
    requires Within(h[1], 0x100_0000) && Within(h[3], 0x100_0000) && Within(h[5], 0x100_0000) && Within(h[7], 0x100_0000)
    requires Within(h[4], 0x40_0000_0000) && Within(h[8], B + 0x80_0000_0000) && Within(h[9], B + 0x40_0000_0000)
    ensures Elt(t) == Elt(h) && Bounded(t[..9], 0x200_0000, 0x100_4000) && Within(t[1], 0x100_0000)
    ensures Within(t[9], B + 0x80_0000_0000)
  {
    hide Elt;
    t := Carry(h, 4);
    t := Carry(t, 8);
  }

  /** Limb 9, which carries round, and limb 0 again. */
  method LastCarries(h: Limbs64) returns (t: Limbs64)
    requires Bounded(h[..9], 0x200_0000, 0x100_4000) && Within(h[1], 0x100_0000) && Within(h[9], B + 0x80_0000_0000)
    ensures Elt(t) == Elt(h) && Bounded(t, OUT_EVEN, OUT_ODD)
  {
    hide Elt;
    assert forall k :: 0 <= k < 9 ==> h[k] == h[..9][k];
    t := Carry(h, 9);
    t := Carry(t, 0);
  }

  /** The twelve carries: from sums below 2^62 to limbs within 1.01 * 2^25 and 1.01 * 2^24. */
  method CarryChain(h: Limbs64) returns (t: Limbs64)
    requires Bounded(h, B, B)
    ensures Elt(t) == Elt(h) && Bounded(t, OUT_EVEN, OUT_ODD)
  {
    hide Elt;
    t := FirstCarries(h);
    t := NextCarries(t);
    t := LateCarries(t);
    t := LastCarries(t);
  }
}
