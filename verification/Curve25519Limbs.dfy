/** Field elements of curve25519.cpp: five 64-bit limbs of weight 2^(51 i).
    This module holds the value-level meaning of the limb code; the in-place
    array code of Curve25519 is proved against it. */
module Curve25519Limbs {
  import opened MachineInts
  import F = Field25519

  const B: int := 0x8000000000000 // 2^51
  const B2: int := 0x40000000000000000000000000 // 2^102

  /** Five limbs, or five 128-bit column accumulators. */
  datatype Felem = Felem(x0: int, x1: int, x2: int, x3: int, x4: int)

  function Val(f: Felem): int {
    f.x0 + B * (f.x1 + B * (f.x2 + B * (f.x3 + B * f.x4)))
  }

  /** The field element a limb vector stands for. */
  function Elt(f: Felem): F.Fp { F.Reduce(Val(f)) }

  ghost predicate Within(f: Felem, bound: int) {
    0 <= f.x0 <= bound && 0 <= f.x1 <= bound && 0 <= f.x2 <= bound && 0 <= f.x3 <= bound && 0 <= f.x4 <= bound
  }

  /** The largest limb the multiplication can take: what fdifference_backwards
      leaves inside fmonty. */
  const WIDE: int := 9 * B

  // ----- linear operations -----

  function Plus(f: Felem, g: Felem): Felem {
    Felem(f.x0 + g.x0, f.x1 + g.x1, f.x2 + g.x2, f.x3 + g.x3, f.x4 + g.x4)
  }

  function Scale(a: int, f: Felem): Felem {
    Felem(a * f.x0, a * f.x1, a * f.x2, a * f.x3, a * f.x4)
  }

  /** Multiplication by 2^51, up to a multiple of P. */
  function Rotate(f: Felem): Felem { Felem(19 * f.x4, f.x0, f.x1, f.x2, f.x3) }

  lemma PlusVal(f: Felem, g: Felem)
    ensures Val(Plus(f, g)) == Val(f) + Val(g)
  {}

  lemma ScaleVal(a: int, f: Felem)
    ensures Val(Scale(a, f)) == a * Val(f)
  {}

  lemma RotateVal(f: Felem)
    ensures Val(Rotate(f)) == B * Val(f) - F.P * f.x4
  {}

  // ----- multiplication -----

  /** The accumulators t[0..4] of fmul before carrying (lines 106-121). */
  function MulColumns(r: Felem, s: Felem): Felem {
    var r1 := Wrap64(r.x1 * 19);
    var r2 := Wrap64(r.x2 * 19);
    var r3 := Wrap64(r.x3 * 19);
    var r4 := Wrap64(r.x4 * 19);
    Felem(Wrap128(r.x0 * s.x0 + r4 * s.x1 + r1 * s.x4 + r2 * s.x3 + r3 * s.x2),
          Wrap128(r.x0 * s.x1 + r.x1 * s.x0 + r4 * s.x2 + r2 * s.x4 + r3 * s.x3),
          Wrap128(r.x0 * s.x2 + r.x2 * s.x0 + r.x1 * s.x1 + r4 * s.x3 + r3 * s.x4),
          Wrap128(r.x0 * s.x3 + r.x3 * s.x0 + r.x1 * s.x2 + r.x2 * s.x1 + r4 * s.x4),
          Wrap128(r.x0 * s.x4 + r.x4 * s.x0 + r.x3 * s.x1 + r.x1 * s.x3 + r.x2 * s.x2))
  }

  /** The carry pass shared by fmul and fsquare_times (lines 122-129, 171-178). */
  function CarryColumns(t: Felem): Felem {
    var (r, c) := UpwardPass(t);
    BottomPass(r, c)
  }

  /** Low halves of the columns, carrying upward, and the carry out of the top. */
  function UpwardPass(t: Felem): (Felem, u64) {
    var t1 := Wrap128(t.x1 + Wrap64(t.x0 / B));
    var t2 := Wrap128(t.x2 + Wrap64(t1 / B));
    var t3 := Wrap128(t.x3 + Wrap64(t2 / B));
    var t4 := Wrap128(t.x4 + Wrap64(t3 / B));
    (Felem(t.x0 % B, t1 % B, t2 % B, t3 % B, t4 % B), Wrap64(t4 / B))
  }

  /** The top carry comes back 19-fold at the bottom. */
  function BottomPass(r: Felem, c: u64): Felem {
    var s0 := Wrap64(r.x0 + Wrap64(c * 19));
    var s1 := Wrap64(r.x1 + s0 / B);
    Felem(s0 % B, s1 % B, Wrap64(r.x2 + s1 / B), r.x3, r.x4)
  }

  function Fmul(r: Felem, s: Felem): Felem { CarryColumns(MulColumns(r, s)) }

  /** Column sizes below which the carry pass loses nothing. */
  ghost predicate SmallColumns(t: Felem) {
    && 0 <= t.x0 <= 6237 * B2
    && 0 <= t.x1 <= 4779 * B2
    && 0 <= t.x2 <= 3321 * B2
    && 0 <= t.x3 <= 1863 * B2
    && 0 <= t.x4 <= 405 * B2
  }

  lemma NoWrap64(x: int)
    requires 0 <= x < TWO_64
    ensures Wrap64(x) == x
  {}

  /** Carrying c0 .. c4 upward moves 2^255 c4 out of the value. */
  lemma CarriesVal(t: Felem, l: Felem, c0: int, c1: int, c2: int, c3: int, c4: int)
    requires t.x0 == B * c0 + l.x0 && t.x1 + c0 == B * c1 + l.x1 && t.x2 + c1 == B * c2 + l.x2
    requires t.x3 + c2 == B * c3 + l.x3 && t.x4 + c3 == B * c4 + l.x4
    ensures Val(t) == Val(l) + (F.P + 19) * c4
  {}

  /** One carry between columns: nothing is lost when the quotient fits a limb. */
  lemma ColumnCarry(t: int, next: int, k: int, m: int)
    requires 0 <= k < 0x2000 && 0 <= m < 0x2000
    requires 0 <= t <= k * B2 + (k + 1) * B && 0 <= next <= m * B2
    ensures Wrap64(t / B) == t / B <= (k + 1) * B
    ensures Wrap128(next + t / B) == next + t / B
  {}

  lemma UpwardPassCorrect(t: Felem)
    requires SmallColumns(t)
    ensures var (r, c) := UpwardPass(t);
      Within(r, B - 1) && c <= 407 * B && Val(t) == Val(r) + (F.P + 19) * c
  {
    hide Wrap64, Wrap128;
    var c0 := t.x0 / B;
    ColumnCarry(t.x0, t.x1, 6237, 4779);
    var c1 := (t.x1 + c0) / B;
    ColumnCarry(t.x1 + c0, t.x2, 4780, 3321);
    var c2 := (t.x2 + c1) / B;
    ColumnCarry(t.x2 + c1, t.x3, 3322, 1863);
    var c3 := (t.x3 + c2) / B;
    ColumnCarry(t.x3 + c2, t.x4, 1864, 405);
    var c4 := (t.x4 + c3) / B;
    ColumnCarry(t.x4 + c3, 0, 406, 0);
  }

  lemma BottomPassCorrect(r: Felem, c: u64)
    requires Within(r, B - 1) && c <= 407 * B
    ensures Within(BottomPass(r, c), B)
    ensures Val(BottomPass(r, c)) == Val(r) + 19 * c
  {}

  lemma CarryCorrect(t: Felem)
    requires SmallColumns(t)
    ensures Within(CarryColumns(t), B)
    ensures Elt(CarryColumns(t)) == Elt(t)
  {
    hide UpwardPass, BottomPass, Val, F.Reduce, Within, SmallColumns;
    var (r, c) := UpwardPass(t);
    UpwardPassCorrect(t);
    BottomPassCorrect(r, c);
    TopCarry(Val(t), Val(r), c);
  }

  /** 2^255 is 19 modulo P. */
  lemma TopCarry(v: int, w: int, c: int)
    requires v == w + (F.P + 19) * c
    ensures F.Reduce(v) == F.Reduce(w + 19 * c)
  {
    F.ReduceShift(w + 19 * c, c);
  }

  // ----- products -----

  lemma ProductBound(a: int, b: int)
    requires 0 <= a <= WIDE && 0 <= b <= WIDE
    ensures 0 <= a * b <= 81 * B2
  {
    assert a * b <= WIDE * b;
  }

  /** The same columns without truncation. */
  function PlainColumns(r: Felem, s: Felem): Felem {
    Felem(r.x0 * s.x0 + 19 * (r.x4 * s.x1 + r.x1 * s.x4 + r.x2 * s.x3 + r.x3 * s.x2),
          r.x0 * s.x1 + r.x1 * s.x0 + 19 * (r.x4 * s.x2 + r.x2 * s.x4 + r.x3 * s.x3),
          r.x0 * s.x2 + r.x2 * s.x0 + r.x1 * s.x1 + 19 * (r.x4 * s.x3 + r.x3 * s.x4),
          r.x0 * s.x3 + r.x3 * s.x0 + r.x1 * s.x2 + r.x2 * s.x1 + 19 * (r.x4 * s.x4),
          r.x0 * s.x4 + r.x4 * s.x0 + r.x3 * s.x1 + r.x1 * s.x3 + r.x2 * s.x2)
  }

  lemma PlainColumnsSmall(r: Felem, s: Felem)
    requires Within(r, WIDE) && Within(s, WIDE)
    ensures SmallColumns(PlainColumns(r, s))
  {
    ProductBound(r.x0, s.x0); ProductBound(r.x0, s.x1); ProductBound(r.x0, s.x2); ProductBound(r.x0, s.x3); ProductBound(r.x0, s.x4);
    ProductBound(r.x1, s.x0); ProductBound(r.x1, s.x1); ProductBound(r.x1, s.x2); ProductBound(r.x1, s.x3); ProductBound(r.x1, s.x4);
    ProductBound(r.x2, s.x0); ProductBound(r.x2, s.x1); ProductBound(r.x2, s.x2); ProductBound(r.x2, s.x3); ProductBound(r.x2, s.x4);
    ProductBound(r.x3, s.x0); ProductBound(r.x3, s.x1); ProductBound(r.x3, s.x2); ProductBound(r.x3, s.x3); ProductBound(r.x3, s.x4);
    ProductBound(r.x4, s.x0); ProductBound(r.x4, s.x1); ProductBound(r.x4, s.x2); ProductBound(r.x4, s.x3); ProductBound(r.x4, s.x4);
  }

  lemma Nineteen(a: int, b: int)
    ensures a * (19 * b) == 19 * (a * b) == (a * 19) * b
  {}

  /** Nothing is truncated: neither r[i] * 19 nor any column. */
  lemma MulColumnsDoNotWrap(r: Felem, s: Felem)
    requires Within(r, WIDE) && Within(s, WIDE)
    ensures MulColumns(r, s) == PlainColumns(r, s)
  {
    PlainColumnsSmall(r, s);
    Nineteen(r.x4, s.x1); Nineteen(r.x1, s.x4); Nineteen(r.x2, s.x3); Nineteen(r.x3, s.x2); Nineteen(r.x4, s.x2);
    Nineteen(r.x2, s.x4); Nineteen(r.x3, s.x3); Nineteen(r.x4, s.x3); Nineteen(r.x3, s.x4); Nineteen(r.x4, s.x4);
  }

  /** One Horner step of the schoolbook product, modulo P. */
  lemma HornerStep(a: int, h: int, v: int, w: int, k: int)
    requires w == B * v - F.P * k
    ensures a * v + h * w == (a + B * h) * v - F.P * (h * k)
  {
    calc {
      a * v + h * w;
      a * v + h * (B * v - F.P * k);
      a * v + (B * h) * v - F.P * (h * k);
    }
  }

  /** The columns are the sum of r[i] times s rotated i places. */
  lemma ColumnsAsRotations(r: Felem, s: Felem)
    ensures var s1 := Rotate(s); var s2 := Rotate(s1); var s3 := Rotate(s2); var s4 := Rotate(s3);
      PlainColumns(r, s) ==
      Plus(Scale(r.x0, s), Plus(Scale(r.x1, s1), Plus(Scale(r.x2, s2), Plus(Scale(r.x3, s3), Scale(r.x4, s4)))))
  {
    Nineteen(r.x4, s.x1); Nineteen(r.x1, s.x4); Nineteen(r.x2, s.x3); Nineteen(r.x3, s.x2); Nineteen(r.x4, s.x2);
    Nineteen(r.x2, s.x4); Nineteen(r.x3, s.x3); Nineteen(r.x4, s.x3); Nineteen(r.x3, s.x4); Nineteen(r.x4, s.x4);
  }

  lemma RotationSum(r: Felem, v0: int, v1: int, v2: int, v3: int, v4: int, k1: int, k2: int, k3: int, k4: int)
    requires v1 == B * v0 - F.P * k1 && v2 == B * v1 - F.P * k2 && v3 == B * v2 - F.P * k3 && v4 == B * v3 - F.P * k4
    ensures F.Reduce(r.x0 * v0 + (r.x1 * v1 + (r.x2 * v2 + (r.x3 * v3 + r.x4 * v4)))) == F.Reduce(Val(r) * v0)
  {
    hide F.Reduce;
    var h3 := r.x3 + B * r.x4;
    var h2 := r.x2 + B * h3;
    var h1 := r.x1 + B * h2;
    HornerStep(r.x3, r.x4, v3, v4, k4);
    HornerStep(r.x2, h3, v2, v3, k3);
    HornerStep(r.x1, h2, v1, v2, k2);
    HornerStep(r.x0, h1, v0, v1, k1);
    var m := r.x4 * k4 + h3 * k3 + h2 * k2 + h1 * k1;
    F.ReduceShift(Val(r) * v0, -m);
  }

  lemma PlainColumnsVal(r: Felem, s: Felem)
    ensures Elt(PlainColumns(r, s)) == F.Mul(Elt(r), Elt(s))
  {
    hide PlainColumns, Val, Rotate, Plus, Scale, F.Reduce;
    var s1 := Rotate(s); var s2 := Rotate(s1); var s3 := Rotate(s2); var s4 := Rotate(s3);
    ColumnsAsRotations(r, s);
    var p4 := Scale(r.x4, s4);
    var p3 := Plus(Scale(r.x3, s3), p4);
    var p2 := Plus(Scale(r.x2, s2), p3);
    var p1 := Plus(Scale(r.x1, s1), p2);
    ScaleVal(r.x4, s4); ScaleVal(r.x3, s3); ScaleVal(r.x2, s2); ScaleVal(r.x1, s1); ScaleVal(r.x0, s);
    PlusVal(Scale(r.x3, s3), p4); PlusVal(Scale(r.x2, s2), p3); PlusVal(Scale(r.x1, s1), p2); PlusVal(Scale(r.x0, s), p1);
    RotateVal(s); RotateVal(s1); RotateVal(s2); RotateVal(s3);
    RotationSum(r, Val(s), Val(s1), Val(s2), Val(s3), Val(s4), s.x4, s1.x4, s2.x4, s3.x4);
    F.ReduceMul(Val(r), Val(s));
  }

  /** fmul multiplies in the field, and its output is small enough to be summed,
      subtracted and multiplied again. */
  lemma FmulCorrect(r: Felem, s: Felem)
    requires Within(r, WIDE) && Within(s, WIDE)
    ensures Elt(Fmul(r, s)) == F.Mul(Elt(r), Elt(s))
    ensures Within(Fmul(r, s), B)
  {
    hide PlainColumns, MulColumns, CarryColumns, Elt, Within, SmallColumns;
    MulColumnsDoNotWrap(r, s);
    PlainColumnsSmall(r, s);
    PlainColumnsVal(r, s);
    CarryCorrect(MulColumns(r, s));
  }

  // ----- squaring -----

  /** The accumulators of fsquare_times (lines 165-169). */
  function SquareColumns(r: Felem): Felem {
    var d0 := Wrap64(r.x0 * 2);
    var d1 := Wrap64(r.x1 * 2);
    var d2 := Wrap64(Wrap64(r.x2 * 2) * 19);
    var d419 := Wrap64(r.x4 * 19);
    var d4 := Wrap64(d419 * 2);
    Felem(Wrap128(r.x0 * r.x0 + d4 * r.x1 + d2 * r.x3),
          Wrap128(d0 * r.x1 + d4 * r.x2 + r.x3 * Wrap64(r.x3 * 19)),
          Wrap128(d0 * r.x2 + r.x1 * r.x1 + d4 * r.x3),
          Wrap128(d0 * r.x3 + d1 * r.x2 + r.x4 * d419),
          Wrap128(d0 * r.x4 + d1 * r.x3 + r.x2 * r.x2))
  }

  function Fsquare(r: Felem): Felem { CarryColumns(SquareColumns(r)) }

  lemma Coefficients(a: int, b: int)
    ensures (a * 2) * b == 2 * (a * b) && (a * 19) * b == 19 * (a * b) && (a * 38) * b == 38 * (a * b)
    ensures a * b == b * a && a * (b * 19) == 19 * (a * b)
  {}

  lemma SquareColumnsArePlain(r: Felem)
    requires Within(r, WIDE)
    ensures SquareColumns(r) == PlainColumns(r, r)
  {
    PlainColumnsSmall(r, r);
    Coefficients(r.x4, r.x1); Coefficients(r.x2, r.x3); Coefficients(r.x0, r.x1); Coefficients(r.x4, r.x2);
    Coefficients(r.x3, r.x3); Coefficients(r.x0, r.x2); Coefficients(r.x4, r.x3); Coefficients(r.x0, r.x3);
    Coefficients(r.x1, r.x2); Coefficients(r.x4, r.x4); Coefficients(r.x0, r.x4); Coefficients(r.x1, r.x3);
  }

  lemma FsquareCorrect(r: Felem)
    requires Within(r, WIDE)
    ensures Elt(Fsquare(r)) == F.Sqr(Elt(r))
    ensures Within(Fsquare(r), B)
  {
    hide PlainColumns, MulColumns, SquareColumns, CarryColumns, Elt, Within, SmallColumns;
    SquareColumnsArePlain(r);
    PlainColumnsSmall(r, r);
    PlainColumnsVal(r, r);
    CarryCorrect(SquareColumns(r));
  }

  // ----- sums, differences, small multiples -----

  function LimbSum(x: int, y: int): u64 { Wrap64(x + y) }

  function Fsum(f: Felem, g: Felem): Felem {
    Felem(LimbSum(f.x0, g.x0), LimbSum(f.x1, g.x1), LimbSum(f.x2, g.x2), LimbSum(f.x3, g.x3), LimbSum(f.x4, g.x4))
  }

  lemma FsumCorrect(f: Felem, g: Felem, b: nat, c: nat)
    requires Within(f, b) && Within(g, c) && b + c < TWO_64
    ensures Elt(Fsum(f, g)) == F.Add(Elt(f), Elt(g))
    ensures Within(Fsum(f, g), b + c)
  {
    hide Fsum, Plus, Val, F.Reduce;
    FsumIsPlus(f, g, b, c);
    PlusVal(f, g);
    F.ReduceAdd(Val(f), Val(g));
  }

  lemma FsumIsPlus(f: Felem, g: Felem, b: nat, c: nat)
    requires Within(f, b) && Within(g, c) && b + c < TWO_64
    ensures Fsum(f, g) == Plus(f, g) && Within(Fsum(f, g), b + c)
  {}

  const TWO_54_M152: int := 8 * B - 152
  const TWO_54_M8: int := 8 * B - 8

  /** One limb of fdifference_backwards: offset is a limb of 8 P. */
  function LimbDifference(out: int, inp: int, offset: int): u64 { Wrap64(inp + offset - out) }

  /** fdifference_backwards: in - out, made nonnegative by adding 8 P. */
  function Fdifference(out: Felem, inp: Felem): Felem {
    Felem(LimbDifference(out.x0, inp.x0, TWO_54_M152), LimbDifference(out.x1, inp.x1, TWO_54_M8),
          LimbDifference(out.x2, inp.x2, TWO_54_M8), LimbDifference(out.x3, inp.x3, TWO_54_M8),
          LimbDifference(out.x4, inp.x4, TWO_54_M8))
  }

  lemma FdifferenceCorrect(out: Felem, inp: Felem)
    requires Within(out, B) && Within(inp, B)
    ensures Elt(Fdifference(out, inp)) == F.Sub(Elt(inp), Elt(out))
    ensures Within(Fdifference(out, inp), WIDE)
  {
    hide Fdifference, Val, F.Reduce;
    FdifferenceVal(out, inp);
    F.ReduceShift(Val(inp) - Val(out), 8);
    F.ReduceSub(Val(inp), Val(out));
  }

  lemma FdifferenceVal(out: Felem, inp: Felem)
    requires Within(out, B) && Within(inp, B)
    ensures Val(Fdifference(out, inp)) == Val(inp) - Val(out) + F.P * 8
    ensures Within(Fdifference(out, inp), WIDE)
  {}

  /** fscalar_product: a carry goes up through the products and comes back 19-fold. */
  function FscalarProduct(f: Felem, scalar: int): Felem {
    var (r, a4) := ScalarPass(Scale(scalar, f));
    r.(x0 := Wrap64(r.x0 + (a4 / B) * 19))
  }

  function ScalarPass(t: Felem): (Felem, int) {
    var a0 := Wrap128(t.x0);
    var a1 := Wrap128(t.x1 + Wrap64(a0 / B));
    var a2 := Wrap128(t.x2 + Wrap64(a1 / B));
    var a3 := Wrap128(t.x3 + Wrap64(a2 / B));
    var a4 := Wrap128(t.x4 + Wrap64(a3 / B));
    (Felem(a0 % B, a1 % B, a2 % B, a3 % B, a4 % B), a4)
  }

  /** Nothing is lost for scalars of 56 bits. */
  lemma FscalarProductCorrect(f: Felem, scalar: nat)
    requires Within(f, WIDE) && B + 171 * scalar + 0x13000 <= TWO_64
    ensures Elt(FscalarProduct(f, scalar)) == F.Mul(F.Reduce(scalar), Elt(f))
    ensures Within(FscalarProduct(f, scalar), B + 171 * scalar + 0x13000)
  {
    hide ScalarPass, Val, Scale, F.Reduce;
    var t := Scale(scalar, f);
    ScaledWithin(f, scalar);
    var (r, a4) := ScalarPass(t);
    ScalarPassVal(t, 9 * scalar);
    BottomLimb(r, 19 * (a4 / B));
    NoWrap64(r.x0 + 19 * (a4 / B));
    TopCarry(Val(t), Val(r), a4 / B);
    ScaleVal(scalar, f);
    F.ReduceMul(scalar, Val(f));
  }

  lemma ScaledWithin(f: Felem, scalar: nat)
    requires Within(f, WIDE)
    ensures Within(Scale(scalar, f), 9 * scalar * B)
  {
    AtMostScaled(f.x0, scalar); AtMostScaled(f.x1, scalar); AtMostScaled(f.x2, scalar); AtMostScaled(f.x3, scalar); AtMostScaled(f.x4, scalar);
  }

  lemma AtMostScaled(x: int, scalar: nat)
    requires 0 <= x <= WIDE
    ensures 0 <= scalar * x <= 9 * scalar * B
  {
    assert scalar * x <= scalar * WIDE;
  }

  lemma BottomLimb(f: Felem, d: int)
    ensures Val(f.(x0 := f.x0 + d)) == Val(f) + d
    ensures Within(f, B - 1) ==> f.x0 <= Val(f)
  {}

  function Carry(x: int): int { x / B }

  function Low(x: int): int { x % B }

  lemma ScalarPassVal(t: Felem, m: nat)
    requires Within(t, m * B) && m < 0x1000_0000_0000_0000
    ensures var (r, a4) := ScalarPass(t);
      Within(r, B - 1) && 0 <= a4 / B <= m + 0x1000 && Val(t) == Val(r) + (F.P + 19) * (a4 / B)
  {
    hide Wrap64, Wrap128, Val, ScalarPass, Carry, Low;
    var c0 := SmallCarry(t.x0, 0, m);
    var c1 := SmallCarry(t.x1, c0, m);
    var c2 := SmallCarry(t.x2, c1, m);
    var c3 := SmallCarry(t.x3, c2, m);
    var c4 := SmallCarry(t.x4, c3, m);
    var r := Felem(Low(t.x0), Low(t.x1 + c0), Low(t.x2 + c1), Low(t.x3 + c2), Low(t.x4 + c3));
    ScalarPassIs(t, c0, c1, c2, c3);
    CarriesVal(t, r, c0, c1, c2, c3, c4);
    assert ScalarPass(t).1 / B == c4 by { CarryIs(t.x4 + c3); }
  }

  lemma CarryIs(x: int)
    ensures Carry(x) == x / B
  {}

  lemma ScalarPassIs(t: Felem, c0: int, c1: int, c2: int, c3: int)
    requires Wrap128(t.x0) == t.x0 && Wrap64(c0) == c0 == Carry(t.x0)
    requires Wrap128(t.x1 + c0) == t.x1 + c0 && Wrap64(c1) == c1 == Carry(t.x1 + c0)
    requires Wrap128(t.x2 + c1) == t.x2 + c1 && Wrap64(c2) == c2 == Carry(t.x2 + c1)
    requires Wrap128(t.x3 + c2) == t.x3 + c2 && Wrap64(c3) == c3 == Carry(t.x3 + c2)
    requires Wrap128(t.x4 + c3) == t.x4 + c3
    ensures ScalarPass(t) ==
      (Felem(Low(t.x0), Low(t.x1 + c0), Low(t.x2 + c1), Low(t.x3 + c2), Low(t.x4 + c3)), t.x4 + c3)
  {
    hide Wrap64, Wrap128;
  }

  /** A carry of the scalar product is hardly more than the largest column divided. */
  lemma SmallCarry(x: int, c: int, m: nat) returns (d: int)
    requires 0 <= x <= m * B && m < 0x1000_0000_0000_0000 && 0 <= c <= m + 0x1000
    ensures d == Carry(x + c) && x + c == B * d + Low(x + c) && 0 <= Low(x + c) < B && 0 <= d <= m + 0x1000
    ensures Wrap64(d) == d && Wrap128(x + c) == x + c
  {
    d := Carry(x + c);
  }
}
