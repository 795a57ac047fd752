/** How wide the limbs that fmul of curve25519.cpp multiplies may be. */
module Curve25519Bound {
  import opened MachineInts
  import opened Curve25519Limbs
  import F = Field25519

  const TEN: Felem := Felem(10 * B, 10 * B, 10 * B, 10 * B, 10 * B)

  lemma TenIsTooWide()
    ensures Elt(Fmul(TEN, TEN)) != F.Mul(Elt(TEN), Elt(TEN))
  {
    hide Fmul, Elt, F.Mul;
    var g := Felem(190, 10, 10, 10, 10);
    LostCarry();
    SameElement();
    NoLostCarry();
    FmulCorrect(g, g);
    SmallValuesDiffer(Fmul(TEN, TEN), Fmul(g, g));
  }

  lemma SameElement()
    ensures Elt(TEN) == Elt(Felem(190, 10, 10, 10, 10))
  {
    F.ReduceShift(Val(Felem(190, 10, 10, 10, 10)), 10);
  }

  lemma NoLostCarry()
    ensures var g := Felem(190, 10, 10, 10, 10);
      Fmul(g, g) == Felem(43700, 9500, 7700, 5900, 4100)
  {
    var g, t := Felem(190, 10, 10, 10, 10), Felem(43700, 9500, 7700, 5900, 4100);
    assert MulColumns(g, g) == t;
    assert UpwardPass(t) == (t, 0);
  }

  lemma SmallValuesDiffer(f: Felem, g: Felem)
    requires Within(f, 0xffff) && Within(g, 0xffff) && f != g
    ensures Elt(f) != Elt(g)
  {
    hide Val;
    if Val(f) == Val(g) {
      LimbsUnique(f, g);
    }
    SmallVal(f);
    SmallVal(g);
  }

  lemma SmallVal(f: Felem)
    requires Within(f, 0xffff)
    ensures 0 <= Val(f) < F.P
  {}

  lemma DigitUnique(x: int, y: int, a: int, b: int)
    requires 0 <= x < B && 0 <= y < B && x + B * a == y + B * b
    ensures x == y && a == b
  {}

  /** Carried limbs are determined by their value. */
  lemma LimbsUnique(f: Felem, g: Felem)
    requires Within(f, B - 1) && Within(g, B - 1) && Val(f) == Val(g)
    ensures f == g
  {
    var f3, g3 := f.x3 + B * f.x4, g.x3 + B * g.x4;
    var f2, g2 := f.x2 + B * f3, g.x2 + B * g3;
    var f1, g1 := f.x1 + B * f2, g.x1 + B * g2;
    DigitUnique(f.x0, g.x0, f1, g1);
    DigitUnique(f.x1, g.x1, f2, g2);
    DigitUnique(f.x2, g.x2, f3, g3);
    DigitUnique(f.x3, g.x3, f.x4, g.x4);
  }

  lemma LostCarry()
    ensures Fmul(TEN, TEN) == Felem(43700, 1308, 7700, 5900, 4100)
  {
    var t := Felem(7700 * B2, 5900 * B2, 4100 * B2, 2300 * B2, 500 * B2);
    assert MulColumns(TEN, TEN) == t;
    hide MulColumns;
    LostInPass();
  }

  lemma LostInPass()
    ensures CarryColumns(Felem(7700 * B2, 5900 * B2, 4100 * B2, 2300 * B2, 500 * B2)) == Felem(43700, 1308, 7700, 5900, 4100)
  {
    hide UpwardPass, BottomPass;
    LostUpward();
    LostBottom();
  }

  lemma LostUpward()
    ensures UpwardPass(Felem(7700 * B2, 5900 * B2, 4100 * B2, 2300 * B2, 500 * B2)) == (Felem(0, 0, 7700, 5900, 4100), 500 * B + 2300)
  {}

  /** 9500 * 2^51 + 43700 is kept modulo 2^64. */
  lemma LostBottom()
    ensures BottomPass(Felem(0, 0, 7700, 5900, 4100), 500 * B + 2300) == Felem(43700, 1308, 7700, 5900, 4100)
  {
    assert Wrap64((500 * B + 2300) * 19) == 1308 * B + 43700;
    hide Wrap64;
    NoWrap64(1308 * B + 43700);
    NoWrap64(1308);
    NoWrap64(7700);
  }

  /** fmul multiplies in the field whenever all limbs are within k * 2^51. */
  ghost predicate Multiplies(k: nat) {
    forall r, s :: Within(r, k * B) && Within(s, k * B) ==> Elt(Fmul(r, s)) == F.Mul(Elt(r), Elt(s))
  }

  /** How wide the limbs may be.  The comment at line 85 allows 16 * 2^51; from
      10 * 2^51 on, the top carry times 19 no longer fits a limb. */
  lemma FmulBound(k: nat)
    ensures Multiplies(k) <==> k <= 9
  {
    hide Fmul, Elt, F.Mul;
    if k <= 9 {
      forall r, s | Within(r, k * B) && Within(s, k * B)
        ensures Elt(Fmul(r, s)) == F.Mul(Elt(r), Elt(s))
      {
        FmulCorrect(r, s);
      }
    } else {
      TenIsTooWide();
      assert Within(TEN, k * B);
    }
  }
}
