/** Scalars of ed25519.cpp as 24 signed limbs of 21 bits, and what its folds and carries
    do to the number they stand for. */
module ScalarLimbs {
  const RADIX: int := 0x20_0000
  const DELTA: int := 27742317777372353535851937790883648493
  const TWO_252: int := 0x1000000000000000000000000000000000000000000000000000000000000000
  /** The order of the base point, section 5.1 of RFC 8032. */
  const L: int := TWO_252 + DELTA

  function ValueOf(s: seq<int>): int {
    if s == [] then 0 else s[0] + RADIX * ValueOf(s[1..])
  }

  function Weight(n: nat): (w: nat)
    ensures w >= 1
  {
    if n == 0 then 1 else RADIX * Weight(n - 1)
  }

  lemma {:induction false} UpdateValue(s: seq<int>, i: nat, v: int)
    requires i < |s|
    ensures ValueOf(s[i := v]) == ValueOf(s) + (v - s[i]) * Weight(i)
  {
    if i == 0 {
      assert s[i := v][1..] == s[1..];
    } else {
      assert s[i := v][1..] == s[1..][i - 1 := v];
      UpdateValue(s[1..], i - 1, v);
      Swap(v - s[i], RADIX, Weight(i - 1));
    }
  }

  lemma Swap(a: int, b: int, c: int)
    ensures a * (b * c) == b * (a * c)
  {}

  // ----- folding -----

  /** Limb i stands for x 2^(21 i) = x 2^252 2^(21 (i - 12)), and 2^252 is -DELTA modulo
      L, written in six signed limbs. */
  function Fold(s: seq<int>, i: nat): seq<int>
    requires |s| == 24 && 12 <= i < 24
  {
    var x := s[i];
    s[i - 12 := s[i - 12] + x * 666643][i - 11 := s[i - 11] + x * 470296][i - 10 := s[i - 10] + x * 654183]
     [i - 9 := s[i - 9] - x * 997805][i - 8 := s[i - 8] + x * 136657][i - 7 := s[i - 7] - x * 683901][i := 0]
  }

  lemma FoldTerms(s: seq<int>, i: nat)
    requires |s| == 24 && 12 <= i < 24
    ensures var x := s[i];
      ValueOf(Fold(s, i)) == ValueOf(s) + (x * 666643) * Weight(i - 12) + (x * 470296) * Weight(i - 11)
        + (x * 654183) * Weight(i - 10) - (x * 997805) * Weight(i - 9) + (x * 136657) * Weight(i - 8)
        - (x * 683901) * Weight(i - 7) - x * Weight(i)
  {
    hide ValueOf, Weight;
    var x := s[i];
    var a0, a1, a2, a3, a4, a5 := x * 666643, x * 470296, x * 654183, x * 997805, x * 136657, x * 683901;
    var s1 := s[i - 12 := s[i - 12] + a0];
    var s2 := s1[i - 11 := s[i - 11] + a1];
    var s3 := s2[i - 10 := s[i - 10] + a2];
    var s4 := s3[i - 9 := s[i - 9] - a3];
    var s5 := s4[i - 8 := s[i - 8] + a4];
    var s6 := s5[i - 7 := s[i - 7] - a5];
    UpdateValue(s, i - 12, s[i - 12] + a0);
    UpdateValue(s1, i - 11, s[i - 11] + a1);
    UpdateValue(s2, i - 10, s[i - 10] + a2);
    UpdateValue(s3, i - 9, s[i - 9] - a3);
    UpdateValue(s4, i - 8, s[i - 8] + a4);
    UpdateValue(s5, i - 7, s[i - 7] - a5);
    UpdateValue(s6, i, 0);
    Negated(a3, Weight(i - 9));
    Negated(a5, Weight(i - 7));
    Negated(x, Weight(i));
  }

  lemma Negated(a: int, b: int)
    ensures (-a) * b == -(a * b)
  {}

  lemma FoldValue(s: seq<int>, i: nat)
    requires |s| == 24 && 12 <= i < 24
    ensures ValueOf(Fold(s, i)) == ValueOf(s) - L * (s[i] * Weight(i - 12))
  {
    hide ValueOf, Weight, Fold;
    FoldTerms(s, i);
    WeightsFrom(i - 12);
    FoldSum(s[i], Weight(i - 12));
  }

  lemma WeightsFrom(n: nat)
    ensures var w := Weight(n);
      && Weight(n + 1) == 0x20_0000 * w && Weight(n + 2) == 0x400_0000_0000 * w
      && Weight(n + 3) == 0x8000_0000_0000_0000 * w && Weight(n + 4) == 0x10_0000_0000_0000_0000_0000 * w
      && Weight(n + 5) == 0x200000000000000000000000000 * w
      && Weight(n + 12) == TWO_252 * w
  {
    assert Weight(n + 1) == RADIX * Weight(n) && Weight(n + 2) == RADIX * Weight(n + 1);
    assert Weight(n + 3) == RADIX * Weight(n + 2) && Weight(n + 4) == RADIX * Weight(n + 3);
    assert Weight(n + 5) == RADIX * Weight(n + 4) && Weight(n + 6) == RADIX * Weight(n + 5);
    assert Weight(n + 7) == RADIX * Weight(n + 6) && Weight(n + 8) == RADIX * Weight(n + 7);
    assert Weight(n + 9) == RADIX * Weight(n + 8) && Weight(n + 10) == RADIX * Weight(n + 9);
    assert Weight(n + 11) == RADIX * Weight(n + 10) && Weight(n + 12) == RADIX * Weight(n + 11);
  }

  lemma FoldSum(x: int, w: int)
    ensures (x * 666643) * w + (x * 470296) * (0x20_0000 * w) + (x * 654183) * (0x400_0000_0000 * w)
      - (x * 997805) * (0x8000_0000_0000_0000 * w) + (x * 136657) * (0x10_0000_0000_0000_0000_0000 * w)
      - (x * 683901) * (0x200000000000000000000000000 * w) - x * (TWO_252 * w) == -L * (x * w)
  {}

  // ----- carrying -----

  /** c times the radix moves from limb i to c more in limb i + 1. */
  function Carry(s: seq<int>, i: nat, c: int): seq<int>
    requires |s| == 24 && i < 23
  {
    s[i + 1 := s[i + 1] + c][i := s[i] - c * RADIX]
  }

  lemma CarryValue(s: seq<int>, i: nat, c: int)
    requires |s| == 24 && i < 23
    ensures ValueOf(Carry(s, i, c)) == ValueOf(s)
  {
    hide ValueOf;
    var s1 := s[i + 1 := s[i + 1] + c];
    UpdateValue(s, i + 1, s[i + 1] + c);
    UpdateValue(s1, i, s[i] - c * RADIX);
    var w := Weight(i);
    assert Weight(i + 1) == RADIX * w;
    Swap(c, RADIX, w);
    assert c * Weight(i + 1) == RADIX * (c * w);
    assert (-(c * RADIX)) * w == -(RADIX * (c * w));
  }

  /** The carry that leaves a limb between -2^20 and 2^20 - 1. */
  function RoundingCarry(x: int): int { (x + 0x10_0000) / RADIX }

  /** The carry that leaves a limb between 0 and 2^21 - 1. */
  function FloorCarry(x: int): int { x / RADIX }

  lemma LowValue(s: seq<int>)
    requires forall x :: x in s ==> 0 <= x < RADIX
    ensures 0 <= ValueOf(s) < Weight(|s|)
  {
    if s != [] {
      assert s[0] in s && forall x :: x in s[1..] ==> x in s;
      LowValue(s[1..]);
    }
  }

  lemma {:induction false} ConcatValue(a: seq<int>, b: seq<int>)
    ensures ValueOf(a + b) == ValueOf(a) + Weight(|a|) * ValueOf(b)
  {
    if a == [] {
      assert a + b == b;
    } else {
      assert (a + b)[1..] == a[1..] + b;
      ConcatValue(a[1..], b);
      assert RADIX * (Weight(|a| - 1) * ValueOf(b)) == (RADIX * Weight(|a| - 1)) * ValueOf(b);
    }
  }

  lemma {:induction false} ZeroValue(s: seq<int>)
    requires forall x :: x in s ==> x == 0
    ensures ValueOf(s) == 0
  {
    if s != [] {
      assert s[0] in s && forall x :: x in s[1..] ==> x in s;
      ZeroValue(s[1..]);
    }
  }
}
