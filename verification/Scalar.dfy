/** sc_reduce and sc_muladd of ed25519.cpp.  Every assignment to a limb is to a signed
    64-bit variable, so verifying these methods includes that none overflows. */
module Scalar {
  import opened MachineInts
  import opened Bytes
  import opened ScalarLimbs
  import opened ScalarBytes
  import opened ScalarProduct

  type Limbs = s: seq<i64> | |s| == 24 witness seq(24, i => 0)

  /** The limbs before k are at most lo in size, the others at most hi. */
  ghost predicate Lim(s: Limbs, k: nat, lo: int, hi: int) {
    forall j :: 0 <= j < 24 ==> if j < k then -lo <= s[j] <= lo else -hi <= s[j] <= hi
  }

  ghost predicate ZeroFrom(s: Limbs, k: nat) { forall j :: k <= j < 24 ==> s[j] == 0 }

  ghost predicate Congruent(s: Limbs, t: Limbs) {
    ValueOf(s) % L == ValueOf(t) % L
  }

  lemma ShiftByL(x: int, k: int)
    ensures (x - L * k) % L == x % L
  {}

  /** Limb i is folded into the six limbs twelve places below, and cleared. */
  method FoldIn(s: Limbs, i: nat, ghost k: nat, ghost lo: int, ghost hi: int) returns (t: Limbs)
    requires 12 <= i < 24 && i - 7 < k <= i && Lim(s, k, lo, hi)
    requires 0 <= lo && 0 <= hi && lo + 997805 * hi <= 0x4000_0000_0000_0000
    ensures t == Fold(s, i) && Congruent(s, t) && Lim(t, k, lo + 997805 * hi, hi) && t[i] == 0
    ensures ValueOf(t) == ValueOf(s) - L * (s[i] * Weight(i - 12))
    ensures forall j :: i < j < 24 ==> t[j] == s[j]
  {
    hide ValueOf, Weight;
    t := Fold(s, i);
    FoldValue(s, i);
    ShiftByL(ValueOf(s), s[i] * Weight(i - 12));
  }

  /** A rounding carry: limb i keeps what is nearest to zero, the rest goes up. */
  method Round(s: Limbs, i: nat) returns (t: Limbs)
    requires i < 23 && -0x4000_0000_0000_0000 <= s[i] <= 0x4000_0000_0000_0000
    requires -0x4000_0000_0000_0000 <= s[i + 1] <= 0x4000_0000_0000_0000
    ensures ValueOf(t) == ValueOf(s)
    ensures -0x10_0000 <= t[i] < 0x10_0000 && t[i] + RADIX * t[i + 1] == s[i] + RADIX * s[i + 1]
    ensures forall j :: 0 <= j < 24 && j != i && j != i + 1 ==> t[j] == s[j]
  {
    hide ValueOf, Weight;
    var carry := RoundingCarry(s[i]);
    CarryValue(s, i, carry);
    t := Carry(s, i, carry);
  }

  /** The limbs before i are digits, and no limb is large. */
  ghost predicate Floored(s: Limbs, i: nat)
    requires i < 24
  {
    && (forall j :: 0 <= j < i ==> 0 <= s[j] < RADIX)
    && -M2 - H3 <= s[i] <= M2 + H3
    && (forall j :: i < j < 24 ==> -M2 <= s[j] <= M2)
  }

  /** A flooring carry: limb i keeps its low 21 bits, the rest goes up. */
  method Floor(s: Limbs, i: nat) returns (t: Limbs)
    requires i < 23 && Floored(s, i)
    ensures ValueOf(t) == ValueOf(s) && Floored(t, i + 1)
    ensures forall j :: 0 <= j < 24 && j != i && j != i + 1 ==> t[j] == s[j]
  {
    hide ValueOf, Weight;
    var carry := FloorCarry(s[i]);
    CarryValue(s, i, carry);
    t := Carry(s, i, carry);
  }

  const H1: int := 0x8_0000_0000 // 2^35
  const M1: int := 0x400_0000_0000_0000 // 2^58
  const H2: int := 0x40_0000_0000 // 2^38
  const M2: int := 0x2000_0000_0000_0000 // 2^61
  const H3: int := 0x100_0040_0000 // 2^40 + 2^22

  method FoldHigh(s: Limbs) returns (t: Limbs)
    requires Lim(s, 17, H1, H1)
    ensures Congruent(s, t) && Lim(t, 17, M1, H1) && ZeroFrom(t, 18)
  {
    hide Fold, ValueOf, Weight;
    t := FoldIn(s, 23, 17, H1, H1);
    t := FoldIn(t, 22, 17, H1 + 997805 * H1, H1);
    t := FoldIn(t, 21, 17, H1 + 2 * 997805 * H1, H1);
    t := FoldIn(t, 20, 17, H1 + 3 * 997805 * H1, H1);
    t := FoldIn(t, 19, 17, H1 + 4 * 997805 * H1, H1);
    t := FoldIn(t, 18, 17, H1 + 5 * 997805 * H1, H1);
  }

  method RoundMiddle(s: Limbs) returns (t: Limbs)
    requires Lim(s, 17, M1, H1) && ZeroFrom(s, 18)
    ensures Congruent(s, t) && Lim(t, 12, M1 + H2, H2) && ZeroFrom(t, 18)
  {
    hide ValueOf;
    t := Round(s, 6);
    t := Round(t, 8);
    t := Round(t, 10);
    t := Round(t, 12);
    t := Round(t, 14);
    t := Round(t, 16);
    t := Round(t, 7);
    t := Round(t, 9);
    t := Round(t, 11);
    t := Round(t, 13);
    t := Round(t, 15);
  }

  method FoldMiddle(s: Limbs) returns (t: Limbs)
    requires Lim(s, 12, M1 + H2, H2) && ZeroFrom(s, 18)
    ensures Congruent(s, t) && Lim(t, 12, M2, H2) && ZeroFrom(t, 12)
  {
    hide Fold, ValueOf, Weight;
    t := FoldIn(s, 17, 12, M1 + H2, H2);
    t := FoldIn(t, 16, 12, M1 + H2 + 997805 * H2, H2);
    t := FoldIn(t, 15, 12, M1 + H2 + 2 * 997805 * H2, H2);
    t := FoldIn(t, 14, 12, M1 + H2 + 3 * 997805 * H2, H2);
    t := FoldIn(t, 13, 12, M1 + H2 + 4 * 997805 * H2, H2);
    t := FoldIn(t, 12, 12, M1 + H2 + 5 * 997805 * H2, H2);
  }

  /** After the rounding pass limb 11 is within 2^20 and the others are small. */
  method RoundLow(s: Limbs) returns (t: Limbs)
    requires Lim(s, 12, M2, H2) && ZeroFrom(s, 12)
    ensures Congruent(s, t) && Lim(t, 24, H3, H3) && -0x10_0000 <= t[11] < 0x10_0000 && ZeroFrom(t, 13)
  {
    hide ValueOf;
    t := Round(s, 0);
    t := Round(t, 2);
    t := Round(t, 4);
    t := Round(t, 6);
    t := Round(t, 8);
    t := Round(t, 10);
    t := Round(t, 1);
    t := Round(t, 3);
    t := Round(t, 5);
    t := Round(t, 7);
    t := Round(t, 9);
    t := Round(t, 11);
  }

  lemma {:induction false} SmallValue(s: seq<int>)
    requires forall x :: x in s ==> -H3 <= x <= H3
    ensures -H3 * Weight(|s|) <= (RADIX - 1) * ValueOf(s) <= H3 * Weight(|s|)
    ensures (RADIX - 1) * ValueOf(s) <= H3 * (Weight(|s|) - 1) && -H3 * (Weight(|s|) - 1) <= (RADIX - 1) * ValueOf(s)
  {
    if s != [] {
      assert s[0] in s && forall x :: x in s[1..] ==> x in s;
      SmallValue(s[1..]);
    }
  }

  lemma SplitAt(s: seq<int>, k: nat)
    requires k <= |s|
    ensures ValueOf(s) == ValueOf(s[..k]) + Weight(k) * ValueOf(s[k..])
  {
    assert s == s[..k] + s[k..];
    ConcatValue(s[..k], s[k..]);
  }

  const TWO_231: int := 0x8000000000000000000000000000000000000000000000000000000000

  lemma WeightValues()
    ensures Weight(0) == 1 && Weight(11) == TWO_231 && Weight(12) == TWO_252
  {
    assert Weight(4) == 0x10_0000_0000_0000_0000_0000;
    assert Weight(8) == 0x1000000000000000000000000000000000000000000;
  }

  lemma TopLimbs(s: Limbs)
    requires ZeroFrom(s, 13)
    ensures ValueOf(s) == ValueOf(s[..11]) + TWO_231 * s[11] + TWO_252 * s[12]
    ensures ValueOf(s) == ValueOf(s[..12]) + TWO_252 * s[12]
  {
    hide Weight;
    WeightValues();
    SplitAt(s, 11);
    SplitAt(s, 12);
    ZeroValue(s[13..]);
    assert s[11..][0] == s[11] && s[11..][1..] == s[12..];
    assert s[12..][0] == s[12] && s[12..][1..] == s[13..];
  }

  /** The fold after the rounding pass leaves a value between -2^252 and 2^252. */
  method FoldTop(s: Limbs) returns (t: Limbs)
    requires Lim(s, 24, H3, H3) && -0x10_0000 <= s[11] < 0x10_0000 && ZeroFrom(s, 13)
    ensures Congruent(s, t) && Lim(t, 24, M2, M2) && ZeroFrom(t, 12) && -TWO_252 <= ValueOf(t) < TWO_252
  {
    hide ValueOf, Weight, Fold;
    t := FoldIn(s, 12, 12, H3, H3);
    TopLimbs(s);
    WeightValues();
    SmallValue(s[..11]);
  }

  /** Limbs 0 .. 11 become digits; what is left over is in limb 12. */
  method FloorAll(s: Limbs) returns (t: Limbs)
    requires Lim(s, 24, M2, M2) && ZeroFrom(s, 12)
    ensures ValueOf(t) == ValueOf(s) && ZeroFrom(t, 13) && forall j :: 0 <= j < 12 ==> 0 <= t[j] < RADIX
  {
    hide ValueOf, Floored;
    FlooredNone(s);
    t := Floor(s, 0);
    t := Floor(t, 1);
    t := Floor(t, 2);
    t := Floor(t, 3);
    t := Floor(t, 4);
    t := Floor(t, 5);
    t := Floor(t, 6);
    t := Floor(t, 7);
    t := Floor(t, 8);
    t := Floor(t, 9);
    t := Floor(t, 10);
    t := Floor(t, 11);
    FlooredMeans(t, 12);
  }

  lemma FlooredNone(s: Limbs)
    requires Lim(s, 24, M2, M2)
    ensures Floored(s, 0)
  {}

  lemma FlooredMeans(s: Limbs, i: nat)
    requires i < 24 && Floored(s, i)
    ensures forall j :: 0 <= j < i ==> 0 <= s[j] < RADIX
  {}

  /** The last carry out is -1 or 0, and folding it gives the residue. */
  method FoldLast(s: Limbs) returns (t: Limbs)
    requires ZeroFrom(s, 13) && forall j :: 0 <= j < 12 ==> 0 <= s[j] < RADIX
    requires -TWO_252 <= ValueOf(s) < TWO_252
    ensures s[12] == -1 || s[12] == 0
    ensures ValueOf(t) == ValueOf(s) % L && Lim(t, 24, M2, M2) && ZeroFrom(t, 12)
  {
    hide ValueOf, Weight, Fold;
    TopLimbs(s);
    WeightValues();
    LowValue(s[..12]);
    t := FoldIn(s, 12, 12, RADIX, 1);
  }

  /** Digits again; limb 11 takes what is left, at most 2^21. */
  method FloorLast(s: Limbs) returns (t: Limbs)
    requires Lim(s, 24, M2, M2) && ZeroFrom(s, 12) && 0 <= ValueOf(s) < L
    ensures ValueOf(t) == ValueOf(s) && ZeroFrom(t, 12) && 0 <= t[11] <= RADIX
    ensures forall j :: 0 <= j < 11 ==> 0 <= t[j] < RADIX
  {
    hide ValueOf, Weight, Floored;
    FlooredNone(s);
    t := Floor(s, 0);
    t := Floor(t, 1);
    t := Floor(t, 2);
    t := Floor(t, 3);
    t := Floor(t, 4);
    t := Floor(t, 5);
    t := Floor(t, 6);
    t := Floor(t, 7);
    t := Floor(t, 8);
    t := Floor(t, 9);
    t := Floor(t, 10);
    FlooredMeans(t, 11);
    LastLimb(t);
  }

  lemma LastLimb(t: Limbs)
    requires ZeroFrom(t, 12) && 0 <= ValueOf(t) < L && forall j :: 0 <= j < 11 ==> 0 <= t[j] < RADIX
    ensures 0 <= t[11] <= RADIX
  {
    hide ValueOf, Weight;
    TopLimbs(t);
    WeightValues();
    LowValue(t[..11]);
  }

  /** The part the two functions share, from the first fold on. */
  method ReduceLimbs(s: Limbs) returns (t: Limbs)
    requires Lim(s, 24, H1, H1)
    ensures ValueOf(t) == ValueOf(s) % L
    ensures ZeroFrom(t, 12) && 0 <= t[11] <= RADIX && forall j :: 0 <= j < 11 ==> 0 <= t[j] < RADIX
  {
    hide ValueOf;
    t := FoldHigh(s);
    t := RoundMiddle(t);
    t := FoldMiddle(t);
    t := RoundLow(t);
    t := FoldTop(t);
    t := FloorAll(t);
    t := FoldLast(t);
    t := FloorLast(t);
  }

  /** The residue modulo L of the 512-bit number in s, written over its first 32 bytes. */
  method ScReduce(s: array<u8>)
    requires s.Length == 64
    modifies s
    ensures s[..32] == Encode(LittleEndian(old(s[..])) % L, 32)
    ensures s[32..] == old(s[32..])
  {
    hide ValueOf, LittleEndian, Pow256, Encode, Load24, Store12;
    ghost var b := s[..];
    Load24Small(b);
    Load24Value(b);
    var t: Limbs := ReduceLimbs(Load24(s[..]));
    Store12Encodes(t);
    WriteBytes(s, 0, Store12(t));
    assert s[0..32] == s[..32];
  }

  lemma Load24Small(b: seq<u8>)
    requires |b| == 64
    ensures Lim(Load24(b), 24, H1, H1)
  {
    hide Load24;
    assert forall j :: 0 <= j < 24 ==> Load24(b)[j] in Load24(b);
  }

  method WriteBytes(s: array<u8>, at: nat, b: seq<u8>)
    requires |b| == 32 && at + 32 <= s.Length
    modifies s
    ensures s[at..at + 32] == b && s[..at] == old(s[..at]) && s[at + 32..] == old(s[at + 32..])
  {
    for i := 0 to 32
      invariant s[at..at + i] == b[..i] && s[..at] == old(s[..at]) && s[at + 32..] == old(s[at + 32..])
    {
      s[at + i] := b[i];
    }
  }

  /** The even limbs before i are within 2^20, the odd ones have taken a carry. */
  ghost predicate EvensRounded(s: Limbs, i: nat) {
    && -H1 <= s[23] <= H1
    && forall j :: 0 <= j < 23 ==>
      if j >= i then -COLUMN <= s[j] <= COLUMN
      else if j % 2 == 0 then -0x10_0000 <= s[j] <= 0x10_0000
      else -COLUMN - H1 <= s[j] <= COLUMN + H1
  }

  /** The limbs before i are small, the others as the first pass left them. */
  ghost predicate OddsRounded(s: Limbs, i: nat) {
    && -H1 <= s[23] <= H1
    && forall j :: 0 <= j < 23 ==>
      if j < i then -H1 <= s[j] <= H1
      else if j % 2 == 0 then -0x10_0000 <= s[j] <= 0x10_0000
      else -COLUMN - H1 <= s[j] <= COLUMN + H1
  }

  const COLUMN: int := 0x40_0000_0000_0000 // 2^54

  method RoundEven(s: Limbs, i: nat) returns (t: Limbs)
    requires i % 2 == 0 && i < 22 && EvensRounded(s, i)
    ensures ValueOf(t) == ValueOf(s) && EvensRounded(t, i + 2) && t[23] == s[23]
  {
    hide ValueOf;
    t := Round(s, i);
  }

  method RoundOdd(s: Limbs, i: nat) returns (t: Limbs)
    requires i % 2 == 1 && i < 22 && OddsRounded(s, i)
    ensures ValueOf(t) == ValueOf(s) && OddsRounded(t, i + 2)
  {
    hide ValueOf;
    t := Round(s, i);
  }

  /** The rounding carries that follow the multiplication. */
  method RoundProduct(s: Limbs) returns (t: Limbs)
    requires Lim(s, 24, COLUMN, COLUMN) && s[23] == 0
    ensures ValueOf(t) == ValueOf(s) && Lim(t, 24, H1, H1)
  {
    hide ValueOf, EvensRounded, OddsRounded;
    NoneRounded(s);
    t := RoundEven(s, 0);
    t := RoundEven(t, 2);
    t := RoundEven(t, 4);
    t := RoundEven(t, 6);
    t := RoundEven(t, 8);
    t := RoundEven(t, 10);
    t := RoundEven(t, 12);
    t := RoundEven(t, 14);
    t := RoundEven(t, 16);
    t := RoundEven(t, 18);
    t := RoundEven(t, 20);
    t := RoundLast(t);
    t := RoundOdd(t, 1);
    t := RoundOdd(t, 3);
    t := RoundOdd(t, 5);
    t := RoundOdd(t, 7);
    t := RoundOdd(t, 9);
    t := RoundOdd(t, 11);
    t := RoundOdd(t, 13);
    t := RoundOdd(t, 15);
    t := RoundOdd(t, 17);
    t := RoundOdd(t, 19);
    t := RoundOdd(t, 21);
    AllRounded(t);
  }

  lemma NoneRounded(s: Limbs)
    requires Lim(s, 24, COLUMN, COLUMN) && s[23] == 0
    ensures EvensRounded(s, 0)
  {}

  method RoundLast(s: Limbs) returns (t: Limbs)
    requires EvensRounded(s, 22) && s[23] == 0
    ensures ValueOf(t) == ValueOf(s) && OddsRounded(t, 1)
  {
    hide ValueOf;
    t := Round(s, 22);
  }

  lemma AllRounded(s: Limbs)
    requires OddsRounded(s, 23)
    ensures Lim(s, 24, H1, H1)
  {}

  /** a b + c modulo L, for any three 256-bit numbers. */
  method ScMuladd(s: array<u8>, at: nat, a: seq<u8>, b: seq<u8>, c: seq<u8>)
    requires at + 32 <= s.Length && |a| == 32 && |b| == 32 && |c| == 32
    modifies s
    ensures s[at..at + 32] == Encode((LittleEndian(a) * LittleEndian(b) + LittleEndian(c)) % L, 32)
    ensures s[..at] == old(s[..at]) && s[at + 32..] == old(s[at + 32..])
  {
    hide ValueOf, LittleEndian, Pow256, Encode, Load12, Store12, Columns;
    var x, y, z := Load12(a), Load12(b), Load12(c);
    Load12Value(a);
    Load12Value(b);
    Load12Value(c);
    ColumnsBounded(x, y, z);
    ColumnsValue(x, y, z);
    ColumnsFit(Columns(x, y, z));
    LastColumn(x, y, z);
    var t: Limbs := RoundProduct(Columns(x, y, z));
    t := ReduceLimbs(t);
    Store12Encodes(t);
    WriteBytes(s, at, Store12(t));
  }

  lemma LastColumn(a: seq<int>, b: seq<int>, c: seq<int>)
    requires |a| == 12 && |b| == 12 && |c| == 12
    ensures Columns(a, b, c)[23] == 0
  {}

  lemma ColumnsFit(s: seq<int>)
    requires |s| == 24 && Within(s, COLUMN)
    ensures (forall j :: 0 <= j < |s| ==> -COLUMN <= s[j] <= COLUMN)
  {
    assert forall j :: 0 <= j < |s| ==> s[j] in s;
  }
}
