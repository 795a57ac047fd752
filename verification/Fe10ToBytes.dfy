/** fe_tobytes of ed25519.cpp: the canonical 32 bytes of a field element. */
module Fe10ToBytes {
  import opened MachineInts
  import opened Bytes
  import opened LimbBytes
  import opened Fe10
  import opened Fe10Carry
  import opened Fe10Codec
  import F = Field25519

  type Limbs32 = s: seq<i32> | |s| == 10 witness seq(10, i => 0)

  const TO_EVEN: int := 73819750 // 1.1 * 2^26
  const TO_ODD: int := 36909875 // 1.1 * 2^25

  // ----- the quotient -----

  /** Floors of nested sums are floors of the whole. */
  lemma FloorStep(x: int, t: int, w: int, r: int)
    requires w > 0 && r > 0
    ensures w * r > 0 && (x + t / w) / r == (w * x + t) / (w * r)
  {
    AtLeastOnce(w, r);
    var y := x + t / w;
    var q, m := y / r, y % r;
    DivisionFacts(y, r);
    DivisionFacts(t, w);
    AtMost(m, r, w);
    Nested(w, x, t / w, t % w, q, r, m);
    QuotientUnique(w * x + t, w * r, q, w * m + t % w);
  }

  lemma Nested(w: int, x: int, s: int, n: int, q: int, r: int, m: int)
    requires x + s == q * r + m
    ensures w * x + (s * w + n) == q * (w * r) + (w * m + n)
  {
    assert w * (x + s) == w * (q * r + m);
    assert w * (q * r) == q * (w * r);
  }

  /** What the code has in q after k limbs. */
  ghost function Quotient(h: seq<int>, q0: int, k: nat): int
    requires |h| == 10 && k <= 10
  {
    if k == 10 then (Val(h) + q0) / TWO_255 else (Front(h, k) + q0) / Weight(k)
  }

  lemma QuotientStep(h: seq<int>, q0: int, k: nat)
    requires |h| == 10 && k < 10
    ensures (h[k] + Quotient(h, q0, k)) / Radix(k) == Quotient(h, q0, k + 1)
    ensures Quotient(h, q0, 0) == q0
  {
    hide Weight, Val, Radix;
    WeightPositive(k);
    FloorStep(h[k], Front(h, k) + q0, Weight(k), Radix(k));
    NextWeight(k);
    FrontValue(h);
    WeightZero();
    assert q0 / 1 == q0;
  }

  lemma WeightPositive(k: nat)
    requires k < 10
    ensures Weight(k) > 0 && Radix(k) > 0
  {}

  /** (V + q0) / 2^255 is V / P: rounding 19 h9 / 2^25 is enough of an estimate of 19 V / P. */
  lemma EstimateExact(h: seq<int>, q0: int)
    requires |h| == 10 && Bounded(h, TO_EVEN, TO_ODD) && q0 == (19 * h[9] + 0x100_0000) / 0x200_0000
    ensures (Val(h) + q0) / TWO_255 == Val(h) / F.P && -2 <= Val(h) / F.P <= 1
  {
    var low := Val(h) - Weight(9) * h[9];
    LowPart(h);
    Estimate(h[9], low, q0);
  }

  lemma LowPart(h: seq<int>)
    requires |h| == 10 && Bounded(h, TO_EVEN, TO_ODD)
    ensures var low := Val(h) - Weight(9) * h[9]; -2 * Weight(9) <= low <= 2 * Weight(9)
  {}

  const TWO_230: int := 0x4000000000000000000000000000000000000000000000000000000000

  lemma Estimate(h9: int, low: int, q0: int)
    requires -TO_ODD <= h9 <= TO_ODD && -2 * TWO_230 <= low <= 2 * TWO_230
    requires q0 == (19 * h9 + 0x100_0000) / 0x200_0000
    ensures var v := TWO_230 * h9 + low; (v + q0) / TWO_255 == v / F.P && -2 <= v / F.P <= 1
  {
    var v := TWO_230 * h9 + low;
    var q, r := v / F.P, v % F.P;
    assert v == F.P * q + r;
    QuotientUnique(v + q0, TWO_255, q, r - 19 * q + q0);
  }

  /** One step of the estimate: the limb and what comes from below, without the bits of the limb. */
  method NextQuotient(h: Limbs32, k: nat, q0: i32, ghost start: int) returns (q: i32)
    requires k < 10 && Bounded(h, TO_EVEN, TO_ODD) && q0 == Quotient(h, start, k) && -100 <= q0 <= 100
    ensures q == Quotient(h, start, k + 1) && -100 <= q <= 100
  {
    hide Val, Quotient;
    QuotientStep(h, start, k);
    q := (h[k] + q0) / Radix(k);
  }

  /** The quotient of the value by P, from the limbs. */
  method QuotientByP(h: Limbs32) returns (q: i32)
    requires Bounded(h, TO_EVEN, TO_ODD)
    ensures q == Val(h) / F.P && -2 <= q <= 1
  {
    hide Val, Quotient;
    q := (19 * h[9] + 0x100_0000) / 0x200_0000;
    ghost var q0 := q;
    EstimateExact(h, q0);
    QuotientStep(h, q0, 0);
    q := NextQuotient(h, 0, q, q0);
    q := NextQuotient(h, 1, q, q0);
    q := NextQuotient(h, 2, q, q0);
    q := NextQuotient(h, 3, q, q0);
    q := NextQuotient(h, 4, q, q0);
    q := NextQuotient(h, 5, q, q0);
    q := NextQuotient(h, 6, q, q0);
    q := NextQuotient(h, 7, q, q0);
    q := NextQuotient(h, 8, q, q0);
    q := NextQuotient(h, 9, q, q0);
    QuotientEnds(h, q0);
  }

  lemma QuotientEnds(h: seq<int>, q0: int)
    requires |h| == 10
    ensures Quotient(h, q0, 10) == (Val(h) + q0) / TWO_255
  {}

  // ----- the digits -----

  /** The limbs before i are digits; limb i may have a carry more than the rest. */
  predicate Floored(s: seq<int>, i: nat)
    requires |s| == 10
  {
    forall k :: 0 <= k < 10 ==>
      if k < i then 0 <= s[k] < Radix(k) else Within(s[k], if k == i then TO_EVEN + 0x100 else TO_EVEN)
  }

  function FloorCarried(h: seq<int>, i: nat): (t: seq<int>)
    requires |h| == 10 && i < 10
    ensures |t| == 10
  {
    var carry := h[i] / Radix(i);
    if i < 9 then h[i + 1 := h[i + 1] + carry][i := h[i] - carry * Radix(i)] else h[9 := h[9] - carry * Radix(9)]
  }

  lemma FloorCarriedValue(h: seq<int>, i: nat)
    requires |h| == 10 && i < 10
    ensures Val(FloorCarried(h, i)) == Val(h) - if i < 9 then 0 else TWO_255 * (h[9] / Radix(9))
  {
    hide Val, Weight, Radix;
    WeightPositive(i);
    var carry := h[i] / Radix(i);
    NextWeight(i);
    MovesUp(Weight(i), Radix(i), carry);
    if i < 9 {
      var h1 := h[i + 1 := h[i + 1] + carry];
      UpdateValue(h, i + 1, h[i + 1] + carry);
      UpdateValue(h1, i, h[i] - carry * Radix(i));
    } else {
      UpdateValue(h, 9, h[9] - carry * Radix(9));
    }
  }

  method FloorCarry(h: Limbs32, i: nat) returns (t: Limbs32)
    requires i < 10 && Floored(h, i)
    ensures Floored(t, i + 1)
    ensures Val(t) == Val(h) - if i < 9 then 0 else TWO_255 * (h[9] / Radix(9))
  {
    hide Val;
    FloorCarriedValue(h, i);
    t := FloorCarried(h, i);
  }

  lemma DigitsInRange(s: seq<int>)
    requires |s| == 10 && Floored(s, 10)
    ensures 0 <= Val(s) < TWO_255
  {}

  /** The digits of the residue modulo P. */
  method Canonical(h: Limbs32) returns (t: Limbs32)
    requires Bounded(h, TO_EVEN, TO_ODD)
    ensures Floored(t, 10) && Val(t) == Elt(h)
  {
    hide Val, Floored;
    var q := QuotientByP(h);
    t := AddToFirst(h, 19 * q);
    t := FloorCarry(t, 0);
    t := FloorCarry(t, 1);
    t := FloorCarry(t, 2);
    t := FloorCarry(t, 3);
    t := FloorCarry(t, 4);
    t := FloorCarry(t, 5);
    t := FloorCarry(t, 6);
    t := FloorCarry(t, 7);
    t := FloorCarry(t, 8);
    ghost var top := t[9] / Radix(9);
    t := FloorCarry(t, 9);
    DigitsInRange(t);
    QuotientUnique(Val(h) + 19 * q, TWO_255, top, Val(t));
    Residue(Val(h), q, top, Val(t));
  }

  method AddToFirst(h: Limbs32, x: i32) returns (t: Limbs32)
    requires Bounded(h, TO_EVEN, TO_ODD) && -38 <= x <= 19
    ensures Val(t) == Val(h) + x && Floored(t, 0)
  {
    t := h[0 := h[0] + x];
  }

  /** What is left under 2^255 of v + 19 q is v - P q. */
  lemma Residue(v: int, q: int, top: int, r: int)
    requires q == v / F.P && r == v + 19 * q - TWO_255 * top && 0 <= r < TWO_255
    ensures r == F.Reduce(v)
  {
    QuotientUnique(v + 19 * q, TWO_255, q, v % F.P);
    QuotientUnique(v + 19 * q, TWO_255, top, r);
  }

  // ----- the bytes -----

  /** Limbs 0 .. 4 as 16 bytes. */
  function LowBytes(h: seq<int>): (b: seq<u8>)
    requires |h| == 10
    ensures |b| == 16
  {
    [Byte(h[0], 1), Byte(h[0], 0x100), Byte(h[0], 0x1_0000),
     Join(Top(h[0], 0x100_0000), h[1] * 0x4), Byte(h[1], 0x40), Byte(h[1], 0x4000),
     Join(Top(h[1], 0x40_0000), h[2] * 0x8), Byte(h[2], 0x20), Byte(h[2], 0x2000),
     Join(Top(h[2], 0x20_0000), h[3] * 0x20), Byte(h[3], 0x8), Byte(h[3], 0x800),
     Join(Top(h[3], 0x8_0000), h[4] * 0x40), Byte(h[4], 0x4), Byte(h[4], 0x400), Byte(h[4], 0x4_0000)]
  }

  /** Limbs 5 .. 9 as 16 bytes. */
  function HighBytes(h: seq<int>): (b: seq<u8>)
    requires |h| == 10
    ensures |b| == 16
  {
    [Byte(h[5], 1), Byte(h[5], 0x100), Byte(h[5], 0x1_0000),
     Join(Top(h[5], 0x100_0000), h[6] * 0x2), Byte(h[6], 0x80), Byte(h[6], 0x8000),
     Join(Top(h[6], 0x80_0000), h[7] * 0x8), Byte(h[7], 0x20), Byte(h[7], 0x2000),
     Join(Top(h[7], 0x20_0000), h[8] * 0x10), Byte(h[8], 0x10), Byte(h[8], 0x1000),
     Join(Top(h[8], 0x10_0000), h[9] * 0x40), Byte(h[9], 0x4), Byte(h[9], 0x400), Byte(h[9], 0x4_0000)]
  }

  lemma FirstLimb(x: int, n: int)
    requires 0 <= x < n * 0x100_0000
    ensures x == Byte(x, 1) + 0x100 * Byte(x, 0x100) + 0x1_0000 * Byte(x, 0x1_0000) + 0x100_0000 * Top(x, 0x100_0000)
    ensures 0 <= Top(x, 0x100_0000) < n
  {
    FirstBytes(x);
    NextByte(x, 0x1_0000);
    TopBelow(x, 0x100_0000, n);
  }

  /** The last limb of a half ends in a byte of its own. */
  lemma LastLimb(p: int, x: int)
    requires 0 <= p < 0x40 && 0 <= x < 0x400_0000
    ensures p + 0x40 * x == Join(p, x * 0x40) + 0x100 * Byte(x, 0x4) + 0x1_0000 * Byte(x, 0x400) + 0x100_0000 * Byte(x, 0x4_0000)
  {
    TwoByteLimb(p, x, 0x40, 0x4, 0x100);
    NextByte(x, 0x4_0000);
    TopBelow(x, 0x400_0000, 1);
  }

  lemma LowBytesValue(h: seq<int>, rest: seq<u8>)
    requires |h| == 10 && Floored(h, 10)
    ensures LittleEndian(LowBytes(h) + rest) == h[0] + 0x4000000 * h[1] + 0x8000000000000 * h[2] + 0x20000000000000000000 * h[3]
      + 0x40000000000000000000000000 * h[4] + 0x100000000000000000000000000000000 * LittleEndian(rest)
  {
    hide LittleEndian, Pow256, Join, Byte, Top;
    FirstLimb(h[0], 0x4);
    TwoByteLimb(Top(h[0], 0x100_0000), h[1], 0x4, 0x40, 0x8);
    TwoByteLimb(Top(h[1], 0x40_0000), h[2], 0x8, 0x20, 0x20);
    TwoByteLimb(Top(h[2], 0x20_0000), h[3], 0x20, 0x8, 0x40);
    LastLimb(Top(h[3], 0x8_0000), h[4]);
    SixteenBytes(LowBytes(h), rest);
  }

  lemma HighBytesValue(h: seq<int>)
    requires |h| == 10 && Floored(h, 10)
    ensures LittleEndian(HighBytes(h)) == h[5] + 0x2000000 * h[6] + 0x8000000000000 * h[7] + 0x10000000000000000000 * h[8] + 0x40000000000000000000000000 * h[9]
  {
    hide LittleEndian, Pow256, Join, Byte, Top;
    FirstLimb(h[5], 0x2);
    TwoByteLimb(Top(h[5], 0x100_0000), h[6], 0x2, 0x80, 0x8);
    TwoByteLimb(Top(h[6], 0x80_0000), h[7], 0x8, 0x20, 0x10);
    TwoByteLimb(Top(h[7], 0x20_0000), h[8], 0x10, 0x10, 0x40);
    LastLimb(Top(h[8], 0x10_0000), h[9]);
    SixteenBytes(HighBytes(h), []);
    assert HighBytes(h) + [] == HighBytes(h);
    NoBytes();
  }

  lemma BytesEncode(h: seq<int>)
    requires |h| == 10 && Floored(h, 10)
    ensures Val(h) >= 0 && LowBytes(h) + HighBytes(h) == Encode(Val(h), 32)
  {
    hide LittleEndian, Pow256, LowBytes, HighBytes, Encode;
    LowBytesValue(h, HighBytes(h));
    HighBytesValue(h);
    var b := LowBytes(h) + HighBytes(h);
    assert LittleEndian(b) == Val(h);
    EncodeUnique(b);
  }

  /** The unique canonical encoding of the element. */
  method FeToBytes(s: array<u8>, h: array<i32>)
    requires s.Length == 32 && h.Length == 10 && Bounded(h[..], TO_EVEN, TO_ODD)
    modifies s
    ensures s[..] == Encode(Elt(h[..]), 32)
  {
    hide Val, Elt, Floored, LowBytes, HighBytes, Encode;
    var t := Canonical(h[..]);
    BytesEncode(t);
    var b := LowBytes(t) + HighBytes(t);
    for i := 0 to 32
      invariant s[..i] == b[..i]
    {
      s[i] := b[i];
    }
  }

  /** Reading 32 bytes and writing them back gives the canonical bytes of what they hold. */
  method ReadThenWrite(b: seq<u8>) returns (s: array<u8>)
    requires |b| == 32
    ensures s[..] == Encode(F.Reduce(LittleEndian(b) % TWO_255), 32)
  {
    hide Elt, LittleEndian, Pow256, Encode, F.Reduce;
    s := new u8[32];
    var h := new i32[10];
    FeFromBytes(h, b);
    WithinLimits(h[..]);
    FeToBytes(s, h);
  }

  lemma WithinLimits(s: seq<int>)
    requires Bounded(s, OUT_EVEN, OUT_ODD)
    ensures Bounded(s, TO_EVEN, TO_ODD)
  {}

  // ----- the range of the quotient -----

  /** All limbs within these bounds have a quotient of -1, 0 or 1. */
  ghost predicate Confined(even: nat, odd: nat) {
    forall h: seq<int> :: |h| == 10 && Bounded(h, even, odd) ==> -1 <= Val(h) / F.P <= 1
  }

  function Extreme(even: int, odd: int): (h: seq<int>)
    ensures |h| == 10
  {
    [even, odd, even, odd, even, odd, even, odd, even, odd]
  }

  /** The argument in the comment on fe_tobytes holds for bounds whose largest limbs
      stand for at most P. */
  lemma QuotientConfined(even: nat, odd: nat)
    ensures Confined(even, odd) <==> Val(Extreme(even, odd)) <= F.P
  {
    hide Val, Bounded, Extreme;
    var e: int, o: int := even, odd;
    var top, bottom := Extreme(e, o), Extreme(-e, -o);
    Opposite(even, odd);
    if Val(top) <= F.P {
      forall h: seq<int> | |h| == 10 && Bounded(h, even, odd)
        ensures -1 <= Val(h) / F.P <= 1
      {
        WithinExtremes(h, even, odd);
        AtMostP(Val(h));
      }
    } else {
      assert |bottom| == 10 && Bounded(bottom, even, odd);
      BelowMinusP(Val(bottom));
    }
  }

  lemma Opposite(even: nat, odd: nat)
    ensures var e: int, o: int := even, odd; Val(Extreme(-e, -o)) == -Val(Extreme(e, o)) && Bounded(Extreme(-e, -o), even, odd)
  {}

  lemma WithinExtremes(h: seq<int>, even: nat, odd: nat)
    requires |h| == 10 && Bounded(h, even, odd)
    ensures -Val(Extreme(even, odd)) <= Val(h) <= Val(Extreme(even, odd))
  {}

  lemma AtMostP(v: int)
    requires -F.P <= v <= F.P
    ensures -1 <= v / F.P <= 1
  {}

  lemma BelowMinusP(v: int)
    requires v < -F.P
    ensures v / F.P <= -2
  {}

  /** The bounds of that comment are not of that kind: -2 is possible.  The estimate is
      exact all the same. */
  lemma QuotientMinusTwo(h: seq<int>)
    requires h == [0, 0, 0, 0, 0, 0, 0, 0, 0, -TO_ODD]
    ensures Bounded(h, TO_EVEN, TO_ODD) && Val(h) / F.P == -2 && !Confined(TO_EVEN, TO_ODD)
  {
    QuotientUnique(Val(h), F.P, -2, Val(h) + 2 * F.P);
  }
}
