/** fe_frombytes and fe_tobytes of ed25519.cpp. */
module Fe10Codec {
  import opened MachineInts
  import opened Bytes
  import opened LimbBytes
  import opened Fe10
  import opened Fe10Carry
  import opened Fe10Field
  import F = Field25519

  const TWO_255: int := F.P + 19

  // ----- reading -----

  /** The limbs before the carries: each takes whole bytes. */
  function Load(b: seq<u8>): (h: seq<i64>)
    requires |b| == 32
    ensures |h| == 10
  {
    [Load4(b, 0), Load3(b, 4) * 0x40, Load3(b, 7) * 0x20, Load3(b, 10) * 0x8, Load3(b, 13) * 0x4,
     Load4(b, 16), Load3(b, 20) * 0x80, Load3(b, 23) * 0x20, Load3(b, 26) * 0x10, (Load3(b, 29) % 0x80_0000) * 0x4]
  }

  /** 32 bytes as the words that are loaded. */
  function Words(b: seq<u8>): int
    requires |b| == 32
  {
    Load4(b, 0) + 0x100000000 * Load3(b, 4) + 0x100000000000000 * Load3(b, 7) + 0x100000000000000000000 * Load3(b, 10)
      + 0x100000000000000000000000000 * Load3(b, 13) + 0x100000000000000000000000000000000 * Load4(b, 16)
      + 0x10000000000000000000000000000000000000000 * Load3(b, 20)
      + 0x10000000000000000000000000000000000000000000000 * Load3(b, 23)
      + 0x10000000000000000000000000000000000000000000000000000 * Load3(b, 26)
      + 0x10000000000000000000000000000000000000000000000000000000000 * Load3(b, 29)
  }

  lemma WordsValue(b: seq<u8>)
    requires |b| == 32
    ensures Words(b) == LittleEndian(b)
  {
    hide LittleEndian, Pow256, Load3, Load4, Word4;
    SixteenBytes(b[..16], b[16..]);
    SixteenBytes(b[16..], []);
    assert b[..16] + b[16..] == b && b[16..] + [] == b[16..];
    NoBytes();
    LowWords(b);
    HighWords(b);
  }

  lemma LowWords(b: seq<u8>)
    requires |b| == 32
    ensures Load4(b, 0) + 0x100000000 * Load3(b, 4) + 0x100000000000000 * Load3(b, 7) + 0x100000000000000000000 * Load3(b, 10) + 0x100000000000000000000000000 * Load3(b, 13)
      == Word4(b[0], b[1], b[2], b[3]) + 0x100000000 * Word4(b[4], b[5], b[6], b[7])
      + 0x10000000000000000 * Word4(b[8], b[9], b[10], b[11]) + 0x1000000000000000000000000 * Word4(b[12], b[13], b[14], b[15])
  {}

  lemma HighWords(b: seq<u8>)
    requires |b| == 32
    ensures Load4(b, 16) + 0x100000000 * Load3(b, 20) + 0x100000000000000 * Load3(b, 23) + 0x100000000000000000000 * Load3(b, 26) + 0x100000000000000000000000000 * Load3(b, 29)
      == Word4(b[16], b[17], b[18], b[19]) + 0x100000000 * Word4(b[20], b[21], b[22], b[23])
      + 0x10000000000000000 * Word4(b[24], b[25], b[26], b[27]) + 0x1000000000000000000000000 * Word4(b[28], b[29], b[30], b[31])
  {}

  lemma LoadIsWords(b: seq<u8>, top: int)
    requires |b| == 32 && Load3(b, 29) % 0x80_0000 == Load3(b, 29) - 0x80_0000 * top
    ensures Val(Load(b)) == Words(b) - TWO_255 * top
  {
    hide Load3, Load4;
  }

  lemma LoadValue(b: seq<u8>)
    requires |b| == 32
    ensures Val(Load(b)) == LittleEndian(b) % TWO_255
  {
    hide LittleEndian, Pow256, Load3, Load4, Val, Load, Words, Top;
    var top := Top(b[31], 0x80);
    WordsValue(b);
    TopBit(b);
    LoadIsWords(b, top);
    LoadFits(b);
    QuotientUnique(LittleEndian(b), TWO_255, top, Val(Load(b)));
  }

  lemma LoadFits(b: seq<u8>)
    requires |b| == 32
    ensures 0 <= Val(Load(b)) < TWO_255
    ensures forall k :: 0 <= k < 10 ==> 0 <= Load(b)[k] < 0x1_0000_0000
  {
    hide Load3, Load4;
    WordLimits(b);
  }

  lemma WordLimits(b: seq<u8>)
    requires |b| == 32
    ensures 0 <= Load4(b, 0) < 0x1_0000_0000 && 0 <= Load4(b, 16) < 0x1_0000_0000
    ensures forall i :: 0 <= i <= 29 ==> 0 <= Load3(b, i) < 0x100_0000
  {}

  /** The mask 8388607 takes off the top bit of the last byte. */
  lemma TopBit(b: seq<u8>)
    requires |b| == 32
    ensures Load3(b, 29) % 0x80_0000 == Load3(b, 29) - 0x80_0000 * Top(b[31], 0x80)
  {}

  /** h stands for the 255 low bits of the bytes. */
  method FeFromBytes(h: array<i32>, b: seq<u8>)
    requires h.Length == 10 && |b| == 32
    modifies h
    ensures Elt(h[..]) == F.Reduce(LittleEndian(b) % TWO_255) && Bounded(h[..], OUT_EVEN, OUT_ODD)
  {
    hide Val, Load, LittleEndian, Pow256, F.Reduce;
    LoadValue(b);
    LoadFits(b);
    var t := OddCarries(Load(b));
    t := EvenCarries(t);
    Store(h, t);
  }

  /** The odd limbs before i have been carried from, the even ones before i to. */
  predicate OddsCarried(s: seq<int>, i: nat)
    requires |s| == 10
  {
    && Within(s[9], 0x100_0000)
    && forall k :: 0 <= k < 9 ==>
      if k % 2 == 1 then Within(s[k], if k < i then 0x100_0000 else 0x1_0000_0000)
      else Within(s[k], if k < i then 0x1_0001_0000 else 0x1_0000_0000)
  }

  method CarryOdd(h: Limbs64, i: nat) returns (t: Limbs64)
    requires i % 2 == 1 && i < 9 && OddsCarried(h, i)
    ensures Elt(t) == Elt(h) && OddsCarried(t, i + 2)
  {
    hide Elt;
    t := Carry(h, i);
  }

  method CarryLast(h: Limbs64) returns (t: Limbs64)
    requires forall k :: 0 <= k < 10 ==> 0 <= h[k] < 0x1_0000_0000
    ensures Elt(t) == Elt(h) && OddsCarried(t, 1)
  {
    hide Elt;
    t := Carry(h, 9);
  }

  method OddCarries(h: Limbs64) returns (t: Limbs64)
    requires forall k :: 0 <= k < 10 ==> 0 <= h[k] < 0x1_0000_0000
    ensures Elt(t) == Elt(h) && OddsCarried(t, 9)
  {
    hide Elt, OddsCarried;
    t := CarryLast(h);
    t := CarryOdd(t, 1);
    t := CarryOdd(t, 3);
    t := CarryOdd(t, 5);
    t := CarryOdd(t, 7);
  }

  predicate EvensCarried(s: seq<int>, i: nat)
    requires |s| == 10
  {
    forall k :: 0 <= k < 10 ==>
      if k % 2 == 0 then Within(s[k], if k < i then 0x200_0000 else 0x1_0001_0000)
      else Within(s[k], if k < i then 0x100_0100 else 0x100_0000)
  }

  method CarryEven(h: Limbs64, i: nat) returns (t: Limbs64)
    requires i % 2 == 0 && i < 9 && EvensCarried(h, i)
    ensures Elt(t) == Elt(h) && EvensCarried(t, i + 2)
  {
    hide Elt;
    t := Carry(h, i);
  }

  method EvenCarries(h: Limbs64) returns (t: Limbs64)
    requires OddsCarried(h, 9)
    ensures Elt(t) == Elt(h) && Bounded(t, OUT_EVEN, OUT_ODD)
  {
    hide Elt, OddsCarried, EvensCarried;
    NoneEven(h);
    t := CarryEven(h, 0);
    t := CarryEven(t, 2);
    t := CarryEven(t, 4);
    t := CarryEven(t, 6);
    t := CarryEven(t, 8);
    AllEven(t);
  }

  lemma NoneEven(h: Limbs64)
    requires OddsCarried(h, 9)
    ensures EvensCarried(h, 0)
  {}

  lemma AllEven(h: Limbs64)
    requires EvensCarried(h, 10)
    ensures Bounded(h, OUT_EVEN, OUT_ODD)
  {}
}
