/** Scalars between little-endian bytes and limbs of 21 bits: eight limbs are 21 bytes. */
module ScalarBytes {
  import opened MachineInts
  import opened Bytes
  import opened LimbBytes
  import opened ScalarLimbs

  /** Seven limbs from the bytes at `at`; the eighth begins with bit 3 of byte at + 18. */
  function LoadSeven(b: seq<u8>, at: nat): (s: seq<i64>)
    requires at + 19 <= |b|
    ensures |s| == 7 && forall x :: x in s ==> 0 <= x < RADIX
  {
    [Load3(b, at) % RADIX, Load4(b, at + 2) / 0x20 % RADIX, Load3(b, at + 5) / 0x4 % RADIX,
     Load4(b, at + 7) / 0x80 % RADIX, Load4(b, at + 10) / 0x10 % RADIX, Load3(b, at + 13) / 0x2 % RADIX,
     Load4(b, at + 15) / 0x40 % RADIX]
  }

  /** The limbs of a 64-byte number. */
  function Load24(b: seq<u8>): (s: seq<i64>)
    requires |b| == 64
    ensures |s| == 24 && forall x :: x in s ==> 0 <= x < 0x2000_0000
  {
    LoadSeven(b, 0) + [Load3(b, 18) / 0x8 % RADIX] + LoadSeven(b, 21) + [Load3(b, 39) / 0x8 % RADIX]
      + LoadSeven(b, 42) + [Load4(b, 60) / 0x8]
  }

  /** The limbs of a 32-byte number. */
  function Load12(b: seq<u8>): (s: seq<i64>)
    requires |b| == 32
    ensures |s| == 12 && forall x :: x in s ==> 0 <= x < 0x200_0000
  {
    LoadSeven(b, 0) + [Load3(b, 18) / 0x8 % RADIX]
      + [Load3(b, 21) % RADIX, Load4(b, 23) / 0x20 % RADIX, Load3(b, 26) / 0x4 % RADIX, Load4(b, 28) / 0x80]
  }

  // ----- the limbs by their bytes -----

  /** Dropping the bits below d and those from the radix on. */
  lemma Cut(word: int, d: int, q: int, r: int, low: int, high: int)
    requires d > 0 && word == q * d + r && 0 <= r < d
    requires q == high * RADIX + low && 0 <= low < RADIX
    ensures word / d == q && word / d % RADIX == low
  {
    QuotientUnique(word, d, q, r);
    QuotientUnique(q, RADIX, high, low);
  }

  lemma Cut5(w: u8, x: u8, y: u8, z: u8)
    ensures Word4(w, x, y, z) / 0x20 % RADIX == w / 0x20 + 0x8 * x + 0x800 * y + 0x80000 * (z % 0x4)
  {
    Cut(Word4(w, x, y, z), 0x20, w / 0x20 + 0x8 * x + 0x800 * y + 0x80000 * z, w % 0x20, w / 0x20 + 0x8 * x + 0x800 * y + 0x80000 * (z % 0x4), z / 0x4);
  }

  lemma Cut2(w: u8, x: u8, y: u8)
    ensures Word3(w, x, y) / 0x4 % RADIX == w / 0x4 + 0x40 * x + 0x4000 * (y % 0x80)
  {
    Cut(Word3(w, x, y), 0x4, w / 0x4 + 0x40 * x + 0x4000 * y, w % 0x4, w / 0x4 + 0x40 * x + 0x4000 * (y % 0x80), y / 0x80);
  }

  lemma Cut7(w: u8, x: u8, y: u8, z: u8)
    ensures Word4(w, x, y, z) / 0x80 % RADIX == w / 0x80 + 0x2 * x + 0x200 * y + 0x20000 * (z % 0x10)
    ensures Word4(w, x, y, z) / 0x80 == w / 0x80 + 0x2 * x + 0x200 * y + 0x20000 * z
  {
    Cut(Word4(w, x, y, z), 0x80, w / 0x80 + 0x2 * x + 0x200 * y + 0x20000 * z, w % 0x80, w / 0x80 + 0x2 * x + 0x200 * y + 0x20000 * (z % 0x10), z / 0x10);
  }

  lemma Cut4(w: u8, x: u8, y: u8, z: u8)
    ensures Word4(w, x, y, z) / 0x10 % RADIX == w / 0x10 + 0x10 * x + 0x1000 * y + 0x100000 * (z % 0x2)
  {
    Cut(Word4(w, x, y, z), 0x10, w / 0x10 + 0x10 * x + 0x1000 * y + 0x100000 * z, w % 0x10, w / 0x10 + 0x10 * x + 0x1000 * y + 0x100000 * (z % 0x2), z / 0x2);
  }

  lemma Cut1(w: u8, x: u8, y: u8)
    ensures Word3(w, x, y) / 0x2 % RADIX == w / 0x2 + 0x80 * x + 0x8000 * (y % 0x40)
  {
    Cut(Word3(w, x, y), 0x2, w / 0x2 + 0x80 * x + 0x8000 * y, w % 0x2, w / 0x2 + 0x80 * x + 0x8000 * (y % 0x40), y / 0x40);
  }

  lemma Cut6(w: u8, x: u8, y: u8, z: u8)
    ensures Word4(w, x, y, z) / 0x40 % RADIX == w / 0x40 + 0x4 * x + 0x400 * y + 0x40000 * (z % 0x8)
  {
    Cut(Word4(w, x, y, z), 0x40, w / 0x40 + 0x4 * x + 0x400 * y + 0x40000 * z, w % 0x40, w / 0x40 + 0x4 * x + 0x400 * y + 0x40000 * (z % 0x8), z / 0x8);
  }

  lemma Cut3(w: u8, x: u8, y: u8, z: u8)
    ensures Word3(w, x, y) / 0x8 % RADIX == w / 0x8 + 0x20 * x + 0x2000 * y
    ensures Word4(w, x, y, z) / 0x8 == w / 0x8 + 0x20 * x + 0x2000 * y + 0x20_0000 * z
  {
    Cut(Word3(w, x, y), 0x8, w / 0x8 + 0x20 * x + 0x2000 * y, w % 0x8, w / 0x8 + 0x20 * x + 0x2000 * y, 0);
    Cut(Word4(w, x, y, z), 0x8, w / 0x8 + 0x20 * x + 0x2000 * y + 0x20_0000 * z, w % 0x8, w / 0x8 + 0x20 * x + 0x2000 * y, z);
  }

  lemma Cut0(x: u8, y: u8, z: u8)
    ensures Word3(x, y, z) % RADIX == x + 0x100 * y + 0x1_0000 * (z % 0x20)
  {
    QuotientUnique(Word3(x, y, z), RADIX, z / 0x20, x + 0x100 * y + 0x1_0000 * (z % 0x20));
  }

  lemma ValueUnrolled(s: seq<int>)
    requires |s| >= 8
    ensures ValueOf(s) == s[0] + RADIX * (s[1] + RADIX * (s[2] + RADIX * (s[3] + RADIX * (s[4] + RADIX * (s[5] + RADIX * (s[6]
      + RADIX * (s[7] + RADIX * ValueOf(s[8..]))))))))
  {
    assert s[1..][1..] == s[2..] && s[2..][1..] == s[3..] && s[3..][1..] == s[4..] && s[4..][1..] == s[5..];
    assert s[5..][1..] == s[6..] && s[6..][1..] == s[7..] && s[7..][1..] == s[8..];
    assert ValueOf(s) == s[0] + RADIX * ValueOf(s[1..]);
    assert ValueOf(s[1..]) == s[1] + RADIX * ValueOf(s[2..]);
    assert ValueOf(s[2..]) == s[2] + RADIX * ValueOf(s[3..]);
    assert ValueOf(s[3..]) == s[3] + RADIX * ValueOf(s[4..]);
    assert ValueOf(s[4..]) == s[4] + RADIX * ValueOf(s[5..]);
    assert ValueOf(s[5..]) == s[5] + RADIX * ValueOf(s[6..]);
    assert ValueOf(s[6..]) == s[6] + RADIX * ValueOf(s[7..]);
    assert ValueOf(s[7..]) == s[7] + RADIX * ValueOf(s[8..]);
  }

  const TWO_168: int := 0x1000000000000000000000000000000000000000000

  /** Eight limbs that begin at a byte are the 21 bytes there; what the eighth takes
      beyond them and the limbs that follow are left to compare with the rest. */
  lemma EightLimbs(b: seq<u8>, at: nat, last: int, extra: int, rest: seq<int>)
    requires at + 21 <= |b| && last == b[at + 18] / 0x8 + 0x20 * b[at + 19] + 0x2000 * b[at + 20] + RADIX * extra
    ensures ValueOf(LoadSeven(b, at) + [last] + rest) - LittleEndian(b[at..])
      == TWO_168 * (extra + ValueOf(rest) - LittleEndian(b[at + 21..]))
  {
    hide ValueOf, LittleEndian, Pow256, Word3, Word4;
    var s := LoadSeven(b, at) + [last] + rest;
    assert s[8..] == rest;
    ValueUnrolled(s);
    Cut0(b[at], b[at + 1], b[at + 2]);
    Cut5(b[at + 2], b[at + 3], b[at + 4], b[at + 5]);
    Cut2(b[at + 5], b[at + 6], b[at + 7]);
    Cut7(b[at + 7], b[at + 8], b[at + 9], b[at + 10]);
    Cut4(b[at + 10], b[at + 11], b[at + 12], b[at + 13]);
    Cut1(b[at + 13], b[at + 14], b[at + 15]);
    Cut6(b[at + 15], b[at + 16], b[at + 17], b[at + 18]);
    Unroll(b[at..]);
    Unroll(b[at + 7..]);
    Unroll(b[at + 14..]);
    assert b[at..][7..] == b[at + 7..] && b[at + 7..][7..] == b[at + 14..] && b[at + 14..][7..] == b[at + 21..];
  }

  lemma Load24Value(b: seq<u8>)
    requires |b| == 64
    ensures ValueOf(Load24(b)) == LittleEndian(b)
  {
    hide ValueOf, LittleEndian, Pow256, Word3, Word4, LoadSeven;
    Cut3(b[18], b[19], b[20], 0);
    Cut3(b[39], b[40], b[41], 0);
    Cut3(b[60], b[61], b[62], b[63]);
    var s3 := LoadSeven(b, 42) + [Load4(b, 60) / 0x8];
    var s2 := LoadSeven(b, 21) + [Load3(b, 39) / 0x8 % RADIX] + s3;
    var s1 := LoadSeven(b, 0) + [Load3(b, 18) / 0x8 % RADIX] + s2;
    assert Load24(b) == s1 && s3 == s3 + [];
    EightLimbs(b, 42, Load4(b, 60) / 0x8, b[63], []);
    EightLimbs(b, 21, Load3(b, 39) / 0x8 % RADIX, 0, s3);
    EightLimbs(b, 0, Load3(b, 18) / 0x8 % RADIX, 0, s2);
    assert b[0..] == b && b[63..] == [b[63]];
    OneByte(b[63]);
    NoLimb();
  }

  lemma Load12Value(b: seq<u8>)
    requires |b| == 32
    ensures ValueOf(Load12(b)) == LittleEndian(b)
  {
    hide ValueOf, LittleEndian, Pow256, Word3, Word4, LoadSeven;
    var s2 := [Load3(b, 21) % RADIX, Load4(b, 23) / 0x20 % RADIX, Load3(b, 26) / 0x4 % RADIX, Load4(b, 28) / 0x80];
    Cut3(b[18], b[19], b[20], 0);
    assert Load12(b) == LoadSeven(b, 0) + [Load3(b, 18) / 0x8 % RADIX] + s2;
    EightLimbs(b, 0, Load3(b, 18) / 0x8 % RADIX, 0, s2);
    LastFour(b);
    assert b[0..] == b;
  }

  lemma LastFour(b: seq<u8>)
    requires |b| == 32
    ensures ValueOf([Load3(b, 21) % RADIX, Load4(b, 23) / 0x20 % RADIX, Load3(b, 26) / 0x4 % RADIX, Load4(b, 28) / 0x80])
      == LittleEndian(b[21..])
  {
    hide Word3, Word4, LittleEndian, Pow256;
    Cut0(b[21], b[22], b[23]);
    Cut5(b[23], b[24], b[25], b[26]);
    Cut2(b[26], b[27], b[28]);
    Cut7(b[28], b[29], b[30], b[31]);
    Unroll(b[21..]);
    assert b[21..][7..] == b[28..] && b[28..] == [b[28], b[29], b[30], b[31]];
    FourBytes(b[28], b[29], b[30], b[31]);
    FourLimbs(Load3(b, 21) % RADIX, Load4(b, 23) / 0x20 % RADIX, Load3(b, 26) / 0x4 % RADIX, Load4(b, 28) / 0x80);
  }

  lemma FourLimbs(w: int, x: int, y: int, z: int)
    ensures ValueOf([w, x, y, z]) == w + RADIX * (x + RADIX * (y + RADIX * z))
  {
    assert [w, x, y, z][1..] == [x, y, z] && [x, y, z][1..] == [y, z] && [y, z][1..] == [z] && [z][1..] == [];
    assert ValueOf([z]) == z;
    assert ValueOf([y, z]) == y + RADIX * z;
  }

  lemma NoLimb()
    ensures ValueOf([]) == 0
  {}

  /** Eight limbs as 21 bytes. */
  function StoreEight(x: seq<int>): (b: seq<u8>)
    requires |x| == 8
    ensures |b| == 21
  {
    [Byte(x[0], 1), Byte(x[0], 0x100), Join(Top(x[0], 0x1_0000), x[1] * 0x20),
     Byte(x[1], 0x8), Byte(x[1], 0x800), Join(Top(x[1], 0x8_0000), x[2] * 0x4),
     Byte(x[2], 0x40), Join(Top(x[2], 0x4000), x[3] * 0x80),
     Byte(x[3], 0x2), Byte(x[3], 0x200), Join(Top(x[3], 0x2_0000), x[4] * 0x10),
     Byte(x[4], 0x10), Byte(x[4], 0x1000), Join(Top(x[4], 0x10_0000), x[5] * 0x2),
     Byte(x[5], 0x80), Join(Top(x[5], 0x8000), x[6] * 0x40),
     Byte(x[6], 0x4), Byte(x[6], 0x400), Join(Top(x[6], 0x4_0000), x[7] * 0x8),
     Byte(x[7], 0x20), Byte(x[7], 0x2000)]
  }

  /** Four limbs as 11 bytes. */
  function StoreFour(x: seq<int>): (b: seq<u8>)
    requires |x| == 4
    ensures |b| == 11
  {
    [Byte(x[0], 1), Byte(x[0], 0x100), Join(Top(x[0], 0x1_0000), x[1] * 0x20),
     Byte(x[1], 0x8), Byte(x[1], 0x800), Join(Top(x[1], 0x8_0000), x[2] * 0x4),
     Byte(x[2], 0x40), Join(Top(x[2], 0x4000), x[3] * 0x80),
     Byte(x[3], 0x2), Byte(x[3], 0x200), Byte(x[3], 0x2_0000)]
  }

  /** Limbs 0 to 3, up to the bits that limb 3 shares a byte with. */
  lemma StoreLowHalf(x: seq<int>, b: seq<u8>)
    requires |x| == 8 && (forall i :: 0 <= i < 8 ==> 0 <= x[i] < RADIX) && b == StoreEight(x)
    ensures x[0] + RADIX * (x[1] + RADIX * (x[2] + RADIX * x[3])) == Word4(b[0], b[1], b[2], b[3])
      + 0x1_0000_0000 * Word4(b[4], b[5], b[6], b[7]) + 0x1_0000_0000_0000_0000 * Word3(b[8], b[9], Top(x[3], 0x2_0000))
    ensures 0 <= Top(x[3], 0x2_0000) < 0x10
  {
    hide Join, Byte, Top;
    FirstBytes(x[0]);
    TopBelow(x[0], 0x1_0000, 0x20);
    TwoByteLimb(Top(x[0], 0x1_0000), x[1], 0x20, 0x8, 0x4);
    OneByteLimb(Top(x[1], 0x8_0000), x[2], 0x4, 0x40, 0x80);
    TwoByteLimb(Top(x[2], 0x4000), x[3], 0x80, 0x2, 0x10);
  }

  lemma StoreHighHalf(x: seq<int>, b: seq<u8>)
    requires |x| == 8 && (forall i :: 0 <= i < 8 ==> 0 <= x[i] < RADIX) && b == StoreEight(x)
    requires 0 <= Top(x[3], 0x2_0000) < 0x10
    ensures Top(x[3], 0x2_0000) + 0x10 * (x[4] + RADIX * (x[5] + RADIX * (x[6] + RADIX * x[7]))) ==
      Word4(b[10], b[11], b[12], b[13]) + 0x1_0000_0000 * Word4(b[14], b[15], b[16], b[17])
      + 0x1_0000_0000_0000_0000 * Word3(b[18], b[19], b[20])
  {
    hide Join, Byte, Top;
    TwoByteLimb(Top(x[3], 0x2_0000), x[4], 0x10, 0x10, 0x2);
    OneByteLimb(Top(x[4], 0x10_0000), x[5], 0x2, 0x80, 0x40);
    TwoByteLimb(Top(x[5], 0x8000), x[6], 0x40, 0x4, 0x8);
    TwoByteLimb(Top(x[6], 0x4_0000), x[7], 0x8, 0x20, 0x1);
  }

  lemma StoreEightValue(x: seq<int>, rest: seq<u8>)
    requires |x| == 8 && forall v :: v in x ==> 0 <= v < RADIX
    ensures LittleEndian(StoreEight(x) + rest) == ValueOf(x) + TWO_168 * LittleEndian(rest)
  {
    hide LittleEndian, Pow256, ValueOf, StoreEight, Top;
    var e := StoreEight(x);
    var b := e + rest;
    assert forall i :: 0 <= i < 8 ==> x[i] in x;
    StoreLowHalf(x, e);
    StoreHighHalf(x, e);
    Unroll(b);
    Unroll(b[7..]);
    Unroll(b[14..]);
    assert b[7..][7..] == b[14..] && b[14..][7..] == b[21..] && b[21..] == rest;
    ValueUnrolled(x);
    NoLimb();
    assert x[8..] == [];
  }

  lemma StoreFourValue(x: seq<int>)
    requires |x| == 4 && 0 <= x[0] < RADIX && 0 <= x[1] < RADIX && 0 <= x[2] < RADIX && 0 <= x[3] <= RADIX
    ensures LittleEndian(StoreFour(x)) == ValueOf(x)
  {
    hide LittleEndian, Pow256, ValueOf, Join, Byte, Top;
    var b := StoreFour(x);
    FirstBytes(x[0]);
    TopBelow(x[0], 0x1_0000, 0x20);
    TwoByteLimb(Top(x[0], 0x1_0000), x[1], 0x20, 0x8, 0x4);
    OneByteLimb(Top(x[1], 0x80000), x[2], 0x4, 0x40, 0x80);
    TwoByteLimb(Top(x[2], 0x4000), x[3], 0x80, 0x2, 0x11);
    NextByte(x[3], 0x2_0000);
    TopBelow(x[3], 0x200_0000, 1);
    ElevenBytes(b);
    ValueOfFour(x);
  }

  lemma ElevenBytes(b: seq<u8>)
    requires |b| == 11
    ensures LittleEndian(b) == b[0] + 0x100 * b[1] + 0x1_0000 * b[2] + 0x100_0000 * b[3] + 0x1_0000_0000 * b[4]
      + 0x100_0000_0000 * b[5] + 0x1_0000_0000_0000 * b[6] + 0x100_0000_0000_0000 * Word4(b[7], b[8], b[9], b[10])
  {
    hide LittleEndian, Pow256;
    Unroll(b);
    assert b[7..] == [b[7], b[8], b[9], b[10]];
    FourBytes(b[7], b[8], b[9], b[10]);
  }

  lemma ValueOfFour(x: seq<int>)
    requires |x| == 4
    ensures ValueOf(x) == x[0] + RADIX * (x[1] + RADIX * (x[2] + RADIX * x[3]))
  {
    hide ValueOf;
    FourLimbs(x[0], x[1], x[2], x[3]);
    assert x == [x[0], x[1], x[2], x[3]];
  }

  /** The 32 bytes of twelve limbs. */
  function Store12(x: seq<int>): (b: seq<u8>)
    requires |x| >= 12
    ensures |b| == 32
  {
    StoreEight(x[..8]) + StoreFour(x[8..12])
  }

  lemma Store12Encodes(x: seq<int>)
    requires |x| == 24 && 0 <= x[11] <= RADIX && forall j :: 0 <= j < 11 ==> 0 <= x[j] < RADIX
    requires forall j :: 12 <= j < 24 ==> x[j] == 0
    ensures ValueOf(x) >= 0 && Store12(x) == Encode(ValueOf(x), 32)
  {
    hide LittleEndian, Pow256, ValueOf, StoreEight, StoreFour, Encode;
    ValueInParts(x);
    StoreEightValue(x[..8], StoreFour(x[8..12]));
    StoreFourValue(x[8..12]);
    EncodeUnique(Store12(x));
  }

  lemma ValueInParts(x: seq<int>)
    requires |x| == 24 && forall j :: 12 <= j < 24 ==> x[j] == 0
    ensures ValueOf(x) == ValueOf(x[..8]) + TWO_168 * ValueOf(x[8..12])
  {
    hide ValueOf, Weight;
    var hi := x[8..];
    assert x == x[..8] + hi && hi == x[8..12] + x[12..];
    ConcatValue(x[..8], hi);
    ConcatValue(x[8..12], x[12..]);
    ZeroValue(x[12..]);
    Weight8();
  }

  lemma Weight8()
    ensures Weight(8) == TWO_168
  {
    assert Weight(4) == 0x10_0000_0000_0000_0000_0000;
  }
}
