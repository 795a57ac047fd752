/** Bytes and limbs of any width: words of three and four bytes, and limbs written out
    where a byte may hold the end of one limb and the start of the next. */
module LimbBytes {
  import opened MachineInts
  import opened Bytes

  function Word3(x: int, y: int, z: int): int { x + 0x100 * y + 0x1_0000 * z }

  function Word4(w: int, x: int, y: int, z: int): int { w + 0x100 * x + 0x1_0000 * y + 0x100_0000 * z }

  function Load3(b: seq<u8>, at: nat): u64
    requires at + 3 <= |b|
  {
    Word3(b[at], b[at + 1], b[at + 2])
  }

  function Load4(b: seq<u8>, at: nat): u64
    requires at + 4 <= |b|
  {
    Word4(b[at], b[at + 1], b[at + 2], b[at + 3])
  }

  lemma Unroll(b: seq<u8>)
    requires |b| >= 7
    ensures LittleEndian(b) == b[0] + 0x100 * b[1] + 0x1_0000 * b[2] + 0x100_0000 * b[3] + 0x1_0000_0000 * b[4]
      + 0x100_0000_0000 * b[5] + 0x1_0000_0000_0000 * b[6] + 0x100_0000_0000_0000 * LittleEndian(b[7..])
  {
    assert b[1..][1..] == b[2..] && b[2..][1..] == b[3..] && b[3..][1..] == b[4..];
    assert b[4..][1..] == b[5..] && b[5..][1..] == b[6..] && b[6..][1..] == b[7..];
    assert LittleEndian(b) == b[0] + 0x100 * LittleEndian(b[1..]);
    assert LittleEndian(b[1..]) == b[1] + 0x100 * LittleEndian(b[2..]);
    assert LittleEndian(b[2..]) == b[2] + 0x100 * LittleEndian(b[3..]);
    assert LittleEndian(b[3..]) == b[3] + 0x100 * LittleEndian(b[4..]);
    assert LittleEndian(b[4..]) == b[4] + 0x100 * LittleEndian(b[5..]);
    assert LittleEndian(b[5..]) == b[5] + 0x100 * LittleEndian(b[6..]);
    assert LittleEndian(b[6..]) == b[6] + 0x100 * LittleEndian(b[7..]);
  }

  lemma FourBytes(w: u8, x: u8, y: u8, z: u8)
    ensures LittleEndian([w, x, y, z]) == w + 0x100 * x + 0x1_0000 * y + 0x100_0000 * z
  {
    assert [w, x, y, z][1..] == [x, y, z] && [x, y, z][1..] == [y, z] && [y, z][1..] == [z];
    OneByte(z);
    assert LittleEndian([y, z]) == y + 0x100 * z;
    assert LittleEndian([x, y, z]) == x + 0x100 * LittleEndian([y, z]);
  }

  // ----- writing bytes -----

  /** A byte made of the last bits of one limb and the first bits of the next. */
  function Join(high: int, low: int): u8 { (high + low) % 0x100 }

  /** The byte of a limb that begins at the bit of d, and what the limb has from there. */
  function Byte(x: int, d: int): u8
    requires d > 0
  {
    x / d % 0x100
  }

  function Top(x: int, d: int): int
    requires d > 0
  {
    x / d
  }

  lemma Joined(p: int, x: int, m: int, d: int)
    requires d > 0 && d * m == 0x100 && 0 <= p < m && 0 <= x
    ensures Join(p, x * m) == p + m * (x % d)
  {
    DivisionFacts(x, d);
    var q, r := x / d, x % d;
    Regrouped(x, q, d, r, m);
    AtMost(r, d, m);
    QuotientUnique(p + x * m, 0x100, q, p + m * r);
  }

  lemma Regrouped(x: int, q: int, d: int, r: int, m: int)
    requires x == q * d + r && d * m == 0x100
    ensures x * m == q * 0x100 + m * r
  {
    assert (q * d) * m == q * (d * m);
    assert (q * d + r) * m == (q * d) * m + r * m;
  }

  /** A limb whose first bits share a byte with p: that byte, the next one, and what the
      limb has above them. */
  lemma JoinLimb(p: int, x: int, m: int, d: int)
    requires d > 0 && d * m == 0x100 && 0 <= p < m && 0 <= x
    ensures d * 0x100 > 0 && p + m * x == Join(p, x * m) + 0x100 * Byte(x, d) + 0x1_0000 * Top(x, d * 0x100)
  {
    Joined(p, x, m, d);
    DivisionFacts(x, d);
    DivDiv(x, d, 0x100);
    Regrouped(x, x / d, d, x % d, m);
  }

  /** One more byte of a limb. */
  lemma NextByte(x: int, d: int)
    requires d > 0 && 0 <= x
    ensures d * 0x100 > 0 && Top(x, d) == Byte(x, d) + 0x100 * Top(x, d * 0x100)
  {
    DivDiv(x, d, 0x100);
  }

  lemma TopBelow(x: int, d: int, n: int)
    requires d > 0 && 0 <= x < n * d
    ensures 0 <= Top(x, d) < n
  {
    DivisionFacts(x, d);
    if x / d >= n {
      Product(n, x / d, d, d);
      assert false;
    }
  }

  /** The same with one byte, and a bound for what is above. */
  lemma OneByteLimb(p: int, x: int, m: int, d: int, n: int)
    requires d > 0 && d * m == 0x100 && 0 <= p < m && 0 <= x < n * (d * 0x100)
    ensures p + m * x == Join(p, x * m) + 0x100 * Byte(x, d) + 0x1_0000 * Top(x, d * 0x100)
    ensures 0 <= Top(x, d * 0x100) < n
  {
    hide Join, Byte, Top;
    JoinLimb(p, x, m, d);
    TopBelow(x, d * 0x100, n);
  }

  /** The same with two bytes. */
  lemma TwoByteLimb(p: int, x: int, m: int, d: int, n: int)
    requires d > 0 && d * m == 0x100 && 0 <= p < m && 0 <= x < n * (d * 0x1_0000)
    ensures p + m * x == Join(p, x * m) + 0x100 * Byte(x, d) + 0x1_0000 * Byte(x, d * 0x100) + 0x100_0000 * Top(x, d * 0x1_0000)
    ensures 0 <= Top(x, d * 0x1_0000) < n
  {
    hide Join, Byte, Top;
    JoinLimb(p, x, m, d);
    NextByte(x, d * 0x100);
    TopBelow(x, d * 0x1_0000, n);
  }

  /** One byte, another, and what is above them. */
  lemma FirstBytes(x: int)
    requires 0 <= x
    ensures x == Byte(x, 1) + 0x100 * Byte(x, 0x100) + 0x1_0000 * Top(x, 0x1_0000)
  {
    NextByte(x, 1);
    NextByte(x, 0x100);
    assert x / 1 == x;
  }

  lemma NoBytes()
    ensures LittleEndian([]) == 0
  {}

  /** The first 16 bytes, as words of four. */
  lemma SixteenBytes(b: seq<u8>, rest: seq<u8>)
    requires |b| == 16
    ensures LittleEndian(b + rest) == Word4(b[0], b[1], b[2], b[3]) + 0x100000000 * Word4(b[4], b[5], b[6], b[7])
      + 0x10000000000000000 * Word4(b[8], b[9], b[10], b[11])
      + 0x1000000000000000000000000 * Word4(b[12], b[13], b[14], b[15]) + 0x100000000000000000000000000000000 * LittleEndian(rest)
  {
    hide LittleEndian, Pow256;
    var s := b + rest;
    Unroll(s);
    Unroll(s[7..]);
    assert s[7..][7..] == s[14..] && s[14..] == [b[14], b[15]] + rest;
    TwoBytes(b[14], b[15], rest);
  }

  lemma TwoBytes(x: u8, y: u8, rest: seq<u8>)
    ensures LittleEndian([x, y] + rest) == x + 0x100 * y + 0x1_0000 * LittleEndian(rest)
  {
    var s := [x, y] + rest;
    assert s[1..][1..] == rest;
    assert LittleEndian(s[1..]) == y + 0x100 * LittleEndian(rest);
  }
}
