/** Little-endian byte strings. */
module Bytes {
  import opened MachineInts

  /** b[0] + 256 b[1] + 256^2 b[2] + ... */
  function LittleEndian(b: seq<u8>): (v: nat)
    ensures v < Pow256(|b|)
  {
    if b == [] then 0 else b[0] + 0x100 * LittleEndian(b[1..])
  }

  function Pow256(n: nat): (v: nat)
    ensures v >= 1
  {
    if n == 0 then 1 else 0x100 * Pow256(n - 1)
  }

  /** The n low bytes of v. */
  function Encode(v: nat, n: nat): (b: seq<u8>)
    ensures |b| == n
    decreases n
  {
    if n == 0 then [] else [v % 0x100] + Encode(v / 0x100, n - 1)
  }

  lemma {:induction false} EncodeDecodes(v: nat, n: nat)
    ensures LittleEndian(Encode(v, n)) == v % Pow256(n)
    decreases n
  {
    if n == 0 {
      assert v % 1 == 0;
    } else {
      EncodeDecodes(v / 0x100, n - 1);
      assert Encode(v, n)[1..] == Encode(v / 0x100, n - 1);
      DivDiv(v, 0x100, Pow256(n - 1));
    }
  }

  lemma DivisionFacts(v: int, d: int)
    requires d > 0
    ensures v == (v / d) * d + v % d && 0 <= v % d < d
  {}

  lemma Distribute(a: int, b: int, c: int)
    ensures (a - b) * c == a * c - b * c
  {}

  lemma AtLeastOnce(n: int, d: int)
    requires n >= 1 && d > 0
    ensures n * d >= d
  {}

  lemma Product(a: nat, b: nat, x: nat, y: nat)
    requires a <= b && x <= y
    ensures a * x <= b * y
  {
    assert a * x <= a * y;
    assert a * y <= b * y;
  }

  lemma QuotientUnique(v: int, d: int, q: int, r: int)
    requires d > 0 && v == q * d + r && 0 <= r < d
    ensures v / d == q && v % d == r
  {
    var q', r' := v / d, v % d;
    DivisionFacts(v, d);
    if q > q' {
      Distribute(q, q', d);
      AtLeastOnce(q - q', d);
      assert false;
    } else if q < q' {
      Distribute(q', q, d);
      AtLeastOnce(q' - q, d);
      assert false;
    }
  }

  lemma {:induction false} Concat(a: seq<u8>, b: seq<u8>)
    ensures LittleEndian(a + b) == LittleEndian(a) + LittleEndian(b) * Pow256(|a|)
  {
    if a == [] {
      assert a + b == b;
    } else {
      Concat(a[1..], b);
      assert (a + b)[1..] == a[1..] + b;
      Regroup(a[0], 0x100, LittleEndian(a[1..]), Pow256(|a| - 1), LittleEndian(b));
      assert LittleEndian(a) == a[0] + 0x100 * LittleEndian(a[1..]);
    }
  }

  lemma Regroup(x: int, a: int, y: int, m: int, z: int)
    ensures x + a * (y + z * m) == (x + a * y) + z * (a * m)
  {}

  /** The value of the bytes i .. j of b. */
  lemma Slice(b: seq<u8>, i: nat, j: nat)
    requires i <= j <= |b|
    ensures LittleEndian(b[i..j]) == (LittleEndian(b) / Pow256(i)) % Pow256(j - i)
  {
    hide LittleEndian, Pow256;
    var lo, rest := b[..i], b[i..];
    assert b == lo + rest;
    Concat(lo, rest);
    QuotientUnique(LittleEndian(b), Pow256(i), LittleEndian(rest), LittleEndian(lo));
    var mid, hi := b[i..j], b[j..];
    assert rest == mid + hi;
    Concat(mid, hi);
    QuotientUnique(LittleEndian(rest), Pow256(j - i), LittleEndian(hi), LittleEndian(mid));
  }

  /** A byte string is determined by its length and value. */
  lemma {:induction false} EncodeUnique(b: seq<u8>)
    ensures Encode(LittleEndian(b), |b|) == b
  {
    if b != [] {
      EncodeUnique(b[1..]);
      FirstByte(b[0], LittleEndian(b[1..]));
    }
  }

  lemma FirstByte(x: u8, rest: nat)
    ensures (x + 0x100 * rest) % 0x100 == x && (x + 0x100 * rest) / 0x100 == rest
  {}

  /** v without its m low bytes. */
  function Shift(v: nat, m: nat): nat
    decreases m
  {
    if m == 0 then v else Shift(v / 0x100, m - 1)
  }

  lemma {:induction false} ShiftDivides(v: nat, m: nat)
    ensures Shift(v, m) == v / Pow256(m)
    decreases m
  {
    if m == 0 {
    } else {
      ShiftDivides(v / 0x100, m - 1);
      DivDiv(v, 0x100, Pow256(m - 1));
    }
  }

  lemma {:induction false} EncodeConcat(v: nat, m: nat, n: nat)
    ensures Encode(v, m + n) == Encode(v, m) + Encode(Shift(v, m), n)
    decreases m
  {
    if m == 0 {
    } else {
      EncodeConcat(v / 0x100, m - 1, n);
      DivDiv(v, 0x100, Pow256(m - 1));
      assert Encode(v, m) == [v % 0x100] + Encode(v / 0x100, m - 1);
    }
  }

  lemma DivDiv(v: nat, a: nat, m: nat)
    requires a > 0 && m > 0
    ensures a * m > 0 && v / (a * m) == v / a / m
    ensures v % (a * m) == v % a + a * (v / a % m)
  {
    var q, r := v / a, v % a;
    var q1, r1 := q / m, q % m;
    DivisionFacts(v, a);
    DivisionFacts(q, m);
    Regroup(r, a, r1, m, q1);
    AtMost(r1, m, a);
    AtLeastOnce(m, a);
    QuotientUnique(v, a * m, q1, r + a * r1);
  }

  lemma AtMost(r: int, m: int, a: int)
    requires r < m && a > 0
    ensures a * r + a <= a * m
  {
    AtLeastOnce(m - r, a);
    Distribute(m, r, a);
  }

  lemma Pow256Values()
    ensures Pow256(2) == 0x1_0000 && Pow256(6) == 0x1_000000_000000 && Pow256(8) == TWO_64
    ensures Pow256(12) == 0x1_000000_000000_000000_000000
    ensures Pow256(19) == 0x1_00000000000000000000000000000000000000
    ensures Pow256(24) == 0x1_000000000000000000000000000000000000000000000000
    ensures Pow256(32) == 0x1_0000000000000000000000000000000000000000000000000000000000000000
  {
    assert Pow256(4) == 0x1_0000_0000;
    assert Pow256(10) == 0x1_0000_0000_0000_0000_0000;
    assert Pow256(14) == 0x1_0000_0000_0000_0000_0000_0000_0000;
    assert Pow256(16) == 0x1_0000_0000_0000_0000_0000_0000_0000_0000;
    assert Pow256(20) == 0x1_0000000000_0000000000_0000000000_0000000000;
    assert Pow256(26) == 0x1_0000_000000000000000000000000000000000000000000000000;
  }

  lemma Pow256Of31()
    ensures Pow256(31) == 0x1_00000000000000000000000000000000000000000000000000000000000000
  {
    Pow256Values();
    assert Pow256(28) == 0x1_00000000000000000000000000000000000000000000000000000000;
  }

  lemma OneByte(x: u8)
    ensures LittleEndian([x]) == x
  {
    assert [x][1..] == [];
  }

  /** The 32 bytes of a secret with the three low bits and the highest cleared and the
      next highest set stand for 2^254 and the 251 bits between, times eight. */
  lemma ClampedValue(b: seq<u8>, r: seq<u8>)
    requires |b| == 32 && r == [b[0] - b[0] % 8] + b[1..31] + [b[31] % 64 + 64]
    ensures LittleEndian(r) == 0x4000000000000000000000000000000000000000000000000000000000000000 + 8 * (LittleEndian(b) / 8 % 0x800000000000000000000000000000000000000000000000000000000000000)
  {
    hide LittleEndian, Pow256;
    var m := LittleEndian(b[1..31]);
    ThreeParts(b, b[0], b[1..31], b[31]);
    ThreeParts(r, b[0] - b[0] % 8, b[1..31], b[31] % 64 + 64);
    ClampedParts(LittleEndian(b), b[0], m, b[31]);
  }

  lemma ThreeParts(s: seq<u8>, x: u8, mid: seq<u8>, y: u8)
    requires s == [x] + mid + [y] && |mid| == 30
    ensures LittleEndian(s) == x + 0x100 * LittleEndian(mid) + 0x100000000000000000000000000000000000000000000000000000000000000 * y
    ensures LittleEndian(mid) < 0x1000000000000000000000000000000000000000000000000000000000000
  {
    hide LittleEndian, Pow256;
    assert s == [x] + (mid + [y]);
    Concat([x], mid + [y]);
    Concat(mid, [y]);
    OneByte(x);
    OneByte(y);
    Pow256Of31();
    Pow256Of30();
  }

  lemma Pow256Of30()
    ensures Pow256(1) == 0x100 && Pow256(30) == 0x1000000000000000000000000000000000000000000000000000000000000
  {
    Pow256Values();
    assert Pow256(27) == 0x1000000000000000000000000000000000000000000000000000000;
  }

  lemma ClampedParts(v: nat, x: u8, m: nat, y: u8)
    requires m < 0x1000000000000000000000000000000000000000000000000000000000000 && v == x + 0x100 * m + 0x100000000000000000000000000000000000000000000000000000000000000 * y
    ensures x - x % 8 + 0x100 * m + 0x100000000000000000000000000000000000000000000000000000000000000 * (y % 64 + 64) == 0x4000000000000000000000000000000000000000000000000000000000000000 + 8 * (v / 8 % 0x800000000000000000000000000000000000000000000000000000000000000)
  {
    var w := x / 8 + 0x20 * m + 0x20000000000000000000000000000000000000000000000000000000000000 * (y % 64);
    QuotientUnique(v, 8, x / 8 + 0x20 * m + 0x20000000000000000000000000000000000000000000000000000000000000 * y, x % 8);
    QuotientUnique(v / 8, 0x800000000000000000000000000000000000000000000000000000000000000, y / 64, w);
  }

  function Pow2(n: nat): (v: nat)
    ensures v >= 1
  {
    if n == 0 then 1 else 2 * Pow2(n - 1)
  }

  lemma {:induction false} PowSum(m: nat, n: nat)
    ensures Pow2(m + n) == Pow2(m) * Pow2(n)
  {
    if m > 0 {
      PowSum(m - 1, n);
      Regroup(0, 2, 0, Pow2(m - 1), Pow2(n));
    }
  }

  lemma SevenMore(m: nat)
    ensures Pow2(m + 7) == 0x80 * Pow2(m)
  {
    assert Pow2(m + 2) == 4 * Pow2(m) by { assert Pow2(m + 1) == 2 * Pow2(m); }
    assert Pow2(m + 4) == 4 * Pow2(m + 2) by { assert Pow2(m + 3) == 2 * Pow2(m + 2); }
    assert Pow2(m + 6) == 4 * Pow2(m + 4) by { assert Pow2(m + 5) == 2 * Pow2(m + 4); }
  }

  lemma {:induction false} Pow256IsPow2(n: nat)
    ensures Pow256(n) == Pow2(8 * n)
  {
    if n > 0 {
      Pow256IsPow2(n - 1);
      var m := 8 * n - 8;
      SevenMore(m);
      assert Pow2(m + 8) == 2 * Pow2(m + 7);
    }
  }

  lemma FirstPowers()
    ensures Pow2(1) == 2 && Pow2(2) == 4 && Pow2(5) == 0x20
  {
    assert Pow2(3) == 8;
  }

  /** The powers of two of the inversion chains. */
  lemma ChainPowers()
    ensures Pow2(1) == 2 && Pow2(2) == 4 && Pow2(5) == 0x20 && Pow2(10) == 0x400 && Pow2(20) == 0x100000
    ensures Pow2(50) == 0x4000000000000 && Pow2(100) == 0x10000000000000000000000000
  {
    FirstPowers();
    hide Pow2;
    PowSum(5, 5);
    PowSum(10, 10);
    PowSum(20, 20);
    PowSum(40, 10);
    PowSum(50, 50);
  }
}
