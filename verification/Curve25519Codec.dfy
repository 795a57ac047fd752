/** fexpand and fcontract of curve25519.cpp: 32 little-endian bytes to limbs and
    back, on values. */
module Curve25519Codec {
  import opened MachineInts
  import opened Bytes
  import opened Curve25519Limbs
  import F = Field25519
  import opened Rfc7748

  const TWO_255: int := F.P + 19

  // ----- fexpand -----

  /** The limbs fexpand reads from the 64-bit words at bytes 0, 6, 12, 19 and 24. */
  function ExpandWords(w0: u64, w6: u64, w12: u64, w19: u64, w24: u64): Felem {
    Felem(w0 % B, (w6 / 0x8) % B, (w12 / 0x40) % B, (w19 / 0x2) % B, (w24 / 0x1000) % B)
  }

  const B3: int := 0x200000000000000000000000000000000000000 // 2^153
  const B4: int := 0x1000000000000000000000000000000000000000000000000000 // 2^204

  /** The five digits of v in base 2^51, without bit 255. */
  function Digits(v: nat): Felem {
    Felem(v % B, (v / B) % B, (v / B2) % B, (v / B3) % B, (v / B4) % B)
  }

  lemma Quotients(v: nat)
    ensures v / B2 == v / B / B && v / B3 == v / B2 / B && v / B4 == v / B3 / B
  {
    DivDiv(v, B, B);
    DivDiv(v, B2, B);
    DivDiv(v, B3, B);
  }

  lemma DigitsVal(v: nat)
    ensures Val(Digits(v)) == v % TWO_255
    ensures Within(Digits(v), B - 1)
  {
    Quotients(v);
    var v4 := v / B4;
    var v5 := v4 / B;
    DivisionFacts(v, B);
    DivisionFacts(v / B, B);
    DivisionFacts(v / B2, B);
    DivisionFacts(v / B3, B);
    DivisionFacts(v4, B);
    hide Digits;
    assert v == Val(Felem(v % B, (v / B) % B, (v / B2) % B, (v / B3) % B, v4 % B)) + TWO_255 * v5;
    ValRange(Felem(v % B, (v / B) % B, (v / B2) % B, (v / B3) % B, v4 % B));
    QuotientUnique(v, TWO_255, v5, v - TWO_255 * v5);
  }

  lemma ValRange(f: Felem)
    requires Within(f, B - 1)
    ensures 0 <= Val(f) < TWO_255
  {}

  /** Bits log c .. log c + 50 of a 64-bit word read from x are those of x. */
  lemma WordBits(x: nat, c: nat, d: nat)
    requires c > 0 && d > 0 && c * (B * d) == TWO_64
    ensures x % TWO_64 / c % B == x / c % B
  {
    var m := B * d;
    var y := x / c;
    DivDiv(x, c, m);
    DivisionFacts(x, c);
    QuotientUnique(x % TWO_64, c, y % m, x % c);
    DivDiv(y, B, d);
    QuotientUnique(y % m, B, y / B % d, y % B);
  }

  lemma WordDigits(v: nat)
    ensures ExpandWords(v % TWO_64, v / 0x1_000000_000000 % TWO_64, v / 0x1_000000_000000_000000_000000 % TWO_64,
                        v / 0x1_00000000000000000000000000000000000000 % TWO_64,
                        v / 0x1_000000000000000000000000000000000000000000000000 % TWO_64) == Digits(v)
  {
    WordBits(v, 1, 0x2000);
    assert v / 1 == v && v % TWO_64 / 1 == v % TWO_64;
    WordBits(v / 0x1_000000_000000, 8, 0x400);
    DivDiv(v, 0x1_000000_000000, 0x8);
    WordBits(v / 0x1_000000_000000_000000_000000, 0x40, 0x80);
    DivDiv(v, 0x1_000000_000000_000000_000000, 0x40);
    WordBits(v / 0x1_00000000000000000000000000000000000000, 2, 0x1000);
    DivDiv(v, 0x1_00000000000000000000000000000000000000, 0x2);
    WordBits(v / 0x1_000000000000000000000000000000000000000000000000, 0x1000, 2);
    DivDiv(v, 0x1_000000000000000000000000000000000000000000000000, 0x1000);
  }

  /** What fexpand reads from 32 bytes. */
  function Expand(b: seq<u8>): Felem
    requires |b| == 32
  {
    EightBytes();
    ExpandWords(LittleEndian(b[0..8]), LittleEndian(b[6..14]), LittleEndian(b[12..20]),
                LittleEndian(b[19..27]), LittleEndian(b[24..32]))
  }

  lemma EightBytes()
    ensures Pow256(8) == TWO_64
  {
    Pow256Values();
  }

  lemma ExpandCorrect(b: seq<u8>)
    requires |b| == 32
    ensures Val(Expand(b)) == LittleEndian(b) % TWO_255
    ensures Within(Expand(b), B - 1)
    ensures Elt(Expand(b)) == DecodeU(b)
  {
    hide Expand, LittleEndian, Digits, Val, DecodeU, F.Reduce;
    Pow256Values();
    ExpandByDigits(b);
    DigitsVal(LittleEndian(b));
    MaskedTopBit(b);
  }

  lemma ExpandByDigits(b: seq<u8>)
    requires |b| == 32
    ensures Expand(b) == Digits(LittleEndian(b))
  {
    hide LittleEndian, Pow256, ExpandWords, Digits;
    var v := LittleEndian(b);
    WordAt(b, 0);
    WordAt(b, 6);
    WordAt(b, 12);
    WordAt(b, 19);
    WordAt(b, 24);
    PowZero();
    assert v / 1 == v;
    Pow256Values();
    WordDigits(v);
  }

  /** The eight bytes from i on. */
  lemma WordAt(b: seq<u8>, i: nat)
    requires i + 8 <= |b|
    ensures LittleEndian(b[i..i + 8]) == LittleEndian(b) / Pow256(i) % TWO_64
  {
    hide LittleEndian, Pow256;
    Slice(b, i, i + 8);
    EightBytes();
  }

  lemma PowZero()
    ensures Pow256(0) == 1
  {}

  /** Masking bit 7 of the last byte takes the value modulo 2^255. */
  lemma MaskedTopBit(b: seq<u8>)
    requires |b| == 32
    ensures F.Reduce(LittleEndian(b) % TWO_255) == DecodeU(b)
  {
    hide Pow256, LittleEndian, F.Reduce;
    var lo := b[..31];
    assert b == lo + [b[31]];
    Concat(lo, [b[31]]);
    Concat(lo, [b[31] % 0x80]);
    OneByte(b[31]);
    OneByte(b[31] % 0x80);
    Pow256Of31();
    TopBit(LittleEndian(lo), b[31]);
  }

  const TWO_248: int := 0x1_00000000000000000000000000000000000000000000000000000000000000

  lemma TopBit(lo: nat, b: u8)
    requires lo < TWO_248
    ensures (lo + b * TWO_248) % TWO_255 == lo + (b % 0x80) * TWO_248
  {
    var w := lo + (b % 0x80) * TWO_248;
    assert lo + b * TWO_248 == (b / 0x80) * TWO_255 + w;
    QuotientUnique(lo + b * TWO_248, TWO_255, b / 0x80, w);
  }

  // ----- fcontract -----

  /** A carry pass: the low halves and the carry out of the top (lines 233-237). */
  function PassUp(t: Felem): (Felem, int) {
    var t1 := Wrap128(t.x1 + t.x0 / B);
    var t2 := Wrap128(t.x2 + t1 / B);
    var t3 := Wrap128(t.x3 + t2 / B);
    var t4 := Wrap128(t.x4 + t3 / B);
    (Felem(t.x0 % B, t1 % B, t2 % B, t3 % B, t4 % B), t4 / B)
  }

  /** The three reducing passes put the top carry back 19-fold (lines 233-250). */
  function CarryPass(t: Felem): Felem {
    var (l, q) := PassUp(t);
    l.(x0 := Wrap128(l.x0 + 19 * q))
  }

  /** The last pass drops the top carry (lines 263-267). */
  function LastPass(t: Felem): Felem { PassUp(t).0 }

  /** The canonical limbs fcontract computes. */
  function Canonical(f: Felem): Felem {
    var t := CarryPass(CarryPass(f));
    var s := CarryPass(t.(x0 := Wrap128(t.x0 + 19)));
    LastPass(Felem(Wrap128(s.x0 + (B - 19)), Wrap128(s.x1 + (B - 1)), Wrap128(s.x2 + (B - 1)),
                   Wrap128(s.x3 + (B - 1)), Wrap128(s.x4 + (B - 1))))
  }

  lemma PassCarry(x: int, c: int) returns (q: int)
    requires 0 <= x <= TWO_64 + B && 0 <= c <= 0x2002
    ensures Wrap128(x + c) == x + c == B * q + (x + c) % B
    ensures q == (x + c) / B && 0 <= q <= 0x2002
  {
    q := (x + c) / B;
  }

  /** A pass moves q times 2^255 out of the limbs. */
  lemma PassUpVal(t: Felem)
    requires Within(t, TWO_64 + B)
    ensures var (l, q) := PassUp(t);
      Within(l, B - 1) && Val(t) == Val(l) + TWO_255 * q && 0 <= q <= 0x2002
  {
    hide Wrap128, Val;
    var c0 := PassCarry(t.x0, 0);
    var c1 := PassCarry(t.x1, c0);
    var c2 := PassCarry(t.x2, c1);
    var c3 := PassCarry(t.x3, c2);
    var c4 := PassCarry(t.x4, c3);
    CarriesVal(t, PassUp(t).0, c0, c1, c2, c3, c4);
  }

  lemma NoWrap128(x: int)
    requires 0 <= x < TWO_128
    ensures Wrap128(x) == x
  {}

  /** A reducing pass takes q P off the value. */
  lemma CarryPassVal(t: Felem) returns (l: Felem, q: int)
    requires Within(t, TWO_64 + B)
    ensures Within(l, B - 1) && 0 <= q <= 0x2002 && CarryPass(t) == l.(x0 := l.x0 + 19 * q)
    ensures Val(t) == Val(l) + TWO_255 * q && 0 <= Val(l) < TWO_255
    ensures Val(CarryPass(t)) == Val(t) - F.P * q
  {
    hide PassUp, Val, Wrap128;
    var p := PassUp(t);
    l, q := p.0, p.1;
    PassUpVal(t);
    ValRange(l);
    NoWrap128(l.x0 + 19 * q);
    BottomLimb(l, 19 * q);
  }

  /** Two passes give carried limbs of the same element. */
  lemma TwoPasses(f: Felem) returns (q: int)
    requires Within(f, TWO_64 - 1)
    ensures var t := CarryPass(CarryPass(f));
      Within(t, B - 1) && Val(t) == Val(f) - F.P * q
  {
    hide CarryPass, Val;
    var l1, q1 := CarryPassVal(f);
    var l2, q2 := CarryPassVal(CarryPass(f));
    assert Val(CarryPass(f)) < TWO_255 + 19 * 0x2002;
    assert q2 <= 1 && (q2 == 1 ==> Val(l2) < 19 * 0x2002);
    BottomLimb(l2, 0);
    q := q1 + q2;
  }

  /** Adding 19 and passing once more subtracts P exactly when the value is at least P. */
  lemma SubtractOnce(t: Felem) returns (q: int)
    requires Within(t, B - 1)
    ensures var s := CarryPass(t.(x0 := t.x0 + 19));
      Within(s, B + 37) && Val(s) == Val(t) - F.P * q + 19 && 0 <= Val(t) - F.P * q < F.P
  {
    hide CarryPass, Val;
    var u := t.(x0 := t.x0 + 19);
    BottomLimb(t, 19);
    ValRange(t);
    var l;
    l, q := CarryPassVal(u);
    assert q <= 1;
  }

  /** Offsetting by 2^255 - 19 and dropping the top carry takes the 19 off again. */
  lemma RemoveOffset(s: Felem, r: int)
    requires Within(s, B + 37) && Val(s) == r + 19 && 0 <= r < F.P
    ensures var l := LastPass(Offset(s)); Within(l, B - 1) && Val(l) == r
  {
    hide PassUp, Val;
    OffsetVal(s);
    PassUpVal(Offset(s));
    ValRange(PassUp(Offset(s)).0);
    assert PassUp(Offset(s)).1 == 1;
  }

  function Offset(s: Felem): Felem {
    Felem(s.x0 + (B - 19), s.x1 + (B - 1), s.x2 + (B - 1), s.x3 + (B - 1), s.x4 + (B - 1))
  }

  lemma OffsetVal(s: Felem)
    ensures Val(Offset(s)) == Val(s) + F.P
  {}

  lemma OffsetFits(s: Felem)
    requires Within(s, B + 37)
    ensures Wrap128(s.x0 + (B - 19)) == s.x0 + (B - 19) && Wrap128(s.x1 + (B - 1)) == s.x1 + (B - 1)
    ensures Wrap128(s.x2 + (B - 1)) == s.x2 + (B - 1) && Wrap128(s.x3 + (B - 1)) == s.x3 + (B - 1)
    ensures Wrap128(s.x4 + (B - 1)) == s.x4 + (B - 1)
  {}

  /** fcontract's limbs are the canonical representative in [0, P). */
  lemma CanonicalCorrect(f: Felem)
    requires Within(f, TWO_64 - 1)
    ensures Within(Canonical(f), B - 1)
    ensures Val(Canonical(f)) == Elt(f)
  {
    hide CarryPass, PassUp, Wrap128, Val, F.Reduce;
    var q := TwoPasses(f);
    var t := CarryPass(CarryPass(f));
    NoWrap128(t.x0 + 19);
    var q' := SubtractOnce(t);
    var s := CarryPass(t.(x0 := t.x0 + 19));
    OffsetFits(s);
    RemoveOffset(s, Val(t) - F.P * q');
    Residue(Val(f), q + q');
  }

  lemma Residue(v: int, q: int)
    requires 0 <= v - F.P * q < F.P
    ensures v - F.P * q == F.Reduce(v)
  {
    F.ReduceShift(v, -q);
  }

  /** The four words fcontract stores.  The operands of each `|` occupy disjoint bit
      ranges (PackCorrect), so it is written as a sum. */
  function PackWord(t: Felem, i: nat): u64
    requires i < 4
  {
    match i
    case 0 => Wrap64(t.x0 + t.x1 * B)
    case 1 => Wrap64(t.x1 / 0x2000 + t.x2 * 0x4000000000)
    case 2 => Wrap64(t.x2 / 0x4000000 + t.x3 * 0x2000000)
    case _ => Wrap64(t.x3 / 0x8000000000 + t.x4 * 0x1000)
  }

  function Contract(f: Felem): seq<u8> {
    var t := Canonical(f);
    Encode(PackWord(t, 0), 8) + Encode(PackWord(t, 1), 8) + Encode(PackWord(t, 2), 8) + Encode(PackWord(t, 3), 8)
  }

  /** A limb split across two words: hi bits go on, lo bits stay. */
  lemma SplitLimb(x: int, y: int, lo: int, hi: int, up: int)
    requires lo > 0 && hi > 0 && 0 <= x < up && up * hi == TWO_64 && 0 <= y
    ensures Mod64(x + y * up) == x + (y % hi) * up
  {
    DivisionFacts(y, hi);
    assert y * up == (y / hi) * TWO_64 + (y % hi) * up by {
      assert (y / hi) * hi * up == (y / hi) * (up * hi);
    }
    AtMost(y % hi, hi, up);
    QuotientUnique(x + y * up, TWO_64, y / hi, x + (y % hi) * up);
  }

  function Mod64(x: int): int { x % TWO_64 }

  lemma WrapIsMod(x: int)
    ensures Wrap64(x) == Mod64(x)
  {}

  lemma PackCorrect(t: Felem)
    requires Within(t, B - 1)
    ensures PackWord(t, 0) + TWO_64 * (PackWord(t, 1) + TWO_64 * (PackWord(t, 2) + TWO_64 * PackWord(t, 3))) == Val(t)
  {
    hide Wrap64, Mod64;
    WrapIsMod(t.x0 + t.x1 * B);
    WrapIsMod(t.x1 / 0x2000 + t.x2 * 0x4000000000);
    WrapIsMod(t.x2 / 0x4000000 + t.x3 * 0x2000000);
    WrapIsMod(t.x3 / 0x8000000000 + t.x4 * 0x1000);
    SplitLimb(t.x0, t.x1, 1, 0x2000, B);
    SplitLimb(t.x1 / 0x2000, t.x2, 1, 0x4000000, 0x4000000000);
    SplitLimb(t.x2 / 0x4000000, t.x3, 1, 0x8000000000, 0x2000000);
    SplitLimb(t.x3 / 0x8000000000, t.x4, 1, 0x10000000000000, 0x1000);
    assert t.x4 % 0x10000000000000 == t.x4;
    hide PackWord;
    PackedVal(t, t.x1 % 0x2000, t.x1 / 0x2000, t.x2 % 0x4000000, t.x2 / 0x4000000, t.x3 % 0x8000000000, t.x3 / 0x8000000000);
  }

  lemma PackedVal(t: Felem, l1: int, h1: int, l2: int, h2: int, l3: int, h3: int)
    requires t.x1 == 0x2000 * h1 + l1 && t.x2 == 0x4000000 * h2 + l2 && t.x3 == 0x8000000000 * h3 + l3
    ensures (t.x0 + l1 * B) + TWO_64 * ((h1 + l2 * 0x4000000000) + TWO_64 * ((h2 + l3 * 0x2000000) + TWO_64 * (h3 + t.x4 * 0x1000))) == Val(t)
  {}

  lemma FourWords(w0: u64, w1: u64, w2: u64, w3: u64)
    ensures Encode(w0, 8) + Encode(w1, 8) + Encode(w2, 8) + Encode(w3, 8) ==
            Encode(w0 + TWO_64 * (w1 + TWO_64 * (w2 + TWO_64 * w3)), 32)
  {
    hide Encode;
    var v2: nat := w2 + TWO_64 * w3;
    var v1: nat := w1 + TWO_64 * v2;
    var a, b, c, d := Encode(w0, 8), Encode(w1, 8), Encode(w2, 8), Encode(w3, 8);
    AppendWord(w2, w3, 8, 16);
    AppendWord(w1, v2, 16, 24);
    AppendWord(w0, v1, 24, 32);
    Reassociate(a, b, c, d);
  }

  lemma Reassociate(a: seq<u8>, b: seq<u8>, c: seq<u8>, d: seq<u8>)
    ensures a + b + c + d == a + (b + (c + d))
  {}

  lemma AppendWord(w: u64, v: nat, n: nat, total: nat)
    requires total == 8 + n
    ensures Encode(w + TWO_64 * v, total) == Encode(w, 8) + Encode(v, n)
  {
    hide Encode, Pow256, Shift;
    var x := w + TWO_64 * v;
    EncodeConcat(x, 8, n);
    ShiftDivides(x, 8);
    EightBytes();
    QuotientUnique(x, TWO_64, v, w);
    LowBytes(w, v, 8);
  }

  lemma {:induction false} LowBytes(w: nat, v: nat, n: nat)
    ensures Encode(w + Pow256(n) * v, n) == Encode(w, n)
    decreases n
  {
    if n > 0 {
      var x := Pow256(n - 1) * v;
      assert w + Pow256(n) * v == w + 0x100 * x;
      assert (w + 0x100 * x) / 0x100 == w / 0x100 + x;
      LowBytes(w / 0x100, v, n - 1);
    }
  }

  /** fcontract writes the canonical little-endian encoding of the element. */
  lemma ContractCorrect(f: Felem)
    requires Within(f, TWO_64 - 1)
    ensures Contract(f) == Encode(Elt(f), 32)
  {
    hide Canonical, Encode, PackWord, Elt;
    CanonicalCorrect(f);
    var t := Canonical(f);
    PackCorrect(t);
    FourWords(PackWord(t, 0), PackWord(t, 1), PackWord(t, 2), PackWord(t, 3));
  }

  lemma BelowP(v: nat)
    ensures F.Reduce(v % TWO_255) == v <==> v < F.P
  {}

  /** Contracting what was expanded gives the canonical encoding of the same
      u-coordinate, so exactly the canonical encodings come back unchanged. */
  lemma ContractExpand(b: seq<u8>)
    requires |b| == 32
    ensures Contract(Expand(b)) == Encode(DecodeU(b), 32)
    ensures Contract(Expand(b)) == b <==> LittleEndian(b) < F.P
  {
    hide Contract, Expand, LittleEndian, Encode, Val, DecodeU, Within, Pow256, F.Reduce;
    Pow256Values();
    ExpandWithin(b);
    ContractCorrect(Expand(b));
    ExpandCorrect(b);
    MaskedTopBit(b);
    BelowP(LittleEndian(b));
    EncodeUnique(b);
    EncodeInjective(DecodeU(b), LittleEndian(b));
  }

  lemma ExpandWithin(b: seq<u8>)
    requires |b| == 32
    ensures Within(Expand(b), TWO_64 - 1)
  {
    hide Expand;
    ExpandCorrect(b);
  }

  lemma EncodeInjective(a: nat, c: nat)
    requires a < TWO_255 * 2 && c < TWO_255 * 2
    ensures Encode(a, 32) == Encode(c, 32) <==> a == c
  {
    hide Encode, LittleEndian;
    EncodeDecodes(a, 32);
    EncodeDecodes(c, 32);
    Pow256Values();
  }
}
