/** The function X25519 of section 5 of RFC 7748, as a specification, and the
    facts about its ladder that relate it to the ladder of curve25519.cpp. */
module Rfc7748 {
  import opened MachineInts
  import opened Field25519
  import opened Bytes
  import opened Fermat

  const A24: Fp := 121665

  /** Two projective u-coordinates, x2/z2 and x3/z3. */
  datatype Ladder = Ladder(x2: Fp, z2: Fp, x3: Fp, z3: Fp)

  function Swap(swap: bool, s: Ladder): Ladder {
    if swap then Ladder(s.x3, s.z3, s.x2, s.z2) else s
  }

  /** 2 Q from Q. */
  function Double(x: Fp, z: Fp): (Fp, Fp) {
    var aa := Sqr(Add(x, z));
    var bb := Sqr(Sub(x, z));
    var e := Sub(aa, bb);
    (Mul(aa, bb), Mul(e, Add(aa, Mul(A24, e))))
  }

  /** Q + Q' from Q, Q' and the u-coordinate of Q - Q'. */
  function AddDiff(u: Fp, x2: Fp, z2: Fp, x3: Fp, z3: Fp): (Fp, Fp) {
    var da := Mul(Sub(x3, z3), Add(x2, z2));
    var cb := Mul(Add(x3, z3), Sub(x2, z2));
    (Sqr(Add(da, cb)), Mul(u, Sqr(Sub(da, cb))))
  }

  function Step(u: Fp, s: Ladder): Ladder {
    var (x2, z2) := Double(s.x2, s.z2);
    var (x3, z3) := AddDiff(u, s.x2, s.z2, s.x3, s.z3);
    Ladder(x2, z2, x3, z3)
  }

  const INITIAL_Z: Fp := 1

  function Start(u: Fp): Ladder { Ladder(1, 0, u, INITIAL_Z) }

  /** The loop of section 5 after the bits of k at and above position 0 have been
      handled, `bits` of them: the state and the pending swap. */
  function LazyLadder(u: Fp, k: nat, bits: nat): (Ladder, bool)
    decreases bits
  {
    if bits == 0 then (Start(u), false) else
      var (s, swap) := LazyLadder(u, k / 2, bits - 1);
      var kt := k % 2 == 1;
      (Step(u, Swap(swap != kt, s)), kt)
  }

  function DecodeScalar(k: seq<u8>): nat
    requires |k| == 32
  {
    LittleEndian([k[0] - k[0] % 8] + k[1..31] + [k[31] % 0x40 + 0x40])
  }

  /** The u-coordinate: the top bit of the last byte is masked, and values of P
      and above are accepted and reduced. */
  function DecodeU(u: seq<u8>): Fp
    requires |u| == 32
  {
    Reduce(LittleEndian(u[..31] + [u[31] % 0x80]))
  }

  function X25519(k: seq<u8>, u: seq<u8>): seq<u8>
    requires |k| == 32 && |u| == 32
  {
    var (s, swap) := LazyLadder(DecodeU(u), DecodeScalar(k), 255);
    var r := Swap(swap, s);
    Encode(Mul(r.x2, Pow(r.z2, P - 2)), 32)
  }

  // ----- the two steps in numbers -----

  lemma SquareOf(a: int)
    ensures Sqr(Reduce(a)) == Reduce(a * a)
  {
    ReduceMul(a, a);
  }

  lemma Canonical(a: Fp)
    ensures Reduce(a) == a
  {}

  function SquareOfSum(x: int, z: int): int { (x + z) * (x + z) }

  function SquareOfDifference(x: int, z: int): int { (x - z) * (x - z) }

  /** The coordinates of a doubling, before reduction. */
  function DoubledX(x: int, z: int): int { (x * x - z * z) * (x * x - z * z) }

  function DoubledZ(x: int, z: int): int { 4 * x * z * (x * x + 486662 * x * z + z * z) }

  lemma DoubledProducts(x: int, z: int)
    ensures SquareOfSum(x, z) * SquareOfDifference(x, z) == DoubledX(x, z)
    ensures var e := SquareOfSum(x, z) - SquareOfDifference(x, z);
      e * (SquareOfSum(x, z) + 121665 * e) == DoubledZ(x, z)
  {
    var p, m: int := SquareOfSum(x, z), SquareOfDifference(x, z);
    assert p * m == DoubledX(x, z);
    assert p - m == 4 * x * z;
    assert p + 121665 * (4 * x * z) == x * x + 486662 * x * z + z * z;
  }

  /** The doubling of v^2 = u^3 + 486662 u^2 + u. */
  lemma DoubleInNumbers(x: Fp, z: Fp)
    ensures Double(x, z).0 == Reduce(DoubledX(x, z))
    ensures Double(x, z).1 == Reduce(DoubledZ(x, z))
  {
    hide Reduce, Mul, Add, Sub, SquareOfSum, SquareOfDifference, DoubledX, DoubledZ;
    DoubledProducts(x, z);
    SquaredParts(x, z);
    var p, m := SquareOfSum(x, z), SquareOfDifference(x, z);
    ReduceMul(p, m);
    ReduceSub(p, m);
    ThirdFactor(p, p - m);
    ReduceMul(p - m, p + 121665 * (p - m));
  }

  lemma ThirdFactor(p: int, e: int)
    ensures Add(Reduce(p), Mul(A24, Reduce(e))) == Reduce(p + 121665 * e)
  {
    hide Reduce, Mul;
    Canonical(A24);
    ReduceMul(121665, e);
    ReduceAdd(p, 121665 * e);
  }

  lemma SquaredParts(x: Fp, z: Fp)
    ensures Sqr(Add(x, z)) == Reduce(SquareOfSum(x, z)) && Sqr(Sub(x, z)) == Reduce(SquareOfDifference(x, z))
  {
    hide Reduce, Mul;
    SquareOf(x + z);
    SquareOf(x - z);
  }

  function Cross(a: int, b: int, c: int, d: int): int { a * b - c * d }

  function FourSquares(s: int): int { 4 * (s * s) }

  function FourSquaresTimes(u: int, s: int): int { 4 * (u * (s * s)) }

  /** The product of a difference and a sum. */
  function Mixed(a: int, b: int, c: int, d: int): int { (a - b) * (c + d) }

  lemma CrossProducts(x2: int, z2: int, x3: int, z3: int)
    ensures Mixed(x3, z3, x2, z2) + Mixed(x2, z2, x3, z3) == 2 * Cross(x2, x3, z2, z3)
    ensures Mixed(x3, z3, x2, z2) - Mixed(x2, z2, x3, z3) == -2 * Cross(x2, z3, z2, x3)
  {}

  lemma MixedResidue(a: Fp, b: Fp, c: Fp, d: Fp)
    ensures Mul(Sub(a, b), Add(c, d)) == Reduce(Mixed(a, b, c, d)) == Mul(Add(c, d), Sub(a, b))
  {
    hide Reduce, Mul;
    ReduceMul(a - b, c + d);
    Commutative(Add(c, d), Sub(a, b));
  }

  lemma SquareOfTwice(t: int, s: int)
    requires t == 2 * s || t == -2 * s
    ensures t * t == FourSquares(s)
  {}

  lemma TimesFourSquares(u: int, s: int)
    ensures u * FourSquares(s) == FourSquaresTimes(u, s)
  {}

  /** The sum of two points of u-coordinates x2/z2 and x3/z3, u that of their difference. */
  lemma AddDiffInNumbers(u: Fp, x2: Fp, z2: Fp, x3: Fp, z3: Fp)
    ensures AddDiff(u, x2, z2, x3, z3) == (Reduce(FourSquares(Cross(x2, x3, z2, z3))), Reduce(FourSquaresTimes(u, Cross(x2, z3, z2, x3))))
  {
    hide Reduce, Mul, Mixed, Cross, FourSquares, FourSquaresTimes;
    MixedResidue(x3, z3, x2, z2);
    MixedResidue(x2, z2, x3, z3);
    CrossProducts(x2, z2, x3, z3);
    AddDiffSquares(u, Mixed(x3, z3, x2, z2), Mixed(x2, z2, x3, z3), Cross(x2, x3, z2, z3), Cross(x2, z3, z2, x3));
  }

  lemma AddDiffSquares(u: Fp, da: int, cb: int, s: int, d: int)
    requires da + cb == 2 * s && da - cb == -2 * d
    ensures Sqr(Add(Reduce(da), Reduce(cb))) == Reduce(FourSquares(s))
    ensures Mul(u, Sqr(Sub(Reduce(da), Reduce(cb)))) == Reduce(FourSquaresTimes(u, d))
  {
    hide Reduce, Mul, FourSquares, FourSquaresTimes;
    ReduceAdd(da, cb);
    ReduceSub(da, cb);
    SquareOf(da + cb);
    SquareOf(da - cb);
    SquareOfTwice(da + cb, s);
    SquareOfTwice(da - cb, d);
    Canonical(u);
    ReduceMul(u, FourSquares(d));
    TimesFourSquares(u, d);
  }

  // ----- the ladder as curve25519.cpp runs it -----

  /** Swap, step, swap back. */
  function EagerStep(u: Fp, bit: bool, s: Ladder): Ladder {
    Swap(bit, Step(u, Swap(bit, s)))
  }

  function EagerLadder(u: Fp, k: nat, bits: nat): Ladder
    decreases bits
  {
    if bits == 0 then Start(u) else EagerStep(u, k % 2 == 1, EagerLadder(u, k / 2, bits - 1))
  }

  lemma {:induction false} LazyIsEager(u: Fp, k: nat, bits: nat)
    ensures var (s, swap) := LazyLadder(u, k, bits); Swap(swap, s) == EagerLadder(u, k, bits)
    decreases bits
  {
    if bits != 0 {
      LazyIsEager(u, k / 2, bits - 1);
    }
  }

  // ----- projective scaling -----

  function Scaled(c: Fp, d: Fp, s: Ladder): Ladder {
    Ladder(Mul(c, s.x2), Mul(c, s.z2), Mul(d, s.x3), Mul(d, s.z3))
  }

  lemma DoubleScales(c: Fp, x: Fp, z: Fp)
    ensures var (x', z') := Double(x, z);
      Double(Mul(c, x), Mul(c, z)) == (Mul(Sqr(Sqr(c)), x'), Mul(Sqr(Sqr(c)), z'))
  {
    hide Mul, Add, Sub;
    DistributesAdd(c, x, z);
    DistributesSub(c, x, z);
    Interchange(c, Add(x, z), c, Add(x, z));
    Interchange(c, Sub(x, z), c, Sub(x, z));
    var q := Sqr(c);
    var aa, bb := Sqr(Add(x, z)), Sqr(Sub(x, z));
    var e := Sub(aa, bb);
    DistributesSub(q, aa, bb);
    Interchange(q, aa, q, bb);
    Associative(A24, q, e);
    Commutative(A24, q);
    Associative(q, A24, e);
    DistributesAdd(q, aa, Mul(A24, e));
    Interchange(q, e, q, Add(aa, Mul(A24, e)));
  }

  lemma AddDiffScales(u: Fp, c: Fp, d: Fp, x2: Fp, z2: Fp, x3: Fp, z3: Fp)
    ensures var (x, z) := AddDiff(u, x2, z2, x3, z3);
      AddDiff(u, Mul(c, x2), Mul(c, z2), Mul(d, x3), Mul(d, z3)) == (Mul(Sqr(Mul(d, c)), x), Mul(Sqr(Mul(d, c)), z))
  {
    hide Mul, Add, Sub;
    DistributesAdd(c, x2, z2);
    DistributesSub(c, x2, z2);
    DistributesAdd(d, x3, z3);
    DistributesSub(d, x3, z3);
    var cc := Mul(d, c);
    Interchange(d, Sub(x3, z3), c, Add(x2, z2));
    Interchange(d, Add(x3, z3), c, Sub(x2, z2));
    var da := Mul(Sub(x3, z3), Add(x2, z2));
    var cb := Mul(Add(x3, z3), Sub(x2, z2));
    DistributesAdd(cc, da, cb);
    DistributesSub(cc, da, cb);
    Interchange(cc, Add(da, cb), cc, Add(da, cb));
    Interchange(cc, Sub(da, cb), cc, Sub(da, cb));
    var r := Sqr(Sub(da, cb));
    Associative(u, Sqr(cc), r);
    Commutative(u, Sqr(cc));
    Associative(Sqr(cc), u, r);
  }

  /** A ladder step maps projectively equal states to projectively equal states. */
  lemma StepScales(u: Fp, bit: bool, c: Fp, d: Fp, s: Ladder) returns (c': Fp, d': Fp)
    requires PrimeP() && c != 0 && d != 0
    ensures c' != 0 && d' != 0
    ensures EagerStep(u, bit, Scaled(c, d, s)) == Scaled(c', d', EagerStep(u, bit, s))
  {
    hide Mul, Double, AddDiff, PrimeP;
    var (f, g) := if bit then (d, c) else (c, d);
    var t := Swap(bit, s);
    assert Swap(bit, Scaled(c, d, s)) == Scaled(f, g, t);
    DoubleScales(f, t.x2, t.z2);
    AddDiffScales(u, f, g, t.x2, t.z2, t.x3, t.z3);
    NoZeroDivisors(f, f);
    NoZeroDivisors(Sqr(f), Sqr(f));
    NoZeroDivisors(g, f);
    NoZeroDivisors(Mul(g, f), Mul(g, f));
    if bit {
      c', d' := Sqr(Mul(g, f)), Sqr(Sqr(f));
    } else {
      c', d' := Sqr(Sqr(f)), Sqr(Mul(g, f));
    }
  }

  lemma SumAndDifference(u: Fp)
    ensures Add(Sub(u, 1), Add(u, 1)) == Mul(2, u)
    ensures Sqr(Sub(Sub(u, 1), Add(u, 1))) == 4
  {
    hide Reduce;
    ReduceAdd(u - 1, u + 1);
    ReduceSub(u - 1, u + 1);
    MinusTwoSquared();
  }

  lemma MinusTwoSquared()
    ensures Reduce(-2) == P - 2 && Sqr(P - 2) == 4
  {
    assert (P - 2) * (P - 2) == 4 + P * (P - 4);
    ReduceShift(4, P - 4);
  }

  lemma SmallConstants()
    ensures Add(1, 0) == 1 && Sub(1, 0) == 1 && Sub(1, 1) == 0 && Sqr(2) == 4
  {}

  lemma DoubleInfinity()
    ensures Double(1, 0) == (1, 0)
  {
    hide Mul, Add, Sub, A24;
    SmallConstants();
    One(1);
    Annihilates(A24);
    Annihilates(Add(1, Mul(A24, 0)));
  }

  /** A leading zero bit turns the start (1 : 0, u : 1) into (1 : 0, 4u^2 : 4u). */
  lemma LeadingZeroStep(u: Fp)
    ensures EagerStep(u, false, Start(u)) == Scaled(1, Mul(4, u), Start(u))
  {
    hide Mul, Add, Sub, Double;
    DoubleInfinity();
    SumAndDifference(u);
    SmallConstants();
    One(1);
    One(0);
    One(Sub(u, 1));
    One(Add(u, 1));
    Interchange(2, u, 2, u);
    Associative(4, u, u);
    Commutative(u, 4);
    One(Mul(4, u));
  }

  /** The 256th bit of a clamped scalar is 0; the extra step it causes rescales
      the state and changes nothing projectively. */
  lemma {:induction false} ExtraStep(u: Fp, k: nat, bits: nat) returns (c: Fp, d: Fp)
    requires PrimeP() && u != 0 && k < Pow2(bits)
    ensures c != 0 && d != 0
    ensures EagerLadder(u, k, bits + 1) == Scaled(c, d, EagerLadder(u, k, bits))
    decreases bits
  {
    hide Mul, Step, PrimeP;
    if bits == 0 {
      LeadingZeroStep(u);
      NoZeroDivisors(4, u);
      c, d := 1, Mul(4, u);
    } else {
      c, d := ExtraStep(u, k / 2, bits - 1);
      c, d := StepScales(u, k % 2 == 1, c, d, EagerLadder(u, k / 2, bits - 1));
    }
  }

  /** For u = 0 every step leaves both z-coordinates 0. */
  lemma {:induction false} ZeroStays(k: nat, bits: nat)
    requires bits > 0
    ensures EagerLadder(0, k, bits).z2 == 0 && EagerLadder(0, k, bits).z3 == 0
    decreases bits
  {
    hide Step;
    var s := EagerLadder(0, k / 2, bits - 1);
    if bits > 1 {
      ZeroStays(k / 2, bits - 1);
    }
    var t := Swap(k % 2 == 1, s);
    ZeroProductDouble(t);
  }

  lemma SquareOfNegation(z: Fp)
    ensures Sqr(Sub(0, z)) == Sqr(z)
  {
    var n: int := -(z as int);
    ReduceMul(n, n);
    assert n * n == z * z;
  }

  /** Doubling a point with x = 0 or z = 0 gives z = 0, and so does adding when u = 0. */
  lemma ZeroProductDouble(t: Ladder)
    requires t.x2 == 0 || t.z2 == 0
    ensures Step(0, t).z2 == 0 && Step(0, t).z3 == 0
  {
    hide Mul, Add, Sub, A24;
    SameSquares(t.x2, t.z2);
    var aa := Sqr(Add(t.x2, t.z2));
    SmallDifference(aa);
    Annihilates(Add(aa, Mul(A24, 0)));
    Annihilates(Sqr(Sub(Mul(Sub(t.x3, t.z3), Add(t.x2, t.z2)), Mul(Add(t.x3, t.z3), Sub(t.x2, t.z2)))));
  }

  lemma SmallDifference(a: Fp)
    ensures Sub(a, a) == 0 && Add(a, 0) == a == Sub(a, 0) && Add(0, a) == a
  {}

  lemma SameSquares(x: Fp, z: Fp)
    requires x == 0 || z == 0
    ensures Sqr(Add(x, z)) == Sqr(Sub(x, z))
  {
    hide Mul, Add, Sub;
    SmallDifference(x);
    SmallDifference(z);
    SquareOfNegation(z);
  }

  lemma Annihilates(a: Fp)
    ensures Mul(0, a) == 0 == Mul(a, 0)
  {}

  /** Running one step more on a leading zero bit does not change x2/z2. */
  lemma ExtraStepIsInvisible(u: Fp, k: nat)
    requires PrimeP() && k < Pow2(255)
    ensures var s, t := EagerLadder(u, k, 256), EagerLadder(u, k, 255);
      Mul(s.x2, Pow(s.z2, P - 2)) == Mul(t.x2, Pow(t.z2, P - 2))
  {
    hide Mul, EagerLadder, PrimeP, Pow2;
    var s, t := EagerLadder(u, k, 256), EagerLadder(u, k, 255);
    if u == 0 {
      ZeroStays(k, 256);
      ZeroStays(k, 255);
      PowStep(0, P - 3);
      Annihilates(Pow(0, P - 3));
      Annihilates(s.x2);
      Annihilates(t.x2);
    } else {
      var c, d := ExtraStep(u, k, 255);
      QuotientIgnoresScale(c, t.x2, t.z2);
    }
  }

  /** X25519 computed with the eager ladder over all 256 bits. */
  lemma X25519ByEagerLadder(k: seq<u8>, u: seq<u8>)
    requires PrimeP() && |k| == 32 && |u| == 32
    ensures var s := EagerLadder(DecodeU(u), DecodeScalar(k), 256);
      X25519(k, u) == Encode(Mul(s.x2, Pow(s.z2, P - 2)), 32)
  {
    hide Mul, EagerLadder, LazyLadder, PrimeP, DecodeU, Encode, Pow;
    DecodedScalarRange(k);
    hide DecodeScalar;
    LazyIsEager(DecodeU(u), DecodeScalar(k), 255);
    ExtraStepIsInvisible(DecodeU(u), DecodeScalar(k));
  }

  /** The decoded scalar in numbers. */
  lemma DecodedScalar(k: seq<u8>)
    requires |k| == 32
    ensures DecodeScalar(k) == 0x4000000000000000000000000000000000000000000000000000000000000000 + 8 * (LittleEndian(k) / 8 % 0x800000000000000000000000000000000000000000000000000000000000000)
  {
    hide LittleEndian;
    ClampedValue(k, [k[0] - k[0] % 8] + k[1..31] + [k[31] % 0x40 + 0x40]);
  }

  /** The decoded u-coordinate in numbers. */
  lemma DecodedU(u: seq<u8>)
    requires |u| == 32
    ensures DecodeU(u) == Reduce(LittleEndian(u) % 0x8000000000000000000000000000000000000000000000000000000000000000)
  {
    hide LittleEndian, Reduce;
    MaskedTop(u[..31], u[31]);
    assert u[..31] + [u[31]] == u;
  }

  lemma MaskedTop(lo: seq<u8>, y: u8)
    requires |lo| == 31
    ensures LittleEndian(lo + [y % 0x80]) == LittleEndian(lo + [y]) % 0x8000000000000000000000000000000000000000000000000000000000000000
  {
    hide LittleEndian;
    LastByte(lo, y);
    LastByte(lo, y % 0x80);
    LowBits(LittleEndian(lo), y);
  }

  lemma LastByte(lo: seq<u8>, y: u8)
    requires |lo| == 31
    ensures LittleEndian(lo + [y]) == LittleEndian(lo) + y * 0x100000000000000000000000000000000000000000000000000000000000000
    ensures LittleEndian(lo) < 0x100000000000000000000000000000000000000000000000000000000000000
  {
    hide LittleEndian, Pow256;
    Pow256Of31();
    Concat(lo, [y]);
    OneByte(y);
  }

  lemma LowBits(lo: nat, y: u8)
    requires lo < 0x100000000000000000000000000000000000000000000000000000000000000
    ensures (lo + y * 0x100000000000000000000000000000000000000000000000000000000000000) % 0x8000000000000000000000000000000000000000000000000000000000000000
      == lo + (y % 0x80) * 0x100000000000000000000000000000000000000000000000000000000000000
  {
    assert y == 0x80 * (y / 0x80) + y % 0x80;
  }

  /** A decoded scalar is below 2^255. */
  lemma DecodedScalarRange(k: seq<u8>)
    requires |k| == 32
    ensures DecodeScalar(k) < Pow2(255)
  {
    hide Pow256, Pow2;
    var lo, hi := [k[0] - k[0] % 8] + k[1..31], [k[31] % 0x40 + 0x40];
    Concat(lo, hi);
    OneByte(hi[0]);
    Pow256IsPow2(31);
    SevenMore(248);
    TopByte(LittleEndian(lo), hi[0], Pow256(31));
  }

  lemma TopByte(lo: nat, hi: nat, m: nat)
    requires lo < m && hi < 0x80
    ensures lo + hi * m < 0x80 * m
  {
    AtMost(hi, 0x80, m);
  }

  // ----- what the ladder computes on the curve -----

  lemma NegatedDifference(a: Fp, b: Fp)
    ensures Add(a, b) == Add(b, a) && Sub(b, a) == Sub(0, Sub(a, b))
  {
    ReduceSub(0, a - b);
  }

  lemma AddDiffSymmetric(u: Fp, x2: Fp, z2: Fp, x3: Fp, z3: Fp)
    ensures AddDiff(u, x2, z2, x3, z3) == AddDiff(u, x3, z3, x2, z2)
  {
    hide Mul, Add, Sub;
    var da := Mul(Sub(x3, z3), Add(x2, z2));
    var cb := Mul(Add(x3, z3), Sub(x2, z2));
    Commutative(Sub(x3, z3), Add(x2, z2));
    Commutative(Add(x3, z3), Sub(x2, z2));
    NegatedDifference(da, cb);
    SquareOfNegation(Sub(da, cb));
  }

  type Representation = (nat, Fp, Fp) -> bool

  ghost predicate DoublingLaw(rep: Representation) {
    forall m: nat, x: Fp, z: Fp :: rep(m, x, z) ==> rep(2 * m, Double(x, z).0, Double(x, z).1)
  }

  ghost predicate DifferentialAdditionLaw(u: Fp, rep: Representation) {
    forall m: nat, x2: Fp, z2: Fp, x3: Fp, z3: Fp :: rep(m, x2, z2) && rep(m + 1, x3, z3) ==>
      rep(2 * m + 1, AddDiff(u, x2, z2, x3, z3).0, AddDiff(u, x2, z2, x3, z3).1)
  }

  /** One step takes m Q and (m + 1) Q to 2m Q and (2m + 1) Q, or to (2m + 1) Q and (2m + 2) Q. */
  lemma StepMultiplies(u: Fp, rep: Representation, m: nat, bit: bool, s: Ladder)
    requires DoublingLaw(rep) && DifferentialAdditionLaw(u, rep)
    requires rep(m, s.x2, s.z2) && rep(m + 1, s.x3, s.z3)
    ensures var k := if bit then 2 * m + 1 else 2 * m;
      var t := EagerStep(u, bit, s); rep(k, t.x2, t.z2) && rep(k + 1, t.x3, t.z3)
  {
    hide Double, AddDiff;
    AddDiffSymmetric(u, s.x2, s.z2, s.x3, s.z3);
    if bit {
      assert rep(2 * (m + 1), Double(s.x3, s.z3).0, Double(s.x3, s.z3).1);
    }
  }

  /** rep(m, x, z) stands for "x : z is the u-coordinate of m Q".  Whenever it obeys
      the doubling law and the differential addition law, the ladder over the bits of
      k ends in k Q and (k + 1) Q. */
  lemma {:induction false} LadderMultiplies(u: Fp, rep: Representation, k: nat, bits: nat)
    requires rep(0, 1, 0) && rep(1, u, 1)
    requires DoublingLaw(rep) && DifferentialAdditionLaw(u, rep)
    requires k < Pow2(bits)
    ensures var s := EagerLadder(u, k, bits); rep(k, s.x2, s.z2) && rep(k + 1, s.x3, s.z3)
    decreases bits
  {
    hide EagerStep, DoublingLaw, DifferentialAdditionLaw;
    if bits != 0 {
      LadderMultiplies(u, rep, k / 2, bits - 1);
      StepMultiplies(u, rep, k / 2, k % 2 == 1, EagerLadder(u, k / 2, bits - 1));
    }
  }

  /** So what donna writes is the quotient of coordinates of k Q, k the decoded scalar. */
  lemma X25519Multiplies(k: seq<u8>, u: seq<u8>, rep: Representation)
    requires PrimeP() && |k| == 32 && |u| == 32
    requires rep(0, 1, 0) && rep(1, DecodeU(u), 1)
    requires DoublingLaw(rep) && DifferentialAdditionLaw(DecodeU(u), rep)
    ensures exists x: Fp, z: Fp :: rep(DecodeScalar(k), x, z) && X25519(k, u) == Encode(Mul(x, Pow(z, P - 2)), 32)
  {
    hide Mul, EagerLadder, PrimeP, DecodeU, DecodeScalar, Encode, Pow, X25519, DoublingLaw, DifferentialAdditionLaw;
    DecodedScalarRange(k);
    assert Pow2(256) == 2 * Pow2(255);
    hide Pow2;
    LadderMultiplies(DecodeU(u), rep, DecodeScalar(k), 256);
    X25519ByEagerLadder(k, u);
  }
}
