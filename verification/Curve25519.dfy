/** curve25519.cpp: X25519 in place on limb arrays. */
module Curve25519 {
  import opened MachineInts
  import opened Bytes
  import opened Rfc7748
  import opened Fermat
  import F = Field25519
  import L = Curve25519Limbs
  import C = Curve25519Codec

  ghost function View(a: array<u64>): L.Felem
    requires a.Length == 5
    reads a
  {
    L.Felem(a[0], a[1], a[2], a[3], a[4])
  }

  /** The field element held by a limb array. */
  ghost function Elt(a: array<u64>): F.Fp
    requires a.Length == 5
    reads a
  {
    L.Elt(View(a))
  }

  /** The largest limb. */
  ghost function Largest(a: array<u64>): (m: nat)
    requires a.Length == 5
    reads a
    ensures forall b :: L.Within(View(a), b) <==> m <= b
  {
    Max(a[0], Max(a[1], Max(a[2], Max(a[3], a[4]))))
  }

  ghost function Max(x: nat, y: nat): nat { if x < y then y else x }

  /** Limbs as the multiplications leave them: at most 2^51. */
  ghost predicate Reduced(a: array<u64>)
    requires a.Length == 5
    reads a
  {
    Largest(a) <= L.B
  }

  method Store(output: array<u64>, f: L.Felem)
    requires output.Length == 5 && L.Within(f, TWO_64 - 1)
    modifies output
    ensures View(output) == f
  {
    output[0] := f.x0;
    output[1] := f.x1;
    output[2] := f.x2;
    output[3] := f.x3;
    output[4] := f.x4;
  }

  method Load(input: array<u64>) returns (f: L.Felem)
    requires input.Length == 5
    ensures f == View(input)
  {
    f := L.Felem(input[0], input[1], input[2], input[3], input[4]);
  }

  method Copy(output: array<u64>, input: array<u64>)
    requires output.Length == 5 && input.Length == 5
    modifies output
    ensures View(output) == old(View(input))
    ensures Elt(output) == old(Elt(input)) && Largest(output) == old(Largest(input))
  {
    output[0], output[1], output[2], output[3], output[4] := input[0], input[1], input[2], input[3], input[4];
  }

  /** Adds input to output. */
  method Fsum(output: array<u64>, input: array<u64>)
    requires output.Length == 5 && input.Length == 5
    requires Largest(output) <= 2 * L.B && Largest(input) <= 2 * L.B
    modifies output
    ensures Elt(output) == F.Add(old(Elt(output)), old(Elt(input)))
    ensures Largest(output) <= old(Largest(output)) + old(Largest(input))
  {
    hide L.Elt, L.Within, Largest;
    ghost var f, g := View(output), View(input);
    ghost var b, c := Largest(output), Largest(input);
    output[0] := L.LimbSum(output[0], input[0]);
    output[1] := L.LimbSum(output[1], input[1]);
    output[2] := L.LimbSum(output[2], input[2]);
    output[3] := L.LimbSum(output[3], input[3]);
    output[4] := L.LimbSum(output[4], input[4]);
    assert View(output) == L.Fsum(f, g);
    hide View, L.Fsum;
    L.FsumCorrect(f, g, b, c);
  }

  /** output = input - output. */
  method FdifferenceBackwards(output: array<u64>, input: array<u64>)
    requires output.Length == 5 && input.Length == 5
    requires Reduced(output) && Reduced(input)
    modifies output
    ensures Elt(output) == F.Sub(old(Elt(input)), old(Elt(output)))
    ensures Largest(output) <= L.WIDE
  {
    hide L.Elt, L.Within, Largest;
    ghost var f, g := View(output), View(input);
    output[0] := L.LimbDifference(output[0], input[0], L.TWO_54_M152);
    output[1] := L.LimbDifference(output[1], input[1], L.TWO_54_M8);
    output[2] := L.LimbDifference(output[2], input[2], L.TWO_54_M8);
    output[3] := L.LimbDifference(output[3], input[3], L.TWO_54_M8);
    output[4] := L.LimbDifference(output[4], input[4], L.TWO_54_M8);
    assert View(output) == L.Fdifference(f, g);
    hide View, L.Fdifference;
    L.FdifferenceCorrect(f, g);
  }

  /** output = scalar * input; the ladder uses 121665. */
  method FscalarProduct(output: array<u64>, input: array<u64>, scalar: u64)
    requires output.Length == 5 && input.Length == 5
    requires Largest(input) <= L.WIDE && L.B + 171 * scalar + 0x13000 <= TWO_64
    modifies output
    ensures Elt(output) == F.Mul(F.Reduce(scalar), old(Elt(input)))
    ensures Largest(output) <= L.B + 171 * scalar + 0x13000
  {
    hide L.Elt, L.FscalarProduct, F.Reduce;
    var f := Load(input);
    L.FscalarProductCorrect(f, scalar);
    Store(output, L.FscalarProduct(f, scalar));
  }

  /** output = in2 * in1; output may be either input. */
  method Fmul(output: array<u64>, in2: array<u64>, in1: array<u64>)
    requires output.Length == 5 && in2.Length == 5 && in1.Length == 5
    requires Largest(in2) <= L.WIDE && Largest(in1) <= L.WIDE
    modifies output
    ensures Elt(output) == F.Mul(old(Elt(in2)), old(Elt(in1)))
    ensures Reduced(output)
  {
    hide L.Elt, L.Fmul, F.Mul;
    var r := Load(in1);
    var s := Load(in2);
    L.FmulCorrect(r, s);
    F.Commutative(L.Elt(r), L.Elt(s));
    Store(output, L.Fmul(r, s));
  }

  /** output = input^(2^count). */
  method FsquareTimes(output: array<u64>, input: array<u64>, count: u64)
    requires output.Length == 5 && input.Length == 5
    requires Largest(input) <= L.WIDE && count > 0
    modifies output
    ensures Elt(output) == F.SquareTimes(old(Elt(input)), count)
    ensures Reduced(output)
  {
    hide L.Elt, L.Fsquare, F.Mul;
    var r := Load(input);
    var n := count;
    while true
      invariant n > 0 && L.Within(r, L.WIDE)
      invariant F.SquareTimes(old(Elt(input)), count) == F.SquareTimes(L.Elt(r), n)
      decreases n
    {
      L.FsquareCorrect(r);
      r := L.Fsquare(r);
      n := n - 1;
      if n == 0 {
        break;
      }
    }
    Store(output, r);
  }

  /** a, b := a + b, a - b: the copy, fsum, fdifference_backwards sequence that fmonty
      applies to three pairs. */
  method SumDifference(a: array<u64>, b: array<u64>)
    requires a.Length == 5 && b.Length == 5 && a != b
    requires Reduced(a) && Reduced(b)
    modifies a, b
    ensures Elt(a) == F.Add(old(Elt(a)), old(Elt(b))) && Elt(b) == F.Sub(old(Elt(a)), old(Elt(b)))
    ensures Largest(a) <= L.WIDE && Largest(b) <= L.WIDE
  {
    hide Elt, View, Largest, F.Add, F.Sub;
    var orig := new u64[5];
    Copy(orig, a);
    Fsum(a, b);
    FdifferenceBackwards(b, orig);
  }

  /** The Q + Q' half of fmonty: from x +- z and xprime +- zprime. */
  method FmontyAdd(x3: array<u64>, z3: array<u64>, x: array<u64>, z: array<u64>, xprime: array<u64>, zprime: array<u64>,
                   qmqp: array<u64>)
    requires x3.Length == z3.Length == x.Length == z.Length == xprime.Length == zprime.Length == qmqp.Length == 5
    requires x3 != z3 && {x3, z3} !! {x, z, xprime, zprime, qmqp}
    requires Largest(x) <= L.WIDE && Largest(z) <= L.WIDE && Largest(xprime) <= L.WIDE && Largest(zprime) <= L.WIDE
    requires Reduced(qmqp)
    modifies x3, z3
    ensures var cb, da := F.Mul(Elt(xprime), Elt(z)), F.Mul(Elt(x), Elt(zprime));
      Elt(x3) == F.Sqr(F.Add(cb, da)) && Elt(z3) == F.Mul(F.Sqr(F.Sub(cb, da)), Elt(qmqp))
    ensures Reduced(x3) && Reduced(z3)
  {
    hide Elt, View, Largest, F.Mul, F.Add, F.Sub;
    var xxprime, zzprime, zzzprime := new u64[5], new u64[5], new u64[5];
    Fmul(xxprime, xprime, z);
    Fmul(zzprime, x, zprime);
    SumDifference(xxprime, zzprime);
    FsquareTimes(x3, xxprime, 1);
    FsquareTimes(zzzprime, zzprime, 1);
    Fmul(z3, zzzprime, qmqp);
  }

  /** The 2 Q half of fmonty: from x +- z. */
  method FmontyDouble(x2: array<u64>, z2: array<u64>, x: array<u64>, z: array<u64>)
    requires x2.Length == z2.Length == x.Length == z.Length == 5
    requires x2 != z2 && {x2, z2} !! {x, z}
    requires Largest(x) <= L.WIDE && Largest(z) <= L.WIDE
    modifies x2, z2
    ensures var aa, bb := F.Sqr(Elt(x)), F.Sqr(Elt(z));
      var e := F.Sub(aa, bb);
      Elt(x2) == F.Mul(aa, bb) && Elt(z2) == F.Mul(e, F.Add(F.Mul(A24, e), aa))
    ensures Reduced(x2) && Reduced(z2)
  {
    hide Elt, View, Largest, F.Mul, F.Add, F.Sub;
    var zzz, xx, zz := new u64[5], new u64[5], new u64[5];
    FsquareTimes(xx, x, 1);
    FsquareTimes(zz, z, 1);
    Fmul(x2, xx, zz);
    FdifferenceBackwards(zz, xx);
    FscalarProduct(zzz, zz, 121665);
    Fsum(zzz, xx);
    Fmul(z2, zz, zzz);
  }

  /** 2 Q and Q + Q' from Q, Q' and Q - Q'; the inputs x .. zprime are destroyed. */
  method Fmonty(x2: array<u64>, z2: array<u64>, x3: array<u64>, z3: array<u64>,
                x: array<u64>, z: array<u64>, xprime: array<u64>, zprime: array<u64>, qmqp: array<u64>)
    requires x2.Length == z2.Length == x3.Length == z3.Length == x.Length == z.Length == xprime.Length == zprime.Length == qmqp.Length == 5
    requires x2 != z2 && x2 != x3 && x2 != z3 && z2 != x3 && z2 != z3 && x3 != z3
    requires {x2, z2, x3, z3} !! {x, z, xprime, zprime, qmqp}
    requires x != z && x != xprime && x != zprime && z != xprime && z != zprime && xprime != zprime
    requires qmqp !in {x, z, xprime, zprime}
    requires Reduced(x) && Reduced(z) && Reduced(xprime) && Reduced(zprime) && Reduced(qmqp)
    modifies x2, z2, x3, z3, x, z, xprime, zprime
    ensures (Elt(x2), Elt(z2)) == Double(old(Elt(x)), old(Elt(z)))
    ensures (Elt(x3), Elt(z3)) == AddDiff(Elt(qmqp), old(Elt(x)), old(Elt(z)), old(Elt(xprime)), old(Elt(zprime)))
    ensures Reduced(x2) && Reduced(z2) && Reduced(x3) && Reduced(z3)
  {
    hide Elt, View, Largest, F.Mul, F.Add, F.Sub, Double, AddDiff;
    ghost var ax, az, bx, bz := Elt(x), Elt(z), Elt(xprime), Elt(zprime);
    SumDifference(x, z);
    SumDifference(xprime, zprime);
    FmontyAdd(x3, z3, x, z, xprime, zprime, qmqp);
    FmontyDouble(x2, z2, x, z);
    AddDiffByCode(Elt(qmqp), ax, az, bx, bz);
    DoubleByCode(ax, az);
  }

  lemma DoubleByCode(x: F.Fp, z: F.Fp)
    ensures var aa, bb := F.Sqr(F.Add(x, z)), F.Sqr(F.Sub(x, z));
      var e := F.Sub(aa, bb);
      Double(x, z) == (F.Mul(aa, bb), F.Mul(e, F.Add(F.Mul(A24, e), aa)))
  {
    hide F.Mul;
  }

  lemma AddDiffByCode(u: F.Fp, x2: F.Fp, z2: F.Fp, x3: F.Fp, z3: F.Fp)
    ensures var cb, da := F.Mul(F.Add(x3, z3), F.Sub(x2, z2)), F.Mul(F.Add(x2, z2), F.Sub(x3, z3));
      AddDiff(u, x2, z2, x3, z3) == (F.Sqr(F.Add(cb, da)), F.Mul(F.Sqr(F.Sub(cb, da)), u))
  {
    hide F.Mul, F.Add, F.Sub;
    var cb, da := F.Mul(F.Add(x3, z3), F.Sub(x2, z2)), F.Mul(F.Add(x2, z2), F.Sub(x3, z3));
    F.Commutative(F.Add(x2, z2), F.Sub(x3, z3));
    NegatedDifference(da, cb);
    SquareOfNegation(F.Sub(da, cb));
    F.Commutative(u, F.Sqr(F.Sub(da, cb)));
  }

  /** Swap a and b when iswap is 1; the values of the masked exchange. */
  method SwapConditional(a: array<u64>, b: array<u64>, iswap: u64)
    requires a.Length == 5 && b.Length == 5 && a != b
    requires iswap <= 1
    modifies a, b
    ensures View(a) == (if iswap == 1 then old(View(b)) else old(View(a)))
    ensures View(b) == (if iswap == 1 then old(View(a)) else old(View(b)))
    ensures Largest(a) == (if iswap == 1 then old(Largest(b)) else old(Largest(a)))
    ensures Largest(b) == (if iswap == 1 then old(Largest(a)) else old(Largest(b)))
  {
    for i := 0 to 5
      invariant forall k :: 0 <= k < 5 ==> a[k] == if k < i && iswap == 1 then old(b[k]) else old(a[k])
      invariant forall k :: 0 <= k < 5 ==> b[k] == if k < i && iswap == 1 then old(a[k]) else old(b[k])
    {
      if iswap == 1 {
        a[i], b[i] := b[i], a[i];
      }
    }
  }

  /** The ladder state held by four limb arrays. */
  ghost function State(x2: array<u64>, z2: array<u64>, x3: array<u64>, z3: array<u64>): Ladder
    requires x2.Length == z2.Length == x3.Length == z3.Length == 5
    reads x2, z2, x3, z3
  {
    Ladder(Elt(x2), Elt(z2), Elt(x3), Elt(z3))
  }

  ghost predicate StateReduced(x2: array<u64>, z2: array<u64>, x3: array<u64>, z3: array<u64>)
    requires x2.Length == z2.Length == x3.Length == z3.Length == 5
    reads x2, z2, x3, z3
  {
    Reduced(x2) && Reduced(z2) && Reduced(x3) && Reduced(z3)
  }

  /** The body of the ladder loop: swap, fmonty, swap back. */
  method LadderStep(nqx2: array<u64>, nqz2: array<u64>, nqpqx2: array<u64>, nqpqz2: array<u64>,
                    nqx: array<u64>, nqz: array<u64>, nqpqx: array<u64>, nqpqz: array<u64>, q: array<u64>, bit: u64)
    requires nqx2.Length == nqz2.Length == nqpqx2.Length == nqpqz2.Length == 5
    requires nqx.Length == nqz.Length == nqpqx.Length == nqpqz.Length == q.Length == 5
    requires nqx2 != nqz2 && nqx2 != nqpqx2 && nqx2 != nqpqz2 && nqz2 != nqpqx2 && nqz2 != nqpqz2 && nqpqx2 != nqpqz2
    requires {nqx2, nqz2, nqpqx2, nqpqz2} !! {nqx, nqz, nqpqx, nqpqz, q}
    requires nqx != nqz && nqx != nqpqx && nqx != nqpqz && nqz != nqpqx && nqz != nqpqz && nqpqx != nqpqz
    requires q !in {nqx, nqz, nqpqx, nqpqz}
    requires StateReduced(nqx, nqz, nqpqx, nqpqz) && Reduced(q) && bit <= 1
    modifies nqx2, nqz2, nqpqx2, nqpqz2, nqx, nqz, nqpqx, nqpqz
    ensures State(nqx2, nqz2, nqpqx2, nqpqz2) == EagerStep(Elt(q), bit == 1, old(State(nqx, nqz, nqpqx, nqpqz)))
    ensures StateReduced(nqx2, nqz2, nqpqx2, nqpqz2)
  {
    hide View, Largest, Double, AddDiff, L.Elt;
    SwapConditional(nqx, nqpqx, bit);
    SwapConditional(nqz, nqpqz, bit);
    Fmonty(nqx2, nqz2, nqpqx2, nqpqz2, nqx, nqz, nqpqx, nqpqz, q);
    SwapConditional(nqx2, nqpqx2, bit);
    SwapConditional(nqz2, nqpqz2, bit);
  }

  // ----- the bits of a byte, top first -----

  /** The byte shifted left j times. */
  function ShiftedLeft(b: u8, j: nat): u8
  {
    if j == 0 then b else (ShiftedLeft(b, j - 1) * 2) % 0x100
  }

  /** The j bits that have been shifted out. */
  function TopBits(b: u8, j: nat): nat
  {
    if j == 0 then 0 else 2 * TopBits(b, j - 1) + ShiftedLeft(b, j - 1) / 0x80
  }

  /** b = hi w + lo, and shifting j times has moved hi out and left lo in front. */
  ghost predicate Split(b: u8, j: nat, hi: nat, lo: nat, w: nat, v: nat)
  {
    b == hi * w + lo && lo < w && TopBits(b, j) == hi && ShiftedLeft(b, j) == lo * v
  }

  lemma TopBit(lo: nat, w: nat, v: nat) returns (bit: nat, lo': nat)
    requires v > 0 && w * v == 0x80 && lo < 2 * w
    ensures lo' < w && lo == bit * w + lo' && (lo * v) / 0x80 == bit && (lo * v * 2) % 0x100 == lo' * (2 * v)
  {
    bit := if lo < w then 0 else 1;
    lo' := lo - bit * w;
    var y := lo' * v;
    AtMost(lo', w, v);
    assert 0 <= y < 0x80;
    assert lo * v == 0x80 * bit + y by {
      if bit == 1 { Distribute(lo, w, v); }
    }
    assert lo' * (2 * v) == 2 * y;
  }

  lemma ShiftOne(b: u8, j: nat, hi: nat, lo: nat, w: nat, v: nat) returns (hi': nat, lo': nat)
    requires v > 0 && w * v == 0x80 && Split(b, j, hi, lo, 2 * w, v)
    ensures Split(b, j + 1, hi', lo', w, 2 * v)
  {
    hide TopBits, ShiftedLeft;
    var bit;
    bit, lo' := TopBit(lo, w, v);
    hi' := 2 * hi + bit;
    NextBit(b, j, 0);
    assert hi * (2 * w) + bit * w == hi' * w;
  }

  lemma EightBits(b: u8)
    ensures TopBits(b, 8) == b
  {
    hide TopBits, ShiftedLeft;
    NoBits(b);
    var hi, lo := ShiftOne(b, 0, 0, b, 0x80, 1);
    hi, lo := ShiftOne(b, 1, hi, lo, 0x40, 2);
    hi, lo := ShiftOne(b, 2, hi, lo, 0x20, 4);
    hi, lo := ShiftOne(b, 3, hi, lo, 0x10, 8);
    hi, lo := ShiftOne(b, 4, hi, lo, 8, 0x10);
    hi, lo := ShiftOne(b, 5, hi, lo, 4, 0x20);
    hi, lo := ShiftOne(b, 6, hi, lo, 2, 0x40);
    hi, lo := ShiftOne(b, 7, hi, lo, 1, 0x80);
  }

  lemma NoBits(b: u8)
    ensures ShiftedLeft(b, 0) == b && TopBits(b, 0) == 0
  {}

  /** The byte shifted left once. */
  function ShiftLeftOnce(b: u8): u8 { (b * 2) % 0x100 }

  lemma NextBit(b: u8, j: nat, top: nat)
    ensures ShiftedLeft(b, j + 1) == ShiftLeftOnce(ShiftedLeft(b, j))
    ensures top * Pow2(j + 1) + TopBits(b, j + 1) == 2 * (top * Pow2(j) + TopBits(b, j)) + ShiftedLeft(b, j) / 0x80
  {}

  ghost predicate Distinct(a: array<u64>, b: array<u64>, c: array<u64>, d: array<u64>)
  {
    a.Length == b.Length == c.Length == d.Length == 5 && a != b && a != c && a != d && b != c && b != d && c != d
  }

  /** The inner loop of cmult: the eight bits of one byte.  The four output buffers trade
      places with the four inputs after every bit, so eight bits bring them back. */
  method ByteSteps(a: array<u64>, b: array<u64>, c: array<u64>, d: array<u64>,
                   e: array<u64>, f: array<u64>, g: array<u64>, h: array<u64>,
                   q: array<u64>, scalarByte: u8, ghost u: F.Fp, ghost top: nat, ghost bits: nat)
    requires Distinct(a, b, c, d) && Distinct(e, f, g, h) && {a, b, c, d} !! {e, f, g, h}
    requires q.Length == 5 && q !in {a, b, c, d, e, f, g, h} && Reduced(q) && u == Elt(q)
    requires State(c, d, a, b) == EagerLadder(u, top, bits) && StateReduced(c, d, a, b)
    modifies a, b, c, d, e, f, g, h
    ensures State(c, d, a, b) == EagerLadder(u, 0x100 * top + scalarByte, bits + 8)
    ensures StateReduced(c, d, a, b)
  {
    hide Elt, View, Largest, EagerStep, State, StateReduced, ShiftedLeft, TopBits;
    var byte := scalarByte;
    var nqpqx, nqpqz, nqx, nqz := a, b, c, d;
    var nqpqx2, nqpqz2, nqx2, nqz2 := e, f, g, h;
    ghost var m := top;
    NoBits(byte);
    for j := 0 to 8
      invariant j % 2 == 0 ==> nqpqx == a && nqpqz == b && nqx == c && nqz == d
      invariant j % 2 == 0 ==> nqpqx2 == e && nqpqz2 == f && nqx2 == g && nqz2 == h
      invariant j % 2 == 1 ==> nqpqx == e && nqpqz == f && nqx == g && nqz == h
      invariant j % 2 == 1 ==> nqpqx2 == a && nqpqz2 == b && nqx2 == c && nqz2 == d
      invariant byte == ShiftedLeft(scalarByte, j)
      invariant m == top * Pow2(j) + TopBits(scalarByte, j)
      invariant State(nqx, nqz, nqpqx, nqpqz) == EagerLadder(u, m, bits + j)
      invariant StateReduced(nqx, nqz, nqpqx, nqpqz)
    {
      var bit: u64 := byte / 0x80;
      LadderStep(nqx2, nqz2, nqpqx2, nqpqz2, nqx, nqz, nqpqx, nqpqz, q, bit);
      nqx, nqx2 := nqx2, nqx;
      nqz, nqz2 := nqz2, nqz;
      nqpqx, nqpqx2 := nqpqx2, nqpqx;
      nqpqz, nqpqz2 := nqpqz2, nqpqz;
      byte := ShiftLeftOnce(byte);
      NextBit(scalarByte, j, top);
      m := 2 * m + bit;
    }
    EightBits(scalarByte);
    assert Pow2(8) == 0x100;
  }

  /** The eight buffers of cmult: a, b hold the second point q : 1, c, d the first,
      1 : 0; e .. h receive the next state. */
  method Buffers(q: array<u64>)
      returns (a: array<u64>, b: array<u64>, c: array<u64>, d: array<u64>,
               e: array<u64>, f: array<u64>, g: array<u64>, h: array<u64>)
    requires q.Length == 5 && Reduced(q)
    ensures fresh({a, b, c, d, e, f, g, h})
    ensures Distinct(a, b, c, d) && Distinct(e, f, g, h) && {a, b, c, d} !! {e, f, g, h}
    ensures State(c, d, a, b) == EagerLadder(Elt(q), 0, 0) && StateReduced(c, d, a, b)
  {
    hide Elt, View, Largest, State, StateReduced, EagerLadder;
    a := Small(0);
    b := Small(1);
    c := Small(1);
    d := Small(0);
    Copy(a, q);
    StartState(c, d, a, b, Elt(q));
    e := new u64[5][0, 0, 0, 0, 0];
    f := new u64[5][1, 0, 0, 0, 0];
    g := new u64[5][0, 0, 0, 0, 0];
    h := new u64[5][1, 0, 0, 0, 0];
  }

  /** resultx : resultz is the first point of the ladder over the 256 bits of n. */
  method Cmult(resultx: array<u64>, resultz: array<u64>, n: array<u8>, q: array<u64>)
    requires resultx.Length == resultz.Length == q.Length == 5 && n.Length == 32
    requires resultx != resultz && q !in {resultx, resultz}
    requires Reduced(q)
    modifies resultx, resultz
    ensures Elt(resultx) == EagerLadder(Elt(q), LittleEndian(n[..]), 256).x2
    ensures Elt(resultz) == EagerLadder(Elt(q), LittleEndian(n[..]), 256).z2
    ensures Reduced(resultx) && Reduced(resultz)
  {
    hide Elt, View, Largest, EagerStep, State, StateReduced, EagerLadder;
    var a, b, c, d, e, f, g, h := Buffers(q);
    ghost var m: nat := 0;
    for i := 0 to 32
      invariant m == LittleEndian(n[32 - i..])
      invariant State(c, d, a, b) == EagerLadder(Elt(q), m, 8 * i)
      invariant StateReduced(c, d, a, b)
    {
      ByteSteps(a, b, c, d, e, f, g, h, q, n[31 - i], Elt(q), m, 8 * i);
      m := 0x100 * m + n[31 - i];
      assert n[31 - i..][1..] == n[32 - i..];
    }
    assert n[32 - 32..] == n[..];
    FinalState(c, d, a, b);
    Copy(resultx, c);
    Copy(resultz, d);
  }

  lemma StartState(x2: array<u64>, z2: array<u64>, x3: array<u64>, z3: array<u64>, u: F.Fp)
    requires x2.Length == z2.Length == x3.Length == z3.Length == 5
    requires Elt(x2) == 1 && Elt(z2) == 0 && Elt(x3) == u && Elt(z3) == 1
    requires Reduced(x2) && Reduced(z2) && Reduced(x3) && Reduced(z3)
    ensures State(x2, z2, x3, z3) == EagerLadder(u, 0, 0) && StateReduced(x2, z2, x3, z3)
  {}

  lemma FinalState(x2: array<u64>, z2: array<u64>, x3: array<u64>, z3: array<u64>)
    requires x2.Length == z2.Length == x3.Length == z3.Length == 5
    requires StateReduced(x2, z2, x3, z3)
    ensures Elt(x2) == State(x2, z2, x3, z3).x2 && Elt(z2) == State(x2, z2, x3, z3).z2
    ensures Reduced(x2) && Reduced(z2)
  {}

  /** The limb array {v, 0, 0, 0, 0}. */
  method Small(v: u64) returns (a: array<u64>)
    requires v <= 1
    ensures fresh(a) && a.Length == 5 && Elt(a) == v && Reduced(a)
  {
    a := new u64[5][v, 0, 0, 0, 0];
  }

  // ----- inversion -----

  /** a holds w^e. */
  ghost predicate Holds(a: array<u64>, w: F.Fp, e: nat)
    requires a.Length == 5
    reads a
  {
    Elt(a) == F.Pow(w, e) && Reduced(a)
  }

  method FmulPowers(output: array<u64>, in2: array<u64>, in1: array<u64>, ghost w: F.Fp, ghost e2: nat, ghost e1: nat)
    requires output.Length == 5 && in2.Length == 5 && in1.Length == 5
    requires Holds(in2, w, e2) && Holds(in1, w, e1)
    modifies output
    ensures Holds(output, w, e2 + e1)
  {
    hide Elt, View, Largest, F.Mul, F.Pow;
    F.PowAdd(w, e2, e1);
    Fmul(output, in2, in1);
  }

  method FsquarePowers(output: array<u64>, input: array<u64>, count: u64, ghost w: F.Fp, ghost e: nat)
    requires output.Length == 5 && input.Length == 5 && count > 0
    requires Holds(input, w, e)
    modifies output
    ensures Holds(output, w, e * Pow2(count))
  {
    hide Elt, View, Largest, F.SquareTimes, F.Pow, F.Doubled, Pow2;
    F.SquareTimesPow(w, e, count);
    F.DoubledIsShift(e, count);
    FsquareTimes(output, input, count);
  }

  /** out = z^(2^255 - 21), the inverse of z for a prime P. */
  method Crecip(out: array<u64>, z: array<u64>)
    requires out.Length == 5 && z.Length == 5 && Reduced(z)
    modifies out
    ensures Elt(out) == F.Pow(old(Elt(z)), F.P - 2) && Reduced(out)
  {
    hide Holds, Pow2;
    ghost var w := Elt(z);
    var a, t0, b, c := new u64[5], new u64[5], new u64[5], new u64[5];
    ChainPowers();
    HoldsOne(z);
    FsquarePowers(a, z, 1, w, 1);                 // 2
    FsquarePowers(t0, a, 2, w, 2);                // 8
    FmulPowers(b, t0, z, w, 8, 1);                // 9
    FmulPowers(a, b, a, w, 9, 2);                 // 11
    FsquarePowers(t0, a, 1, w, 11);               // 22
    FmulPowers(b, t0, b, w, 22, 9);               // 2^5 - 1
    FsquarePowers(t0, b, 5, w, 31);
    FmulPowers(b, t0, b, w, 31 * 0x20, 31);       // 2^10 - 1
    InvertFromTen(out, a, b, w);
  }

  /** The second half of the chain, from 11 and 2^10 - 1. */
  method InvertFromTen(out: array<u64>, a: array<u64>, b: array<u64>, ghost w: F.Fp)
    requires out.Length == a.Length == b.Length == 5 && a != b && out != a && out != b
    requires Holds(a, w, 11) && Holds(b, w, 0x3ff)
    modifies out, b
    ensures Elt(out) == F.Pow(w, F.P - 2) && Reduced(out)
  {
    hide Holds, Pow2;
    var t0, c := new u64[5], new u64[5];
    ChainPowers();
    ghost var e10, e20 := 0x3ff, 0xfffff;
    FsquarePowers(t0, b, 10, w, e10);
    FmulPowers(c, t0, b, w, e10 * 0x400, e10);    // 2^20 - 1
    FsquarePowers(t0, c, 20, w, e20);
    FmulPowers(t0, t0, c, w, e20 * 0x100000, e20); // 2^40 - 1
    ghost var e40, e50 := 0xffffffffff, 0x3ffffffffffff;
    FsquarePowers(t0, t0, 10, w, e40);
    FmulPowers(b, t0, b, w, e40 * 0x400, e10);    // 2^50 - 1
    FsquarePowers(t0, b, 50, w, e50);
    FmulPowers(c, t0, b, w, e50 * 0x4000000000000, e50); // 2^100 - 1
    ghost var e100 := 0xfffffffffffffffffffffffff;
    FsquarePowers(t0, c, 100, w, e100);
    FmulPowers(t0, t0, c, w, e100 * 0x10000000000000000000000000, e100); // 2^200 - 1
    ghost var e200 := e100 * 0x10000000000000000000000000 + e100;
    FsquarePowers(t0, t0, 50, w, e200);
    FmulPowers(t0, t0, b, w, e200 * 0x4000000000000, e50); // 2^250 - 1
    ghost var e250 := e200 * 0x4000000000000 + e50;
    FsquarePowers(t0, t0, 5, w, e250);
    FmulPowers(out, t0, a, w, e250 * 0x20, 11);   // 2^255 - 21
    assert e250 * 0x20 + 11 == F.P - 2;
    HeldPower(out, w, e250 * 0x20 + 11);
  }

  lemma HoldsOne(z: array<u64>)
    requires z.Length == 5 && Reduced(z)
    ensures Holds(z, Elt(z), 1)
  {
    hide Elt, F.Mul;
    One(Elt(z));
    PowStep(Elt(z), 0);
  }

  lemma HeldPower(z: array<u64>, w: F.Fp, e: nat)
    requires z.Length == 5 && Holds(z, w, e)
    ensures Elt(z) == F.Pow(w, e) && Reduced(z)
  {}

  // ----- bytes -----

  /** Read 32 bytes as limbs. */
  method Fexpand(output: array<u64>, input: array<u8>)
    requires output.Length == 5 && input.Length == 32
    modifies output
    ensures Elt(output) == DecodeU(input[..]) && Reduced(output)
    ensures L.Val(View(output)) == LittleEndian(input[..]) % C.TWO_255
  {
    hide C.Expand, L.Elt, L.Val, DecodeU, LittleEndian;
    var f := C.Expand(input[..]);
    C.ExpandCorrect(input[..]);
    Store(output, f);
  }

  /** Write the canonical encoding of the element. */
  method Fcontract(output: array<u8>, input: array<u64>)
    requires output.Length == 32 && input.Length == 5
    modifies output
    ensures output[..] == Encode(Elt(input), 32)
  {
    hide C.Canonical, C.PackWord, Encode, L.Elt;
    var f := Load(input);
    C.ContractCorrect(f);
    var t := C.Canonical(f);
    StoreLimb(output, 0, C.PackWord(t, 0));
    StoreLimb(output, 8, C.PackWord(t, 1));
    StoreLimb(output, 16, C.PackWord(t, 2));
    StoreLimb(output, 24, C.PackWord(t, 3));
    assert output[..] == output[..8] + output[8..16] + output[16..24] + output[24..];
  }

  /** The 8 bytes of a limb, from offset on. */
  method StoreLimb(output: array<u8>, offset: nat, input: u64)
    requires offset + 8 <= output.Length
    modifies output
    ensures output[..] == old(output[..offset]) + Encode(input, 8) + old(output[offset + 8..])
  {
    var v: nat := input;
    for i := 0 to 8
      invariant v == Shift(input, i)
      invariant output[..] == old(output[..offset]) + Encode(input, i) + old(output[offset + i..])
    {
      EncodeOneMore(input, i);
      output[offset + i] := v % 0x100;
      v := v / 0x100;
    }
  }

  lemma {:induction false} EncodeOneMore(v: nat, n: nat)
    ensures Encode(v, n + 1) == Encode(v, n) + [Shift(v, n) % 0x100]
    ensures Shift(v, n + 1) == Shift(v, n) / 0x100
    decreases n
  {
    if n > 0 {
      EncodeOneMore(v / 0x100, n - 1);
    }
  }

  // ----- X25519 -----

  /** The clamped copy of a secret. */
  method Clamped(sk: array<u8>) returns (e: array<u8>)
    requires sk.Length == 32
    ensures fresh(e) && e.Length == 32 && LittleEndian(e[..]) == DecodeScalar(sk[..])
  {
    hide LittleEndian;
    e := new u8[32](i requires 0 <= i < sk.Length reads sk => sk[i]);
    e[0] := e[0] - e[0] % 8;
    e[31] := e[31] % 0x80;
    e[31] := e[31] % 0x40 + 0x40;
    assert e[..] == [sk[0] - sk[0] % 8] + sk[..][1..31] + [sk[31] % 0x40 + 0x40];
  }

  /** The bytes of x / z; z and zmone are overwritten. */
  method Quotient(pk: array<u8>, x: array<u64>, z: array<u64>, zmone: array<u64>)
    requires pk.Length == 32 && x.Length == z.Length == zmone.Length == 5 && x != z && x != zmone && z != zmone
    requires Reduced(x) && Reduced(z)
    modifies pk, z, zmone
    ensures pk[..] == Encode(F.Mul(old(Elt(x)), F.Pow(old(Elt(z)), F.P - 2)), 32)
  {
    hide Elt, Largest, Encode, F.Mul, F.Pow;
    Crecip(zmone, z);
    Fmul(z, x, zmone);
    Fcontract(pk, z);
  }

  /** pk = X25519(sk, basepoint), for every secret and every u-coordinate. */
  method Donna(basepoint: array<u8>, sk: array<u8>, pk: array<u8>)
    requires basepoint.Length == 32 && sk.Length == 32 && pk.Length == 32
    modifies pk
    ensures PrimeP() ==> pk[..] == X25519(old(sk[..]), old(basepoint[..]))
  {
    hide Elt, View, Largest, EagerLadder, Encode, LittleEndian, X25519, DecodeScalar, DecodeU, F.Mul, F.Pow, PrimeP;
    var bp, x, z, zmone := new u64[5], new u64[5], new u64[5], new u64[5];
    var e := Clamped(sk);
    ghost var secret, base := sk[..], basepoint[..];
    Fexpand(bp, basepoint);
    Cmult(x, z, e, bp);
    Quotient(pk, x, z, zmone);
    assert DecodeScalar(secret) == LittleEndian(e[..]);
    if PrimeP() {
      X25519ByEagerLadder(secret, base);
    }
  }
}
