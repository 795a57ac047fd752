/** slide of ed25519.cpp: a scalar as odd signed digits far apart. */
module SlidingWindow {
  import opened MachineInts
  import opened Bytes

  /** s[0] + 2 s[1] + 4 s[2] + ... */
  function Value(s: seq<int>): int {
    if s == [] then 0 else s[0] + 2 * Value(s[1..])
  }

  predicate IsBits(s: seq<int>) { forall x :: x in s ==> x == 0 || x == 1 }

  lemma {:induction false} BitsBounded(s: seq<int>)
    requires IsBits(s)
    ensures 0 <= Value(s) < Pow2(|s|)
  {
    if s != [] {
      assert s[0] in s && forall x :: x in s[1..] ==> x in s;
      BitsBounded(s[1..]);
    }
  }

  lemma {:induction false} ValueConcat(a: seq<int>, b: seq<int>)
    ensures Value(a + b) == Value(a) + Pow2(|a|) * Value(b)
  {
    if a == [] {
      assert a + b == b;
    } else {
      assert (a + b)[1..] == a[1..] + b;
      ValueConcat(a[1..], b);
      Regroup(a[0], 2, Value(a[1..]), Pow2(|a| - 1), Value(b));
    }
  }

  lemma Pow2Values()
    ensures Pow2(1) == 2 && Pow2(2) == 4 && Pow2(3) == 8 && Pow2(4) == 16 && Pow2(5) == 32 && Pow2(8) == 0x100
  {
    assert Pow2(4) == 16;
  }

  // ----- the bits of a scalar -----

  function ByteBits(x: u8): (s: seq<int>)
    ensures |s| == 8
  {
    [x % 2, x / 2 % 2, x / 4 % 2, x / 8 % 2, x / 16 % 2, x / 32 % 2, x / 64 % 2, x / 128 % 2]
  }

  function Bits(a: seq<u8>): (s: seq<int>)
    ensures |s| == 8 * |a|
  {
    if a == [] then [] else ByteBits(a[0]) + Bits(a[1..])
  }

  /** Bit i of the bytes, the lowest of a byte first. */
  function BitOf(x: u8, i: nat): int { x / Pow2(i) % 2 }

  lemma ByteBitsAt(x: u8, i: nat)
    requires i < 8
    ensures ByteBits(x)[i] == BitOf(x, i)
  {
    Pow2Values();
    assert Pow2(6) == 64 && Pow2(7) == 128;
    assert x / 1 == x;
  }

  lemma {:induction false} BitsAt(a: seq<u8>, i: nat)
    requires i < 8 * |a|
    ensures Bits(a)[i] == BitOf(a[i / 8], i % 8)
  {
    if i < 8 {
      ByteBitsAt(a[0], i);
    } else {
      BitsAt(a[1..], i - 8);
      assert i / 8 == (i - 8) / 8 + 1 && i % 8 == (i - 8) % 8;
    }
  }

  lemma FourDigits(w: int, x: int, y: int, z: int, rest: seq<int>)
    ensures Value([w, x, y, z] + rest) == w + 2 * x + 4 * y + 8 * z + 16 * Value(rest)
  {
    var s := [w, x, y, z] + rest;
    assert s[1..][1..] == s[2..] && s[2..][1..] == s[3..] && s[3..][1..] == rest;
    assert Value(s[3..]) == z + 2 * Value(rest) && Value(s[2..]) == y + 2 * Value(s[3..]);
    assert Value(s[1..]) == x + 2 * Value(s[2..]);
  }

  /** The low four bits of x. */
  lemma Nibble(x: nat)
    ensures x == x % 2 + 2 * (x / 2 % 2) + 4 * (x / 4 % 2) + 8 * (x / 8 % 2) + 16 * (x / 16)
  {
    assert x / 4 == x / 2 / 2 && x / 8 == x / 4 / 2 && x / 16 == x / 8 / 2;
  }

  lemma ByteBitsValue(x: u8)
    ensures Value(ByteBits(x)) == x && IsBits(ByteBits(x))
  {
    hide Value;
    var s := ByteBits(x);
    var high := [s[4], s[5], s[6], s[7]] + [];
    assert s == [s[0], s[1], s[2], s[3]] + high;
    FourDigits(s[0], s[1], s[2], s[3], high);
    FourDigits(s[4], s[5], s[6], s[7], []);
    NoDigits();
    Nibble(x);
    Nibble(x / 16);
    assert x / 32 == x / 16 / 2 && x / 64 == x / 16 / 4 && x / 128 == x / 16 / 8 && x / 16 / 16 == 0;
  }

  lemma NoDigits()
    ensures Value([]) == 0
  {}

  lemma {:induction false} BitsValue(a: seq<u8>)
    ensures Value(Bits(a)) == LittleEndian(a) && IsBits(Bits(a))
  {
    if a != [] {
      BitsValue(a[1..]);
      ByteBitsValue(a[0]);
      ValueConcat(ByteBits(a[0]), Bits(a[1..]));
      Pow2Values();
    }
  }

  lemma {:induction false} UpdateDigit(s: seq<int>, i: nat, v: int)
    requires i < |s|
    ensures Value(s[i := v]) == Value(s) + Pow2(i) * (v - s[i])
  {
    if i == 0 {
      assert s[i := v][1..] == s[1..];
    } else {
      assert s[i := v][1..] == s[1..][i - 1 := v];
      UpdateDigit(s[1..], i - 1, v);
      Regroup(0, 2, 0, Pow2(i - 1), v - s[i]);
    }
  }

  // ----- the carry of slide -----

  /** n bits and what they become: one more, or nothing when they were all ones. */
  ghost predicate Incremented(v: int, w: int, n: nat) {
    w == if v + 1 == Pow2(n) then 0 else v + 1
  }

  /** Adds 1 to the bits from m on; a carry out of the last is lost. */
  method CarryFrom(r: array<i8>, m: nat)
    requires r.Length == 256 && m <= 256 && IsBits(r[m..])
    modifies r
    ensures r[..m] == old(r[..m]) && IsBits(r[m..])
    ensures m < 256 && old(r[m]) == 1 ==> r[m] == 0
    ensures Incremented(old(Value(r[m..])), Value(r[m..]), 256 - m)
  {
    hide Value, Pow2, IsBits;
    ghost var v := Value(r[m..]);
    var k := m;
    CarryStarts(r[m..]);
    while k < 256
      invariant m <= k <= 256 && r[..m] == old(r[..m])
      invariant forall j :: m <= j < k ==> r[j] == 0 && old(r[j]) == 1
      invariant r[k..] == old(r[k..]) && IsBits(r[k..])
      invariant v + 1 == Pow2(k - m) * (Value(r[k..]) + 1)
    {
      ghost var rest, tail := r[k..], r[k + 1..];
      CarryStep(rest, Pow2(k - m), k - m);
      BitsBelow(rest, tail);
      if r[k] == 0 {
        r[k] := 1;
        assert r[k..] == [1] + tail;
        CarryStops(r[m..], [1] + tail, k - m);
        BitsBounded(r[m..]);
        return;
      }
      r[k] := 0;
      assert r[k + 1..] == tail;
      k := k + 1;
    }
    assert r[256..] == [];
    NoDigits();
    ZeroDigits(r[m..]);
  }

  lemma BitsBelow(s: seq<int>, t: seq<int>)
    requires s != [] && t == s[1..] && IsBits(s)
    ensures (s[0] == 0 || s[0] == 1) && IsBits(t) && IsBits([1] + t)
  {
    assert s[0] in s && forall x :: x in t ==> x in s;
  }

  lemma CarryStarts(s: seq<int>)
    ensures Value(s) + 1 == Pow2(0) * (Value(s) + 1)
  {}

  lemma CarryStep(s: seq<int>, p: nat, n: nat)
    requires s != [] && p == Pow2(n)
    ensures s[0] == 1 ==> p * (Value(s) + 1) == Pow2(n + 1) * (Value(s[1..]) + 1)
    ensures s[0] == 0 ==> Value(s) + 1 == Value([1] + s[1..])
  {
    assert ([1] + s[1..])[1..] == s[1..];
    if s[0] == 1 {
      assert p * (2 * (Value(s[1..]) + 1)) == (2 * p) * (Value(s[1..]) + 1);
    }
  }

  lemma CarryStops(s: seq<int>, t: seq<int>, n: nat)
    requires n < |s| && t == s[n..] && t[0] == 1 && (forall j :: 0 <= j < n ==> s[j] == 0) && IsBits(t)
    ensures Value(s) == Pow2(n) * Value(t) && IsBits(s)
  {
    assert s == s[..n] + t;
    ValueConcat(s[..n], t);
    ZeroDigits(s[..n]);
  }

  lemma {:induction false} ZeroDigits(s: seq<int>)
    requires forall j :: 0 <= j < |s| ==> s[j] == 0
    ensures Value(s) == 0 && IsBits(s)
  {
    if s != [] {
      ZeroDigits(s[1..]);
    }
  }

  // ----- one digit -----

  /** The digit at i is odd, and after the first b bits behind it are taken in it is
      below 2^b while b is at most 4, and within 15 from there on; they are zero then. */
  predicate Widening(s: seq<int>, i: nat, b: nat)
    requires i < |s| == 256
  {
    && 1 <= b <= 7 && s[i] % 2 == 1
    && (if b == 1 then s[i] == 1 else if b == 2 then 1 <= s[i] <= 3 else if b == 3 then 1 <= s[i] <= 7
        else if b == 4 then 1 <= s[i] <= 15 else -15 <= s[i] <= 15)
    && (forall j :: i < j < 256 && j < i + b && j < i + 5 ==> s[j] == 0)
    && IsBits(s[i + 1..])
  }

  /** The value from i on is kept up to the fourth bit, and behind it unless a carry was
      lost, with nothing left above.  Below the bound no carry is lost. */
  ghost predicate Keeps(s: seq<int>, i: nat, b: nat, v: int)
    requires i < |s| == 256
  {
    if b <= 4 then Value(s[i..]) == v else Kept(s, i, v)
  }

  ghost predicate Kept(s: seq<int>, i: nat, v: int)
    requires i < |s| == 256
  {
    && (Value(s[i..]) == v || (Value(s[i..]) == v - Pow2(256 - i) && Value(s[i + 1..]) == 0))
    && (v <= Pow2(255 - i) ==> Value(s[i..]) == v)
  }

  /** A bit taken into the digit before it. */
  lemma TakeBit(s: seq<int>, i: nat, b: nat, v: int)
    requires |s| == 256 && i + b < 256 && 1 <= b <= 3 && Widening(s, i, b) && Keeps(s, i, b, v) && s[i + b] == 1
    ensures s[i] + Pow2(b) <= 15
    ensures var t := s[i := s[i] + Pow2(b)][i + b := 0]; Widening(t, i, b + 1) && Keeps(t, i, b + 1, v)
  {
    hide Value, Widening;
    Pow2Values();
    TakenShape(s, i, b);
    TakenValue(s, i, b);
    hide Pow2;
  }

  lemma TakenValue(s: seq<int>, i: nat, b: nat)
    requires |s| == 256 && i + b < 256 && b >= 1 && s[i + b] == 1
    ensures var t := s[i := s[i] + Pow2(b)][i + b := 0]; Value(t[i..]) == Value(s[i..])
  {
    hide Value, Pow2;
    var p := Pow2(b);
    var u := s[i..];
    assert s[i := s[i] + p][i + b := 0][i..] == u[0 := u[0] + p][b := 0];
    UpdateDigit(u, 0, u[0] + p);
    UpdateDigit(u[0 := u[0] + p], b, 0);
    PowZero();
  }

  lemma PowZero()
    ensures Pow2(0) == 1
  {}

  lemma TakenShape(s: seq<int>, i: nat, b: nat)
    requires |s| == 256 && i + b < 256 && b <= 3 && Widening(s, i, b)
    ensures s[i] + Pow2(b) <= 15
    ensures var t := s[i := s[i] + Pow2(b)][i + b := 0]; Widening(t, i, b + 1)
  {
    Pow2Values();
    hide Pow2;
    var t := s[i := s[i] + Pow2(b)][i + b := 0];
    assert forall j :: i + 1 <= j < 256 ==> t[j] == 0 || t[j] == s[j];
    assert forall j :: i + 1 <= j < 256 ==> s[j] in s[i + 1..];
  }

  /** The fourth bit makes the digit negative; what is above it has room for the carry. */
  lemma RoomForCarry(s: seq<int>, i: nat)
    requires |s| == 256 && i + 4 < 256 && Widening(s, i, 4)
    ensures Value(s[i..]) == s[i] + 16 * Value(s[i + 4..]) && IsBits(s[i + 4..])
    ensures Value(s[i..]) <= Pow2(255 - i) ==> Value(s[i + 4..]) + 1 < Pow2(256 - (i + 4))
  {
    hide Value, Pow2;
    var u := s[i + 4..];
    assert s[i..] == [s[i], s[i + 1], s[i + 2], s[i + 3]] + u;
    FourDigits(s[i], s[i + 1], s[i + 2], s[i + 3], u);
    assert forall x :: x in u ==> x in s[i + 1..];
    var n := 251 - i;
    PowSum(4, n);
    PowSum(1, n);
    Pow2Values();
    assert Pow2(n) >= 1;
  }

  lemma SkipBit(s: seq<int>, i: nat, b: nat, v: int)
    requires |s| == 256 && i + b < 256 && b <= 6 && Widening(s, i, b) && Keeps(s, i, b, v) && (s[i + b] == 0 || b >= 5)
    ensures Widening(s, i, b + 1) && Keeps(s, i, b + 1, v)
  {}

  lemma Carried(s: seq<int>, t: seq<int>, i: nat, v: int)
    requires |s| == |t| == 256 && i + 4 < 256 && Widening(s, i, 4) && Keeps(s, i, 4, v) && s[i + 4] == 1
    requires t[i] == s[i] - 16 && (forall j :: i < j < i + 4 ==> t[j] == s[j]) && IsBits(t[i + 4..]) && t[i + 4] == 0
    requires Incremented(Value(s[i + 4..]), Value(t[i + 4..]), 256 - (i + 4))
    ensures Widening(t, i, 5) && Keeps(t, i, 5, v)
  {
    hide Value, Pow2, Widening, Incremented, Kept;
    CarriedShape(s, t, i);
    RoomForCarry(s, i);
    LessSixteen(t, i, v, s[i] - 16, Value(s[i + 4..]));
  }

  lemma CarriedShape(s: seq<int>, t: seq<int>, i: nat)
    requires |s| == |t| == 256 && i + 4 < 256 && Widening(s, i, 4)
    requires t[i] == s[i] - 16 && (forall j :: i < j < i + 4 ==> t[j] == s[j]) && IsBits(t[i + 4..]) && t[i + 4] == 0
    ensures Widening(t, i, 5) && t[i + 1] == t[i + 2] == t[i + 3] == 0
  {
    assert t[i + 1..] == [t[i + 1], t[i + 2], t[i + 3]] + t[i + 4..];
  }

  /** The digit is 16 less, and what is above it one more unless the carry is lost. */
  lemma LessSixteen(t: seq<int>, i: nat, v: int, d: int, above: int)
    requires |t| == 256 && i + 4 < 256 && t[i] == d && t[i + 1] == t[i + 2] == t[i + 3] == 0
    requires Incremented(above, Value(t[i + 4..]), 252 - i) && v == d + 16 + 16 * above
    requires v <= Pow2(255 - i) ==> above + 1 < Pow2(252 - i)
    ensures Kept(t, i, v)
  {
    hide Value, Pow2;
    PowSum(4, 252 - i);
    Pow2Values();
    var u := t[i + 4..];
    assert t[i..] == [t[i], 0, 0, 0] + u;
    FourDigits(t[i], 0, 0, 0, u);
    assert t[i + 1..] == [0, 0, 0] + u;
    ThreeZeros(u);
    assert Pow2(256 - i) == 16 * Pow2(252 - i);
  }

  lemma ThreeZeros(u: seq<int>)
    ensures Value([0, 0, 0] + u) == 8 * Value(u)
  {
    var s := [0, 0, 0] + u;
    assert s[1..][1..] == s[2..] && s[2..][1..] == u;
    assert Value(s[2..]) == 2 * Value(u) && Value(s[1..]) == 2 * Value(s[2..]);
  }

  /** The body of the outer loop of slide for a one at i. */
  method Widen(r: array<i8>, i: nat)
    requires r.Length == 256 && i < 256 && r[i] == 1 && IsBits(r[i + 1..])
    modifies r
    ensures r[..i] == old(r[..i]) && IsBits(r[i + 1..])
    ensures r[i] % 2 == 1 && -15 <= r[i] <= 15 && forall j :: i < j < 256 && j < i + 5 ==> r[j] == 0
    ensures Kept(r[..], i, old(Value(r[i..])))
  {
    hide Value, Pow2, Widening, Keeps, Kept;
    ghost var v := Value(r[i..]);
    WideningStarts(r[..], i, v);
    var b := 1;
    while b <= 6 && i + b < 256
      invariant 1 <= b <= 7 && r[..i] == old(r[..i])
      invariant Widening(r[..], i, b) && Keeps(r[..], i, b, v)
    {
      ghost var s: seq<int> := r[..];
      var p := Pow2(b);
      Choices(s, i, b);
      if r[i + b] != 0 {
        if r[i] + r[i + b] * p <= 15 {
          TakeBit(s, i, b, v);
          r[i] := r[i] + r[i + b] * p;
          r[i + b] := 0;
        } else if r[i] - r[i + b] * p >= -15 {
          RoomForCarry(s, i);
          r[i] := r[i] - r[i + b] * p;
          CarryFrom(r, i + b);
          Carried(s, r[..], i, v);
        } else {
          break;
        }
      } else {
        SkipBit(s, i, b, v);
      }
      b := b + 1;
    }
    WideningEnds(r[..], i, b, v);
  }

  lemma WideningStarts(s: seq<int>, i: nat, v: int)
    requires |s| == 256 && i < 256 && s[i] == 1 && IsBits(s[i + 1..]) && v == Value(s[i..])
    ensures Widening(s, i, 1) && Keeps(s, i, 1, v)
  {}

  /** Which branch the shift by b leads to when the bit is set. */
  lemma Choices(s: seq<int>, i: nat, b: nat)
    requires |s| == 256 && i + b < 256 && b <= 6 && Widening(s, i, b)
    ensures -15 <= s[i] <= 15 && (s[i + b] == 0 || s[i + b] == 1) && 2 <= Pow2(b) <= 64
    ensures s[i] + Pow2(b) <= 15 <==> b <= 3
    ensures s[i] - Pow2(b) >= -15 ==> b <= 4
    ensures b == 4 ==> Pow2(b) == 16 && 1 <= s[i]
  {
    Pow2Values();
    assert Pow2(5) == 32 && Pow2(6) == 64;
    assert s[i + 1..][b - 1] == s[i + b] && s[i + 1..][b - 1] in s[i + 1..];
  }

  lemma WideningEnds(s: seq<int>, i: nat, b: nat, v: int)
    requires |s| == 256 && i < 256 && Widening(s, i, b) && Keeps(s, i, b, v) && (b >= 5 || i + b >= 256)
    ensures IsBits(s[i + 1..]) && s[i] % 2 == 1 && -15 <= s[i] <= 15
    ensures forall j :: i < j < 256 && j < i + 5 ==> s[j] == 0
    ensures Kept(s, i, v)
  {}

  // ----- the whole recoding -----

  /** Every digit before i is zero or odd and within 15, with four zeros behind it. */
  predicate Recoded(s: seq<int>, i: nat)
    requires i <= |s|
  {
    forall j :: 0 <= j < i && s[j] != 0 ==>
      s[j] % 2 == 1 && -15 <= s[j] <= 15 && forall k :: j < k < |s| && k < j + 5 ==> s[k] == 0
  }

  /** What is left to recode fits in the digits that are left, with one to spare. */
  ghost predicate Left(s: seq<int>, i: nat, a: int)
    requires i <= |s| == 256
  {
    Value(s) == a && IsBits(s[i..]) && (i <= 255 ==> Value(s[i..]) <= Pow2(255 - i))
  }

  lemma LeftStarts(s: seq<int>, a: int)
    requires |s| == 256 && IsBits(s) && Value(s) == a < Pow2(255)
    ensures Left(s, 0, a)
  {
    assert s[0..] == s;
  }

  lemma LeftSkips(s: seq<int>, i: nat, a: int)
    requires |s| == 256 && i < 256 && s[i] == 0 && Left(s, i, a)
    ensures Left(s, i + 1, a)
  {
    assert s[i..][1..] == s[i + 1..];
    BitsBelow(s[i..], s[i + 1..]);
    assert Value(s[i..]) == 2 * Value(s[i + 1..]);
    if i + 1 <= 255 {
      assert Pow2(255 - i) == 2 * Pow2(255 - (i + 1));
    }
  }

  lemma LeftWidens(s: seq<int>, t: seq<int>, i: nat, a: int)
    requires |s| == |t| == 256 && i < 256 && Left(s, i, a) && t[..i] == s[..i]
    requires Value(t[i..]) == Value(s[i..]) && -15 <= t[i] <= 15 && t[i] % 2 == 1 && IsBits(t[i + 1..])
    requires forall j :: i < j < 256 && j < i + 5 ==> t[j] == 0
    ensures Left(t, i + 1, a)
  {
    assert s == s[..i] + s[i..] && t == t[..i] + t[i..];
    ValueConcat(s[..i], s[i..]);
    ValueConcat(t[..i], t[i..]);
    assert t[i..][1..] == t[i + 1..];
    assert Value(t[i..]) == t[i] + 2 * Value(t[i + 1..]);
    if i + 5 <= 255 {
      FarBits(t, i);
    } else if i < 255 {
      NearBits(t, i);
    }
  }

  /** With five or more places to go, four of them zero. */
  lemma FarBits(t: seq<int>, i: nat)
    requires |t| == 256 && i + 5 <= 255 && forall j :: i < j < 256 && j < i + 5 ==> t[j] == 0
    requires -15 <= t[i] <= 15 && t[i] + 2 * Value(t[i + 1..]) <= Pow2(255 - i)
    ensures Value(t[i + 1..]) <= Pow2(255 - (i + 1))
  {
    hide Value, Pow2;
    assert t[i + 1..] == [t[i + 1], t[i + 2], t[i + 3], t[i + 4]] + t[i + 5..];
    FourDigits(t[i + 1], t[i + 2], t[i + 3], t[i + 4], t[i + 5..]);
    PowSum(5, 250 - i);
    PowSum(4, 250 - i);
    Pow2Values();
    assert Pow2(255 - i) == 32 * Pow2(250 - i) && Pow2(254 - i) == 16 * Pow2(250 - i);
  }

  /** At the end of the scalar nothing is left. */
  lemma NearBits(t: seq<int>, i: nat)
    requires |t| == 256 && 251 <= i < 255 && IsBits(t[i + 1..]) && forall j :: i < j < 256 && j < i + 5 ==> t[j] == 0
    ensures Value(t[i + 1..]) <= Pow2(255 - (i + 1))
  {
    ZeroDigits(t[i + 1..]);
  }

  lemma RecodedMore(s: seq<int>, t: seq<int>, i: nat)
    requires |s| == |t| && i < |s| && Recoded(s, i) && t[..i] == s[..i] && s[i] != 0
    requires t[i] % 2 == 1 && -15 <= t[i] <= 15 && forall j :: i < j < |s| && j < i + 5 ==> t[j] == 0
    ensures Recoded(t, i + 1)
  {
    forall j | 0 <= j < i + 1 && t[j] != 0
      ensures t[j] % 2 == 1 && -15 <= t[j] <= 15 && forall k :: j < k < |t| && k < j + 5 ==> t[k] == 0
    {
      if j < i {
        assert s[j] == t[j];
        forall k | j < k < |t| && k < j + 5
          ensures t[k] == 0
        {
          assert s[k] == 0;
          assert i >= j + 5;
        }
      }
    }
  }

  lemma RecodedStarts(s: seq<int>)
    ensures Recoded(s, 0)
  {}

  lemma RecodedSkips(s: seq<int>, i: nat)
    requires i < |s| && Recoded(s, i) && s[i] == 0
    ensures Recoded(s, i + 1)
  {}

  lemma LeftMeans(s: seq<int>, i: nat, a: int)
    requires i <= |s| == 256 && Left(s, i, a)
    ensures Value(s) == a && (i <= 255 ==> Value(s[i..]) <= Pow2(255 - i))
  {}

  /** The bits of the scalar, one to a digit. */
  method Spread(r: array<i8>, a: seq<u8>)
    requires r.Length == 256 && |a| == 32
    modifies r
    ensures r[..] == Bits(a)
  {
    hide BitOf, Bits;
    for i := 0 to 256
      invariant r[..i] == Bits(a)[..i]
    {
      BitsAt(a, i);
      IsABit(a[i / 8], i % 8);
      r[i] := BitOf(a[i / 8], i % 8);
    }
  }

  lemma IsABit(x: u8, i: nat)
    ensures 0 <= BitOf(x, i) <= 1
  {}

  /** The value so far: the scalar, or 2^256 less with nothing left to recode. */
  ghost predicate Lost(s: seq<int>, i: nat, a: int)
    requires i <= |s| == 256
  {
    Value(s) == a || (Value(s) == a - Pow2(256) && Value(s[i..]) == 0)
  }

  lemma LostStarts(s: seq<int>, a: int)
    requires |s| == 256 && Value(s) == a
    ensures Lost(s, 0, a)
  {}

  lemma LostSkips(s: seq<int>, i: nat, a: int)
    requires |s| == 256 && i < 256 && s[i] == 0 && Lost(s, i, a)
    ensures Lost(s, i + 1, a)
  {
    assert s[i..][1..] == s[i + 1..];
    assert Value(s[i..]) == 2 * Value(s[i + 1..]);
  }

  lemma LostWidens(s: seq<int>, t: seq<int>, i: nat, a: int)
    requires |s| == |t| == 256 && i < 256 && s[i] == 1 && IsBits(s[i + 1..]) && Lost(s, i, a) && t[..i] == s[..i]
    requires Kept(t, i, Value(s[i..]))
    ensures Lost(t, i + 1, a)
  {
    hide Pow2;
    assert s == s[..i] + s[i..] && t == t[..i] + t[i..];
    ValueConcat(s[..i], s[i..]);
    ValueConcat(t[..i], t[i..]);
    PowSum(i, 256 - i);
    assert s[i..][1..] == s[i + 1..];
    BitsBounded(s[i + 1..]);
    assert Value(s[i..]) == 1 + 2 * Value(s[i + 1..]);
    Distribute(Value(s[i..]), Pow2(256 - i), Pow2(i));
    hide Value;
  }

  lemma LostMeans(s: seq<int>, a: int)
    requires |s| == 256 && Lost(s, 256, a)
    ensures Value(s) == a || Value(s) == a - Pow2(256)
  {}

  /** The digits stand for the scalar, unless a carry falls off the end, which takes away
      2^256.  Below 2^255 none does. */
  method Slide(r: array<i8>, a: seq<u8>)
    requires r.Length == 256 && |a| == 32
    modifies r
    ensures Recoded(r[..], 256)
    ensures Value(r[..]) == LittleEndian(a) || Value(r[..]) == LittleEndian(a) - Pow2(256)
    ensures LittleEndian(a) < Pow2(255) ==> Value(r[..]) == LittleEndian(a)
  {
    hide Value, Pow2, Bits, Left, Recoded, IsBits, LittleEndian, Pow256, Lost, Kept;
    Spread(r, a);
    BitsValue(a);
    ghost var v, fits := LittleEndian(a), LittleEndian(a) < Pow2(255);
    RecodedStarts(r[..]);
    LostStarts(r[..], v);
    if fits {
      LeftStarts(r[..], v);
    }
    assert r[0..] == r[..];
    for i := 0 to 256
      invariant Recoded(r[..], i) && IsBits(r[i..]) && Lost(r[..], i, v)
      invariant fits ==> Left(r[..], i, v)
    {
      ghost var s: seq<int> := r[..];
      assert s[i..] == r[i..] && s[i + 1..] == r[i + 1..];
      BitsBelow(s[i..], s[i + 1..]);
      if r[i] != 0 {
        Widen(r, i);
        RecodedMore(s, r[..], i);
        LostWidens(s, r[..], i, v);
        if fits {
          LeftMeans(s, i, v);
          KeptBelow(r[..], i, Value(s[i..]));
          LeftWidens(s, r[..], i, v);
        }
      } else {
        RecodedSkips(s, i);
        LostSkips(s, i, v);
        if fits {
          LeftSkips(s, i, v);
        }
      }
    }
    LostMeans(r[..], v);
    if fits {
      LeftMeans(r[..], 256, v);
    }
  }

  lemma KeptBelow(s: seq<int>, i: nat, v: int)
    requires |s| == 256 && i < 256 && Kept(s, i, v) && v <= Pow2(255 - i)
    ensures Value(s[i..]) == v
  {}
}
