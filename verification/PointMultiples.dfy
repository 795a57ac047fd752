/** The two multiplication schedules of ed25519.cpp over any abelian group. */
module PointMultiples {
  import opened MachineInts
  import opened Bytes
  import opened PointGroup
  import opened SlidingWindow
  import opened Radix16

  // ----- ge_double_scalarmult_vartime -----

  /** p, 3 p, 5 p, ... */
  ghost predicate OddMultiples<G(!new)>(g: Group<G>, t: seq<G>, p: G) {
    forall i :: 0 <= i < |t| ==> t[i] == Mul(g, 2 * i + 1, p)
  }

  lemma NextOddMultiple<G(!new)>(g: Group<G>, t: seq<G>, p: G)
    requires Abelian(g) && OddMultiples(g, t, p) && t != []
    ensures OddMultiples(g, t + [g.add(g.add(p, p), t[|t| - 1])], p)
  {
    hide Abelian, Mul;
    MulOne(g, p);
    MulDouble(g, 1, p);
    MulSum(g, 2, 2 * |t| - 1, p);
    assert t[|t| - 1] == Mul(g, 2 * |t| - 1, p);
  }

  /** p, 3 p, ..., 15 p by adding 2 p. */
  method OddTable<G(!new)>(g: Group<G>, p: G) returns (t: seq<G>)
    requires Abelian(g)
    ensures |t| == 8 && OddMultiples(g, t, p)
  {
    hide Abelian, Mul, OddMultiples;
    OddMultiplesOne(g, p);
    t := [p];
    var p2 := g.add(p, p);
    NextOddMultiple(g, t, p);
    t := t + [g.add(p2, t[0])];
    NextOddMultiple(g, t, p);
    t := t + [g.add(p2, t[1])];
    NextOddMultiple(g, t, p);
    t := t + [g.add(p2, t[2])];
    NextOddMultiple(g, t, p);
    t := t + [g.add(p2, t[3])];
    NextOddMultiple(g, t, p);
    t := t + [g.add(p2, t[4])];
    NextOddMultiple(g, t, p);
    t := t + [g.add(p2, t[5])];
    NextOddMultiple(g, t, p);
    t := t + [g.add(p2, t[6])];
  }

  lemma OddMultiplesOne<G(!new)>(g: Group<G>, p: G)
    requires Abelian(g)
    ensures OddMultiples(g, [p], p)
  {
    hide Abelian, Mul;
    MulOne(g, p);
  }

  /** x p + y q */
  ghost function Sum<G>(g: Group<G>, x: int, p: G, y: int, q: G): G {
    g.add(Mul(g, x, p), Mul(g, y, q))
  }

  lemma DoubleSum<G(!new)>(g: Group<G>, x: int, p: G, y: int, q: G)
    requires Abelian(g)
    ensures g.add(Sum(g, x, p, y, q), Sum(g, x, p, y, q)) == Sum(g, 2 * x, p, 2 * y, q)
  {
    hide Abelian, Mul;
    Exchange(g, Mul(g, x, p), Mul(g, y, q), Mul(g, x, p), Mul(g, y, q));
    MulDouble(g, x, p);
    MulDouble(g, y, q);
  }

  lemma AddFirst<G(!new)>(g: Group<G>, x: int, p: G, y: int, q: G, d: int)
    requires Abelian(g)
    ensures g.add(Sum(g, x, p, y, q), Mul(g, d, p)) == Sum(g, x + d, p, y, q)
  {
    hide Abelian, Mul;
    var a, b, c := Mul(g, x, p), Mul(g, y, q), Mul(g, d, p);
    Exchange(g, a, b, c, g.zero);
    Unit(g, c);
    Unit(g, b);
    MulSum(g, x, d, p);
  }

  lemma AddSecond<G(!new)>(g: Group<G>, x: int, p: G, y: int, q: G, d: int)
    requires Abelian(g)
    ensures g.add(Sum(g, x, p, y, q), Mul(g, d, q)) == Sum(g, x, p, y + d, q)
  {
    hide Abelian, Mul;
    Associates(g, Mul(g, x, p), Mul(g, y, q), Mul(g, d, q));
    MulSum(g, y, d, q);
  }

  lemma NoSum<G(!new)>(g: Group<G>, p: G, q: G)
    requires Abelian(g)
    ensures Sum(g, 0, p, 0, q) == g.zero
  {
    Unit(g, g.zero);
  }

  /** One digit: the odd multiple is added, or its negative, or nothing. */
  method AddDigit<G(!new)>(g: Group<G>, u: G, t: seq<G>, d: i8, ghost p: G) returns (r: G)
    requires Abelian(g) && |t| == 8 && OddMultiples(g, t, p)
    requires d == 0 || (d % 2 == 1 && -15 <= d <= 15)
    ensures r == g.add(u, Mul(g, d, p))
  {
    hide Abelian;
    if d > 0 {
      r := g.add(u, t[d / 2]);
    } else if d < 0 {
      r := g.add(u, g.neg(t[(-d) / 2]));
      MulNeg(g, d, p);
      MulNeg(g, -d, p);
    } else {
      Unit(g, u);
      r := u;
    }
  }

  /** What the main loop has made of the digits from i on. */
  ghost function Partial<G>(g: Group<G>, a: seq<int>, p: G, b: seq<int>, q: G, i: nat): G
    requires i <= |a| == |b|
  {
    Sum(g, Value(a[i..]), p, Value(b[i..]), q)
  }

  lemma PartialStep<G(!new)>(g: Group<G>, a: seq<int>, p: G, b: seq<int>, q: G, i: nat)
    requires Abelian(g) && i < |a| == |b|
    ensures var r := Partial(g, a, p, b, q, i + 1);
      Partial(g, a, p, b, q, i) == g.add(g.add(g.add(r, r), Mul(g, a[i], p)), Mul(g, b[i], q))
  {
    hide Abelian, Mul, Sum;
    var x, y := Value(a[i + 1..]), Value(b[i + 1..]);
    assert a[i..][1..] == a[i + 1..] && b[i..][1..] == b[i + 1..];
    DoubleSum(g, x, p, y, q);
    AddFirst(g, 2 * x, p, 2 * y, q, a[i]);
    AddSecond(g, 2 * x + a[i], p, 2 * y, q, b[i]);
  }

  /** The place of the first digit from the top that is not zero in both, or -1. */
  method TopDigit(a: array<i8>, b: array<i8>) returns (i: int)
    requires a.Length == b.Length == 256
    ensures -1 <= i <= 255 && forall j :: i < j < 256 ==> a[j] == 0 && b[j] == 0
  {
    i := 255;
    while i >= 0
      invariant -1 <= i <= 255
      invariant forall j :: i < j < 256 ==> a[j] == 0 && b[j] == 0
    {
      if a[i] != 0 || b[i] != 0 {
        break;
      }
      i := i - 1;
    }
  }

  /** The main loop, from the digits of two recoded scalars. */
  method Accumulate<G(!new)>(g: Group<G>, a: array<i8>, Ai: seq<G>, b: array<i8>, Bi: seq<G>, ghost A: G, ghost B: G) returns (r: G)
    requires Abelian(g) && |Ai| == |Bi| == 8 && OddMultiples(g, Ai, A) && OddMultiples(g, Bi, B)
    requires a.Length == b.Length == 256 && Recoded(a[..], 256) && Recoded(b[..], 256)
    ensures r == Partial(g, a[..], A, b[..], B, 0)
  {
    hide Abelian, Mul, OddMultiples, Recoded, Value, Partial;
    r := g.zero;
    var i := TopDigit(a, b);
    NothingYet(g, a[..], A, b[..], B, i + 1);
    while i >= 0
      invariant -1 <= i <= 255
      invariant r == Partial(g, a[..], A, b[..], B, i + 1)
    {
      DigitAt(a[..], i);
      DigitAt(b[..], i);
      PartialStep(g, a[..], A, b[..], B, i);
      var u := g.add(r, r);
      u := AddDigit(g, u, Ai, a[i], A);
      r := AddDigit(g, u, Bi, b[i], B);
      i := i - 1;
    }
  }

  /** a A + b B for scalars below 2^255. */
  method DoubleScalarmult<G(!new)>(g: Group<G>, a: seq<u8>, A: G, b: seq<u8>, Bi: seq<G>, ghost B: G) returns (r: G)
    requires Abelian(g) && |Bi| == 8 && OddMultiples(g, Bi, B) && |a| == 32 && |b| == 32
    ensures LittleEndian(a) < Pow2(255) && LittleEndian(b) < Pow2(255) ==>
      r == g.add(Mul(g, LittleEndian(a), A), Mul(g, LittleEndian(b), B))
  {
    hide Abelian, Mul, OddMultiples, LittleEndian, Pow256, Pow2, Recoded, Value;
    var aslide, bslide := new i8[256], new i8[256];
    Slide(aslide, a);
    Slide(bslide, b);
    var Ai := OddTable(g, A);
    r := Accumulate(g, aslide, Ai, bslide, Bi, A, B);
    assert aslide[..][0..] == aslide[..] && bslide[..][0..] == bslide[..];
  }

  lemma DigitAt(s: seq<int>, i: nat)
    requires |s| == 256 && i < 256 && Recoded(s, 256)
    ensures s[i] == 0 || (s[i] % 2 == 1 && -15 <= s[i] <= 15)
  {}

  lemma NothingYet<G(!new)>(g: Group<G>, s: seq<int>, p: G, t: seq<int>, q: G, i: nat)
    requires Abelian(g) && i <= |s| == |t| && forall j :: i <= j < |s| ==> s[j] == 0 && t[j] == 0
    ensures Partial(g, s, p, t, q, i) == g.zero
  {
    hide Abelian;
    ZeroDigits(s[i..]);
    ZeroDigits(t[i..]);
    NoSum(g, p, q);
  }

  // ----- ge_scalarmult_base -----

  /** base[i][j] = (j + 1) 256^i B */
  ghost predicate BaseTable<G(!new)>(g: Group<G>, base: seq<seq<G>>, B: G) {
    && |base| == 32
    && (forall i :: 0 <= i < 32 ==> |base[i]| == 8)
    && (forall i, j :: 0 <= i < 32 && 0 <= j < 8 ==> base[i][j] == Mul(g, (j + 1) * Pow256(i), B))
  }

  /** fe_cmov by value: the new one when the flag is set. */
  function Cmov<G>(t: G, u: G, flag: bool): G { if flag then u else t }

  /** b 256^pos B, by going through the whole row of the table. */
  method Select<G(!new)>(g: Group<G>, base: seq<seq<G>>, pos: nat, b: i8, ghost B: G) returns (t: G)
    requires Abelian(g) && BaseTable(g, base, B) && pos < 32 && -8 <= b <= 8
    ensures t == Mul(g, b * Pow256(pos), B)
  {
    hide Abelian, Pow256;
    var babs := if b < 0 then -b else b;
    t := g.zero;
    t := Cmov(t, base[pos][0], babs == 1);
    t := Cmov(t, base[pos][1], babs == 2);
    t := Cmov(t, base[pos][2], babs == 3);
    t := Cmov(t, base[pos][3], babs == 4);
    t := Cmov(t, base[pos][4], babs == 5);
    t := Cmov(t, base[pos][5], babs == 6);
    t := Cmov(t, base[pos][6], babs == 7);
    t := Cmov(t, base[pos][7], babs == 8);
    assert t == Mul(g, babs * Pow256(pos), B);
    MulNeg(g, babs * Pow256(pos), B);
    assert -(babs * Pow256(pos)) == (-babs) * Pow256(pos);
    t := Cmov(t, g.neg(t), b < 0);
  }

  /** One pass over every other digit, added to what is there. */
  method Pass<G(!new)>(g: Group<G>, base: seq<seq<G>>, e: array<i8>, start: nat, h0: G, ghost B: G) returns (h: G)
    requires Abelian(g) && BaseTable(g, base, B) && e.Length == 64 && start <= 1
    requires forall j :: 0 <= j < 64 ==> -8 <= e[j] <= 8
    ensures h == g.add(h0, Mul(g, EveryOther(e[..], start, 32), B))
  {
    hide Abelian, Mul, BaseTable, Pow256;
    h := h0;
    Unit(g, h0);
    MulOne(g, B);
    var i := start;
    while i < 64
      invariant start <= i <= 64 + start && (i - start) % 2 == 0
      invariant h == g.add(h0, Mul(g, EveryOther(e[..], start, (i - start) / 2), B))
    {
      ghost var k := (i - start) / 2;
      var t := Select(g, base, i / 2, e[i], B);
      Associates(g, h0, Mul(g, EveryOther(e[..], start, k), B), t);
      MulSum(g, EveryOther(e[..], start, k), e[i] * Pow256(k), B);
      h := g.add(h, t);
      i := i + 2;
    }
  }

  /** Four doublings. */
  method TimesSixteen<G(!new)>(g: Group<G>, p: G, ghost n: int, ghost B: G) returns (h: G)
    requires Abelian(g) && p == Mul(g, n, B)
    ensures h == Mul(g, 16 * n, B)
  {
    hide Abelian, Mul;
    MulDouble(g, n, B);
    h := g.add(p, p);
    MulDouble(g, 2 * n, B);
    h := g.add(h, h);
    MulDouble(g, 4 * n, B);
    h := g.add(h, h);
    MulDouble(g, 8 * n, B);
    h := g.add(h, h);
  }

  /** a B for scalars whose last byte is at most 127. */
  method ScalarmultBase<G(!new)>(g: Group<G>, base: seq<seq<G>>, a: seq<u8>, ghost B: G) returns (h: G)
    requires Abelian(g) && BaseTable(g, base, B) && |a| == 32 && a[31] <= 127
    ensures h == Mul(g, LittleEndian(a), B)
  {
    hide Abelian, Mul, BaseTable, LittleEndian, Pow256, EveryOther, Value16;
    var e := new i8[64];
    Recode(e, a);
    h := Pass(g, base, e, 1, g.zero, B);
    ghost var odd, even := EveryOther(e[..], 1, 32), EveryOther(e[..], 0, 32);
    Unit(g, Mul(g, odd, B));
    h := TimesSixteen(g, h, odd, B);
    h := Pass(g, base, e, 0, h, B);
    MulSum(g, 16 * odd, even, B);
    EvenAndOdd(e[..], 32);
    assert e[..][..64] == e[..];
  }
}
