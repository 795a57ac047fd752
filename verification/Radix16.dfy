/** The recoding of ge_scalarmult_base: 64 signed digits in base 16. */
module Radix16 {
  import opened MachineInts
  import opened Bytes

  /** s[0] + 16 s[1] + 256 s[2] + ... */
  function Value16(s: seq<int>): int {
    if s == [] then 0 else s[0] + 16 * Value16(s[1..])
  }

  function Pow16(n: nat): (p: nat)
    ensures p >= 1
  {
    if n == 0 then 1 else 16 * Pow16(n - 1)
  }

  lemma {:induction false} Value16Concat(a: seq<int>, b: seq<int>)
    ensures Value16(a + b) == Value16(a) + Pow16(|a|) * Value16(b)
  {
    if a == [] {
      assert a + b == b;
    } else {
      assert (a + b)[1..] == a[1..] + b;
      Value16Concat(a[1..], b);
      Regroup(a[0], 16, Value16(a[1..]), Pow16(|a| - 1), Value16(b));
    }
  }

  lemma {:induction false} UpdateDigit(s: seq<int>, i: nat, v: int)
    requires i < |s|
    ensures Value16(s[i := v]) == Value16(s) + Pow16(i) * (v - s[i])
  {
    if i == 0 {
      assert s[i := v][1..] == s[1..];
    } else {
      assert s[i := v][1..] == s[1..][i - 1 := v];
      UpdateDigit(s[1..], i - 1, v);
      Regroup(0, 16, 0, Pow16(i - 1), v - s[i]);
    }
  }

  function Nibbles(a: seq<u8>): (s: seq<int>)
    ensures |s| == 2 * |a|
  {
    if a == [] then [] else [a[0] % 16, a[0] / 16] + Nibbles(a[1..])
  }

  lemma {:induction false} NibblesAt(a: seq<u8>, i: nat)
    requires i < |a|
    ensures Nibbles(a)[2 * i] == a[i] % 16 && Nibbles(a)[2 * i + 1] == a[i] / 16
  {
    if i > 0 {
      NibblesAt(a[1..], i - 1);
    }
  }

  lemma {:induction false} NibblesValue(a: seq<u8>)
    ensures Value16(Nibbles(a)) == LittleEndian(a)
    ensures forall x :: x in Nibbles(a) ==> 0 <= x <= 15
  {
    if a != [] {
      NibblesValue(a[1..]);
      var s := Nibbles(a);
      assert s[1..][1..] == Nibbles(a[1..]);
      assert Value16(s) == a[0] % 16 + 16 * Value16(s[1..]);
    }
  }

  /** The digits before i are done, the ones from i on are nibbles, the last at most 7. */
  predicate Carried(s: seq<int>, i: nat, carry: int)
    requires |s| == 64
  {
    && 0 <= carry <= 1 && 0 <= s[63] <= 7
    && forall j :: 0 <= j < 63 ==> if j < i then -8 <= s[j] <= 7 else 0 <= s[j] <= 15
  }

  /** Every byte gives two digits, the low half first. */
  method Split(e: array<i8>, a: seq<u8>)
    requires e.Length == 64 && |a| == 32
    modifies e
    ensures e[..] == Nibbles(a)
  {
    hide Nibbles;
    for i := 0 to 32
      invariant e[..2 * i] == Nibbles(a)[..2 * i]
    {
      NibblesAt(a, i);
      e[2 * i] := a[i] % 16;
      e[2 * i + 1] := a[i] / 16;
    }
    assert e[..64] == e[..] == Nibbles(a);
  }

  /** A digit takes the carry from below and keeps what is nearest to zero of it. */
  method CarryDigit(e: array<i8>, i: nat, carry0: i8) returns (carry: i8)
    requires e.Length == 64 && i < 63 && Carried(e[..], i, carry0)
    modifies e
    ensures Carried(e[..], i + 1, carry)
    ensures Value16(e[..]) + Pow16(i + 1) * carry == old(Value16(e[..])) + Pow16(i) * carry0
  {
    hide Value16, Pow16;
    ghost var s: seq<int> := e[..];
    var x: i8 := e[i] + carry0;
    carry := (x + 8) / 16;
    UpdateDigit(s, i, x - 16 * carry);
    CarryOn(Pow16(i), i, s[i], carry0, carry);
    e[i] := x - 16 * carry;
    assert e[..] == s[i := x - 16 * carry];
  }

  /** Signed digits from -8 to 8 that stand for the scalar. */
  method Recode(e: array<i8>, a: seq<u8>)
    requires e.Length == 64 && |a| == 32 && a[31] <= 127
    modifies e
    ensures Value16(e[..]) == LittleEndian(a)
    ensures forall j :: 0 <= j < 64 ==> -8 <= e[j] <= 8
  {
    hide Value16, Pow16, Nibbles, LittleEndian, Pow256;
    Split(e, a);
    NibblesValue(a);
    NibblesAt(a, 31);
    NibblesCarried(e[..]);
    PowZero();
    var carry: i8 := 0;
    for i := 0 to 63
      invariant Carried(e[..], i, carry)
      invariant Value16(e[..]) + Pow16(i) * carry == LittleEndian(a)
    {
      carry := CarryDigit(e, i, carry);
    }
    ghost var s: seq<int> := e[..];
    UpdateDigit(s, 63, s[63] + carry);
    e[63] := e[63] + carry;
    assert e[..] == s[63 := s[63] + carry];
  }

  lemma NibblesCarried(s: seq<int>)
    requires |s| == 64 && (forall x :: x in s ==> 0 <= x <= 15) && s[63] <= 7
    ensures Carried(s, 0, 0)
  {
    assert forall j :: 0 <= j < 64 ==> s[j] in s;
  }

  lemma PowZero()
    ensures Pow16(0) == 1
  {}

  lemma CarryOn(p: int, i: nat, d: int, carry: int, c: int)
    requires p == Pow16(i)
    ensures p * (d + carry - 16 * c - d) + Pow16(i + 1) * c == p * carry
  {}

  /** Every other digit from the start on, in base 256. */
  function EveryOther(s: seq<int>, start: nat, k: nat): int
    requires start <= 1 && 2 * k <= |s|
  {
    if k == 0 then 0 else EveryOther(s, start, k - 1) + s[2 * (k - 1) + start] * Pow256(k - 1)
  }

  lemma {:induction false} PowPairs(k: nat)
    ensures Pow16(2 * k) == Pow256(k)
  {
    if k > 0 {
      PowPairs(k - 1);
      assert Pow16(2 * k) == 16 * Pow16(2 * k - 1) && Pow16(2 * k - 1) == 16 * Pow16(2 * k - 2);
    }
  }

  /** The even digits plus 16 times the odd ones. */
  lemma {:induction false} EvenAndOdd(s: seq<int>, k: nat)
    requires 2 * k <= |s|
    ensures Value16(s[..2 * k]) == EveryOther(s, 0, k) + 16 * EveryOther(s, 1, k)
  {
    hide Pow256, Pow16;
    if k > 0 {
      EvenAndOdd(s, k - 1);
      PowPairs(k - 1);
      var x, y := s[2 * k - 2], s[2 * k - 1];
      assert s[..2 * k] == s[..2 * (k - 1)] + [x, y];
      Value16Concat(s[..2 * (k - 1)], [x, y]);
      TwoDigits(x, y);
      Pair(Pow256(k - 1), x, y);
    }
  }

  lemma TwoDigits(x: int, y: int)
    ensures Value16([x, y]) == x + 16 * y
  {
    assert [x, y][1..] == [y] && [y][1..] == [];
    assert Value16([y]) == y;
  }

  lemma Pair(p: int, x: int, y: int)
    ensures p * (x + 16 * y) == x * p + 16 * (y * p)
  {}
}
