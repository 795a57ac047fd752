/** UTF-8 as the label traversal reads it, and as RFC 3629 writes it. */
module Utf8 {
  import opened MachineInts

  /** The number of bytes that a first byte announces.  The traversal takes a stray
      continuation byte for the head of two bytes and anything from 0xF0 for one of four. */
  function Announced(head: u8): nat {
    if head < 0x80 then 1 else if head < 0xE0 then 2 else if head < 0xF0 then 3 else 4
  }

  /** The bytes taken, fewer than announced at the end of the text. */
  function Width(b: seq<u8>): (w: nat)
    requires b != []
    ensures 1 <= w <= |b|
  {
    if Announced(b[0]) <= |b| then Announced(b[0]) else |b|
  }

  /** The bits of the first byte that belong to the code point. */
  function HeadBits(head: u8): nat {
    if head < 0x80 then head else if head < 0xE0 then head % 32 else if head < 0xF0 then head % 16 else head % 8
  }

  function Fold(v: nat, tail: seq<u8>): nat
    decreases |tail|
  {
    if tail == [] then v else Fold(v * 64 + tail[0] % 64, tail[1..])
  }

  function First(b: seq<u8>): nat
    requires b != []
  {
    Fold(HeadBits(b[0]), b[1..Width(b)])
  }

  /** The code points up to the first zero one. */
  function Points(b: seq<u8>): seq<nat>
    decreases |b|
  {
    if b == [] || First(b) == 0 then [] else [First(b)] + Points(b[Width(b)..])
  }

  /** The traversal stays inside the text: it meets no head as the last byte. */
  predicate Readable(b: seq<u8>)
    decreases |b|
  {
    b != [] ==> (|b| == 1 ==> b[0] < 0x80) && (First(b) != 0 ==> Readable(b[Width(b)..]))
  }

  /** What the traversal reads: when it meets a head as the last byte, it goes on to the
      byte behind the text, whatever that is. */
  function Reads(b: seq<u8>, beyond: u8): seq<u8> {
    if Readable(b) then b else b + [beyond]
  }

  predicate IsLoneHead(b: seq<u8>) { |b| == 1 && b[0] >= 0x80 }

  /** One step of the traversal. */
  lemma Taken(b: seq<u8>, beyond: u8)
    requires b != []
    ensures Reads(b, beyond) != []
    ensures var r := Reads(b, beyond); var rest := if IsLoneHead(b) then [] else Reads(b[Width(b)..], beyond);
      && First(r) == Fold(HeadBits(b[0]), (b + [beyond])[1..if IsLoneHead(b) then 2 else Width(b)])
      && Points(r) == if First(r) == 0 then [] else [First(r)] + Points(rest)
    ensures b[0] < 0x80 ==> Width(b) == 1 && First(Reads(b, beyond)) == b[0]
    ensures b[0] >= 0x80 && !IsLoneHead(b) ==> Width(b) >= 2
  {
    hide Fold, Readable, Points, First;
    FoldNothing(HeadBits(b[0]));
    if IsLoneHead(b) {
      LoneHead(b, beyond);
    } else {
      assert (b + [beyond])[1..Width(b)] == b[1..Width(b)];
      assert b[1..1] == [];
      FirstIs(b);
      if Readable(b) {
        ReadableStep(b);
      } else {
        UnreadableStep(b, beyond);
      }
    }
  }

  lemma FirstIs(b: seq<u8>)
    requires b != []
    ensures First(b) == Fold(HeadBits(b[0]), b[1..Width(b)])
    ensures Points(b) == if First(b) == 0 then [] else [First(b)] + Points(b[Width(b)..])
  {}

  lemma LoneHead(b: seq<u8>, beyond: u8)
    requires IsLoneHead(b)
    ensures Reads(b, beyond) == b + [beyond] && Width(b + [beyond]) == 2
    ensures First(b + [beyond]) == Fold(HeadBits(b[0]), (b + [beyond])[1..2])
    ensures Points(b + [beyond]) == if First(b + [beyond]) == 0 then [] else [First(b + [beyond])] + Points([])
  {
    hide Fold;
    FirstIs(b + [beyond]);
    assert (b + [beyond])[2..] == [];
  }

  lemma ReadableStep(b: seq<u8>)
    requires b != [] && Readable(b)
    ensures First(b) != 0 ==> Readable(b[Width(b)..])
  {}

  /** A later head is the last byte: this character ends before it. */
  lemma UnreadableStep(b: seq<u8>, beyond: u8)
    requires b != [] && !IsLoneHead(b) && !Readable(b)
    ensures First(b) != 0 && First(b + [beyond]) == First(b) && !Readable(b[Width(b)..])
    ensures Points(b + [beyond]) == [First(b)] + Points(b[Width(b)..] + [beyond])
  {
    hide Fold;
    assert Width(b) < |b| && Width(b + [beyond]) == Width(b);
    assert (b + [beyond])[1..Width(b)] == b[1..Width(b)];
    assert (b + [beyond])[Width(b)..] == b[Width(b)..] + [beyond];
  }

  /** One continuation byte. */
  lemma FoldStep(v: nat, text: seq<u8>, i: nat, j: nat)
    requires i < j <= |text|
    ensures Fold(v, text[i..j]) == Fold(v * 64 + text[i] % 64, text[i + 1..j])
  {
    assert text[i..j][1..] == text[i + 1..j];
  }

  lemma FoldNone(v: nat, text: seq<u8>, i: nat)
    requires i <= |text|
    ensures Fold(v, text[i..i]) == v
  {}

  type CodePoint = cp: nat | cp < 0x110000

  /** Section 3 of RFC 3629. */
  function Encode(cp: CodePoint): (b: seq<u8>)
    ensures 1 <= |b| <= 4
  {
    if cp < 0x80 then [cp]
    else if cp < 0x800 then [0xC0 + cp / 64, 0x80 + cp % 64]
    else if cp < 0x10000 then [0xE0 + cp / 64 / 64, 0x80 + cp / 64 % 64, 0x80 + cp % 64]
    else [0xF0 + cp / 64 / 64 / 64, 0x80 + cp / 64 / 64 % 64, 0x80 + cp / 64 % 64, 0x80 + cp % 64]
  }

  function EncodeAll(cps: seq<CodePoint>): seq<u8> {
    if cps == [] then [] else Encode(cps[0]) + EncodeAll(cps[1..])
  }

  lemma Fold1(v: nat, x: nat)
    requires x < 64
    ensures Fold(v, [0x80 + x]) == v * 64 + x
  {
    assert (0x80 + x) % 64 == x;
    assert [0x80 + x as u8][1..] == [];
  }

  lemma FoldMore(v: nat, x: nat, tail: seq<u8>)
    requires x < 64
    ensures Fold(v, [0x80 + x] + tail) == Fold(v * 64 + x, tail)
  {
    assert (0x80 + x) % 64 == x;
    assert ([0x80 + x as u8] + tail)[1..] == tail;
  }

  lemma HeadValues(y: nat)
    ensures y < 32 ==> HeadBits(0xC0 + y) == y && Announced(0xC0 + y) == 2
    ensures y < 16 ==> HeadBits(0xE0 + y) == y && Announced(0xE0 + y) == 3
    ensures y < 8 ==> HeadBits(0xF0 + y) == y && Announced(0xF0 + y) == 4
  {}

  lemma TailFolds(cp: CodePoint)
    ensures Fold(HeadBits(Encode(cp)[0]), Encode(cp)[1..]) == cp
    ensures Announced(Encode(cp)[0]) == |Encode(cp)|
  {
    hide Fold, HeadBits, Announced;
    var a, b, c := cp / 64, cp / 64 / 64, cp / 64 / 64 / 64;
    var e := Encode(cp);
    if cp < 0x80 {
      assert HeadBits(cp) == cp && Announced(cp) == 1 by { OneByte(cp); }
      FoldNothing(cp);
      assert e[1..] == [];
    } else if cp < 0x800 {
      HeadValues(a);
      Fold1(a, cp % 64);
      assert e[1..] == [0x80 + cp % 64];
    } else if cp < 0x10000 {
      HeadValues(b);
      FoldMore(b, a % 64, [0x80 + cp % 64]);
      Fold1(a, cp % 64);
      assert e[1..] == [0x80 + a % 64] + [0x80 + cp % 64];
    } else {
      HeadValues(c);
      FoldMore(c, b % 64, [0x80 + a % 64] + [0x80 + cp % 64]);
      FoldMore(b, a % 64, [0x80 + cp % 64]);
      Fold1(a, cp % 64);
      assert e[1..] == [0x80 + b % 64] + ([0x80 + a % 64] + [0x80 + cp % 64]);
    }
  }

  lemma OneByte(x: nat)
    requires x < 0x80
    ensures HeadBits(x) == x && Announced(x) == 1
  {}

  lemma FoldNothing(v: nat)
    ensures Fold(v, []) == v
  {}

  lemma FirstOfEncoded(cp: CodePoint, rest: seq<u8>)
    ensures var b := Encode(cp) + rest;
      Width(b) == |Encode(cp)| && First(b) == cp && (|b| == 1 ==> b[0] < 0x80)
  {
    hide Fold, HeadBits;
    TailFolds(cp);
    var e := Encode(cp);
    var b := e + rest;
    assert b[0] == e[0] && b[1..|e|] == e[1..];
  }

  /** Well-formed UTF-8 without a zero code point is read as written, and nothing is read
      from behind it. */
  lemma {:induction false} PointsOfUtf8(cps: seq<CodePoint>)
    requires 0 !in cps
    ensures Readable(EncodeAll(cps)) && Points(EncodeAll(cps)) == cps
  {
    hide Encode, First;
    if cps != [] {
      var rest := EncodeAll(cps[1..]);
      PointsOfUtf8(cps[1..]);
      FirstOfEncoded(cps[0], rest);
      var b := EncodeAll(cps);
      assert b == Encode(cps[0]) + rest;
      assert b[Width(b)..] == rest;
    }
  }

  lemma OneEncoded(a: CodePoint)
    ensures EncodeAll([a]) == Encode(a)
  {
    assert [a][1..] == [] && Encode(a) + [] == Encode(a);
  }

  lemma TwoEncoded(a: CodePoint, b: CodePoint)
    ensures EncodeAll([a, b]) == Encode(a) + Encode(b)
  {
    OneEncoded(b);
    assert [a, b][1..] == [b];
  }

  lemma ThreeEncoded(a: CodePoint, b: CodePoint, c: CodePoint)
    ensures EncodeAll([a, b, c]) == Encode(a) + Encode(b) + Encode(c)
  {
    TwoEncoded(b, c);
    assert [a, b, c][1..] == [b, c];
  }

  // ----- the examples of section 7 of RFC 3629 -----

  lemma GreekExample()
    ensures EncodeAll([0x2262, 0x391, 0x2E]) == [0xE2, 0x89, 0xA2, 0xCE, 0x91, 0x2E]
  {
    hide EncodeAll;
    ThreeEncoded(0x2262, 0x391, 0x2E);
  }

  lemma KoreanExample()
    ensures EncodeAll([0xD55C, 0xAD6D, 0xC5B4]) == [0xED, 0x95, 0x9C, 0xEA, 0xB5, 0xAD, 0xEC, 0x96, 0xB4]
  {
    hide EncodeAll;
    ThreeEncoded(0xD55C, 0xAD6D, 0xC5B4);
  }

  lemma JapaneseExample()
    ensures EncodeAll([0x65E5, 0x672C, 0x8A9E]) == [0xE6, 0x97, 0xA5, 0xE6, 0x9C, 0xAC, 0xE8, 0xAA, 0x9E]
    ensures Encode(0x233B4) == [0xF0, 0xA3, 0x8E, 0xB4]
  {
    hide EncodeAll;
    ThreeEncoded(0x65E5, 0x672C, 0x8A9E);
  }
}
