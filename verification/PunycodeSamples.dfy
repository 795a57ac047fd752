/** What the encoding of some labels is, in numbers: samples of section 7.1 of RFC 3492
    and all labels of two code points that are not basic. */
module PunycodeSamples {
  import opened Options
  import opened Punycode
  import opened PunycodeOrder
  import opened PunycodeUnique
  import opened MachineInts
  import Bytes

  predicate AllPlain(s: seq<u8>) { forall c :: c in s ==> Plain(c) }

  /** The decoder reads delta and inserts n at r. */
  lemma Onward(a: State, digits: seq<u8>, b: State, delta: nat, e: seq<u8>, n: nat, r: nat, bias: nat,
        output: seq<nat>)
    requires Reaches(a, digits, b) && AllPlain(digits) && EncodeInt(delta, BASE, b.bias) == e
    requires n >= b.n && r <= |b.output| && b.i + delta == (n - b.n) * (|b.output| + 1) + r
    requires Adapt(delta, |b.output| + 1, b.i == 0) == bias && output == b.output[..r] + [n] + b.output[r..]
    ensures Reaches(a, digits + e, State(n, r + 1, bias, output)) && AllPlain(digits + e)
  {
    hide EncodeInt, Run, Adapt, Reaches, Plain;
    IntIsPlain(delta, BASE, b.bias);
    ReachesFurther(a, digits, b, delta);
    Bytes.QuotientUnique(b.i + delta, |b.output| + 1, n - b.n, r);
  }

  predicate IsBasic(s: seq<u8>) { forall c :: c in s ==> c < 0x80 && !(0x41 <= c <= 0x5A) }

  lemma EmptyIsBasic()
    ensures IsBasic([])
  {}

  lemma Whole(basic: seq<u8>, digits: seq<u8>, b: State, text: seq<u8>)
    requires Reaches(Initial(basic), digits, b) && IsBasic(basic) && AllPlain(digits)
    requires text == if basic == [] then digits else basic + [45] + digits
    ensures Decode(text) == Some(b.output) && NoCapitals(text)
  {
    hide Run, Reaches, Decode;
    assert [] + digits == digits;
    LabelDecodes(basic, digits, b);
    forall c | c in text
      ensures !(0x41 <= c <= 0x5A)
    {
      assert c in basic || c == 45 || c in digits;
    }
  }


  // ----- fiqs8s -----

  lemma TwoIdeographsDigits0()
    ensures EncodeInt(19885, BASE, 72) == [102, 105, 113]
  {
    assert EncodeInt(16, 108, 72) == [113];
    assert Low(568, 1) == 8 && High(568, 1) == 16;
    assert EncodeInt(568, 72, 72) == [105, 113];
    assert Low(19885, 1) == 5 && High(19885, 1) == 568;
  }

  lemma TwoIdeographsBias0()
    ensures Adapt(19885, 1, true) == 21
  {
    assert Settle(56, 0) == 21;
  }

  lemma TwoIdeographs0()
    ensures Reaches(Initial([]), [102, 105, 113], State(20013, 1, 21, [20013])) && AllPlain([102, 105, 113])
  {
    hide EncodeInt, Insert, Run, Adapt, Reaches, Plain;
    ReachesItself(Initial([]));
    assert AllPlain([]);
    TwoIdeographsDigits0();
    TwoIdeographsBias0();
    Onward(Initial([]), [], State(128, 0, 72, []), 19885, [102, 105, 113], 20013, 0, 21, [20013]);
    assert [] + [102, 105, 113] == [102, 105, 113];
  }

  lemma TwoIdeographsDigits1()
    ensures EncodeInt(4512, BASE, 21) == [115, 56, 115]
  {
    assert EncodeInt(18, 108, 21) == [115];
    assert Low(214, 26) == 34 && High(214, 26) == 18;
    assert EncodeInt(214, 72, 21) == [56, 115];
    assert Low(4512, 15) == 18 && High(4512, 15) == 214;
  }

  lemma TwoIdeographsBias1()
    ensures Adapt(4512, 2, false) == 61
  {
    assert Settle(96, 36) == 61;
    assert Settle(3384, 0) == 61;
  }

  lemma TwoIdeographs1()
    ensures Reaches(Initial([]), [102, 105, 113, 115, 56, 115], State(22269, 2, 61, [20013,
          22269])) && AllPlain([102, 105, 113, 115, 56, 115])
  {
    hide EncodeInt, Insert, Run, Adapt, Reaches, Plain;
    TwoIdeographs0();
    TwoIdeographsDigits1();
    TwoIdeographsBias1();
    Onward(Initial([]), [102, 105, 113], State(20013, 1, 21, [20013]), 4512, [115, 56, 115], 22269, 1, 61, [20013,
          22269]);
    assert [102, 105, 113] + [115, 56, 115] == [102, 105, 113, 115, 56, 115];
  }

  /** U+4E2D U+56FD */
  const TWO_IDEOGRAPHS: seq<nat> := [20013, 22269]
  const TWO_IDEOGRAPHS_LABEL: seq<u8> := [102, 105, 113, 115, 56, 115]

  lemma TwoIdeographsLower()
    ensures LowerAll(TWO_IDEOGRAPHS) == [20013, 22269]
  {}

  lemma TwoIdeographs()
    ensures Decode(TWO_IDEOGRAPHS_LABEL) == Some(LowerAll(TWO_IDEOGRAPHS)) && NoCapitals(TWO_IDEOGRAPHS_LABEL)
  {
    hide EncodeInt, Insert, Run, Decode, Reaches, LowerAll, NoCapitals, AllPlain, IsBasic;
    TwoIdeographsLower();
    TwoIdeographs1();
    EmptyIsBasic();
    Whole([], [102, 105, 113, 115, 56, 115], State(22269, 2, 61, [20013, 22269]), TWO_IDEOGRAPHS_LABEL);
  }

  // ----- ihqwctvzc91f659drss3x8bo0yb -----

  lemma ChineseDigits0()
    ensures EncodeInt(19853, BASE, 72) == [105, 104, 113]
  {
    assert EncodeInt(16, 108, 72) == [113];
    assert Low(567, 1) == 7 && High(567, 1) == 16;
    assert EncodeInt(567, 72, 72) == [104, 113];
    assert Low(19853, 1) == 8 && High(19853, 1) == 567;
  }

  lemma ChineseBias0()
    ensures Adapt(19853, 1, true) == 21
  {
    assert Settle(56, 0) == 21;
  }

  lemma Chinese0()
    ensures Reaches(Initial([]), [105, 104, 113], State(19981, 1, 21, [19981])) && AllPlain([105, 104, 113])
  {
    hide EncodeInt, Insert, Run, Adapt, Reaches, Plain;
    ReachesItself(Initial([]));
    assert AllPlain([]);
    ChineseDigits0();
    ChineseBias0();
    Onward(Initial([]), [], State(128, 0, 72, []), 19853, [105, 104, 113], 19981, 0, 21, [19981]);
    assert [] + [105, 104, 113] == [105, 104, 113];
  }

  lemma ChineseDigits1()
    ensures EncodeInt(64, BASE, 21) == [119, 99]
  {
    assert EncodeInt(2, 72, 21) == [99];
    assert Low(64, 15) == 22 && High(64, 15) == 2;
  }

  lemma ChineseBias1()
    ensures Adapt(64, 2, false) == 20
  {
    assert Settle(48, 0) == 20;
  }

  lemma Chinese1()
    ensures Reaches(Initial([]), [105, 104, 113, 119, 99], State(20013, 2, 20, [19981, 20013])) && AllPlain([105,
          104, 113, 119, 99])
  {
    hide EncodeInt, Insert, Run, Adapt, Reaches, Plain;
    Chinese0();
    ChineseDigits1();
    ChineseBias1();
    Onward(Initial([]), [105, 104, 113], State(19981, 1, 21, [19981]), 64, [119, 99], 20013, 1, 20, [19981, 20013]);
    assert [105, 104, 113] + [119, 99] == [105, 104, 113, 119, 99];
  }

  lemma ChineseDigits2()
    ensures EncodeInt(439, BASE, 20) == [116, 118]
  {
    assert EncodeInt(21, 72, 20) == [118];
    assert Low(439, 16) == 19 && High(439, 16) == 21;
  }

  lemma ChineseBias2()
    ensures Adapt(439, 3, false) == 31
  {
    assert Settle(292, 0) == 31;
  }

  lemma Chinese2()
    ensures Reaches(Initial([]), [105, 104, 113, 119, 99, 116, 118], State(20160, 1, 31, [20160, 19981,
          20013])) && AllPlain([105, 104, 113, 119, 99, 116, 118])
  {
    hide EncodeInt, Insert, Run, Adapt, Reaches, Plain;
    Chinese1();
    ChineseDigits2();
    ChineseBias2();
    Onward(Initial([]), [105, 104, 113, 119, 99], State(20013, 2, 20, [19981, 20013]), 439, [116, 118], 20160, 0, 31,
          [20160, 19981, 20013]);
    assert [105, 104, 113, 119, 99] + [116, 118] == [105, 104, 113, 119, 99, 116, 118];
  }

  lemma ChineseDigits3()
    ensures EncodeInt(87, BASE, 31) == [122, 99]
  {
    assert EncodeInt(2, 72, 31) == [99];
    assert Low(87, 5) == 25 && High(87, 5) == 2;
  }

  lemma ChineseBias3()
    ensures Adapt(87, 4, false) == 20
  {
    assert Settle(53, 0) == 20;
  }

  lemma Chinese3()
    ensures Reaches(Initial([]), [105, 104, 113, 119, 99, 116, 118, 122, 99], State(20182, 1, 20, [20182, 20160,
          19981, 20013])) && AllPlain([105, 104, 113, 119, 99, 116, 118, 122, 99])
  {
    hide EncodeInt, Insert, Run, Adapt, Reaches, Plain;
    Chinese2();
    ChineseDigits3();
    ChineseBias3();
    Onward(Initial([]), [105, 104, 113, 119, 99, 116, 118], State(20160, 1, 31, [20160, 19981, 20013]), 87, [122,
          99], 20182, 0, 20, [20182, 20160, 19981, 20013]);
    assert [105, 104, 113, 119, 99, 116, 118] + [122, 99] == [105, 104, 113, 119, 99, 116, 118, 122, 99];
  }

  lemma ChineseDigits4()
    ensures EncodeInt(1575, BASE, 20) == [57, 49, 102]
  {
    assert EncodeInt(5, 108, 20) == [102];
    assert Low(77, 26) == 27 && High(77, 26) == 5;
    assert EncodeInt(77, 72, 20) == [49, 102];
    assert Low(1575, 16) == 35 && High(1575, 16) == 77;
  }

  lemma ChineseBias4()
    ensures Adapt(1575, 5, false) == 50
  {
    assert Settle(26, 36) == 50;
    assert Settle(944, 0) == 50;
  }

  lemma Chinese4()
    ensures Reaches(Initial([]), [105, 104, 113, 119, 99, 116, 118, 122, 99, 57, 49, 102], State(20497, 2, 50,
          [20182, 20497, 20160, 19981, 20013])) && AllPlain([105, 104, 113, 119, 99, 116, 118, 122, 99, 57, 49, 102])
  {
    hide EncodeInt, Insert, Run, Adapt, Reaches, Plain;
    Chinese3();
    ChineseDigits4();
    ChineseBias4();
    Onward(Initial([]), [105, 104, 113, 119, 99, 116, 118, 122, 99], State(20182, 1, 20, [20182, 20160, 19981,
          20013]), 1575, [57, 49, 102], 20497, 1, 50, [20182, 20497, 20160, 19981, 20013]);
    assert [105, 104, 113, 119, 99, 116, 118, 122, 99] + [57, 49, 102] == [105, 104, 113, 119, 99, 116, 118, 122, 99,
          57, 49, 102];
  }

  lemma ChineseDigits5()
    ensures EncodeInt(32967, BASE, 50) == [54, 53, 57, 100]
  {
    assert EncodeInt(3, 144, 50) == [100];
    assert Low(65, 26) == 35 && High(65, 26) == 3;
    assert EncodeInt(65, 108, 50) == [57, 100];
    assert Low(941, 22) == 31 && High(941, 22) == 65;
    assert EncodeInt(941, 72, 50) == [53, 57, 100];
    assert Low(32967, 1) == 32 && High(32967, 1) == 941;
  }

  lemma ChineseBias5()
    ensures Adapt(32967, 6, false) == 82
  {
    assert Settle(15, 72) == 82;
    assert Settle(549, 36) == 82;
    assert Settle(19230, 0) == 82;
  }

  lemma Chinese5()
    ensures Reaches(Initial([]), [105, 104, 113, 119, 99, 116, 118, 122, 99, 57, 49, 102, 54, 53, 57, 100],
          State(25991, 6, 82, [20182, 20497, 20160, 19981, 20013, 25991])) && AllPlain([105, 104, 113, 119, 99, 116,
          118, 122, 99, 57, 49, 102, 54, 53, 57, 100])
  {
    hide EncodeInt, Insert, Run, Adapt, Reaches, Plain;
    Chinese4();
    ChineseDigits5();
    ChineseBias5();
    Onward(Initial([]), [105, 104, 113, 119, 99, 116, 118, 122, 99, 57, 49, 102], State(20497, 2, 50, [20182, 20497,
          20160, 19981, 20013]), 32967, [54, 53, 57, 100], 25991, 5, 82, [20182, 20497, 20160, 19981, 20013, 25991]);
    assert [105, 104, 113, 119, 99, 116, 118, 122, 99, 57, 49, 102] + [54, 53, 57, 100] == [105, 104, 113, 119, 99,
          116, 118, 122, 99, 57, 49, 102, 54, 53, 57, 100];
  }

  lemma ChineseDigits6()
    ensures EncodeInt(22697, BASE, 82) == [114, 115, 115]
  {
    assert EncodeInt(18, 108, 82) == [115];
    assert Low(648, 1) == 18 && High(648, 1) == 18;
    assert EncodeInt(648, 72, 82) == [115, 115];
    assert Low(22697, 1) == 17 && High(22697, 1) == 648;
  }

  lemma ChineseBias6()
    ensures Adapt(22697, 7, false) == 68
  {
    assert Settle(370, 36) == 68;
    assert Settle(12969, 0) == 68;
  }

  lemma Chinese6()
    ensures Reaches(Initial([]), [105, 104, 113, 119, 99, 116, 118, 122, 99, 57, 49, 102, 54, 53, 57, 100, 114, 115,
          115], State(29234, 3, 68, [20182, 20497, 29234, 20160, 19981, 20013, 25991])) && AllPlain([105, 104, 113,
          119, 99, 116, 118, 122, 99, 57, 49, 102, 54, 53, 57, 100, 114, 115, 115])
  {
    hide EncodeInt, Insert, Run, Adapt, Reaches, Plain;
    Chinese5();
    ChineseDigits6();
    ChineseBias6();
    Onward(Initial([]), [105, 104, 113, 119, 99, 116, 118, 122, 99, 57, 49, 102, 54, 53, 57, 100], State(25991, 6,
          82, [20182, 20497, 20160, 19981, 20013, 25991]), 22697, [114, 115, 115], 29234, 2, 68, [20182, 20497,
          29234, 20160, 19981, 20013, 25991]);
    assert [105, 104, 113, 119, 99, 116, 118, 122, 99, 57, 49, 102, 54, 53, 57, 100] + [114, 115, 115] == [105, 104,
          113, 119, 99, 116, 118, 122, 99, 57, 49, 102, 54, 53, 57, 100, 114, 115, 115];
  }

  lemma ChineseDigits7()
    ensures EncodeInt(50114, BASE, 68) == [51, 120, 56, 98]
  {
    assert EncodeInt(1, 144, 68) == [98];
    assert Low(44, 26) == 34 && High(44, 26) == 1;
    assert EncodeInt(44, 108, 68) == [56, 98];
    assert Low(1431, 4) == 23 && High(1431, 4) == 44;
    assert EncodeInt(1431, 72, 68) == [120, 56, 98];
    assert Low(50114, 1) == 29 && High(50114, 1) == 1431;
  }

  lemma ChineseBias7()
    ensures Adapt(50114, 8, false) == 85
  {
    assert Settle(23, 72) == 85;
    assert Settle(805, 36) == 85;
    assert Settle(28189, 0) == 85;
  }

  lemma Chinese7()
    ensures Reaches(Initial([]), [105, 104, 113, 119, 99, 116, 118, 122, 99, 57, 49, 102, 54, 53, 57, 100, 114, 115,
          115, 51, 120, 56, 98], State(35498, 6, 85, [20182, 20497, 29234, 20160, 19981, 35498, 20013,
          25991])) && AllPlain([105, 104, 113, 119, 99, 116, 118, 122, 99, 57, 49, 102, 54, 53, 57, 100, 114, 115,
          115, 51, 120, 56, 98])
  {
    hide EncodeInt, Insert, Run, Adapt, Reaches, Plain;
    Chinese6();
    ChineseDigits7();
    ChineseBias7();
    Onward(Initial([]), [105, 104, 113, 119, 99, 116, 118, 122, 99, 57, 49, 102, 54, 53, 57, 100, 114, 115, 115],
          State(29234, 3, 68, [20182, 20497, 29234, 20160, 19981, 20013, 25991]), 50114, [51, 120, 56, 98], 35498, 5,
          85, [20182, 20497, 29234, 20160, 19981, 35498, 20013, 25991]);
    assert [105, 104, 113, 119, 99, 116, 118, 122, 99, 57, 49, 102, 54, 53, 57, 100, 114, 115, 115] + [51, 120, 56,
          98] == [105, 104, 113, 119, 99, 116, 118, 122, 99, 57, 49, 102, 54, 53, 57, 100, 114, 115, 115, 51, 120,
          56, 98];
  }

  lemma ChineseDigits8()
    ensures EncodeInt(46249, BASE, 85) == [111, 48, 121, 98]
  {
    assert EncodeInt(1, 144, 85) == [98];
    assert Low(37, 23) == 24 && High(37, 23) == 1;
    assert EncodeInt(37, 108, 85) == [121, 98];
    assert Low(1321, 1) == 26 && High(1321, 1) == 37;
    assert EncodeInt(1321, 72, 85) == [48, 121, 98];
    assert Low(46249, 1) == 14 && High(46249, 1) == 1321;
  }

  lemma ChineseBias8()
    ensures Adapt(46249, 9, false) == 84
  {
    assert Settle(20, 72) == 84;
    assert Settle(734, 36) == 84;
    assert Settle(25693, 0) == 84;
  }

  lemma Chinese8()
    ensures Reaches(Initial([]), [105, 104, 113, 119, 99, 116, 118, 122, 99, 57, 49, 102, 54, 53, 57, 100, 114, 115,
          115, 51, 120, 56, 98, 111, 48, 121, 98], State(40637, 5, 84, [20182, 20497, 29234, 20160, 40637, 19981,
          35498, 20013, 25991])) && AllPlain([105, 104, 113, 119, 99, 116, 118, 122, 99, 57, 49, 102, 54, 53, 57,
          100, 114, 115, 115, 51, 120, 56, 98, 111, 48, 121, 98])
  {
    hide EncodeInt, Insert, Run, Adapt, Reaches, Plain;
    Chinese7();
    ChineseDigits8();
    ChineseBias8();
    Onward(Initial([]), [105, 104, 113, 119, 99, 116, 118, 122, 99, 57, 49, 102, 54, 53, 57, 100, 114, 115, 115, 51,
          120, 56, 98], State(35498, 6, 85, [20182, 20497, 29234, 20160, 19981, 35498, 20013, 25991]), 46249, [111,
          48, 121, 98], 40637, 4, 84, [20182, 20497, 29234, 20160, 40637, 19981, 35498, 20013, 25991]);
    assert [105, 104, 113, 119, 99, 116, 118, 122, 99, 57, 49, 102, 54, 53, 57, 100, 114, 115, 115, 51, 120, 56,
          98] + [111, 48, 121, 98] == [105, 104, 113, 119, 99, 116, 118, 122, 99, 57, 49, 102, 54, 53, 57, 100, 114,
          115, 115, 51, 120, 56, 98, 111, 48, 121, 98];
  }

  /** Sample (C) of section 7.1 of RFC 3492. */
  const CHINESE: seq<nat> := [20182, 20497, 29234, 20160, 40637, 19981, 35498, 20013, 25991]
  const CHINESE_LABEL: seq<u8> := [105, 104, 113, 119, 99, 116, 118, 122, 99, 57, 49, 102, 54, 53, 57, 100, 114, 115,
        115, 51, 120, 56, 98, 111, 48, 121, 98]

  lemma ChineseLower()
    ensures LowerAll(CHINESE) == [20182, 20497, 29234, 20160, 40637, 19981, 35498, 20013, 25991]
  {}

  lemma Chinese()
    ensures Decode(CHINESE_LABEL) == Some(LowerAll(CHINESE)) && NoCapitals(CHINESE_LABEL)
  {
    hide EncodeInt, Insert, Run, Decode, Reaches, LowerAll, NoCapitals, AllPlain, IsBasic;
    ChineseLower();
    Chinese8();
    EmptyIsBasic();
    Whole([], [105, 104, 113, 119, 99, 116, 118, 122, 99, 57, 49, 102, 54, 53, 57, 100, 114, 115, 115, 51, 120, 56,
          98, 111, 48, 121, 98], State(40637, 5, 84, [20182, 20497, 29234, 20160, 40637, 19981, 35498, 20013,
          25991]), CHINESE_LABEL);
  }

  // ----- 3b-ww4c5e180e575a65lsy2b -----

  lemma YearThreeDigits0()
    ensures EncodeInt(62042, BASE, 72) == [119, 119, 52, 99]
  {
    assert EncodeInt(2, 144, 72) == [99];
    assert Low(50, 26) == 30 && High(50, 26) == 2;
    assert EncodeInt(50, 108, 72) == [52, 99];
    assert Low(1772, 1) == 22 && High(1772, 1) == 50;
    assert EncodeInt(1772, 72, 72) == [119, 52, 99];
    assert Low(62042, 1) == 22 && High(62042, 1) == 1772;
  }

  lemma YearThreeBias0()
    ensures Adapt(62042, 3, true) == 27
  {
    assert Settle(117, 0) == 27;
  }

  lemma YearThree0()
    ensures Reaches(Initial([51, 98]), [119, 119, 52, 99], State(20808, 3, 27, [51, 98, 20808])) && AllPlain([119,
          119, 52, 99])
  {
    hide EncodeInt, Insert, Run, Adapt, Reaches, Plain;
    ReachesItself(Initial([51, 98]));
    assert AllPlain([]);
    YearThreeDigits0();
    YearThreeBias0();
    Onward(Initial([51, 98]), [], State(128, 0, 72, [51, 98]), 62042, [119, 119, 52, 99], 20808, 2, 27, [51, 98,
          20808]);
    assert [] + [119, 119, 52, 99] == [119, 119, 52, 99];
  }

  lemma YearThreeDigits1()
    ensures EncodeInt(139, BASE, 27) == [53, 101]
  {
    assert EncodeInt(4, 72, 27) == [101];
    assert Low(139, 9) == 31 && High(139, 9) == 4;
  }

  lemma YearThreeBias1()
    ensures Adapt(139, 4, false) == 24
  {
    assert Settle(86, 0) == 24;
  }

  lemma YearThree1()
    ensures Reaches(Initial([51, 98]), [119, 119, 52, 99, 53, 101], State(20843, 3, 24, [51, 98, 20843,
          20808])) && AllPlain([119, 119, 52, 99, 53, 101])
  {
    hide EncodeInt, Insert, Run, Adapt, Reaches, Plain;
    YearThree0();
    YearThreeDigits1();
    YearThreeBias1();
    Onward(Initial([51, 98]), [119, 119, 52, 99], State(20808, 3, 27, [51, 98, 20808]), 139, [53, 101], 20843, 2, 24,
          [51, 98, 20843, 20808]);
    assert [119, 119, 52, 99] + [53, 101] == [119, 119, 52, 99, 53, 101];
  }

  lemma YearThreeDigits2()
    ensures EncodeInt(16683, BASE, 24) == [49, 56, 48, 101]
  {
    assert EncodeInt(4, 144, 24) == [101];
    assert Low(66, 26) == 26 && High(66, 26) == 4;
    assert EncodeInt(66, 108, 24) == [48, 101];
    assert Low(694, 26) == 34 && High(694, 26) == 66;
    assert EncodeInt(694, 72, 24) == [56, 48, 101];
    assert Low(16683, 12) == 27 && High(16683, 12) == 694;
  }

  lemma YearThreeBias2()
    ensures Adapt(16683, 5, false) == 67
  {
    assert Settle(285, 36) == 67;
    assert Settle(10009, 0) == 67;
  }

  lemma YearThree2()
    ensures Reaches(Initial([51, 98]), [119, 119, 52, 99, 53, 101, 49, 56, 48, 101], State(24180, 2, 67, [51, 24180,
          98, 20843, 20808])) && AllPlain([119, 119, 52, 99, 53, 101, 49, 56, 48, 101])
  {
    hide EncodeInt, Insert, Run, Adapt, Reaches, Plain;
    YearThree1();
    YearThreeDigits2();
    YearThreeBias2();
    Onward(Initial([51, 98]), [119, 119, 52, 99, 53, 101], State(20843, 3, 24, [51, 98, 20843, 20808]), 16683, [49,
          56, 48, 101], 24180, 1, 67, [51, 24180, 98, 20843, 20808]);
    assert [119, 119, 52, 99, 53, 101] + [49, 56, 48, 101] == [119, 119, 52, 99, 53, 101, 49, 56, 48, 101];
  }

  lemma YearThreeDigits3()
    ensures EncodeInt(34821, BASE, 67) == [53, 55, 53, 97]
  {
    assert EncodeInt(0, 144, 67) == [97];
    assert Low(31, 26) == 31 && High(31, 26) == 0;
    assert EncodeInt(31, 108, 67) == [53, 97];
    assert Low(994, 5) == 33 && High(994, 5) == 31;
    assert EncodeInt(994, 72, 67) == [55, 53, 97];
    assert Low(34821, 1) == 31 && High(34821, 1) == 994;
  }

  lemma YearThreeBias3()
    ensures Adapt(34821, 6, false) == 82
  {
    assert Settle(16, 72) == 82;
    assert Settle(580, 36) == 82;
    assert Settle(20311, 0) == 82;
  }

  lemma YearThree3()
    ensures Reaches(Initial([51, 98]), [119, 119, 52, 99, 53, 101, 49, 56, 48, 101, 53, 55, 53, 97], State(29983, 6,
          82, [51, 24180, 98, 20843, 20808, 29983])) && AllPlain([119, 119, 52, 99, 53, 101, 49, 56, 48, 101, 53, 55,
          53, 97])
  {
    hide EncodeInt, Insert, Run, Adapt, Reaches, Plain;
    YearThree2();
    YearThreeDigits3();
    YearThreeBias3();
    Onward(Initial([51, 98]), [119, 119, 52, 99, 53, 101, 49, 56, 48, 101], State(24180, 2, 67, [51, 24180, 98,
          20843, 20808]), 34821, [53, 55, 53, 97], 29983, 5, 82, [51, 24180, 98, 20843, 20808, 29983]);
    assert [119, 119, 52, 99, 53, 101, 49, 56, 48, 101] + [53, 55, 53, 97] == [119, 119, 52, 99, 53, 101, 49, 56, 48,
          101, 53, 55, 53, 97];
  }

  lemma YearThreeDigits4()
    ensures EncodeInt(14592, BASE, 82) == [54, 53, 108]
  {
    assert EncodeInt(11, 108, 82) == [108];
    assert Low(416, 1) == 31 && High(416, 1) == 11;
    assert EncodeInt(416, 72, 82) == [53, 108];
    assert Low(14592, 1) == 32 && High(14592, 1) == 416;
  }

  lemma YearThreeBias4()
    ensures Adapt(14592, 7, false) == 67
  {
    assert Settle(238, 36) == 67;
    assert Settle(8338, 0) == 67;
  }

  lemma YearThree4()
    ensures Reaches(Initial([51, 98]), [119, 119, 52, 99, 53, 101, 49, 56, 48, 101, 53, 55, 53, 97, 54, 53, 108],
          State(32068, 4, 67, [51, 24180, 98, 32068, 20843, 20808, 29983])) && AllPlain([119, 119, 52, 99, 53, 101,
          49, 56, 48, 101, 53, 55, 53, 97, 54, 53, 108])
  {
    hide EncodeInt, Insert, Run, Adapt, Reaches, Plain;
    YearThree3();
    YearThreeDigits4();
    YearThreeBias4();
    Onward(Initial([51, 98]), [119, 119, 52, 99, 53, 101, 49, 56, 48, 101, 53, 55, 53, 97], State(29983, 6, 82, [51,
          24180, 98, 20843, 20808, 29983]), 14592, [54, 53, 108], 32068, 3, 67, [51, 24180, 98, 32068, 20843, 20808,
          29983]);
    assert [119, 119, 52, 99, 53, 101, 49, 56, 48, 101, 53, 55, 53, 97] + [54, 53, 108] == [119, 119, 52, 99, 53,
          101, 49, 56, 48, 101, 53, 55, 53, 97, 54, 53, 108];
  }

  lemma YearThreeDigits5()
    ensures EncodeInt(42088, BASE, 67) == [115, 121, 50, 98]
  {
    assert EncodeInt(1, 144, 67) == [98];
    assert Low(38, 26) == 28 && High(38, 26) == 1;
    assert EncodeInt(38, 108, 67) == [50, 98];
    assert Low(1202, 5) == 24 && High(1202, 5) == 38;
    assert EncodeInt(1202, 72, 67) == [121, 50, 98];
    assert Low(42088, 1) == 18 && High(42088, 1) == 1202;
  }

  lemma YearThreeBias5()
    ensures Adapt(42088, 8, false) == 84
  {
    assert Settle(19, 72) == 84;
    assert Settle(676, 36) == 84;
    assert Settle(23674, 0) == 84;
  }

  lemma YearThree5()
    ensures Reaches(Initial([51, 98]), [119, 119, 52, 99, 53, 101, 49, 56, 48, 101, 53, 55, 53, 97, 54, 53, 108, 115,
          121, 50, 98], State(37329, 5, 84, [51, 24180, 98, 32068, 37329, 20843, 20808, 29983])) && AllPlain([119,
          119, 52, 99, 53, 101, 49, 56, 48, 101, 53, 55, 53, 97, 54, 53, 108, 115, 121, 50, 98])
  {
    hide EncodeInt, Insert, Run, Adapt, Reaches, Plain;
    YearThree4();
    YearThreeDigits5();
    YearThreeBias5();
    Onward(Initial([51, 98]), [119, 119, 52, 99, 53, 101, 49, 56, 48, 101, 53, 55, 53, 97, 54, 53, 108], State(32068,
          4, 67, [51, 24180, 98, 32068, 20843, 20808, 29983]), 42088, [115, 121, 50, 98], 37329, 4, 84, [51, 24180,
          98, 32068, 37329, 20843, 20808, 29983]);
    assert [119, 119, 52, 99, 53, 101, 49, 56, 48, 101, 53, 55, 53, 97, 54, 53, 108] + [115, 121, 50, 98] == [119,
          119, 52, 99, 53, 101, 49, 56, 48, 101, 53, 55, 53, 97, 54, 53, 108, 115, 121, 50, 98];
  }

  /** Sample (L), its B in lower case. */
  const YEAR_THREE: seq<nat> := [51, 24180, 66, 32068, 37329, 20843, 20808, 29983]
  const YEAR_THREE_LABEL: seq<u8> := [51, 98, 45, 119, 119, 52, 99, 53, 101, 49, 56, 48, 101, 53, 55, 53, 97, 54, 53,
        108, 115, 121, 50, 98]

  lemma YearThreeLower()
    ensures LowerAll(YEAR_THREE) == [51, 24180, 98, 32068, 37329, 20843, 20808, 29983]
  {}

  lemma YearThreeBasic()
    ensures IsBasic([51, 98])
  {}

  lemma YearThreeLabel()
    ensures YEAR_THREE_LABEL == [51, 98] + [45] + [119, 119, 52, 99, 53, 101, 49, 56, 48, 101, 53, 55, 53, 97, 54,
          53, 108, 115, 121, 50, 98]
  {}

  lemma YearThree()
    ensures Decode(YEAR_THREE_LABEL) == Some(LowerAll(YEAR_THREE)) && NoCapitals(YEAR_THREE_LABEL)
  {
    hide EncodeInt, Insert, Run, Decode, Reaches, LowerAll, NoCapitals, AllPlain, IsBasic;
    YearThreeLower();
    YearThree5();
    YearThreeBasic();
    YearThreeLabel();
    Whole([51, 98], [119, 119, 52, 99, 53, 101, 49, 56, 48, 101, 53, 55, 53, 97, 54, 53, 108, 115, 121, 50, 98],
          State(37329, 5, 84, [51, 24180, 98, 32068, 37329, 20843, 20808, 29983]), YEAR_THREE_LABEL);
  }

  // ----- two code points -----

  /** The integer q from place k on, section 3.3, in numbers. */
  function Written(q: nat, k: nat, bias: nat): seq<u8>
    decreases q
  {
    var t := if k <= bias then 1 else if k >= bias + 26 then 26 else k - bias;
    if q < t then [Figure(q)]
    else
      Shrinks(q - t, 36 - t);
      Remains(q - t, 36 - t);
      [Figure(t + (q - t) % (36 - t))] + Written((q - t) / (36 - t), k + 36, bias)
  }

  lemma Remains(a: nat, m: nat)
    requires m > 0
    ensures 0 <= a % m < m && 0 <= a / m
  {}

  /** a to z and 0 to 9. */
  function Figure(d: nat): u8
    requires d < 36
  {
    if d < 26 then 97 + d else 22 + d
  }

  lemma {:induction false} WrittenIs(q: nat, k: nat, bias: nat)
    ensures EncodeInt(q, k, bias) == Written(q, k, bias)
    decreases q
  {
    var t := Threshold(k, bias);
    if q >= t {
      WrittenIs(High(q, t), k + BASE, bias);
    }
  }

  /** The bias after the first code point of a label, the lowest that is not basic. */
  function FirstBias(lo: nat): nat
    requires 128 <= lo
  {
    var d := (lo - 128) / 700 * 2;
    if d <= 455 then 36 * d / (d + 38) else 36 + 36 * (d / 35) / (d / 35 + 38)
  }

  lemma FirstBiasIs(lo: nat)
    requires 128 <= lo <= 0x10FFFF
    ensures Adapt(lo - 128, 1, true) == FirstBias(lo)
  {
    var d := Damped(lo - 128, 1, true);
    assert d == (lo - 128) / 700 * 2;
    if d > 455 {
      assert d / 35 <= 455;
      assert Settle(d / 35, 36) == 36 + 36 * (d / 35) / (d / 35 + 38);
    }
  }

  /** The division loop of section 6.1, in numbers. */
  function BiasIn(d: nat): nat {
    if d > 455 then 36 + BiasIn(d / 35) else 36 * d / (d + 38)
  }

  lemma {:induction false} SettleIs(d: nat, k: nat)
    ensures Settle(d, k) == k + BiasIn(d)
    decreases d
  {
    if d > 455 {
      SettleIs(d / 35, k + 36);
    }
  }

  /** The bias in numbers. */
  lemma AdaptIs(delta: nat, numPoints: nat, firstTime: bool)
    requires numPoints > 0
    ensures var d := if firstTime then delta / 700 else delta / 2;
      Adapt(delta, numPoints, firstTime) == BiasIn(d + d / numPoints)
  {
    SettleIs(Damped(delta, numPoints, firstTime), 0);
  }

  /** The label of a and b. */
  function TwoWritten(a: nat, b: nat): seq<u8>
    requires 128 <= a && 128 <= b
  {
    if a <= b then Written(a - 128, 36, 72) + Written(2 * (b - a), 36, FirstBias(a))
    else Written(b - 128, 36, 72) + Written(2 * (a - b) - 1, 36, FirstBias(b))
  }

  lemma TwoPoints(a: nat, b: nat)
    requires 128 <= a <= 0x10FFFF && 128 <= b <= 0x10FFFF
    ensures Decode(TwoWritten(a, b)) == Some([a, b]) && NoCapitals(TwoWritten(a, b))
  {
    hide EncodeInt, Written, Insert, Run, Decode, Reaches, Adapt, AllPlain, FirstBias, NoCapitals;
    var lo, hi := if a <= b then a else b, if a <= b then b else a;
    var delta := if a <= b then 2 * (hi - lo) else 2 * (hi - lo) - 1;
    var d, e := Written(lo - 128, 36, 72), Written(delta, 36, FirstBias(lo));
    WrittenIs(lo - 128, 36, 72);
    WrittenIs(delta, 36, FirstBias(lo));
    FirstBiasIs(lo);
    ReachesItself(Initial([]));
    NothingPlain();
    Onward(Initial([]), [], Initial([]), lo - 128, d, lo, 0, FirstBias(lo), [lo]);
    assert [] + d == d;
    var bias := Adapt(delta, 2, false);
    Onward(Initial([]), d, State(lo, 1, FirstBias(lo), [lo]), delta, e, hi, if a <= b then 1 else 0, bias, [a, b]);
    EmptyIsBasic();
    Whole([], d + e, State(hi, if a <= b then 2 else 1, bias, [a, b]), d + e);
  }

  lemma NothingPlain()
    ensures AllPlain([])
  {}
}
