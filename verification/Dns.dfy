/** dns.cpp: lower case and punycode for one label of a domain name. */
module Dns {
  import opened Options
  import opened MachineInts
  import opened Punycode
  import opened PunycodeOrder
  import opened PunycodeUnique
  import opened PunycodeSamples
  import Bytes
  import Utf8

  /** What fits in the bits read from n bytes. */
  function Limit(n: int): int {
    if n <= 1 then 32 else if n == 2 then 0x800 else if n == 3 then 0x2_0000 else 0x80_0000
  }

  /** Walks over the code points of a UTF-8 text.  A text that ends in a byte announcing
      more makes it read the byte behind the text. */
  class Utf8Traversor {
    const input: seq<u8>
    const beyond: u8
    var processed: nat

    constructor (input: seq<u8>, beyond: u8)
      ensures this.input == input && this.beyond == beyond && Valid() && Rest() == Source()
    {
      this.input, this.beyond, processed := input, beyond, 0;
      new;
      FromStart();
    }

    /** The code points of the whole text. */
    ghost function Source(): seq<nat> { Utf8.Points(Utf8.Reads(input, beyond)) }

    ghost predicate Valid()
      reads this
    {
      processed <= |input| + 1
    }

    /** The code points still to come. */
    ghost function Rest(): seq<nat>
      requires Valid()
      reads this
    {
      if processed >= |input| then [] else Utf8.Points(Utf8.Reads(input[processed..], beyond))
    }

    lemma FromStart()
      requires processed == 0
      ensures Rest() == Source()
    {
      assert input[0..] == input;
    }

    /** The next code point, or zero at the end of the text and for a zero code point. */
    method Advance() returns (cp: u32)
      requires Valid()
      modifies this
      ensures old(Rest()) == [] ==> cp == 0
      ensures old(Rest()) != [] ==> cp == old(Rest())[0] && cp != 0 && Valid() && Rest() == old(Rest())[1..]
    {
      hide Utf8.Points, Utf8.Reads, Utf8.First, Utf8.Fold;
      if processed >= |input| {
        return 0;
      }
      ghost var b, start := input[processed..], processed;
      Utf8.Taken(b, beyond);
      ghost var v := Utf8.First(Utf8.Reads(b, beyond));
      EndOfText();
      var uc := input[processed];
      var len: nat;
      if uc < 0x80 {
        processed := processed + 1;
        assert b[1..] == input[processed..];
        return uc;
      } else if uc < 0xE0 {
        len := 2;
      } else if uc < 0xF0 {
        len := 3;
      } else {
        len := 4;
      }
      var end := processed + len;
      if end > |input| {
        end := |input|;
      }
      // the mask 0x7F >> len keeps the low 7 - len bits
      var head: u32 := uc % (if len == 2 then 32 else if len == 3 then 16 else 8);
      processed := processed + 1;
      cp := ReadTail(head, end);
      assert processed - start == if Utf8.IsLoneHead(b) then 2 else Utf8.Width(b);
      TailOf(start, processed);
      assert cp == v;
      assert processed <= |input| ==> b[processed - start..] == input[processed..];
    }

    /** The bytes up to the end, and at least one. */
    method ReadTail(head: u32, end: nat) returns (cp: u32)
      requires processed <= end <= |input| && end <= processed + 3 && head < 32 && (processed == end ==> end == |input|)
      modifies this
      ensures processed == if old(processed) == end then end + 1 else end
      ensures cp == Utf8.Fold(head, (input + [beyond])[old(processed)..processed])
    {
      hide Utf8.Fold;
      ghost var start, whole := processed, input + [beyond];
      ghost var stop := if start == end then end + 1 else end;
      cp := head;
      var first := true;
      while first || processed < end
        invariant start <= processed <= stop <= start + 3 && (first <==> processed == start)
        invariant Utf8.Fold(cp, whole[processed..stop]) == Utf8.Fold(head, whole[start..stop])
        invariant cp < Limit(processed - start + 1)
        decreases stop - processed
      {
        var c := if processed < |input| then input[processed] else beyond;
        Utf8.FoldStep(cp, whole, processed, stop);
        cp := cp * 64 + c % 64;
        processed := processed + 1;
        first := false;
      }
      Utf8.FoldNone(cp, whole, stop);
    }

    lemma TailOf(start: nat, stop: nat)
      requires start < stop <= |input| + 1 && start < |input|
      ensures (input[start..] + [beyond])[1..stop - start] == (input + [beyond])[start + 1..stop]
    {}

    lemma EndOfText()
      ensures Utf8.Points([]) == [] && Utf8.Points(Utf8.Reads([], beyond)) == []
    {}

    method Reset()
      modifies this
      ensures Valid() && Rest() == Source()
    {
      processed := 0;
      FromStart();
    }
  }

  /** The output string, appended to in place. */
  class Text {
    var bytes: seq<u8>

    constructor (bytes: seq<u8>)
      ensures this.bytes == bytes
    {
      this.bytes := bytes;
    }

    method PushBack(c: u8)
      modifies this
      ensures bytes == old(bytes) + [c]
    {
      bytes := bytes + [c];
    }
  }

  const SPAN: nat := 0x110000 * 0x800_0000_0000

  predicate IsUpper(c: nat) { 0x41 <= c <= 0x5A }

  /** Not a code point, or a high surrogate.  Low surrogates pass. */
  predicate IsBad(cp: nat) { cp > 0x10FFFF || 0xD800 <= cp <= 0xDBFF }

  ghost predicate AnyBad(cps: seq<nat>) { exists cp :: cp in cps && IsBad(cp) }

  ghost predicate AnyUpper(cps: seq<nat>) { exists cp :: cp in cps && IsUpper(cp) }

  ghost predicate AllBasic(cps: seq<nat>) { forall cp :: cp in cps ==> cp < 0x80 }

  function EncodeDigit(d: u32): (c: u8)
    ensures d < BASE ==> c == Digit(d) && DigitValue(c) == Some(d)
  {
    (d + 22 + 75 * (if d < 26 then 1 else 0)) % 0x100
  }

  /** Section 6.1 of RFC 3492, without leaving 64 bits. */
  method AdaptBias(delta: u64, numPoints: u64, firstTime: bool) returns (bias: u64)
    requires numPoints > 0
    ensures bias == Adapt(delta, numPoints, firstTime) && bias <= delta
    ensures var d := if firstTime then delta / 700 else delta / 2; bias == BiasIn(d + d / numPoints)
  {
    hide Settle, Damped, BiasIn;
    AdaptIs(delta, numPoints, firstTime);
    var d: u64 := if firstTime then delta / DAMP else delta / 2;
    DampedFits(delta, numPoints, firstTime, d);
    d := d + d / numPoints;
    bias := SettleLoop(d);
  }

  method SettleLoop(delta: u64) returns (bias: u64)
    ensures bias == Settle(delta, 0) && bias <= delta
  {
    hide Settle;
    var d: u64, k: u64 := delta, 0;
    while d > ((BASE - T_MIN) * T_MAX) / 2
      invariant Settle(d, k) == Settle(delta, 0)
      invariant k + d <= delta
    {
      SettleStep(d, k);
      d := d / (BASE - T_MIN);
      k := k + BASE;
    }
    SettleStep(d, k);
    SmallQuotient(d);
    bias := k + (BASE - T_MIN + 1) * d / (d + SKEW);
  }

  lemma DampedFits(delta: nat, numPoints: nat, firstTime: bool, d: nat)
    requires numPoints > 0 && d == if firstTime then delta / DAMP else delta / 2
    ensures Damped(delta, numPoints, firstTime) == d + d / numPoints <= delta
  {
    QuotientAtMost(d, numPoints);
  }

  lemma SettleStep(d: nat, k: nat)
    ensures Settle(d, k) == if d > 455 then Settle(d / 35, k + 36) else k + 36 * d / (d + 38)
  {}

  lemma QuotientAtMost(x: nat, n: nat)
    requires n > 0
    ensures x / n <= x
  {
    Bytes.DivisionFacts(x, n);
    Bytes.Product(x / n, x / n, 1, n);
  }

  lemma SmallQuotient(d: nat)
    ensures 36 * d / (d + 38) <= d
  {}

  /** What bounds k while the digits of q are written. */
  function Weight(q: nat): nat {
    if q >= 400 then q / 4 + 14400 else 36 * q
  }

  /** Writes the variable-length integer delta. */
  method EmitInt(dst: Text, delta: u64, bias: u64)
    modifies dst
    ensures dst.bytes == old(dst.bytes) + EncodeInt(delta, BASE, bias)
  {
    hide EncodeInt, Digit, DigitValue;
    var q: u64, k: u64 := delta, BASE;
    var t := ThresholdOf(k, bias);
    while q >= t
      invariant t == Threshold(k, bias)
      invariant k + Weight(q) <= BASE + Weight(delta)
      invariant dst.bytes + EncodeInt(q, k, bias) == old(dst.bytes) + EncodeInt(delta, BASE, bias)
      decreases q
    {
      EmitStep(q, k, bias, t);
      assert t + (q - t) % (BASE - t) == Low(q, t) && (q - t) / (BASE - t) == High(q, t);
      dst.PushBack(EncodeDigit(t + (q - t) % (BASE - t)));
      q := (q - t) / (BASE - t);
      k := k + BASE;
      t := ThresholdOf(k, bias);
    }
    EmitStep(q, k, bias, t);
    dst.PushBack(EncodeDigit(q));
  }

  /** The sum bias + T_MAX wraps only where k is below bias. */
  method ThresholdOf(k: u64, bias: u64) returns (t: u64)
    requires k < TWO_64 / 2
    ensures t == Threshold(k, bias)
  {
    t := if k <= bias then T_MIN else if k >= Wrap64(bias + T_MAX) then T_MAX else k - bias;
  }

  lemma EmitStep(q: nat, k: nat, bias: nat, t: nat)
    requires t == Threshold(k, bias)
    ensures q < t ==> EncodeInt(q, k, bias) == [EncodeDigit(q)]
    ensures q >= t ==>
      && EncodeInt(q, k, bias) == [EncodeDigit(Low(q, t))] + EncodeInt(High(q, t), k + BASE, bias)
      && 2 * High(q, t) < q && BASE + Weight(High(q, t)) <= Weight(q)
  {
    hide Low, High;
  }

  // ----- the encoder's loops -----

  /** The basic code points in lower case, as bytes. */
  function Basics(cps: seq<nat>): (bytes: seq<u8>)
    ensures bytes == Below(cps, 0x80)
    ensures forall c :: c in bytes ==> c < 0x80 && !IsUpper(c)
  {
    if cps == [] then []
    else if cps[0] < 0x80 then [Lower(cps[0])] + Basics(cps[1..])
    else Basics(cps[1..])
  }

  /** Where the encoder stands: digits are written, and have brought a decoder that
      started with the basic code points to s. */
  ghost predicate Encoding(cps: seq<nat>, digits: seq<u8>, n: nat, p: nat, s: State, delta: nat, bias: nat, h: nat, b: nat) {
    && Scanning(cps, n, p, s, delta)
    && Reaches(Initial(Basics(cps)), digits, s)
    && (forall c :: c in digits ==> Plain(c))
    && h == |s.output| && b <= h && (s.i == 0 <==> h == b)
    && bias == s.bias <= SPAN
  }

  lemma EncodingStarts(cps: seq<nat>)
    ensures var b := |Basics(cps)|;
      Encoding(cps, [], 0x80, 0, Initial(Basics(cps)), 0, 72, b, b)
  {
    Start(cps);
    ReachesItself(Initial(Basics(cps)));
  }

  lemma EncodingPasses(cps: seq<nat>, digits: seq<u8>, n: nat, p: nat, s: State, delta: nat, bias: nat, h: nat, b: nat)
    requires Encoding(cps, digits, n, p, s, delta, bias, h, b) && p < |cps| && cps[p] != n
    ensures Encoding(cps, digits, n, p + 1, s, if cps[p] < n then delta + 1 else delta, bias, h, b)
  {
    hide Scanning, Reaches, Plain;
    if cps[p] < n {
      PassLess(cps, n, p, s, delta);
    } else {
      PassGreater(cps, n, p, s, delta);
    }
  }

  lemma EncodingEmits(cps: seq<nat>, digits: seq<u8>, n: nat, p: nat, s: State, delta: nat, bias: nat, h: nat, b: nat, bias': nat)
    requires Encoding(cps, digits, n, p, s, delta, bias, h, b) && p < |cps| && cps[p] == n
    requires bias' == Adapt(delta, h + 1, h == b) <= SPAN
    ensures Encoding(cps, digits + EncodeInt(delta, BASE, bias), n, p + 1, Insert(s, s.i + delta), 0, bias', h + 1, b)
  {
    hide Scanning, Reaches, Plain, Insert;
    PassEqual(cps, n, p, s, delta);
    ReachesFurther(Initial(Basics(cps)), digits, s, delta);
    IntIsPlain(delta, BASE, bias);
  }

  lemma EncodingEnds(cps: seq<nat>, digits: seq<u8>, n: nat, s: State, delta: nat, bias: nat, h: nat, b: nat)
    requires Encoding(cps, digits, n, |cps|, s, delta, bias, h, b)
    ensures Encoding(cps, digits, n + 1, 0, s, delta + 1, bias, h, b)
  {
    PassEnds(cps, n, s, delta);
  }

  /** The decoder's way from n to m adds a full round of places for every code point. */
  function Farther(delta: nat, n: nat, m: nat, h: nat): nat
    requires n <= m
  {
    Bytes.Product(0, m - n, 0, h + 1);
    delta + (m - n) * (h + 1)
  }

  lemma EncodingJumps(cps: seq<nat>, digits: seq<u8>, n: nat, m: nat, s: State, delta: nat, bias: nat, h: nat, b: nat)
    requires Encoding(cps, digits, n, 0, s, delta, bias, h, b)
    requires n <= m && forall cp :: cp in cps ==> !(n <= cp < m)
    ensures Encoding(cps, digits, m, 0, s, Farther(delta, n, m, h), bias, h, b)
  {
    Jump(cps, n, m, s, delta);
  }

  lemma EncodingBounded(cps: seq<nat>, digits: seq<u8>, n: nat, p: nat, s: State, delta: nat, bias: nat, h: nat, b: nat)
    requires Encoding(cps, digits, n, p, s, delta, bias, h, b) && n <= 0x110000 && |cps| < 0x7FF_FFFF_FFFF
    ensures h <= |cps| && delta <= SPAN && bias <= SPAN && p <= |cps|
  {
    hide Reaches, Plain;
    DeltaBounded(cps, n, p, s, delta);
  }

  lemma EncodingDone(cps: seq<nat>, digits: seq<u8>, n: nat, s: State, delta: nat, bias: nat, h: nat, b: nat)
    requires Encoding(cps, digits, n, 0, s, delta, bias, h, b)
    ensures h < |cps| ==> exists cp :: cp in cps && cp >= n
    ensures h >= |cps| ==> IsLabelOf(Label(cps, digits), cps)
  {
    hide Scanning, Reaches, Decode;
    ScanningLength(cps, n, s, delta);
    LabelDecodes(Basics(cps), digits, s);
  }

  /** The basic code points, the delimiter if there are any, and the digits. */
  function Label(cps: seq<nat>, digits: seq<u8>): seq<u8> {
    (if Basics(cps) == [] then [] else Basics(cps) + [DELIMITER]) + digits
  }

  /** Reading the code points of a label: before the loop body, cp is the one at p. */
  ghost predicate Reading(t: Utf8Traversor, cps: seq<nat>, p: nat, cp: nat)
    reads t
  {
    if cp == 0 then p == |cps|
    else p < |cps| && cp == cps[p] && t.Valid() && t.Rest() == cps[p + 1..]
  }

  method ReadNext(t: Utf8Traversor, ghost cps: seq<nat>, ghost p: nat) returns (cp: u32)
    requires p <= |cps| && t.Valid() && t.Rest() == cps[p..]
    modifies t
    ensures Reading(t, cps, p, cp)
  {
    cp := t.Advance();
    assert cps[p..] != [] ==> cps[p..][1..] == cps[p + 1..];
  }

  lemma ReadingMeans(t: Utf8Traversor, cps: seq<nat>, p: nat, cp: nat)
    requires Reading(t, cps, p, cp)
    ensures if cp == 0 then p == |cps| else p < |cps| && cp == cps[p]
  {}

  method ReadOn(t: Utf8Traversor, ghost cps: seq<nat>, ghost p: nat, cp0: u32) returns (cp: u32)
    requires cp0 != 0 && Reading(t, cps, p, cp0)
    modifies t
    ensures Reading(t, cps, p + 1, cp)
  {
    cp := ReadNext(t, cps, p + 1);
  }

  method ReadFirst(t: Utf8Traversor, ghost cps: seq<nat>) returns (cp: u32)
    requires cps == t.Source()
    modifies t
    ensures Reading(t, cps, 0, cp)
  {
    t.Reset();
    assert cps[0..] == cps;
    cp := ReadNext(t, cps, 0);
  }

  lemma CountStep(cps: seq<nat>, p: nat)
    requires p < |cps|
    ensures |Below(cps[..p + 1], 0x80)| == |Below(cps[..p], 0x80)| + if cps[p] < 0x80 then 1 else 0
    ensures Basics(cps[..p + 1]) == Basics(cps[..p]) + if cps[p] < 0x80 then [Lower(cps[p])] else []
    ensures |Below(cps[..p + 1], 0x80)| <= |Below(cps, 0x80)|
  {
    BelowStep(cps, 0x80, p);
    assert cps == cps[..p + 1] + cps[p + 1..];
    BelowConcat(cps[..p + 1], cps[p + 1..], 0x80);
  }

  /** What the first loop finds out. */
  ghost predicate Counted(cps: seq<nat>, p: nat, basicPrefix: nat, hasBasicUpper: bool, count: nat)
    requires p <= |cps|
  {
    && count == p && basicPrefix == |Below(cps[..p], 0x80)|
    && (hasBasicUpper <==> AnyUpper(cps[..p])) && !AnyBad(cps[..p])
  }

  lemma CountedNext(cps: seq<nat>, p: nat, basicPrefix: nat, hasBasicUpper: bool, count: nat)
    requires p < |cps| && Counted(cps, p, basicPrefix, hasBasicUpper, count)
    ensures IsBad(cps[p]) ==> AnyBad(cps)
    ensures !IsBad(cps[p]) ==>
      Counted(cps, p + 1, basicPrefix + (if cps[p] < 0x80 then 1 else 0), hasBasicUpper || IsUpper(cps[p]), count + 1)
  {
    CountStep(cps, p);
    assert cps[p] in cps;
    assert forall cp :: cp in cps[..p + 1] <==> cp in cps[..p] || cp == cps[p] by {
      assert cps[..p + 1] == cps[..p] + [cps[p]];
    }
  }

  method CountPoints(t: Utf8Traversor, ghost cps: seq<nat>)
    returns (bad: bool, basicPrefix: u64, hasBasicUpper: bool, srcCodepoints: u64)
    requires t.Valid() && t.Rest() == cps && |cps| < TWO_64
    modifies t
    ensures bad <==> AnyBad(cps)
    ensures !bad ==> Counted(cps, |cps|, basicPrefix, hasBasicUpper, srcCodepoints)
  {
    hide Counted, Utf8.Points, Utf8.Reads;
    bad, basicPrefix, hasBasicUpper, srcCodepoints := false, 0, false, 0;
    ghost var p: nat := 0;
    assert cps[0..] == cps;
    var cp: u32 := ReadNext(t, cps, 0);
    CountedNone(cps);
    while cp != 0
      invariant Reading(t, cps, p, cp) && p <= |cps|
      invariant Counted(cps, p, basicPrefix, hasBasicUpper, srcCodepoints)
      decreases |cps| - p
    {
      CountedMeans(cps, p, basicPrefix, hasBasicUpper, srcCodepoints);
      CountedNext(cps, p, basicPrefix, hasBasicUpper, srcCodepoints);
      srcCodepoints := srcCodepoints + 1;
      if cp < 0x80 {
        hasBasicUpper := hasBasicUpper || IsUpper(cp);
        basicPrefix := basicPrefix + 1;
      } else if cp > 0x10FFFF || (cp >= 0xD800 && cp <= 0xDBFF) {
        return true, basicPrefix, hasBasicUpper, srcCodepoints;
      }
      p := p + 1;
      cp := ReadNext(t, cps, p);
    }
    CountedMeans(cps, p, basicPrefix, hasBasicUpper, srcCodepoints);
    assert cps[..|cps|] == cps;
  }

  lemma CountedNone(cps: seq<nat>)
    ensures Counted(cps, 0, 0, false, 0)
  {}

  lemma CountedMeans(cps: seq<nat>, p: nat, basicPrefix: nat, hasBasicUpper: bool, count: nat)
    requires p <= |cps| && Counted(cps, p, basicPrefix, hasBasicUpper, count)
    ensures count == p && basicPrefix <= p && !AnyBad(cps[..p])
  {
    BelowLength(cps[..p], 0x80);
  }

  /** m is the least of the code points from n on, or the largest 64-bit number. */
  ghost predicate IsNext(cps: seq<nat>, n: nat, m: nat) {
    && n <= m && (m in cps || m == TWO_64 - 1)
    && forall cp :: cp in cps ==> !(n <= cp < m)
  }

  /** The code points and delimiter that the first search writes, after p code points. */
  ghost function BasicsWritten(cps: seq<nat>, p: nat): seq<u8>
    requires p <= |cps|
  {
    Basics(cps[..p]) + if |Basics(cps[..p])| == |Basics(cps)| then [DELIMITER] else []
  }

  lemma WrittenStep(cps: seq<nat>, p: nat)
    requires p < |cps|
    ensures var left := |Basics(cps)| - |Basics(cps[..p])|;
      && |Basics(cps)| - |Basics(cps[..p + 1])| == left - (if cps[p] < 0x80 then 1 else 0) >= 0
      && BasicsWritten(cps, p + 1) ==
           BasicsWritten(cps, p) + if cps[p] >= 0x80 then [] else [Lower(cps[p])] + if left == 1 then [DELIMITER] else []
  {
    hide Below, Basics;
    CountStep(cps, p);
    BasicsFall(cps, p + 1);
  }

  lemma BasicsFall(cps: seq<nat>, p: nat)
    requires p <= |cps|
    ensures |Basics(cps[..p])| <= |Basics(cps)|
  {
    hide Below;
    assert cps == cps[..p] + cps[p..];
    BelowConcat(cps[..p], cps[p..], 0x80);
  }

  /** A basic code point is written, and the delimiter behind the last one. */
  method WriteBasic(dst: Text, cp: u32, basicPrefix: u64) returns (left: u64)
    requires basicPrefix > 0
    modifies dst
    ensures left == basicPrefix - if cp < 0x80 then 1 else 0
    ensures dst.bytes == old(dst.bytes) + if cp >= 0x80 then [] else [Lower(cp)] + if left == 0 then [DELIMITER] else []
  {
    left := basicPrefix;
    if cp < 0x80 {
      dst.PushBack(Lower(cp));
      left := left - 1;
      if left == 0 {
        dst.PushBack(DELIMITER);
      }
    }
  }

  /** The search for the next code point.  The first one writes the basic ones. */
  method FindNext(t: Utf8Traversor, dst: Text, ghost cps: seq<nat>, n: u64, basics: u64) returns (m: u64, basicPrefix: u64)
    requires cps == t.Source() && n < TWO_64 - 1
    requires basics == 0 || basics == |Basics(cps)|
    requires forall cp :: cp in cps ==> cp <= 0x10FFFF
    modifies t, dst
    ensures IsNext(cps, n, m) && basicPrefix == 0
    ensures dst.bytes == old(dst.bytes) + if basics == 0 then [] else Basics(cps) + [DELIMITER]
  {
    hide Utf8.Points, Utf8.Reads, Below, Basics, AnyBad, BasicsWritten, Seeking, Reading;
    m, basicPrefix := TWO_64 - 1, basics;
    ghost var p: nat := 0;
    var cp: u32 := ReadFirst(t, cps);
    NoBasics(cps);
    SeekingStarts(cps, n);
    while cp != 0
      invariant Reading(t, cps, p, cp) && p <= |cps|
      invariant Seeking(cps, p, n, m)
      invariant basics == 0 ==> basicPrefix == 0 && dst.bytes == old(dst.bytes)
      invariant basics > 0 ==> basicPrefix == |Basics(cps)| - |Basics(cps[..p])|
      invariant basics > 0 ==> dst.bytes == old(dst.bytes) + BasicsWritten(cps, p)
      decreases |cps| - p
    {
      ReadingMeans(t, cps, p, cp);
      WrittenStep(cps, p);
      SeekingStep(cps, p, n, m);
      if basicPrefix > 0 {
        basicPrefix := WriteBasic(dst, cp, basicPrefix);
      }
      if cp >= n && cp < m {
        m := cp;
      }
      cp := ReadOn(t, cps, p, cp);
      p := p + 1;
    }
    ReadingMeans(t, cps, p, cp);
    assert cps[..p] == cps;
    SeekingEnds(cps, n, m);
    AllWritten(cps);
  }

  /** m is the least of the first p code points from n on, if there is one. */
  ghost predicate Seeking(cps: seq<nat>, p: nat, n: nat, m: nat)
    requires p <= |cps|
  {
    n <= m && (m in cps || m == TWO_64 - 1) && forall i :: 0 <= i < p ==> !(n <= cps[i] < m)
  }

  lemma SeekingStarts(cps: seq<nat>, n: u64)
    ensures Seeking(cps, 0, n, TWO_64 - 1)
  {}

  lemma SeekingStep(cps: seq<nat>, p: nat, n: nat, m: nat)
    requires p < |cps| && Seeking(cps, p, n, m)
    ensures Seeking(cps, p + 1, n, if n <= cps[p] < m then cps[p] else m)
  {}

  lemma SeekingEnds(cps: seq<nat>, n: nat, m: nat)
    requires Seeking(cps, |cps|, n, m)
    ensures IsNext(cps, n, m)
  {}

  lemma AllWritten(cps: seq<nat>)
    ensures BasicsWritten(cps, |cps|) == Basics(cps) + [DELIMITER]
  {
    assert cps[..|cps|] == cps;
  }

  lemma NoBasics(cps: seq<nat>)
    ensures Basics(cps[..0]) == [] && (|Basics(cps)| > 0 ==> BasicsWritten(cps, 0) == [])
  {}

  /** One pass over the label, encoding its code points n.  The decoder's state and the
      digits written so far are carried along. */
  method EncodePass(t: Utf8Traversor, dst: Text, ghost cps: seq<nat>, n: u64, delta0: u64, bias0: u64, h0: u64, b: u64,
                    ghost head: seq<u8>, ghost digits0: seq<u8>, ghost s0: State)
    returns (delta: u64, bias: u64, h: u64, ghost digits: seq<u8>, ghost s: State)
    requires cps == t.Source() && |cps| < 0x7FF_FFFF_FFFF
    requires n <= 0x10FFFF && dst.bytes == head + digits0
    requires Encoding(cps, digits0, n, 0, s0, delta0, bias0, h0, b)
    modifies t, dst
    ensures Encoding(cps, digits, n, |cps|, s, delta, bias, h, b) && delta <= SPAN
    ensures dst.bytes == head + digits && h0 <= h <= |cps| && (n in cps ==> h0 < h)
  {
    hide Utf8.Points, Utf8.Reads, Encoding, EncodeInt, Adapt, Insert;
    delta, bias, h := delta0, bias0, h0;
    digits, s := digits0, s0;
    ghost var p: nat := 0;
    var cp: u32 := ReadFirst(t, cps);
    EncodingBounded(cps, digits, n, p, s, delta, bias, h, b);
    while cp != 0
      invariant Reading(t, cps, p, cp) && p <= |cps|
      invariant Encoding(cps, digits, n, p, s, delta, bias, h, b)
      invariant delta <= SPAN && bias <= SPAN && h <= |cps|
      invariant dst.bytes == head + digits && h0 <= h && (n in cps[..p] ==> h0 < h)
      decreases |cps| - p
    {
      if cp != n {
        EncodingPasses(cps, digits, n, p, s, delta, bias, h, b);
      }
      if cp < n {
        delta := delta + 1;
      }
      if cp == n {
        EmitInt(dst, delta, bias);
        ghost var e, bias' := EncodeInt(delta, BASE, bias), bias;
        bias := AdaptBias(delta, h + 1, h == b);
        EncodingEmits(cps, digits, n, p, s, delta, bias', h, b, bias);
        assert head + digits + e == head + (digits + e);
        digits, s := digits + e, Insert(s, s.i + delta);
        delta := 0;
        h := h + 1;
      }
      assert cps[..p + 1] == cps[..p] + [cps[p]];
      p := p + 1;
      EncodingBounded(cps, digits, n, p, s, delta, bias, h, b);
      cp := ReadNext(t, cps, p);
    }
    assert cps[..p] == cps;
  }

  datatype CanonicalizePartResult = Unneeded | BadOutput | Ok | BadInput

  const XN: seq<u8> := [0x78, 0x6E, 0x2D, 0x2D]

  /** The verdict on a label, from its code points. */
  ghost function Verdict(cps: seq<nat>, hasOutput: bool): CanonicalizePartResult {
    if AnyBad(cps) then BadInput
    else if AllBasic(cps) && !AnyUpper(cps) then Unneeded
    else if !hasOutput then BadOutput
    else Ok
  }

  /** The punycode label reads back as the source's code points in lower case, and is
      itself ASCII without capitals. */
  ghost predicate IsLabelOf(part: seq<u8>, cps: seq<nat>) {
    && Decode(part) == Some(LowerAll(cps))
    && forall c :: c in part ==> c < 0x80 && !IsUpper(c)
  }

  function LowerBytes(src: seq<u8>): seq<u8> { seq(|src|, i requires 0 <= i < |src| => Lower(src[i])) }

  /** The byte behind the text is read when the text ends in a byte announcing more. */
  method CanonicalizePart(src: seq<u8>, beyond: u8, dst: Text?) returns (res: CanonicalizePartResult)
    requires |Utf8.Points(Utf8.Reads(src, beyond))| < 0x7FF_FFFF_FFFF
    modifies if dst == null then {} else {dst}
    ensures var cps := Utf8.Points(Utf8.Reads(src, beyond));
      && res == Verdict(cps, dst != null)
      && (dst != null && res != Ok ==> dst.bytes == old(dst.bytes))
      && (dst != null && res == Ok && AllBasic(cps) ==> dst.bytes == old(dst.bytes) + LowerBytes(src))
      && (dst != null && res == Ok && !AllBasic(cps) ==>
            exists part :: dst.bytes == old(dst.bytes) + XN + part && IsLabelOf(part, cps))
      && (dst != null && res == Ok && !AllBasic(cps) ==>
            forall text: seq<u8> :: NoCapitals(text) && Decode(text) == Some(LowerAll(cps)) ==> dst.bytes == old(dst.bytes) + XN + text)
  {
    hide Utf8.Points, Utf8.Reads, AnyBad, AnyUpper, AllBasic, Counted, IsLabelOf;
    var srcTraversor := new Utf8Traversor(src, beyond);
    ghost var cps := srcTraversor.Source();
    var bad, basicPrefix, hasBasicUpper, srcCodepoints := CountPoints(srcTraversor, cps);
    if bad {
      return BadInput;
    }
    CountedAll(cps, basicPrefix, hasBasicUpper, srcCodepoints);
    if basicPrefix == srcCodepoints && !hasBasicUpper {
      return Unneeded;
    }
    if dst == null {
      return BadOutput;
    }
    if basicPrefix == srcCodepoints {
      for i := 0 to |src|
        invariant dst.bytes == old(dst.bytes) + LowerBytes(src)[..i]
      {
        dst.PushBack(Lower(src[i]));
      }
      return Ok;
    }
    dst.bytes := dst.bytes + XN;
    ghost var part := EncodeLabel(srcTraversor, dst, cps, basicPrefix, srcCodepoints);
    OnlyLabel(part, cps);
    res := Ok;
  }

  /** No other text without capitals decodes to the label. */
  lemma OnlyLabel(part: seq<u8>, cps: seq<nat>)
    requires IsLabelOf(part, cps)
    ensures forall text: seq<u8> :: NoCapitals(text) && Decode(text) == Some(LowerAll(cps)) ==> text == part
  {
    hide Decode;
    forall text: seq<u8> | NoCapitals(text) && Decode(text) == Some(LowerAll(cps))
      ensures text == part
    {
      DecodeUnique(text, part);
    }
  }

  /** A to Z become a to z. */
  function InLowerCase(cps: seq<nat>): seq<nat> {
    seq(|cps|, i requires 0 <= i < |cps| => if 65 <= cps[i] <= 90 then cps[i] + 32 else cps[i])
  }

  /** The same for a label in well-formed UTF-8, in numbers: what is appended is the one
      text without capitals that decodes to the label in lower case. */
  method CanonicalizeEncoded(cps: seq<Utf8.CodePoint>, beyond: u8, dst: Text?) returns (res: CanonicalizePartResult)
    requires 0 !in cps && |cps| < 0x7FF_FFFF_FFFF
    modifies if dst == null then {} else {dst}
    ensures res == if exists cp :: cp in cps && 0xD800 <= cp <= 0xDBFF then BadInput
      else if forall cp :: cp in cps ==> cp < 128 && !(65 <= cp <= 90) then Unneeded
      else if dst == null then BadOutput else Ok
    ensures dst != null && res != Ok ==> dst.bytes == old(dst.bytes)
    ensures dst != null && res == Ok && (forall cp :: cp in cps ==> cp < 128) ==> dst.bytes == old(dst.bytes) + InLowerCase(cps)
    ensures dst != null && res == Ok && (exists cp :: cp in cps && cp >= 128) ==>
      && (exists part :: dst.bytes == old(dst.bytes) + [120, 110, 45, 45] + part && IsLabelOf(part, cps))
      && (forall text: seq<u8> :: NoCapitals(text) && Decode(text) == Some(InLowerCase(cps)) ==>
            dst.bytes == old(dst.bytes) + [120, 110, 45, 45] + text)
  {
    hide Utf8.Points, Utf8.Reads, Utf8.EncodeAll, Decode;
    Utf8.PointsOfUtf8(cps);
    AsWritten(cps, beyond);
    if AllBasic(cps) {
      BasicEncoded(cps);
    }
    assert LowerAll(cps) == InLowerCase(cps);
    res := CanonicalizePart(Utf8.EncodeAll(cps), beyond, dst);
  }

  /** Every label of two code points that are not basic, in numbers. */
  method CanonicalizeTwo(a: Utf8.CodePoint, b: Utf8.CodePoint, beyond: u8, dst: Text) returns (res: CanonicalizePartResult)
    requires a >= 128 && b >= 128 && !(0xD800 <= a <= 0xDBFF) && !(0xD800 <= b <= 0xDBFF)
    modifies dst
    ensures res == Ok && dst.bytes == old(dst.bytes) + [120, 110, 45, 45] + TwoWritten(a, b)
  {
    hide Decode, TwoWritten, NoCapitals;
    TwoPoints(a, b);
    assert InLowerCase([a, b]) == [a, b];
    assert a in [a, b];
    res := CanonicalizeEncoded([a, b], beyond, dst);
  }

  /** Bytes E4 B8 AD E5 9B BD become xn--fiqs8s. */
  method CanonicalizeIdeographs(beyond: u8, dst: Text) returns (res: CanonicalizePartResult)
    modifies dst
    ensures res == Ok && dst.bytes == old(dst.bytes) + [120, 110, 45, 45, 102, 105, 113, 115, 56, 115]
  {
    hide Decode, Utf8.Points, Utf8.Reads;
    var src: seq<u8> := [0xE4, 0xB8, 0xAD, 0xE5, 0x9B, 0xBD];
    ghost var cps: seq<Utf8.CodePoint> := [0x4E2D, 0x56FD];
    Utf8.TwoEncoded(0x4E2D, 0x56FD);
    assert src == Utf8.EncodeAll(cps);
    AsWritten(cps, beyond);
    TwoIdeographs();
    NotBasic(cps);
    res := CanonicalizePart(src, beyond, dst);
    assert old(dst.bytes) + XN + TWO_IDEOGRAPHS_LABEL == old(dst.bytes) + [120, 110, 45, 45, 102, 105, 113, 115, 56, 115];
  }

  lemma NotBasic(cps: seq<nat>)
    requires cps != [] && cps[0] >= 128
    ensures !AllBasic(cps)
  {
    assert cps[0] in cps;
  }

  /** Sample (C) of section 7.1 of RFC 3492: xn--ihqwctvzc91f659drss3x8bo0yb. */
  method CanonicalizeChinese(beyond: u8, dst: Text) returns (res: CanonicalizePartResult)
    modifies dst
    ensures res == Ok && dst.bytes == old(dst.bytes) + [120, 110, 45, 45] + CHINESE_LABEL
  {
    hide Decode, NoCapitals;
    Chinese();
    var cps: seq<Utf8.CodePoint> := CHINESE;
    assert LowerAll(cps) == InLowerCase(cps) && cps[0] in cps;
    res := CanonicalizeEncoded(cps, beyond, dst);
  }

  /** Sample (L): xn--3b-ww4c5e180e575a65lsy2b, from a capital B. */
  method CanonicalizeYear(beyond: u8, dst: Text) returns (res: CanonicalizePartResult)
    modifies dst
    ensures res == Ok && dst.bytes == old(dst.bytes) + [120, 110, 45, 45] + YEAR_THREE_LABEL
  {
    hide Decode, NoCapitals;
    YearThree();
    var cps: seq<Utf8.CodePoint> := YEAR_THREE;
    assert LowerAll(cps) == InLowerCase(cps) && cps[1] in cps;
    res := CanonicalizeEncoded(cps, beyond, dst);
  }

  lemma AsWritten(cps: seq<Utf8.CodePoint>, beyond: u8)
    requires 0 !in cps
    ensures Utf8.Points(Utf8.Reads(Utf8.EncodeAll(cps), beyond)) == cps
    ensures AnyBad(cps) <==> exists cp :: cp in cps && 0xD800 <= cp <= 0xDBFF
  {
    hide Utf8.Points, Utf8.EncodeAll, Utf8.Readable;
    Utf8.PointsOfUtf8(cps);
  }

  lemma {:induction false} BasicEncoded(cps: seq<Utf8.CodePoint>)
    requires AllBasic(cps)
    ensures Utf8.EncodeAll(cps) == cps && LowerBytes(Utf8.EncodeAll(cps)) == LowerAll(cps)
  {
    if cps != [] {
      assert forall cp :: cp in cps[1..] ==> cp in cps;
      BasicEncoded(cps[1..]);
      assert cps[0] in cps;
      assert cps == [cps[0]] + cps[1..];
      assert Utf8.EncodeAll(cps) == cps;
    }
  }

  /** Low surrogates are encoded, where section 3 of RFC 3629 has no such code points. */
  lemma LowSurrogatesPass(cp: Utf8.CodePoint, beyond: u8)
    requires 0xDC00 <= cp <= 0xDFFF
    ensures Verdict(Utf8.Points(Utf8.Reads(Utf8.Encode(cp), beyond)), true) == Ok
    ensures Utf8.Encode(0xDC00) == [0xED, 0xB0, 0x80]
  {
    hide Utf8.Points, Utf8.Reads, Utf8.Encode;
    var cps: seq<Utf8.CodePoint> := [cp];
    assert Utf8.EncodeAll(cps) == Utf8.Encode(cp) by { assert cps[1..] == []; }
    AsWritten(cps, beyond);
    assert cp in cps;
    LowSurrogateBytes();
  }

  lemma LowSurrogateBytes()
    ensures Utf8.Encode(0xDC00) == [0xED, 0xB0, 0x80]
  {}

  lemma CountedAll(cps: seq<nat>, basicPrefix: nat, hasBasicUpper: bool, count: nat)
    requires Counted(cps, |cps|, basicPrefix, hasBasicUpper, count)
    ensures count == |cps| && basicPrefix == |Basics(cps)| <= count && (basicPrefix == count <==> AllBasic(cps))
    ensures (hasBasicUpper <==> AnyUpper(cps)) && !AnyBad(cps)
  {
    assert cps[..|cps|] == cps;
    BelowLength(cps, 0x80);
  }

  lemma NotBad(cps: seq<nat>)
    requires !AnyBad(cps)
    ensures forall cp :: cp in cps ==> cp <= 0x10FFFF
  {
    assert forall cp :: cp in cps ==> !IsBad(cp);
  }

  /** The loop over the code points of the label in increasing order. */
  method EncodeLabel(t: Utf8Traversor, dst: Text, ghost cps: seq<nat>, basicPrefix: u64, srcCodepoints: u64) returns (ghost part: seq<u8>)
    requires cps == t.Source() && |cps| < 0x7FF_FFFF_FFFF
    requires !AnyBad(cps) && basicPrefix == |Basics(cps)| < |cps| == srcCodepoints
    modifies t, dst
    ensures dst.bytes == old(dst.bytes) + part && IsLabelOf(part, cps)
  {
    hide Utf8.Points, Utf8.Reads, AnyBad, Encoding, Basics, IsLabelOf, Decode, Farther, Below;
    NotBad(cps);
    EncodingStarts(cps);
    var left: u64, b: u64, h: u64, delta: u64, bias: u64, n: u64 := basicPrefix, basicPrefix, basicPrefix, 0, 72, 0x80;
    ghost var s: State, digits: seq<u8> := Initial(Basics(cps)), [];
    ghost var head := old(dst.bytes);
    while h < srcCodepoints
      invariant n <= 0x110000 && h <= |cps| && delta <= SPAN + 1
      invariant left == 0 || left == basicPrefix
      invariant Encoding(cps, digits, n, 0, s, delta, bias, h, b)
      invariant dst.bytes == head + digits
      invariant head == old(dst.bytes) + if left == 0 then Label(cps, []) else []
      invariant left != 0 ==> digits == [] && h == basicPrefix
      decreases srcCodepoints - h
    {
      EncodingDone(cps, digits, n, s, delta, bias, h, b);
      var m: u64;
      head := head + if left == 0 then [] else Basics(cps) + [DELIMITER];
      m, left := FindNext(t, dst, cps, n, left);
      EncodingJumps(cps, digits, n, m, s, delta, bias, h, b);
      EncodingBounded(cps, digits, m, 0, s, Farther(delta, n, m, h), bias, h, b);
      delta := Farther(delta, n, m, h);
      n := m;
      delta, bias, h, digits, s := EncodePass(t, dst, cps, n, delta, bias, h, b, head, digits, s);
      EncodingEnds(cps, digits, n, s, delta, bias, h, b);
      delta, n := delta + 1, n + 1;
    }
    EncodingDone(cps, digits, n, s, delta, bias, h, b);
    part := Label(cps, digits);
    assert Label(cps, digits) == Label(cps, []) + digits;
  }
}
