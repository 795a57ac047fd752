/** RFC 3492: the decoder of section 6.2, and the variable-length integers of section
    3.3 that it inverts.  A code point is a nat, a text is a sequence of ASCII bytes. */
module Punycode {
  import opened Options
  import opened MachineInts

  const BASE: nat := 36
  const T_MIN: nat := 1
  const T_MAX: nat := 26
  const SKEW: nat := 38
  const DAMP: nat := 700
  const INITIAL_BIAS: nat := 72
  const INITIAL_N: nat := 0x80
  const DELIMITER: u8 := 0x2D

  /** The value of a digit in either case, section 5. */
  function DigitValue(c: u8): Option<nat> {
    if 0x61 <= c <= 0x7A then Some(c - 0x61)
    else if 0x41 <= c <= 0x5A then Some(c - 0x41)
    else if 0x30 <= c <= 0x39 then Some(c - 0x30 + 26)
    else None
  }

  /** The digit the encoder writes. */
  function Digit(d: nat): u8
    requires d < BASE
  {
    if d < 26 then 0x61 + d else 0x30 + (d - 26)
  }

  function Threshold(k: nat, bias: nat): (t: nat)
    ensures T_MIN <= t <= T_MAX
  {
    if k <= bias then T_MIN else if k >= bias + T_MAX then T_MAX else k - bias
  }

  /** The division loop of section 6.1. */
  function Settle(delta: nat, k: nat): nat
    decreases delta
  {
    if delta > 455 then Settle(delta / 35, k + 36) else k + 36 * delta / (delta + 38)
  }

  function Damped(delta: nat, numPoints: nat, firstTime: bool): nat
    requires numPoints > 0
  {
    var d := if firstTime then delta / DAMP else delta / 2;
    d + d / numPoints
  }

  function Adapt(delta: nat, numPoints: nat, firstTime: bool): nat
    requires numPoints > 0
  {
    Settle(Damped(delta, numPoints, firstTime), 0)
  }

  // ----- the decoder -----

  /** Reads one integer: i plus w times the digits' value, and what follows it. */
  function DecodeInt(text: seq<u8>, k: nat, bias: nat, w: nat, i: nat): Option<(nat, seq<u8>)>
    decreases |text|
  {
    if text == [] || DigitValue(text[0]).None? then None else
      var digit := DigitValue(text[0]).value;
      var t := Threshold(k, bias);
      if digit < t then Some((i + digit * w, text[1..]))
      else DecodeInt(text[1..], k + BASE, bias, w * (BASE - t), i + digit * w)
  }

  lemma {:induction false} DecodeIntConsumes(text: seq<u8>, k: nat, bias: nat, w: nat, i: nat)
    ensures var r := DecodeInt(text, k, bias, w, i); r.Some? ==> |r.value.1| < |text| && i <= r.value.0
    decreases |text|
  {
    if text != [] && DigitValue(text[0]).Some? && DigitValue(text[0]).value >= Threshold(k, bias) {
      var digit := DigitValue(text[0]).value;
      DecodeIntConsumes(text[1..], k + BASE, bias, w * (BASE - Threshold(k, bias)), i + digit * w);
    }
  }

  /** The variables of the decoder. */
  datatype State = State(n: nat, i: nat, bias: nat, output: seq<nat>)

  /** The integer read brought i to j: the code point it stands for goes in. */
  function Insert(s: State, j: nat): State
    requires s.i <= j
  {
    var len := |s.output| + 1;
    State(s.n + j / len, j % len + 1, Adapt(j - s.i, len, s.i == 0),
          s.output[..j % len] + [s.n + j / len] + s.output[j % len..])
  }

  function Run(s: State, text: seq<u8>): Option<seq<nat>>
    decreases |text|
  {
    if text == [] then Some(s.output) else
      DecodeIntConsumes(text, BASE, s.bias, 1, s.i);
      match DecodeInt(text, BASE, s.bias, 1, s.i)
      case None => None
      case Some((j, rest)) => Run(Insert(s, j), rest)
  }

  /** The position of the last delimiter, or 0. */
  function LastDelimiter(text: seq<u8>): (p: nat)
    ensures p <= |text|
  {
    if text == [] then 0
    else if text[|text| - 1] == DELIMITER then |text| - 1
    else LastDelimiter(text[..|text| - 1])
  }

  function Initial(output: seq<nat>): State {
    State(INITIAL_N, 0, INITIAL_BIAS, output)
  }

  /** The decoder of section 6.2. */
  function Decode(text: seq<u8>): Option<seq<nat>> {
    var p := LastDelimiter(text);
    var basic, rest := text[..p], if p > 0 then text[p + 1..] else text;
    if exists c :: c in basic && c >= 0x80 then None else Run(Initial(basic), rest)
  }

  // ----- the integers it reads -----

  /** The digit and the remaining integer, for q at or above the threshold t. */
  function Low(q: nat, t: nat): (d: nat)
    requires T_MIN <= t <= T_MAX && t <= q
    ensures t <= d < BASE
  {
    t + (q - t) % (BASE - t)
  }

  function High(q: nat, t: nat): (r: nat)
    requires T_MIN <= t <= T_MAX && t <= q
    ensures 2 * r < q
  {
    Shrinks(q - t, BASE - t);
    (q - t) / (BASE - t)
  }

  lemma Shrinks(x: nat, m: nat)
    requires m >= 2
    ensures 2 * (x / m) <= x
  {
    var r := x / m;
    assert x == r * m + x % m;
    assert r * m >= r * 2;
  }

  /** The digits of q, section 3.3. */
  function EncodeInt(q: nat, k: nat, bias: nat): seq<u8>
    decreases q
  {
    var t := Threshold(k, bias);
    if q < t then [Digit(q)] else [Digit(Low(q, t))] + EncodeInt(High(q, t), k + BASE, bias)
  }

  lemma DigitRoundTrip(d: nat)
    requires d < BASE
    ensures DigitValue(Digit(d)) == Some(d)
  {}

  lemma DigitSplits(q: nat, t: nat, i: nat, w: nat)
    requires T_MIN <= t <= T_MAX && t <= q
    ensures w * (BASE - t) >= 0 && (i + Low(q, t) * w) + High(q, t) * (w * (BASE - t)) == i + q * w
  {
    var m := BASE - t;
    assert q - t == High(q, t) * m + (q - t) % m;
    Scale(q, Low(q, t), High(q, t), m, w);
  }

  lemma Scale(q: int, d: int, q': int, m: int, w: int)
    requires q == d + q' * m
    ensures q * w == d * w + q' * (w * m)
  {
    calc {
      q * w;
      (d + q' * m) * w;
      d * w + (q' * m) * w;
      { assert (q' * m) * w == q' * (w * m); }
      d * w + q' * (w * m);
    }
  }

  /** Reading back an integer gives the integer and leaves the rest. */
  lemma {:induction false} IntRoundTrip(q: nat, k: nat, bias: nat, w: nat, i: nat, rest: seq<u8>)
    ensures DecodeInt(EncodeInt(q, k, bias) + rest, k, bias, w, i) == Some((i + q * w, rest))
    decreases q
  {
    hide Low, High, Threshold, Digit, DigitValue, DecodeInt;
    var t := Threshold(k, bias);
    var text := EncodeInt(q, k, bias) + rest;
    if q < t {
      DigitRoundTrip(q);
      DecodeStep(text, q, k, bias, w, i);
      assert text[1..] == rest;
    } else {
      DigitSplits(q, t, i, w);
      DigitRoundTrip(Low(q, t));
      DecodeStep(text, Low(q, t), k, bias, w, i);
      assert text[1..] == EncodeInt(High(q, t), k + BASE, bias) + rest;
      IntRoundTrip(High(q, t), k + BASE, bias, w * (BASE - t), i + Low(q, t) * w, rest);
    }
  }

  /** The decoder reads one digit. */
  lemma DecodeStep(text: seq<u8>, digit: nat, k: nat, bias: nat, w: nat, i: nat)
    requires text != [] && DigitValue(text[0]) == Some(digit)
    ensures i + digit * w >= 0 && w * (BASE - Threshold(k, bias)) >= 0
    ensures DecodeInt(text, k, bias, w, i) == if digit < Threshold(k, bias) then Some((i + digit * w, text[1..]))
      else DecodeInt(text[1..], k + BASE, bias, w * (BASE - Threshold(k, bias)), i + digit * w)
  {
    hide DigitValue, Threshold;
  }

  /** What the encoder writes for an integer is lower-case letters and figures. */
  predicate Plain(c: u8) {
    0x61 <= c <= 0x7A || 0x30 <= c <= 0x39
  }

  lemma {:induction false} IntIsPlain(q: nat, k: nat, bias: nat)
    ensures forall c :: c in EncodeInt(q, k, bias) ==> Plain(c)
    decreases q
  {
    hide Low, High, Threshold;
    var t := Threshold(k, bias);
    if q >= t {
      IntIsPlain(High(q, t), k + BASE, bias);
    }
  }

  /** The decoder cuts where the encoder put its delimiter. */
  lemma {:induction false} DelimiterFound(basic: seq<u8>, digits: seq<u8>)
    requires forall c :: c in digits ==> Plain(c)
    ensures LastDelimiter(basic + [DELIMITER] + digits) == |basic|
    ensures LastDelimiter(digits) == 0
  {
    var text := basic + [DELIMITER] + digits;
    if digits != [] {
      var front := digits[..|digits| - 1];
      assert text[..|text| - 1] == basic + [DELIMITER] + front;
      assert text[|text| - 1] == digits[|digits| - 1] && Plain(digits[|digits| - 1]);
      DelimiterFound(basic, front);
    }
  }
}
