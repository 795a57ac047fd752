/** A decoder's output determines the lower-case text it was decoded from. */
module PunycodeUnique {
  import opened Options
  import opened MachineInts
  import opened Punycode
  import opened PunycodeOrder
  import Bytes

  predicate NoCapitals(s: seq<nat>) { forall c :: c in s ==> !(0x41 <= c <= 0x5A) }

  // ----- integers -----

  /** What was read is what is written for it. */
  lemma {:induction false} IntUnique(text: seq<u8>, k: nat, bias: nat, w: nat, i: nat) returns (q: nat)
    requires w > 0 && NoCapitals(text) && DecodeInt(text, k, bias, w, i).Some?
    ensures var (j, rest) := DecodeInt(text, k, bias, w, i).value;
      j == i + q * w && text == EncodeInt(q, k, bias) + rest && NoCapitals(rest)
    decreases |text|
  {
    hide EncodeInt, DecodeInt, Threshold, DigitValue, Digit, NoCapitals;
    IntStarts(text, k, bias, w, i);
    FirstPlain(text);
    DigitUnique(text[0]);
    var digit, t := DigitValue(text[0]).value, Threshold(k, bias);
    DecodeStep(text, digit, k, bias, w, i);
    if digit < t {
      LastDigit(digit, k, bias);
      q := digit;
    } else {
      Positive(w, BASE - t);
      var p := IntUnique(text[1..], k + BASE, bias, w * (BASE - t), i + digit * w);
      MoreDigits(digit, p, k, bias);
      ScaleUp(digit, p, BASE - t, w);
      q := digit + p * (BASE - t);
    }
  }

  lemma IntStarts(text: seq<u8>, k: nat, bias: nat, w: nat, i: nat)
    requires DecodeInt(text, k, bias, w, i).Some?
    ensures text != [] && DigitValue(text[0]).Some?
  {}

  lemma FirstPlain(text: seq<u8>)
    requires text != [] && NoCapitals(text)
    ensures !(0x41 <= text[0] <= 0x5A) && NoCapitals(text[1..]) && text == [text[0]] + text[1..]
  {
    assert text[0] in text && forall c :: c in text[1..] ==> c in text;
  }

  lemma ScaleUp(digit: nat, q: nat, m: nat, w: nat)
    ensures (digit + q * m) * w == digit * w + q * (w * m)
  {
    Scale(digit + q * m, digit, q, m, w);
  }

  lemma Positive(a: nat, b: nat)
    requires a > 0 && b > 0
    ensures a * b > 0
  {}

  lemma DigitUnique(c: u8)
    requires DigitValue(c).Some? && !(0x41 <= c <= 0x5A)
    ensures DigitValue(c).value < BASE && Digit(DigitValue(c).value) == c
  {}

  lemma LastDigit(d: nat, k: nat, bias: nat)
    requires d < Threshold(k, bias)
    ensures EncodeInt(d, k, bias) == [Digit(d)]
  {}

  lemma MoreDigits(d: nat, q: nat, k: nat, bias: nat)
    requires Threshold(k, bias) <= d < BASE
    ensures EncodeInt(d + q * (BASE - Threshold(k, bias)), k, bias) == [Digit(d)] + EncodeInt(q, k + BASE, bias)
  {
    var t := Threshold(k, bias);
    var v := d + q * (BASE - t);
    Bytes.QuotientUnique(v - t, BASE - t, q, d - t);
    assert Low(v, t) == d && High(v, t) == q;
  }

  // ----- the state of the decoder -----

  /** The output holds nothing above n, and n itself only before i. */
  ghost predicate Sound(s: State) {
    && s.i <= |s.output| && s.n >= INITIAL_N && NoCapitals(s.output)
    && forall m :: 0 <= m < |s.output| ==> s.output[m] <= s.n && (m >= s.i ==> s.output[m] < s.n)
  }

  /** The place r and the code point n of what is inserted. */
  lemma Inserted(s: State, j: nat, n: nat, r: nat)
    requires Sound(s) && s.i <= j && n >= s.n && r <= |s.output| && j == (n - s.n) * (|s.output| + 1) + r
    ensures Insert(s, j).(bias := 0) == State(n, r + 1, 0, s.output[..r] + [n] + s.output[r..])
    ensures Sound(Insert(s, j))
  {
    hide Adapt;
    var len := |s.output| + 1;
    Bytes.QuotientUnique(j, len, n - s.n, r);
    var t := Insert(s, j);
    forall m | 0 <= m < |t.output|
      ensures t.output[m] <= n && (m >= r + 1 ==> t.output[m] < n) && !(0x41 <= t.output[m] <= 0x5A)
    {
      if m > r {
        assert t.output[m] == s.output[m - 1] && s.output[m - 1] in s.output;
      } else if m < r {
        assert t.output[m] == s.output[m] && s.output[m] in s.output;
      }
    }
  }

  lemma Place(s: State, j: nat) returns (n: nat, r: nat)
    ensures n >= s.n && r <= |s.output| && j == (n - s.n) * (|s.output| + 1) + r
  {
    var len := |s.output| + 1;
    n, r := s.n + j / len, j % len;
    Bytes.DivisionFacts(j, len);
  }

  /** The output only grows. */
  lemma {:induction false} RunGrows(s: State, text: seq<u8>)
    requires Sound(s) && Run(s, text).Some?
    ensures |Run(s, text).value| >= |s.output| && (text != [] ==> |Run(s, text).value| > |s.output|)
    ensures NoCapitals(Run(s, text).value)
    decreases |text|
  {
    hide DecodeInt, Insert, Sound;
    SoundMeans(s);
    if text != [] {
      DecodeIntConsumes(text, BASE, s.bias, 1, s.i);
      var (j, rest) := DecodeInt(text, BASE, s.bias, 1, s.i).value;
      var n, r := Place(s, j);
      Inserted(s, j, n, r);
      RunGrows(Insert(s, j), rest);
    }
  }

  lemma SoundMeans(s: State)
    requires Sound(s)
    ensures NoCapitals(s.output)
  {}

  // ----- where an insertion went -----

  lemma BelowAll(a: seq<nat>, n: nat)
    requires NoCapitals(a) && forall m :: 0 <= m < |a| ==> a[m] < n
    ensures Below(a, n) == a
  {
    assert forall cp :: cp in a ==> cp < n;
    BelowLength(a, n);
    assert forall m :: 0 <= m < |a| ==> a[m] in a;
    assert LowerAll(a) == a;
  }

  lemma HeadOccurs(a: seq<nat>, n: nat)
    requires n >= 0x80 && a != [] && a[0] == n
    ensures n in Below(a, n + 1)
  {
    assert Below(a, n + 1)[0] == n;
  }

  lemma TailOccurs(a: seq<nat>, n: nat)
    requires a != []
    ensures n in Below(a[1..], n + 1) ==> n in Below(a, n + 1)
  {}

  /** Nothing is in between when n itself does not occur. */
  lemma {:induction false} BelowSame(a: seq<nat>, n: nat)
    requires n >= 0x80 && n !in Below(a, n + 1)
    ensures Below(a, n + 1) == Below(a, n)
  {
    if a != [] {
      if a[0] == n {
        HeadOccurs(a, n);
      } else {
        TailOccurs(a, n);
        BelowSame(a[1..], n);
      }
    }
  }

  /** The last one below n. */
  lemma {:induction false} LastBelow(a: seq<nat>, n: nat) returns (q: nat)
    requires Below(a, n) != []
    ensures q < |a| && a[q] < n && Below(a, n) == Below(a[..q], n) + [Lower(a[q])] && Below(a[q + 1..], n) == []
  {
    var m := |a| - 1;
    BelowStep(a, n, m);
    assert a[..|a|] == a && a[m + 1..] == [];
    if a[m] < n {
      q := m;
    } else {
      q := LastBelow(a[..m], n);
      assert a[..m][..q] == a[..q];
      assert a[q + 1..] == a[..m][q + 1..] + [a[m]];
      BelowConcat(a[..m][q + 1..], [a[m]], n);
    }
  }

  /** A prefix with so many below n. */
  lemma {:induction false} PrefixWith(a: seq<nat>, n: nat, i: nat) returns (p: nat)
    requires i <= |Below(a, n)|
    ensures p <= |a| && |Below(a[..p], n)| == i
  {
    if i == |Below(a, n)| {
      p := |a|;
      assert a[..p] == a;
    } else {
      var m := |a| - 1;
      BelowStep(a, n, m);
      assert a[..|a|] == a;
      p := PrefixWith(a[..m], n, i);
      assert a[..m][..p] == a[..p];
    }
  }

  /** Before the insertion of n at q. */
  lemma Unpass(out: seq<nat>, s: State, j: nat, n: nat, r: nat, p: nat) returns (q: nat)
    requires Sound(s) && s.i <= j && n >= s.n && r <= |s.output| && j == (n - s.n) * (|s.output| + 1) + r
    requires Scanning(out, n, p, Insert(s, j), 0)
    ensures q < |out| && out[q] == n && Scanning(out, n, q, s, j - s.i)
  {
    hide Below, Adapt;
    Inserted(s, j, n, r);
    var front := Below(out[..p], n + 1);
    var output := s.output[..r] + [n] + s.output[r..];
    assert |front| == r + 1;
    assert front == output[..r + 1] && Below(out[p..], n) == output[r + 1..];
    q := LastBelow(out[..p], n + 1);
    assert front[r] == n && front[..r] == s.output[..r];
    assert out[..p][..q] == out[..q];
    assert out[q..] == [out[q]] + out[q + 1..p] + out[p..];
    assert out[..p][q + 1..] == out[q + 1..p];
    NoneBetween(out, p, q, n);
    assert Below(out[q..], n) == s.output[r..];
    assert Below(out[..q], n + 1) == s.output[..r];
    assert s.output == s.output[..r] + s.output[r..];
  }

  lemma NoneBetween(out: seq<nat>, p: nat, q: nat, n: nat)
    requires n >= 0x80 && q < p <= |out| && out[q] >= n && Below(out[q + 1..p], n + 1) == []
    ensures Below(out[q..], n) == Below(out[p..], n)
  {
    BelowSame(out[q + 1..p], n);
    BelowConcat(out[q + 1..p], out[p..], n);
    assert out[q + 1..] == out[q + 1..p] + out[p..];
    BelowStep(out, n, q);
  }

  /** Where the decoder stood before the insertion, among the final output. */
  lemma Unscan(out: seq<nat>, s: State, n: nat, q: nat, delta: nat) returns (p: nat)
    requires Sound(s) && Scanning(out, n, q, s, delta) && q < |out| && out[q] == n
    ensures Scanning(out, s.n, p, s, 0)
  {
    hide Below;
    if n == s.n {
      p := UnscanHere(out, s, q, delta);
    } else {
      UnscanFar(out, s, n, q, delta);
      p := UnscanAll(out, s);
    }
  }

  /** n went in at a later place of the same round. */
  lemma UnscanHere(out: seq<nat>, s: State, q: nat, delta: nat) returns (p: nat)
    requires Sound(s) && Scanning(out, s.n, q, s, delta)
    ensures Scanning(out, s.n, p, s, 0)
  {
    hide Below;
    var n, front, back := s.n, Below(out[..q], s.n + 1), Below(out[q..], s.n);
    assert |front| == s.i + delta;
    p := PrefixWith(out[..q], n + 1, s.i);
    assert out[..q][..p] == out[..p] && out[..q] == out[..p] + out[p..q] && out[p..] == out[p..q] + out[q..];
    BelowConcat(out[..p], out[p..q], n + 1);
    BelowConcat(out[p..q], out[q..], n);
    var mid := Below(out[p..q], n + 1);
    assert forall m :: 0 <= m < |mid| ==> mid[m] == s.output[s.i + m];
    BelowSame(out[p..q], n);
  }

  /** n went in at a later round: all code points up to the decoder's were there. */
  lemma UnscanFar(out: seq<nat>, s: State, n: nat, q: nat, delta: nat)
    requires Sound(s) && Scanning(out, n, q, s, delta) && q < |out| && n > s.n
    ensures s.output == Below(out, s.n + 1)
  {
    hide Below;
    var front := Below(out[..q], n + 1);
    assert forall m :: 0 <= m < |front| ==> front[m] == s.output[m];
    BelowSame(out[..q], n);
    assert out == out[..q] + out[q..];
    BelowConcat(out[..q], out[q..], n);
    assert s.output == Below(out, n);
    BelowDown(out, s.n + 1, n);
  }

  /** Raising the bound adds nothing when nothing above the lower one is there. */
  lemma {:induction false} BelowDown(a: seq<nat>, m: nat, n: nat)
    requires 0x80 <= m <= n && forall i :: 0 <= i < |Below(a, n)| ==> Below(a, n)[i] < m
    ensures Below(a, m) == Below(a, n)
  {
    if a != [] {
      var b, c := Below(a, n), Below(a[1..], n);
      assert forall i :: 0 <= i < |c| ==> c[i] == b[i + |b| - |c|];
      BelowDown(a[1..], m, n);
      assert a[0] < n ==> b[0] == Lower(a[0]);
    }
  }

  lemma UnscanAll(out: seq<nat>, s: State) returns (p: nat)
    requires Sound(s) && s.output == Below(out, s.n + 1)
    ensures Scanning(out, s.n, p, s, 0)
  {
    hide Below;
    p := PrefixWith(out, s.n + 1, s.i);
    assert out == out[..p] + out[p..];
    BelowConcat(out[..p], out[p..], s.n + 1);
    var back := Below(out[p..], s.n + 1);
    assert forall m :: 0 <= m < |back| ==> back[m] == s.output[s.i + m];
    BelowSame(out[p..], s.n);
  }

  /** The first insertion of a run, told by the final output. */
  ghost predicate Inserts(out: seq<nat>, s: State, n: nat, q: nat, j: nat) {
    j >= s.i && q < |out| && out[q] == n && Scanning(out, n, q, s, j - s.i)
  }

  lemma {:induction false} RunPlaces(s: State, text: seq<u8>) returns (p: nat)
    requires Sound(s) && Run(s, text).Some?
    ensures Scanning(Run(s, text).value, s.n, p, s, 0)
    decreases |text|, 1
  {
    hide DecodeInt, Insert, Scanning, Sound;
    var out := Run(s, text).value;
    if text == [] {
      p := RunEnds(s);
    } else {
      var n, q := RunStep(s, text);
      var j := DecodeInt(text, BASE, s.bias, 1, s.i).value.0;
      InsertsMeans(out, s, n, q, j);
      p := Unscan(out, s, n, q, j - s.i);
    }
  }

  lemma InsertsMeans(out: seq<nat>, s: State, n: nat, q: nat, j: nat)
    requires Inserts(out, s, n, q, j)
    ensures j >= s.i && q < |out| && out[q] == n && Scanning(out, n, q, s, j - s.i)
  {}

  lemma RunEnds(s: State) returns (p: nat)
    requires Sound(s)
    ensures Scanning(s.output, s.n, p, s, 0)
  {
    hide Below, NoCapitals;
    p := s.i;
    PartsPlain(s);
    BelowAll(s.output[..p], s.n + 1);
    BelowAll(s.output[p..], s.n);
    assert s.output == s.output[..p] + s.output[p..];
  }

  lemma PartsPlain(s: State)
    requires Sound(s)
    ensures NoCapitals(s.output[..s.i]) && NoCapitals(s.output[s.i..])
  {
    assert (forall c :: c in s.output[..s.i] ==> c in s.output) && forall c :: c in s.output[s.i..] ==> c in s.output;
  }

  lemma {:induction false} RunStep(s: State, text: seq<u8>) returns (n: nat, q: nat)
    requires Sound(s) && text != [] && Run(s, text).Some?
    ensures DecodeInt(text, BASE, s.bias, 1, s.i).Some?
    ensures Inserts(Run(s, text).value, s, n, q, DecodeInt(text, BASE, s.bias, 1, s.i).value.0)
    decreases |text|, 0
  {
    hide DecodeInt, Insert, Scanning, Sound;
    DecodeIntConsumes(text, BASE, s.bias, 1, s.i);
    var (j, rest) := DecodeInt(text, BASE, s.bias, 1, s.i).value;
    var r;
    n, r := Place(s, j);
    Inserted(s, j, n, r);
    var p := RunPlaces(Insert(s, j), rest);
    q := Unpass(Run(s, text).value, s, j, n, r, p);
  }

  // ----- only one text -----

  /** An earlier insertion would have left out more. */
  lemma NotBefore(out: seq<nat>, s: State, n: nat, q: nat, n': nat, q': nat, d: nat, d': nat)
    requires Scanning(out, n, q, s, d) && Scanning(out, n', q', s, d') && q < |out| && out[q] == n && q' < |out|
    ensures !(n < n') && !(n == n' && q < q')
  {
    hide Below;
    BelowStep(out, n, q);
    BelowStep(out, n', q);
    Counted(out[..q], n + 1, n');
    if n < n' {
      Counted(out[..q], n + 1, n');
      Counted(out[q + 1..], n, n');
      Counted(out[..q'], n', n' + 1);
      assert out == out[..q] + out[q..] && out == out[..q'] + out[q'..];
      BelowConcat(out[..q], out[q..], n');
      BelowConcat(out[..q'], out[q'..], n');
    } else if n == n' && q < q' {
      assert out[..q'] == out[..q] + out[q..q'] && out[q..] == out[q..q'] + out[q'..];
      BelowConcat(out[..q], out[q..q'], n + 1);
      BelowConcat(out[q..q'], out[q'..], n);
      MoreHere(out[q..q'], n);
    }
  }

  lemma {:induction false} Counted(a: seq<nat>, m: nat, n: nat)
    ensures m <= n ==> |Below(a, m)| <= |Below(a, n)|
  {
    if a != [] {
      Counted(a[1..], m, n);
    }
  }

  lemma MoreHere(a: seq<nat>, n: nat)
    requires a != [] && a[0] == n
    ensures |Below(a, n)| < |Below(a, n + 1)|
  {
    Counted(a[1..], n, n + 1);
  }

  lemma {:induction false} RunUnique(s: State, x: seq<u8>, y: seq<u8>)
    requires Sound(s) && NoCapitals(x) && NoCapitals(y)
    requires Run(s, x).Some? && Run(s, x) == Run(s, y)
    ensures x == y
    decreases |x|
  {
    hide DecodeInt, Insert, Scanning, Sound;
    RunGrows(s, x);
    RunGrows(s, y);
    if x != [] && y != [] {
      var out := Run(s, x).value;
      var n, q := RunStep(s, x);
      var n', q' := RunStep(s, y);
      DecodeIntConsumes(x, BASE, s.bias, 1, s.i);
      DecodeIntConsumes(y, BASE, s.bias, 1, s.i);
      var (j, rest) := DecodeInt(x, BASE, s.bias, 1, s.i).value;
      var (j', rest') := DecodeInt(y, BASE, s.bias, 1, s.i).value;
      SameInsertion(out, s, n, q, j, n', q', j');
      var k := IntUnique(x, BASE, s.bias, 1, s.i);
      var k' := IntUnique(y, BASE, s.bias, 1, s.i);
      var m, r := Place(s, j);
      Inserted(s, j, m, r);
      RunUnique(Insert(s, j), rest, rest');
    }
  }

  lemma SameInsertion(out: seq<nat>, s: State, n: nat, q: nat, j: nat, n': nat, q': nat, j': nat)
    requires Inserts(out, s, n, q, j) && Inserts(out, s, n', q', j')
    ensures j == j'
  {
    hide Below;
    NotBefore(out, s, n, q, n', q', j - s.i, j' - s.i);
    NotBefore(out, s, n', q', n, q, j' - s.i, j - s.i);
  }

  // ----- labels -----

  /** The decoded text without capitals, in its two parts. */
  ghost predicate IsLabel(basic: seq<u8>, digits: seq<u8>, out: seq<nat>) {
    && (forall c :: c in basic ==> c < 0x80) && NoCapitals(basic) && NoCapitals(digits)
    && Run(Initial(basic), digits) == Some(out)
  }

  lemma Parts(text: seq<u8>) returns (basic: seq<u8>, digits: seq<u8>)
    requires Decode(text).Some? && NoCapitals(text)
    ensures IsLabel(basic, digits, Decode(text).value)
    ensures text == if basic == [] then digits else basic + [DELIMITER] + digits
  {
    hide Run;
    var p := LastDelimiter(text);
    LastDelimiterIs(text);
    basic, digits := text[..p], if p > 0 then text[p + 1..] else text;
    assert (forall c :: c in basic ==> c in text) && forall c :: c in digits ==> c in text;
  }

  lemma {:induction false} LastDelimiterIs(text: seq<u8>)
    ensures LastDelimiter(text) > 0 ==> LastDelimiter(text) < |text| && text[LastDelimiter(text)] == DELIMITER
  {
    if text != [] && text[|text| - 1] != DELIMITER {
      LastDelimiterIs(text[..|text| - 1]);
    }
  }

  lemma BasicIsSound(basic: seq<u8>)
    requires (forall c :: c in basic ==> c < 0x80) && NoCapitals(basic)
    ensures Sound(Initial(basic))
  {
    assert forall m :: 0 <= m < |basic| ==> basic[m] in basic;
  }

  /** The basic part is what is basic of the output. */
  lemma BasicPart(basic: seq<u8>, digits: seq<u8>, out: seq<nat>)
    requires IsLabel(basic, digits, out)
    ensures basic == Below(out, 0x80)
  {
    hide Run, Sound, NoCapitals;
    BasicIsSound(basic);
    var p := RunPlaces(Initial(basic), digits);
    AtInitial(basic, out, p);
  }

  lemma AtInitial(basic: seq<u8>, out: seq<nat>, p: nat)
    requires Scanning(out, INITIAL_N, p, Initial(basic), 0)
    ensures basic == Below(out, 0x80)
  {
    var front := out[..p];
    assert Below(front, 0x81) == [];
    NotBefore128(front);
    assert out == front + out[p..];
    BelowConcat(front, out[p..], 0x80);
  }

  lemma NotBefore128(a: seq<nat>)
    requires Below(a, 0x81) == []
    ensures Below(a, 0x80) == []
  {
    BelowSame(a, 0x80);
  }

  /** Two texts without capitals that decode to the same are the same. */
  lemma DecodeUnique(x: seq<u8>, y: seq<u8>)
    requires NoCapitals(x) && NoCapitals(y) && Decode(x).Some? && Decode(x) == Decode(y)
    ensures x == y
  {
    hide Decode, Run, NoCapitals;
    var out := Decode(x).value;
    var b, d := Parts(x);
    var b', d' := Parts(y);
    BasicPart(b, d, out);
    BasicPart(b', d', out);
    BasicIsSound(b);
    RunUnique(Initial(b), d, d');
  }
}
