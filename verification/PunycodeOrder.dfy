/** Why the encoder of RFC 3492 section 6.3, as dns.cpp runs it, is inverted by the
    decoder: the deltas are the distances the decoder's state has to travel. */
module PunycodeOrder {
  import opened Options
  import opened MachineInts
  import opened Punycode
  import Bytes

  /** A-Z to a-z, everything else as it is. */
  function Lower(cp: nat): nat { if 0x41 <= cp <= 0x5A then cp + 0x20 else cp }

  function LowerAll(cps: seq<nat>): seq<nat> { seq(|cps|, i requires 0 <= i < |cps| => Lower(cps[i])) }

  /** The code points below n in their order, in lower case. */
  function Below(cps: seq<nat>, n: nat): seq<nat> {
    if cps == [] then []
    else if cps[0] < n then [Lower(cps[0])] + Below(cps[1..], n)
    else Below(cps[1..], n)
  }

  lemma {:induction false} BelowConcat(a: seq<nat>, b: seq<nat>, n: nat)
    ensures Below(a + b, n) == Below(a, n) + Below(b, n)
  {
    if a == [] {
      assert a + b == b;
    } else {
      assert (a + b)[1..] == a[1..] + b;
      BelowConcat(a[1..], b, n);
    }
  }

  lemma BelowStep(cps: seq<nat>, n: nat, p: nat)
    requires p < |cps|
    ensures Below(cps[..p + 1], n) == Below(cps[..p], n) + (if cps[p] < n then [Lower(cps[p])] else [])
    ensures Below(cps[p..], n) == (if cps[p] < n then [Lower(cps[p])] else []) + Below(cps[p + 1..], n)
  {
    assert cps[..p + 1] == cps[..p] + [cps[p]];
    BelowConcat(cps[..p], [cps[p]], n);
    assert cps[p..] == [cps[p]] + cps[p + 1..];
    BelowConcat([cps[p]], cps[p + 1..], n);
  }

  /** Nothing lies between n and m. */
  lemma {:induction false} BelowJump(cps: seq<nat>, n: nat, m: nat)
    requires n <= m && forall cp :: cp in cps ==> !(n <= cp < m)
    ensures Below(cps, n) == Below(cps, m)
  {
    if cps != [] {
      assert forall cp :: cp in cps[1..] ==> cp in cps;
      assert cps[0] in cps;
      BelowJump(cps[1..], n, m);
    }
  }

  lemma {:induction false} BelowLength(cps: seq<nat>, n: nat)
    ensures |Below(cps, n)| <= |cps|
    ensures |Below(cps, n)| == |cps| ==> Below(cps, n) == LowerAll(cps)
    ensures |Below(cps, n)| == |cps| <==> forall cp :: cp in cps ==> cp < n
    ensures forall c :: c in Below(cps, n) ==> c < n || c < 0x80
  {
    if cps != [] {
      BelowLength(cps[1..], n);
      assert cps[0] in cps;
      assert forall cp :: cp in cps <==> cp == cps[0] || cp in cps[1..];
      if cps[0] < n {
        assert LowerAll(cps) == [Lower(cps[0])] + LowerAll(cps[1..]);
      }
    }
  }

  /** The encoder has passed the first p code points looking for n: the decoder holds
      the code points below n, and n itself where it was passed, and delta is the way
      from the decoder's place to the encoder's. */
  ghost predicate Scanning(cps: seq<nat>, n: nat, p: nat, s: State, delta: nat) {
    && p <= |cps| && INITIAL_N <= s.n <= n
    && s.output == Below(cps[..p], n + 1) + Below(cps[p..], n)
    && s.i <= |s.output|
    && delta == (n - s.n) * (|s.output| + 1) + |Below(cps[..p], n + 1)| - s.i
  }

  lemma Start(cps: seq<nat>)
    ensures Scanning(cps, INITIAL_N, 0, Initial(Below(cps, INITIAL_N)), 0)
  {
    assert cps[0..] == cps;
  }

  lemma PassGreater(cps: seq<nat>, n: nat, p: nat, s: State, delta: nat)
    requires Scanning(cps, n, p, s, delta) && p < |cps| && cps[p] > n
    ensures Scanning(cps, n, p + 1, s, delta)
  {
    hide Below;
    BelowStep(cps, n, p);
    BelowStep(cps, n + 1, p);
  }

  lemma PassLess(cps: seq<nat>, n: nat, p: nat, s: State, delta: nat)
    requires Scanning(cps, n, p, s, delta) && p < |cps| && cps[p] < n
    ensures Scanning(cps, n, p + 1, s, delta + 1)
  {
    hide Below;
    BelowStep(cps, n, p);
    BelowStep(cps, n + 1, p);
  }

  lemma Position(n: nat, n0: nat, len: nat, delta: nat, r: nat, i: nat)
    requires n0 <= n && r < len && delta == (n - n0) * len + r - i
    ensures (i + delta) / len == n - n0 && (i + delta) % len == r
  {
    Bytes.QuotientUnique(i + delta, len, n - n0, r);
  }

  /** The decoder, having read delta, is exactly past the code point n at p. */
  lemma PassEqual(cps: seq<nat>, n: nat, p: nat, s: State, delta: nat)
    requires Scanning(cps, n, p, s, delta) && p < |cps| && cps[p] == n
    ensures var t := Insert(s, s.i + delta);
      && Scanning(cps, n, p + 1, t, 0) && t.n == n && t.i > 0 && |t.output| == |s.output| + 1
      && t.bias == Adapt(delta, |s.output| + 1, s.i == 0)
  {
    hide Below, Adapt;
    BelowStep(cps, n, p);
    BelowStep(cps, n + 1, p);
    var r := |Below(cps[..p], n + 1)|;
    Position(n, s.n, |s.output| + 1, delta, r, s.i);
    assert s.output[..r] == Below(cps[..p], n + 1);
    assert s.output[r..] == Below(cps[p..], n);
  }

  lemma PassEnds(cps: seq<nat>, n: nat, s: State, delta: nat)
    requires Scanning(cps, n, |cps|, s, delta)
    ensures Scanning(cps, n + 1, 0, s, delta + 1)
  {
    hide Below;
    assert cps[..|cps|] == cps && cps[0..] == cps && cps[..0] == [] && cps[|cps|..] == [];
    Nothing(n + 1);
    Nothing(n + 2);
    Nothing(n);
    assert (n + 1 - s.n) * (|s.output| + 1) == (n - s.n) * (|s.output| + 1) + (|s.output| + 1);
  }

  lemma Nothing(n: nat)
    ensures Below([], n) == []
  {}

  lemma Jump(cps: seq<nat>, n: nat, m: nat, s: State, delta: nat)
    requires Scanning(cps, n, 0, s, delta) && n <= m && forall cp :: cp in cps ==> !(n <= cp < m)
    ensures Scanning(cps, m, 0, s, delta + (m - n) * (|s.output| + 1))
  {
    hide Below;
    assert cps[0..] == cps && cps[..0] == [];
    Nothing(n + 1);
    Nothing(m + 1);
    BelowJump(cps, n, m);
    assert (m - s.n) * (|s.output| + 1) == (m - n) * (|s.output| + 1) + (n - s.n) * (|s.output| + 1);
  }

  /** The delta of a pass stays below the number of places there are. */
  lemma DeltaBounded(cps: seq<nat>, n: nat, p: nat, s: State, delta: nat)
    requires Scanning(cps, n, p, s, delta) && n <= 0x110000
    ensures |s.output| <= |cps| && delta <= 0x110000 * (|cps| + 1)
  {
    hide Below;
    BelowLength(cps[..p], n + 1);
    BelowLength(cps[p..], n);
    Bytes.Product(n - s.n, 0x110000 - INITIAL_N, |s.output| + 1, |cps| + 1);
  }

  lemma ScanningLength(cps: seq<nat>, n: nat, s: State, delta: nat)
    requires Scanning(cps, n, 0, s, delta)
    ensures |s.output| <= |cps| && (|s.output| == |cps| ==> s.output == LowerAll(cps))
    ensures |s.output| < |cps| ==> exists cp :: cp in cps && cp >= n
  {
    hide Below;
    assert cps[0..] == cps && cps[..0] == [];
    Nothing(n + 1);
    BelowLength(cps, n);
  }

  // ----- what the decoder does with what was written -----

  /** Having read the digits, the decoder started in a has come to b. */
  ghost predicate Reaches(a: State, digits: seq<u8>, b: State) {
    forall tail {:trigger Run(b, tail)} :: Run(a, digits + tail) == Run(b, tail)
  }

  lemma ReachesItself(a: State)
    ensures Reaches(a, [], a)
  {
    forall tail {:trigger Run(a, tail)}
      ensures Run(a, [] + tail) == Run(a, tail)
    {
      assert [] + tail == tail;
    }
  }

  lemma ReachesFurther(a: State, digits: seq<u8>, b: State, delta: nat)
    requires Reaches(a, digits, b)
    ensures Reaches(a, digits + EncodeInt(delta, BASE, b.bias), Insert(b, b.i + delta))
  {
    hide EncodeInt, DecodeInt, Insert;
    var e, c := EncodeInt(delta, BASE, b.bias), Insert(b, b.i + delta);
    forall tail {:trigger Run(c, tail)}
      ensures Run(a, digits + e + tail) == Run(c, tail)
    {
      assert digits + e + tail == digits + (e + tail);
      assert Run(a, digits + (e + tail)) == Run(b, e + tail);
      IntRoundTrip(delta, BASE, b.bias, 1, b.i, tail);
      IntIsNonempty(delta, BASE, b.bias);
    }
  }

  lemma IntIsNonempty(q: nat, k: nat, bias: nat)
    ensures EncodeInt(q, k, bias) != []
  {}

  lemma ReachesEnd(a: State, digits: seq<u8>, b: State)
    requires Reaches(a, digits, b)
    ensures Run(a, digits) == Some(b.output)
  {
    assert digits + [] == digits;
    assert Run(b, []) == Some(b.output);
  }

  /** The whole label decoded. */
  lemma LabelDecodes(basic: seq<u8>, digits: seq<u8>, b: State)
    requires Reaches(Initial(basic), digits, b)
    requires forall c :: c in basic ==> c < 0x80
    requires forall c :: c in digits ==> Plain(c)
    ensures Decode((if basic == [] then [] else basic + [DELIMITER]) + digits) == Some(b.output)
  {
    hide Run;
    DelimiterFound(basic, digits);
    ReachesEnd(Initial(basic), digits, b);
    var text := (if basic == [] then [] else basic + [DELIMITER]) + digits;
    if basic == [] {
      assert text == digits && text[..0] == basic;
    } else {
      assert text[..|basic|] == basic && text[|basic| + 1..] == digits;
    }
  }
}
