/** mkPublic, sign and verify of ed25519.cpp, over an abstract curve group and hash. */
module Ed25519 {
  import opened Options
  import opened MachineInts
  import opened Bytes
  import opened PointGroup
  import opened PointMultiples
  import opened Scalar
  import opened ScalarLimbs

  /** The group, the base point B and its tables, the encoding of points, and decoding
      followed by negation. */
  datatype Curve<!G> = Curve(group: Group<G>, B: G, base: seq<seq<G>>, Bi: seq<G>,
                             encode: G -> seq<u8>, decodeNegate: seq<u8> -> Option<G>)

  /** What is taken for granted of the curve. */
  ghost predicate IsCurve<G(!new)>(c: Curve<G>) {
    && Abelian(c.group)
    && BaseTable(c.group, c.base, c.B) && |c.Bi| == 8 && OddMultiples(c.group, c.Bi, c.B)
    && Mul(c.group, L, c.B) == c.group.zero
    && (forall p :: |c.encode(p)| == 32)
    && (forall p :: c.decodeNegate(c.encode(p)) == Some(c.group.neg(p)))
  }

  /** SHA-512 may be any function to 64 bytes. */
  type Digest = seq<u8> -> seq<u8>

  ghost predicate IsDigest(digest: Digest) { forall m :: |digest(m)| == 64 }

  /** The hash object: it digests what was added since it last finished. */
  class Sha512 {
    const digest: Digest
    var pending: seq<u8>

    constructor (digest: Digest)
      ensures this.digest == digest && pending == []
    {
      this.digest, pending := digest, [];
    }

    method Add(bytes: seq<u8>)
      modifies this
      ensures pending == old(pending) + bytes
    {
      pending := pending + bytes;
    }

    method Finish(out: array<u8>)
      requires out.Length == 64 && IsDigest(digest)
      modifies this, out
      ensures out[..] == digest(old(pending)) && pending == []
    {
      var d := digest(pending);
      for i := 0 to 64
        invariant out[..i] == d[..i] && pending == old(pending)
      {
        out[i] := d[i];
      }
      pending := [];
    }
  }

  // ----- section 5.1 of RFC 8032 -----

  function Clamp(b: seq<u8>): (r: seq<u8>)
    requires |b| == 32
    ensures |r| == 32 && r[31] <= 127
  {
    b[0 := b[0] - b[0] % 8][31 := b[31] % 64 + 64]
  }

  ghost function SecretScalar(digest: Digest, sk: seq<u8>): nat
    requires IsDigest(digest)
  {
    LittleEndian(Clamp(digest(sk)[..32]))
  }

  ghost function PublicKey<G(!new)>(c: Curve<G>, digest: Digest, sk: seq<u8>): seq<u8>
    requires IsDigest(digest)
  {
    c.encode(Mul(c.group, SecretScalar(digest, sk), c.B))
  }

  ghost function Nonce(digest: Digest, sk: seq<u8>, message: seq<u8>): nat
    requires IsDigest(digest)
  {
    LittleEndian(digest(digest(sk)[32..] + message)) % L
  }

  /** The challenge that binds the commitment, the key and the message. */
  ghost function Challenge(digest: Digest, commitment: seq<u8>, pk: seq<u8>, message: seq<u8>): nat {
    LittleEndian(digest(commitment + pk + message)) % L
  }

  ghost function Commitment<G(!new)>(c: Curve<G>, digest: Digest, sk: seq<u8>, message: seq<u8>): seq<u8>
    requires IsDigest(digest)
  {
    c.encode(Mul(c.group, Nonce(digest, sk, message), c.B))
  }

  ghost function Response<G(!new)>(c: Curve<G>, digest: Digest, sk: seq<u8>, pk: seq<u8>, message: seq<u8>): nat
    requires IsDigest(digest)
  {
    var k := Challenge(digest, Commitment(c, digest, sk, message), pk, message);
    (k * SecretScalar(digest, sk) + Nonce(digest, sk, message)) % L
  }

  ghost function Signature<G(!new)>(c: Curve<G>, digest: Digest, sk: seq<u8>, pk: seq<u8>, message: seq<u8>): seq<u8>
    requires IsDigest(digest)
  {
    Commitment(c, digest, sk, message) + Encode(Response(c, digest, sk, pk, message), 32)
  }

  /** The key decodes to a point A, and S B - k A encodes to the commitment. */
  ghost predicate EquationHolds<G(!new)>(c: Curve<G>, digest: Digest, message: seq<u8>, pk: seq<u8>, commitment: seq<u8>, S: nat) {
    && c.decodeNegate(pk).Some?
    && c.encode(c.group.add(Mul(c.group, Challenge(digest, commitment, pk, message), c.decodeNegate(pk).value),
                            Mul(c.group, S, c.B))) == commitment
  }

  /** When the code accepts a signature: the top three bits of S are clear, and the
      equation holds. */
  ghost predicate Accepts<G(!new)>(c: Curve<G>, digest: Digest, message: seq<u8>, pk: seq<u8>, signature: seq<u8>)
    requires |signature| == 64
  {
    signature[63] < 32 && EquationHolds(c, digest, message, pk, signature[..32], LittleEndian(signature[32..]))
  }

  /** Section 5.1.7 of RFC 8032 asks for S < L instead. */
  ghost predicate AcceptsByRfc<G(!new)>(c: Curve<G>, digest: Digest, message: seq<u8>, pk: seq<u8>, signature: seq<u8>)
    requires |signature| == 64
  {
    var S := LittleEndian(signature[32..]);
    S < L && EquationHolds(c, digest, message, pk, signature[..32], S)
  }

  // ----- the same in terms of the digest -----

  /** The scalar in numbers: 2^254 and the 251 bits behind the three low ones. */
  lemma SecretScalarIs(digest: Digest, sk: seq<u8>)
    requires IsDigest(digest)
    ensures SecretScalar(digest, sk) == 0x4000000000000000000000000000000000000000000000000000000000000000 + 8 * (LittleEndian(digest(sk)[..32]) / 8 % 0x800000000000000000000000000000000000000000000000000000000000000)
  {
    hide LittleEndian;
    var b := digest(sk)[..32];
    assert Clamp(b) == [b[0] - b[0] % 8] + b[1..31] + [b[31] % 64 + 64];
    ClampedValue(b, Clamp(b));
  }

  // ----- the three functions -----

  /** The clamping of the first half, bit by bit: the three low bits of byte 0 and the
      two high bits of byte 31 are cleared, then the lower of these two is set. */
  method ClampInPlace(az: array<u8>)
    requires az.Length == 64
    modifies az
    ensures az[..32] == Clamp(old(az[..32])) && az[32..] == old(az[32..])
  {
    az[0] := az[0] - az[0] % 8;
    az[31] := az[31] % 64;
    az[31] := az[31] + 64;
  }

  method WriteAt(out: array<u8>, b: seq<u8>)
    requires |b| <= out.Length
    modifies out
    ensures out[..|b|] == b && out[|b|..] == old(out[|b|..])
  {
    for i := 0 to |b|
      invariant out[..i] == b[..i] && out[|b|..] == old(out[|b|..])
    {
      out[i] := b[i];
    }
  }

  /** The digest, reduced modulo L in place. */
  method FinishReduced(hash: Sha512, out: array<u8>)
    requires out.Length == 64 && IsDigest(hash.digest)
    modifies hash, out
    ensures LittleEndian(out[..32]) == LittleEndian(hash.digest(old(hash.pending))) % L && out[31] <= 16
    ensures hash.pending == []
  {
    hide LittleEndian, Pow256, Encode;
    hash.Finish(out);
    ghost var v := LittleEndian(out[..]);
    ScReduce(out);
    Residue(v, out[..32]);
  }

  /** The digest of the secret, with its first half clamped. */
  method ExpandSecret(hash: Sha512, sk: seq<u8>) returns (az: array<u8>)
    requires IsDigest(hash.digest) && hash.pending == []
    modifies hash
    ensures fresh(az) && az.Length == 64 && hash.pending == []
    ensures az[..32] == Clamp(hash.digest(sk)[..32]) && az[32..] == hash.digest(sk)[32..]
  {
    hide Clamp;
    az := new u8[64];
    hash.Add(sk);
    assert [] + sk == sk;
    hash.Finish(az);
    ClampInPlace(az);
  }

  method MkPublic<G(!new)>(c: Curve<G>, digest: Digest, sk: seq<u8>, pk: array<u8>)
    requires IsCurve(c) && IsDigest(digest) && |sk| == 32 && pk.Length == 32
    modifies pk
    ensures pk[..] == PublicKey(c, digest, sk)
    ensures var s := 0x4000000000000000000000000000000000000000000000000000000000000000 + 8 * (LittleEndian(digest(sk)[..32]) / 8 % 0x800000000000000000000000000000000000000000000000000000000000000);
      pk[..] == c.encode(Mul(c.group, s, c.B))
  {
    hide Abelian, Mul, BaseTable, OddMultiples, LittleEndian, Pow256, Clamp;
    var hash := new Sha512(digest);
    var az := ExpandSecret(hash, sk);
    var A := ScalarmultBase(c.group, c.base, az[..32], c.B);
    WriteAt(pk, c.encode(A));
    assert pk[..32] == pk[..];
    SecretScalarIs(digest, sk);
  }

  /** The first half of sign: the nonce and the commitment to it. */
  method Commit<G(!new)>(c: Curve<G>, hash: Sha512, prefix: seq<u8>, message: seq<u8>, signature: array<u8>) returns (r: array<u8>)
    requires IsCurve(c) && IsDigest(hash.digest) && hash.pending == [] && signature.Length == 64
    modifies hash, signature
    ensures fresh(r) && r.Length == 64 && hash.pending == []
    ensures LittleEndian(r[..32]) == LittleEndian(hash.digest(prefix + message)) % L
    ensures signature[..32] == c.encode(Mul(c.group, LittleEndian(r[..32]), c.B))
  {
    hide Abelian, Mul, BaseTable, OddMultiples, LittleEndian, Pow256, IsDigest;
    r := new u8[64];
    hash.Add(prefix);
    hash.Add(message);
    assert [] + prefix + message == prefix + message;
    FinishReduced(hash, r);
    var R := ScalarmultBase(c.group, c.base, r[..32], c.B);
    WriteAt(signature, c.encode(R));
  }

  /** The second half: the challenge and the response to it. */
  method Respond(hash: Sha512, secret: seq<u8>, nonce: seq<u8>, pk: seq<u8>, message: seq<u8>, signature: array<u8>)
    requires IsDigest(hash.digest) && hash.pending == [] && signature.Length == 64 && |secret| == |nonce| == 32
    modifies hash, signature
    ensures signature[..32] == old(signature[..32])
    ensures signature[32..] == Encode((Challenge(hash.digest, old(signature[..32]), pk, message) * LittleEndian(secret)
      + LittleEndian(nonce)) % L, 32)
  {
    hide LittleEndian, Pow256, Encode, IsDigest;
    var hram := new u8[64];
    ghost var R := signature[..32];
    hash.Add(signature[..32]);
    hash.Add(pk);
    hash.Add(message);
    assert [] + R + pk + message == R + pk + message;
    FinishReduced(hash, hram);
    ScMuladd(signature, 32, hram[..32], secret, nonce);
    assert signature[32..64] == signature[32..];
  }

  method Sign<G(!new)>(c: Curve<G>, digest: Digest, message: seq<u8>, pk: seq<u8>, sk: seq<u8>, signature: array<u8>)
    requires IsCurve(c) && IsDigest(digest) && |sk| == 32 && |pk| == 32 && signature.Length == 64
    modifies signature
    ensures signature[..] == Signature(c, digest, sk, pk, message)
    ensures var h := digest(sk);
      var s := 0x4000000000000000000000000000000000000000000000000000000000000000 + 8 * (LittleEndian(h[..32]) / 8 % 0x800000000000000000000000000000000000000000000000000000000000000);
      var r := LittleEndian(digest(h[32..] + message)) % L;
      var R := c.encode(Mul(c.group, r, c.B));
      signature[..] == R + Encode((LittleEndian(digest(R + pk + message)) % L * s + r) % L, 32)
  {
    hide Abelian, Mul, BaseTable, OddMultiples, LittleEndian, Pow256, Encode, Clamp, IsDigest, IsCurve, Challenge;
    var hash := new Sha512(digest);
    var az := ExpandSecret(hash, sk);
    var r := Commit(c, hash, az[32..], message, signature);
    Respond(hash, az[..32], r[..32], pk, message, signature);
    assert signature[..32] == Commitment(c, digest, sk, message);
    assert signature[32..] == Encode(Response(c, digest, sk, pk, message), 32);
    assert signature[..] == signature[..32] + signature[32..];
    SignatureIs(c, digest, message, pk, sk);
  }

  lemma SignatureIs<G(!new)>(c: Curve<G>, digest: Digest, message: seq<u8>, pk: seq<u8>, sk: seq<u8>)
    requires IsDigest(digest)
    ensures var h := digest(sk);
      var s := 0x4000000000000000000000000000000000000000000000000000000000000000 + 8 * (LittleEndian(h[..32]) / 8 % 0x800000000000000000000000000000000000000000000000000000000000000);
      var r := LittleEndian(digest(h[32..] + message)) % L;
      var R := c.encode(Mul(c.group, r, c.B));
      Signature(c, digest, sk, pk, message) == R + Encode((LittleEndian(digest(R + pk + message)) % L * s + r) % L, 32)
  {
    hide LittleEndian, Mul, Encode, SecretScalar, Nonce, Challenge;
    SecretScalarIs(digest, sk);
    NonceIs(digest, sk, message);
    ChallengeIs(digest, Commitment(c, digest, sk, message), pk, message);
  }

  lemma NonceIs(digest: Digest, sk: seq<u8>, message: seq<u8>)
    requires IsDigest(digest)
    ensures Nonce(digest, sk, message) == LittleEndian(digest(digest(sk)[32..] + message)) % L
  {}

  lemma ChallengeIs(digest: Digest, commitment: seq<u8>, pk: seq<u8>, message: seq<u8>)
    ensures Challenge(digest, commitment, pk, message) == LittleEndian(digest(commitment + pk + message)) % L
  {}

  /** A residue modulo L reads back from its 32 bytes, the last at most 16. */
  lemma Residue(x: nat, b: seq<u8>)
    requires b == Encode(x % L, 32)
    ensures LittleEndian(b) == x % L && b[31] <= 16
  {
    hide LittleEndian, Encode, Pow256;
    EncodeDecodes(x % L, 32);
    Pow256Values();
    TopByteBound(b, x % L);
  }

  lemma TopByteBound(b: seq<u8>, v: nat)
    requires |b| == 32 && LittleEndian(b) == v < L
    ensures b[31] <= 16
  {
    hide LittleEndian, Pow256;
    var lo := b[..31];
    assert b == lo + [b[31]];
    Concat(lo, [b[31]]);
    OneByte(b[31]);
    Pow256Of31();
  }

  method Verify<G(!new)>(c: Curve<G>, digest: Digest, message: seq<u8>, pk: seq<u8>, signature: seq<u8>) returns (res: bool)
    requires IsCurve(c) && IsDigest(digest) && |pk| == 32 && |signature| == 64
    ensures res <==> Accepts(c, digest, message, pk, signature)
    ensures res <==>
      && signature[63] < 32 && c.decodeNegate(pk).Some?
      && c.encode(c.group.add(Mul(c.group, LittleEndian(digest(signature[..32] + pk + message)) % L, c.decodeNegate(pk).value),
                              Mul(c.group, LittleEndian(signature[32..]), c.B))) == signature[..32]
  {
    hide Abelian, Mul, BaseTable, OddMultiples, LittleEndian, Pow256, Encode, Pow2, IsDigest;
    // one of the top three bits is set
    if signature[63] / 32 != 0 {
      return false;
    }
    var A := c.decodeNegate(pk);
    if A.None? {
      return false;
    }
    var h := new u8[64];
    var hash := new Sha512(digest);
    hash.Add(signature[..32]);
    hash.Add(pk);
    hash.Add(message);
    assert [] + signature[..32] + pk + message == signature[..32] + pk + message;
    FinishReduced(hash, h);
    ScalarsFit(h[..32], signature[32..]);
    var R := DoubleScalarmult(c.group, h[..32], A.value, signature[32..], c.Bi, c.B);
    res := SameBytes(c.encode(R), signature[..32]);
  }

  /** The comparison of all 32 bytes, by its value. */
  method SameBytes(encoded: seq<u8>, signature: seq<u8>) returns (res: bool)
    requires |encoded| == |signature| == 32
    ensures res <==> encoded == signature
  {
    res := true;
    for i := 0 to 32
      invariant res <==> encoded[..i] == signature[..i]
    {
      if encoded[i] != signature[i] {
        res := false;
      }
    }
    assert encoded[..32] == encoded && signature[..32] == signature;
  }

  lemma ScalarsFit(h: seq<u8>, s: seq<u8>)
    requires |h| == |s| == 32 && LittleEndian(h) < L && s[31] < 32
    ensures LittleEndian(h) < Pow2(255) && LittleEndian(s) < Pow2(255)
  {
    hide LittleEndian, Pow256, Pow2;
    var lo := s[..31];
    assert s == lo + [s[31]];
    Concat(lo, [s[31]]);
    OneByte(s[31]);
    Pow256Of31();
    Pow256IsPow2(31);
    SevenMore(248);
  }

  // ----- the three bits and the bound L -----

  lemma TopBits(s: seq<u8>)
    requires |s| == 32
    ensures s[31] < 32 <==> LittleEndian(s) < 2 * TWO_252
  {
    hide LittleEndian, Pow256;
    var lo := s[..31];
    assert s == lo + [s[31]];
    Concat(lo, [s[31]]);
    OneByte(s[31]);
    Pow256Of31();
  }

  /** The RFC accepts what the code accepts with S < L. */
  lemma RfcAcceptsLess<G(!new)>(c: Curve<G>, digest: Digest, message: seq<u8>, pk: seq<u8>, signature: seq<u8>)
    requires |signature| == 64
    ensures AcceptsByRfc(c, digest, message, pk, signature) <==>
      Accepts(c, digest, message, pk, signature) && LittleEndian(signature[32..]) < L
  {
    hide LittleEndian, EquationHolds;
    TopBits(signature[32..]);
  }

  lemma EquationModL<G(!new)>(c: Curve<G>, digest: Digest, message: seq<u8>, pk: seq<u8>, commitment: seq<u8>, S: nat, S': nat)
    requires IsCurve(c) && S % L == S' % L
    ensures EquationHolds(c, digest, message, pk, commitment, S) <==> EquationHolds(c, digest, message, pk, commitment, S')
  {
    hide Challenge, Mul, Abelian, BaseTable, OddMultiples;
    MulMod(c.group, S, L, c.B);
    MulMod(c.group, S', L, c.B);
  }

  lemma StoredResponse(S: nat)
    requires S < Pow256(32)
    ensures LittleEndian(Encode(S, 32)) == S && (Encode(S, 32)[31] < 32 <==> S < 2 * TWO_252)
  {
    hide LittleEndian, Pow256, Encode;
    EncodeDecodes(S, 32);
    QuotientUnique(S, Pow256(32), 0, S);
    TopBits(Encode(S, 32));
  }

  /** An accepted signature stays accepted under any other S of the same residue modulo
      L, exactly when that is below 2^253. */
  lemma SameResidue<G(!new)>(c: Curve<G>, digest: Digest, message: seq<u8>, pk: seq<u8>, signature: seq<u8>, S: nat)
    requires IsCurve(c) && |signature| == 64 && Accepts(c, digest, message, pk, signature)
    requires S < Pow256(32) && S % L == LittleEndian(signature[32..]) % L
    ensures Accepts(c, digest, message, pk, signature[..32] + Encode(S, 32)) <==> S < 2 * TWO_252
  {
    hide LittleEndian, Pow256, Encode, IsCurve, EquationHolds;
    var other := signature[..32] + Encode(S, 32);
    assert other[..32] == signature[..32] && other[32..] == Encode(S, 32) && other[63] == Encode(S, 32)[31];
    StoredResponse(S);
    EquationModL(c, digest, message, pk, signature[..32], S, LittleEndian(signature[32..]));
  }

  /** So a signature that the RFC accepts has a second form, with S + L in place of S,
      that the RFC refuses and the code accepts, unless S + L needs 254 bits. */
  lemma SecondForm<G(!new)>(c: Curve<G>, digest: Digest, message: seq<u8>, pk: seq<u8>, signature: seq<u8>)
    requires IsCurve(c) && |signature| == 64 && AcceptsByRfc(c, digest, message, pk, signature)
    ensures var S: nat := LittleEndian(signature[32..]) + L; var other := signature[..32] + Encode(S, 32);
      && (Accepts(c, digest, message, pk, other) <==> S < 2 * TWO_252)
      && !AcceptsByRfc(c, digest, message, pk, other)
  {
    hide LittleEndian, Pow256, Encode, IsCurve, EquationHolds;
    RfcAcceptsLess(c, digest, message, pk, signature);
    var s := LittleEndian(signature[32..]);
    var S: nat := s + L;
    Pow256Values();
    QuotientUnique(S, L, 1, s);
    QuotientUnique(s, L, 0, s);
    SameResidue(c, digest, message, pk, signature, S);
    var other := signature[..32] + Encode(S, 32);
    assert other[32..] == Encode(S, 32);
    StoredResponse(S);
  }

  // ----- what a signature binds -----

  /** Two points with the same encoding are the same. */
  lemma EncodingDetermines<G(!new)>(c: Curve<G>, p: G, q: G)
    requires IsCurve(c) && c.encode(p) == c.encode(q)
    ensures p == q
  {
    hide Abelian, BaseTable, OddMultiples, Mul;
    NegTwice(c.group, p);
    NegTwice(c.group, q);
  }

  lemma NegTwice<G(!new)>(g: Group<G>, p: G)
    requires Abelian(g)
    ensures g.neg(g.neg(p)) == p
  {
    hide Abelian;
    Unit(g, p);
    NegUnique(g, g.neg(p), p);
  }

  /** Messages accepted with the same signature under the same key have challenges with
      the same multiple of the key: for a key of order l they are the same challenge. */
  lemma SignatureBinds<G(!new)>(c: Curve<G>, digest: Digest, m: seq<u8>, n: seq<u8>, pk: seq<u8>, signature: seq<u8>)
    requires IsCurve(c) && |signature| == 64
    requires Accepts(c, digest, m, pk, signature) && Accepts(c, digest, n, pk, signature)
    ensures var A, R := c.decodeNegate(pk).value, signature[..32];
      Mul(c.group, LittleEndian(digest(R + pk + m)) % L, A) == Mul(c.group, LittleEndian(digest(R + pk + n)) % L, A)
  {
    hide Abelian, BaseTable, OddMultiples, Mul, LittleEndian;
    var A, R, S := c.decodeNegate(pk).value, signature[..32], Mul(c.group, LittleEndian(signature[32..]), c.B);
    var x, y := Mul(c.group, Challenge(digest, R, pk, m), A), Mul(c.group, Challenge(digest, R, pk, n), A);
    EncodingDetermines(c, c.group.add(x, S), c.group.add(y, S));
    Cancel(c.group, x, y, S);
  }

  /** For a key of order l the challenges are equal, so a digest that separates the
      messages modulo l leaves the signature to one of them. */
  lemma SignatureOfOneMessage<G(!new)>(c: Curve<G>, digest: Digest, m: seq<u8>, n: seq<u8>, pk: seq<u8>, signature: seq<u8>)
    requires IsCurve(c) && |signature| == 64
    requires Accepts(c, digest, m, pk, signature) && Accepts(c, digest, n, pk, signature)
    requires forall e: nat :: 0 < e < L ==> Mul(c.group, e, c.decodeNegate(pk).value) != c.group.zero
    ensures LittleEndian(digest(signature[..32] + pk + m)) % L == LittleEndian(digest(signature[..32] + pk + n)) % L
  {
    SignatureBinds(c, digest, m, n, pk, signature);
    hide Abelian, BaseTable, OddMultiples, Mul, LittleEndian, Accepts;
    var x, y := LittleEndian(digest(signature[..32] + pk + m)) % L, LittleEndian(digest(signature[..32] + pk + n)) % L;
    if x < y {
      EqualMultiples(c.group, y, x, c.decodeNegate(pk).value);
    } else if y < x {
      EqualMultiples(c.group, x, y, c.decodeNegate(pk).value);
    }
  }

  lemma EqualMultiples<G(!new)>(g: Group<G>, x: nat, y: nat, p: G)
    requires Abelian(g) && Mul(g, x, p) == Mul(g, y, p)
    ensures Mul(g, x - y, p) == g.zero
  {
    hide Abelian, Mul;
    var n: int := y;
    MulSum(g, x, -n, p);
    MulNeg(g, y, p);
    Unit(g, Mul(g, y, p));
  }

  lemma Cancel<G(!new)>(g: Group<G>, x: G, y: G, z: G)
    requires Abelian(g) && g.add(x, z) == g.add(y, z)
    ensures x == y
  {
    hide Abelian;
    Associates(g, x, z, g.neg(z));
    Associates(g, y, z, g.neg(z));
    Unit(g, z);
    Unit(g, x);
    Unit(g, y);
  }

  // ----- completeness -----

  /** (k (-s) + (k s + r) mod L) B = r B */
  lemma ResponseCancels<G(!new)>(g: Group<G>, B: G, k: nat, s: nat, r: nat)
    requires Abelian(g) && Mul(g, L, B) == g.zero
    ensures g.add(Mul(g, k, g.neg(Mul(g, s, B))), Mul(g, (k * s + r) % L, B)) == Mul(g, r, B)
  {
    hide Abelian, Mul;
    var n, total: int := -(s as int), k * s + r;
    MulNeg(g, s, B);
    MulProduct(g, k, n, B);
    MulMod(g, total, L, B);
    MulSum(g, k * n, total, B);
    Cancels(k, s, r);
  }

  lemma Cancels(k: int, s: int, r: int)
    ensures k * (-s) + (k * s + r) == r
  {}

  /** Every signature made with a secret is accepted under the key made from it. */
  lemma SignaturesAreAccepted<G(!new)>(c: Curve<G>, digest: Digest, sk: seq<u8>, message: seq<u8>)
    requires IsCurve(c) && IsDigest(digest)
    ensures var pk := PublicKey(c, digest, sk);
      Accepts(c, digest, message, pk, Signature(c, digest, sk, pk, message))
  {
    hide Abelian, Mul, BaseTable, OddMultiples, LittleEndian, Pow256, Encode, SecretScalar, Nonce, Challenge;
    var pk := PublicKey(c, digest, sk);
    var signature := Signature(c, digest, sk, pk, message);
    var R, S := Commitment(c, digest, sk, message), Response(c, digest, sk, pk, message);
    assert signature[..32] == R && signature[32..] == Encode(S, 32);
    var k, s, r := Challenge(digest, R, pk, message), SecretScalar(digest, sk), Nonce(digest, sk, message);
    Product(0, k, 0, s);
    Residue(k * s + r, Encode(S, 32));
    assert signature[63] == Encode(S, 32)[31];
    ResponseCancels(c.group, c.B, k, s, r);
  }

  /** The same of the code: what sign writes, verify accepts. */
  method SignThenVerify<G(!new)>(c: Curve<G>, digest: Digest, sk: seq<u8>, message: seq<u8>) returns (accepted: bool)
    requires IsCurve(c) && IsDigest(digest) && |sk| == 32
    ensures accepted
  {
    hide IsCurve, IsDigest, PublicKey, Signature, Accepts;
    var pk, signature := new u8[32], new u8[64];
    MkPublic(c, digest, sk, pk);
    Sign(c, digest, message, pk[..], sk, signature);
    SignaturesAreAccepted(c, digest, sk, message);
    accepted := Verify(c, digest, message, pk[..], signature[..]);
  }
}
