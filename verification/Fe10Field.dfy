/** fe_mul, fe_sq and the two addition chains of ed25519.cpp, on arrays. */
module Fe10Field {
  import opened MachineInts
  import opened Bytes
  import opened Fe10
  import opened Fe10Carry
  import F = Field25519

  /** h = f g; h may be f or g. */
  method FeMul(h: array<i32>, f: array<i32>, g: array<i32>)
    requires h.Length == f.Length == g.Length == 10
    requires Bounded(f[..], IN_EVEN, IN_ODD) && Bounded(g[..], IN_EVEN, IN_ODD)
    modifies h
    ensures Elt(h[..]) == F.Mul(old(Elt(f[..])), old(Elt(g[..]))) && Bounded(h[..], OUT_EVEN, OUT_ODD)
  {
    hide Elt, Columns, F.Mul;
    ghost var x, y := f[..], g[..];
    ColumnsBounded(f[..], g[..]);
    ColumnsValue(f[..], g[..]);
    ColumnsFit(Columns(f[..], g[..]));
    var t := CarryChain(Columns(f[..], g[..]));
    Store(h, t);
  }

  /** h = f f; h may be f. */
  method FeSq(h: array<i32>, f: array<i32>)
    requires h.Length == f.Length == 10 && Bounded(f[..], IN_EVEN, IN_ODD)
    modifies h
    ensures Elt(h[..]) == F.Sqr(old(Elt(f[..]))) && Bounded(h[..], OUT_EVEN, OUT_ODD)
  {
    hide Elt, Columns, SquareColumns, F.Mul;
    ColumnsBounded(f[..], f[..]);
    ColumnsValue(f[..], f[..]);
    SquareColumnsAgree(f[..]);
    ColumnsFit(Columns(f[..], f[..]));
    var t := CarryChain(SquareColumns(f[..]));
    Store(h, t);
  }

  lemma ColumnsFit(s: seq<int>)
    requires |s| == 10 && Bounded(s, 10 * TERM, 10 * TERM)
    ensures forall k :: 0 <= k < 10 ==> -0x8000_0000_0000_0000 <= s[k] < 0x8000_0000_0000_0000
  {}

  method Store(h: array<i32>, t: seq<int>)
    requires h.Length == |t| == 10 && Bounded(t, OUT_EVEN, OUT_ODD)
    modifies h
    ensures h[..] == t
  {
    for k := 0 to 10
      invariant h[..k] == t[..k]
    {
      h[k] := t[k];
    }
  }

  // ----- powers -----

  /** a is w^e, small enough to be multiplied. */
  ghost predicate Holds(a: array<i32>, w: F.Fp, e: nat)
    requires a.Length == 10
    reads a
  {
    Elt(a[..]) == F.Pow(w, e) && Bounded(a[..], IN_EVEN, IN_ODD)
  }

  lemma SmallerBound(s: seq<int>)
    requires Bounded(s, OUT_EVEN, OUT_ODD)
    ensures Bounded(s, IN_EVEN, IN_ODD)
  {}

  method MulPowers(h: array<i32>, f: array<i32>, g: array<i32>, ghost w: F.Fp, ghost m: nat, ghost n: nat)
    requires h.Length == f.Length == g.Length == 10 && Holds(f, w, m) && Holds(g, w, n)
    modifies h
    ensures Holds(h, w, m + n) && Bounded(h[..], OUT_EVEN, OUT_ODD)
  {
    hide Elt, Bounded, F.Mul, F.Pow;
    F.PowAdd(w, m, n);
    FeMul(h, f, g);
    SmallerBound(h[..]);
  }

  /** fe_sq(h, f) and then count - 1 times fe_sq(h, h). */
  method SqPowers(h: array<i32>, f: array<i32>, count: nat, ghost w: F.Fp, ghost e: nat)
    requires h.Length == f.Length == 10 && count >= 1 && Holds(f, w, e)
    modifies h
    ensures Holds(h, w, e * Pow2(count))
  {
    hide Elt, Bounded, F.Mul, F.Pow, Pow2;
    F.PowAdd(w, e, e);
    OneDoubling(e);
    FeSq(h, f);
    SmallerBound(h[..]);
    for i := 1 to count
      invariant Holds(h, w, e * Pow2(i))
    {
      F.PowAdd(w, e * Pow2(i), e * Pow2(i));
      NextDoubling(e, i);
      FeSq(h, h);
      SmallerBound(h[..]);
    }
  }

  lemma OneDoubling(e: nat)
    ensures e + e == e * Pow2(1)
  {}

  lemma NextDoubling(e: nat, i: nat)
    ensures e * Pow2(i) + e * Pow2(i) == e * Pow2(i + 1) && e * Pow2(i) >= 0
  {}

  lemma HoldsOne(z: array<i32>)
    requires z.Length == 10 && Bounded(z[..], IN_EVEN, IN_ODD)
    ensures Holds(z, Elt(z[..]), 1)
  {
    hide Elt, F.Mul;
    ghost var w := Elt(z[..]);
    assert F.Pow(w, 1) == F.Mul(w, F.Pow(w, 0));
    TimesOne(w);
  }

  lemma TimesOne(w: F.Fp)
    ensures F.Mul(w, 1) == w
  {}

  const E50: nat := 0x3ffffffffffff // 2^50 - 1
  const E100: nat := 0xfffffffffffffffffffffffff // 2^100 - 1
  const E250: nat := 0x3ffffffffffffffffffffffffffffffffffffffffffffffffffffffffffffff // 2^250 - 1

  /** The first part of both chains: z^11 and z^31. */
  method First(z: array<i32>, ghost w: F.Fp) returns (t0: array<i32>, t1: array<i32>)
    requires z.Length == 10 && Holds(z, w, 1)
    ensures fresh(t0) && fresh(t1) && t0 != t1 && t0.Length == t1.Length == 10
    ensures Holds(t0, w, 11) && Holds(t1, w, 31)
  {
    hide Holds, Pow2;
    ChainPowers();
    t0, t1 := new i32[10], new i32[10];
    var t2 := new i32[10];
    SqPowers(t0, z, 1, w, 1);       // 2
    SqPowers(t1, t0, 2, w, 2);      // 8
    MulPowers(t1, z, t1, w, 1, 8);  // 9
    MulPowers(t0, t0, t1, w, 2, 9); // 11
    SqPowers(t2, t0, 1, w, 11);     // 22
    MulPowers(t1, t1, t2, w, 9, 22); // 2^5 - 1
  }

  /** out = z^(2^255 - 21), the inverse of z for a prime P. */
  method FeInvert(out: array<i32>, z: array<i32>)
    requires out.Length == z.Length == 10 && Bounded(z[..], IN_EVEN, IN_ODD)
    modifies out
    ensures Elt(out[..]) == F.Pow(old(Elt(z[..])), F.P - 2) && Bounded(out[..], OUT_EVEN, OUT_ODD)
  {
    hide Holds, Pow2, Elt, Bounded;
    ghost var w := Elt(z[..]);
    HoldsOne(z);
    var t0, t1 := First(z, w);
    var t2, t3 := new i32[10], new i32[10];
    ChainPowers();
    SqPowers(t2, t1, 5, w, 31);
    MulPowers(t1, t2, t1, w, 31 * 0x20, 31);                       // 2^10 - 1
    SqPowers(t2, t1, 10, w, 0x3ff);
    MulPowers(t2, t2, t1, w, 0x3ff * 0x400, 0x3ff);                // 2^20 - 1
    SqPowers(t3, t2, 20, w, 0xfffff);
    MulPowers(t2, t3, t2, w, 0xfffff * 0x100000, 0xfffff);         // 2^40 - 1
    SqPowers(t2, t2, 10, w, 0xffffffffff);
    MulPowers(t1, t2, t1, w, 0xffffffffff * 0x400, 0x3ff);         // 2^50 - 1
    FromFifty(t2, t1, w);
    SqPowers(t1, t2, 5, w, E250);
    MulPowers(out, t1, t0, w, E250 * 0x20, 11);                    // 2^255 - 21
    assert E250 * 0x20 + 11 == F.P - 2;
    HeldPower(out, w, F.P - 2);
  }

  /** From z^(2^50 - 1) to z^(2^250 - 1). */
  method FromFifty(out: array<i32>, t1: array<i32>, ghost w: F.Fp)
    requires out.Length == t1.Length == 10 && out != t1 && Holds(t1, w, E50)
    modifies out
    ensures Holds(out, w, E250)
  {
    hide Holds, Pow2;
    ChainPowers();
    var t2, t3 := new i32[10], new i32[10];
    SqPowers(t2, t1, 50, w, E50);
    MulPowers(t2, t2, t1, w, E50 * 0x4000000000000, E50);          // 2^100 - 1
    SqPowers(t3, t2, 100, w, E100);
    MulPowers(t2, t3, t2, w, E100 * 0x10000000000000000000000000, E100); // 2^200 - 1
    ghost var e200 := E100 * 0x10000000000000000000000000 + E100;
    SqPowers(t2, t2, 50, w, e200);
    MulPowers(out, t2, t1, w, e200 * 0x4000000000000, E50);
  }

  lemma HeldPower(z: array<i32>, w: F.Fp, e: nat)
    requires z.Length == 10 && Holds(z, w, e)
    ensures Elt(z[..]) == F.Pow(w, e)
  {}

  /** out = z^(2^252 - 3). */
  method FePow22523(out: array<i32>, z: array<i32>)
    requires out.Length == z.Length == 10 && Bounded(z[..], IN_EVEN, IN_ODD)
    modifies out
    ensures Elt(out[..]) == F.Pow(old(Elt(z[..])), TWO_252_LESS_3) && Bounded(out[..], OUT_EVEN, OUT_ODD)
  {
    hide Holds, Pow2, Elt, Bounded;
    ghost var w := Elt(z[..]);
    HoldsOne(z);
    ChainPowers();
    var t0, t1, t2 := new i32[10], new i32[10], new i32[10];
    SqPowers(t0, z, 1, w, 1);                                      // 2
    SqPowers(t1, t0, 2, w, 2);                                     // 8
    MulPowers(t1, z, t1, w, 1, 8);                                 // 9
    MulPowers(t0, t0, t1, w, 2, 9);                                // 11
    SqPowers(t0, t0, 1, w, 11);                                    // 22
    MulPowers(t0, t1, t0, w, 9, 22);                               // 2^5 - 1
    SqPowers(t1, t0, 5, w, 31);
    MulPowers(t0, t1, t0, w, 31 * 0x20, 31);                       // 2^10 - 1
    SqPowers(t1, t0, 10, w, 0x3ff);
    MulPowers(t1, t1, t0, w, 0x3ff * 0x400, 0x3ff);                // 2^20 - 1
    SqPowers(t2, t1, 20, w, 0xfffff);
    MulPowers(t1, t2, t1, w, 0xfffff * 0x100000, 0xfffff);         // 2^40 - 1
    SqPowers(t1, t1, 10, w, 0xffffffffff);
    MulPowers(t0, t1, t0, w, 0xffffffffff * 0x400, 0x3ff);         // 2^50 - 1
    FromFifty(t1, t0, w);
    SqPowers(t0, t1, 2, w, E250);
    MulPowers(out, t0, z, w, E250 * 4, 1);                         // 2^252 - 3
    HeldPower(out, w, E250 * 4 + 1);
  }

  const TWO_252_LESS_3: nat := 0xffffffffffffffffffffffffffffffffffffffffffffffffffffffffffffffd
}
