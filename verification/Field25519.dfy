/** Arithmetic modulo P = 2^255 - 19, on canonical residues.  The limb code of
    the X25519 and Ed25519 modules is proved against these functions. */
module Field25519 {
  import opened Bytes

  const P: int := 0x7fffffffffffffffffffffffffffffffffffffffffffffffffffffffffffffed

  type Fp = x: int | 0 <= x < P

  function Reduce(x: int): Fp { x % P }

  function Add(a: Fp, b: Fp): Fp { Reduce(a + b) }

  function Sub(a: Fp, b: Fp): Fp { Reduce(a - b) }

  function Mul(a: Fp, b: Fp): Fp { Reduce(a * b) }

  function Sqr(a: Fp): Fp { Mul(a, a) }

  function Pow(a: Fp, e: nat): Fp {
    if e == 0 then 1 else Mul(a, Pow(a, e - 1))
  }

  // ----- residues of integer expressions -----

  lemma ReduceShift(x: int, k: int)
    ensures Reduce(x + P * k) == Reduce(x)
  {}

  lemma ReduceAdd(x: int, y: int)
    ensures Reduce(x + y) == Add(Reduce(x), Reduce(y))
  {
    ReduceShift(Reduce(x) + Reduce(y), x / P + y / P);
  }

  lemma ReduceSub(x: int, y: int)
    ensures Reduce(x - y) == Sub(Reduce(x), Reduce(y))
  {
    ReduceShift(Reduce(x) - Reduce(y), x / P - y / P);
  }

  lemma ReduceMulLeft(x: int, y: int)
    ensures Reduce(Reduce(x) * y) == Reduce(x * y)
  {
    var q := x / P;
    assert x * y == Reduce(x) * y + P * (q * y) by {
      assert x == Reduce(x) + P * q;
      MulDistributes(Reduce(x), P * q, y);
      MulAssociates(P, q, y);
    }
    ReduceShift(Reduce(x) * y, q * y);
  }

  lemma ReduceMul(x: int, y: int)
    ensures Reduce(x * y) == Mul(Reduce(x), Reduce(y))
  {
    ReduceMulLeft(x, y);
    ReduceMulLeft(y, Reduce(x));
    MulCommutes(Reduce(x), y);
    MulCommutes(Reduce(x), Reduce(y));
  }

  lemma MulDistributes(a: int, b: int, c: int)
    ensures (a + b) * c == a * c + b * c
  {}

  lemma MulAssociates(a: int, b: int, c: int)
    ensures (a * b) * c == a * (b * c)
  {}

  lemma MulCommutes(a: int, b: int)
    ensures a * b == b * a
  {}

  // ----- ring laws -----

  lemma Commutative(a: Fp, b: Fp)
    ensures Mul(a, b) == Mul(b, a)
  {
    MulCommutes(a, b);
  }

  lemma Associative(a: Fp, b: Fp, c: Fp)
    ensures Mul(Mul(a, b), c) == Mul(a, Mul(b, c))
  {
    ReduceMulLeft(a * b, c);
    MulAssociates(a, b, c);
    ReduceMulLeft(b * c, a);
    MulCommutes(b * c, a);
    MulCommutes(Mul(b, c), a);
  }

  lemma DistributesAdd(a: Fp, b: Fp, c: Fp)
    ensures Mul(a, Add(b, c)) == Add(Mul(a, b), Mul(a, c))
  {
    calc {
      Mul(a, Add(b, c));
      { MulCommutes(a, Add(b, c)); ReduceMulLeft(b + c, a); }
      Reduce((b + c) * a);
      { MulDistributes(b, c, a); }
      Reduce(b * a + c * a);
      { MulCommutes(a, b); MulCommutes(a, c); ReduceAdd(a * b, a * c); }
      Add(Mul(a, b), Mul(a, c));
    }
  }

  lemma DistributesSub(a: Fp, b: Fp, c: Fp)
    ensures Mul(a, Sub(b, c)) == Sub(Mul(a, b), Mul(a, c))
  {
    calc {
      Mul(a, Sub(b, c));
      { MulCommutes(a, Sub(b, c)); ReduceMulLeft(b - c, a); }
      Reduce((b - c) * a);
      { MulDistributes(b - c, c, a); }
      Reduce(b * a - c * a);
      { MulCommutes(a, b); MulCommutes(a, c); ReduceSub(a * b, a * c); }
      Sub(Mul(a, b), Mul(a, c));
    }
  }

  /** (a b)(c d) = (a c)(b d). */
  lemma Interchange(a: Fp, b: Fp, c: Fp, d: Fp)
    ensures Mul(Mul(a, b), Mul(c, d)) == Mul(Mul(a, c), Mul(b, d))
  {
    Associative(a, b, Mul(c, d));
    Associative(b, c, d);
    Commutative(b, c);
    Associative(c, b, d);
    Associative(a, c, Mul(b, d));
  }

  // ----- powers -----

  lemma {:induction false} PowAdd(a: Fp, m: nat, n: nat)
    ensures Pow(a, m + n) == Mul(Pow(a, m), Pow(a, n))
  {
    if m == 0 {
      assert Mul(1, Pow(a, n)) == Pow(a, n);
    } else {
      PowAdd(a, m - 1, n);
      Associative(a, Pow(a, m - 1), Pow(a, n));
    }
  }

  lemma {:induction false} PowMul(a: Fp, b: Fp, n: nat)
    ensures Pow(Mul(a, b), n) == Mul(Pow(a, n), Pow(b, n))
  {
    if n == 0 {
    } else {
      PowMul(a, b, n - 1);
      Interchange(a, b, Pow(a, n - 1), Pow(b, n - 1));
    }
  }

  /** Squaring n times. */
  function SquareTimes(a: Fp, n: nat): Fp
    decreases n
  {
    if n == 0 then a else SquareTimes(Sqr(a), n - 1)
  }

  /** e 2^n. */
  function Doubled(e: nat, n: nat): nat
    decreases n
  {
    if n == 0 then e else Doubled(2 * e, n - 1)
  }

  /** n squarings of a^e give a^(e 2^n). */
  lemma {:induction false} SquareTimesPow(a: Fp, e: nat, n: nat)
    ensures SquareTimes(Pow(a, e), n) == Pow(a, Doubled(e, n))
    decreases n
  {
    if n == 0 {
    } else {
      PowAdd(a, e, e);
      SquareTimesPow(a, 2 * e, n - 1);
    }
  }

  lemma {:induction false} DoubledIsShift(e: nat, n: nat)
    ensures Doubled(e, n) == e * Pow2(n)
    decreases n
  {
    if n > 0 {
      DoubledIsShift(2 * e, n - 1);
      MulAssociates(e, 2, Pow2(n - 1));
    }
  }
}
