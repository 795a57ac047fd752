/** Fermat's little theorem in Z/P, from the primality of P. */
module Fermat {
  import opened Field25519

  ghost predicate PrimeP() {
    forall d :: 1 < d < P ==> P % d != 0
  }

  /** Euclid's lemma: a field has no zero divisors. */
  lemma {:induction false} NoZeroDivisors(a: Fp, b: Fp)
    requires PrimeP() && a != 0 && b != 0
    ensures Mul(a, b) != 0
    decreases a
  {
    if a == 1 {
    } else {
      var q, r: Fp := P / a, P % a;
      assert P == a * q + r;
      NoZeroDivisors(r, b);
      if Mul(a, b) == 0 {
        var k := a * b / P;
        assert a * b == P * k;
        calc {
          r * b;
          (P - a * q) * b;
          P * b - (a * b) * q;
          P * b - P * (k * q);
          P * (b - k * q);
        }
        ReduceShift(0, b - k * q);
        assert false;
      }
    }
  }

  lemma One(a: Fp)
    ensures Mul(a, 1) == a == Mul(1, a)
  {}

  lemma PowStep(a: Fp, e: nat)
    ensures Pow(a, e + 1) == Mul(a, Pow(a, e))
  {}

  lemma Cancel(a: Fp, x: Fp, y: Fp)
    requires PrimeP() && a != 0 && Mul(a, x) == Mul(a, y)
    ensures x == y
  {
    DistributesSub(a, x, y);
    if x != y {
      NoZeroDivisors(a, Sub(x, y));
    }
  }

  /** The product of a finite set of residues. */
  ghost function Product(s: set<Fp>): Fp {
    if s == {} then 1 else
      var x :| x in s;
      Mul(x, Product(s - {x}))
  }

  lemma ProductEmpty()
    ensures Product({}) == 1
  {}

  /** The product does not depend on the order of choice. */
  lemma {:induction false} ProductPick(s: set<Fp>, y: Fp)
    requires y in s
    ensures Product(s) == Mul(y, Product(s - {y}))
  {
    var x :| x in s && Product(s) == Mul(x, Product(s - {x}));
    if x != y {
      ProductPick(s - {x}, y);
      ProductPick(s - {y}, x);
      var t := s - {x} - {y};
      assert s - {y} - {x} == t;
      Associative(x, y, Product(t));
      Commutative(x, y);
      Associative(y, x, Product(t));
    }
  }

  ghost function Scaled(a: Fp, s: set<Fp>): set<Fp> { set x | x in s :: Mul(a, x) }

  /** Scaling every member of a set by a scales its product by a^|s|. */
  lemma {:induction false} ScaledProduct(a: Fp, s: set<Fp>)
    requires PrimeP() && a != 0
    ensures Product(Scaled(a, s)) == Mul(Pow(a, |s|), Product(s))
    ensures |Scaled(a, s)| == |s|
  {
    hide Mul, PrimeP, Product;
    if s == {} {
      assert Scaled(a, s) == {};
      ProductEmpty();
      One(1);
    } else {
      var x :| x in s;
      var t := s - {x};
      ScaledProduct(a, t);
      assert Scaled(a, s) == Scaled(a, t) + {Mul(a, x)};
      if Mul(a, x) in Scaled(a, t) {
        var y :| y in t && Mul(a, x) == Mul(a, y);
        Cancel(a, x, y);
      }
      assert Scaled(a, s) - {Mul(a, x)} == Scaled(a, t);
      ProductPick(Scaled(a, s), Mul(a, x));
      ProductPick(s, x);
      assert |s| == |t| + 1;
      Interchange(a, x, Pow(a, |t|), Product(t));
    }
  }

  lemma {:induction false} ProductNonzero(s: set<Fp>)
    requires PrimeP() && 0 !in s
    ensures Product(s) != 0
  {
    if s != {} {
      var x :| x in s;
      ProductPick(s, x);
      ProductNonzero(s - {x});
      NoZeroDivisors(x, Product(s - {x}));
    }
  }

  /** The residues 1 .. n. */
  ghost function Upto(n: Fp): (s: set<Fp>)
    ensures forall x: Fp :: x in s <==> 1 <= x <= n
    ensures |s| == n
    decreases n
  {
    if n == 0 then {} else Upto(n - 1) + {n}
  }

  /** Fermat: a^(P-1) = 1. */
  lemma LittleTheorem(a: Fp)
    requires PrimeP() && a != 0
    ensures Pow(a, P - 1) == 1
  {
    hide Mul, Pow, Product, PrimeP;
    var s := Upto(P - 1);
    var e := |s|;
    ScaledProduct(a, s);
    forall y | y in Scaled(a, s)
      ensures y in s
    {
      var x :| x in s && y == Mul(a, x);
      NoZeroDivisors(a, x);
    }
    SubsetOfSameSize(Scaled(a, s), s);
    ProductNonzero(s);
    Commutative(Pow(a, e), Product(s));
    One(Product(s));
    Cancel(Product(s), Pow(a, e), 1);
  }

  lemma SubsetOfSameSize(s: set<Fp>, t: set<Fp>)
    requires s <= t && |s| == |t|
    ensures s == t
  {
    if s != t {
      var x :| x in t && x !in s;
      SubsetSize(s, t - {x});
    }
  }

  lemma {:induction false} SubsetSize(s: set<Fp>, t: set<Fp>)
    requires s <= t
    ensures |s| <= |t|
  {
    if s != {} {
      var x :| x in s;
      SubsetSize(s - {x}, t - {x});
    }
  }

  /** x / z does not see a common factor of x and z. */
  lemma QuotientIgnoresScale(c: Fp, x: Fp, z: Fp)
    requires PrimeP() && c != 0
    ensures Mul(Mul(c, x), Pow(Mul(c, z), P - 2)) == Mul(x, Pow(z, P - 2))
  {
    hide Mul, Pow, PrimeP;
    var e := P - 2;
    PowMul(c, z, e);
    Interchange(c, x, Pow(c, e), Pow(z, e));
    PowStep(c, e);
    LittleTheorem(c);
    One(Mul(x, Pow(z, e)));
  }
}
