/** An abelian group, written additively, standing for the points of the curve. */
module PointGroup {

  datatype Group<!G> = Group(zero: G, add: (G, G) -> G, neg: G -> G)

  ghost predicate Abelian<G(!new)>(g: Group<G>) {
    && (forall p, q {:trigger g.add(p, q)} :: g.add(p, q) == g.add(q, p))
    && (forall p, q, r {:trigger g.add(g.add(p, q), r)} :: g.add(g.add(p, q), r) == g.add(p, g.add(q, r)))
    && (forall p {:trigger g.add(p, g.zero)} :: g.add(p, g.zero) == p)
    && (forall p {:trigger g.neg(p)} :: g.add(p, g.neg(p)) == g.zero)
  }

  lemma Commutes<G(!new)>(g: Group<G>, p: G, q: G)
    requires Abelian(g)
    ensures g.add(p, q) == g.add(q, p)
  {}

  lemma Associates<G(!new)>(g: Group<G>, p: G, q: G, r: G)
    requires Abelian(g)
    ensures g.add(g.add(p, q), r) == g.add(p, g.add(q, r))
  {}

  lemma Unit<G(!new)>(g: Group<G>, p: G)
    requires Abelian(g)
    ensures g.add(p, g.zero) == p && g.add(g.zero, p) == p && g.add(p, g.neg(p)) == g.zero && g.add(g.neg(p), p) == g.zero
  {
    Commutes(g, p, g.zero);
    Commutes(g, p, g.neg(p));
  }

  /** p added n times, or its negative -n times. */
  function Mul<G>(g: Group<G>, n: int, p: G): G
    decreases if n < 0 then -n else n
  {
    if n == 0 then g.zero
    else if n > 0 then g.add(p, Mul(g, n - 1, p))
    else g.add(g.neg(p), Mul(g, n + 1, p))
  }

  lemma Successor<G(!new)>(g: Group<G>, n: int, p: G)
    requires Abelian(g)
    ensures Mul(g, n + 1, p) == g.add(p, Mul(g, n, p))
    ensures Mul(g, n - 1, p) == g.add(g.neg(p), Mul(g, n, p))
  {
    hide Abelian;
    if n < 0 {
      var m := Mul(g, n + 1, p);
      Associates(g, p, g.neg(p), m);
      Unit(g, p);
      Unit(g, m);
    } else if n > 0 {
      var m := Mul(g, n - 1, p);
      Associates(g, g.neg(p), p, m);
      Unit(g, p);
      Unit(g, m);
    }
  }

  lemma {:induction false} MulSum<G(!new)>(g: Group<G>, n: int, m: int, p: G)
    requires Abelian(g)
    ensures Mul(g, n + m, p) == g.add(Mul(g, n, p), Mul(g, m, p))
    decreases if n < 0 then -n else n
  {
    hide Abelian;
    if n == 0 {
      Unit(g, Mul(g, m, p));
    } else if n > 0 {
      MulSum(g, n - 1, m, p);
      Successor(g, n - 1 + m, p);
      Associates(g, p, Mul(g, n - 1, p), Mul(g, m, p));
    } else {
      MulSum(g, n + 1, m, p);
      Successor(g, n + 1 + m, p);
      Associates(g, g.neg(p), Mul(g, n + 1, p), Mul(g, m, p));
    }
  }

  lemma MulOne<G(!new)>(g: Group<G>, p: G)
    requires Abelian(g)
    ensures Mul(g, 1, p) == p && Mul(g, -1, p) == g.neg(p) && Mul(g, 0, p) == g.zero
  {
    hide Abelian;
    Unit(g, p);
    Unit(g, g.neg(p));
  }

  /** The negative is the only inverse. */
  lemma NegUnique<G(!new)>(g: Group<G>, p: G, q: G)
    requires Abelian(g) && g.add(p, q) == g.zero
    ensures q == g.neg(p)
  {
    hide Abelian;
    Associates(g, g.neg(p), p, q);
    Unit(g, p);
    Unit(g, q);
    Unit(g, g.neg(p));
  }

  lemma MulNeg<G(!new)>(g: Group<G>, n: int, p: G)
    requires Abelian(g)
    ensures Mul(g, -n, p) == g.neg(Mul(g, n, p))
  {
    hide Abelian, Mul;
    MulSum(g, n, -n, p);
    MulOne(g, p);
    NegUnique(g, Mul(g, n, p), Mul(g, -n, p));
  }

  lemma {:induction false} MulProduct<G(!new)>(g: Group<G>, n: int, m: int, p: G)
    requires Abelian(g)
    ensures Mul(g, n * m, p) == Mul(g, n, Mul(g, m, p))
    decreases if n < 0 then -n else n
  {
    hide Abelian;
    var q := Mul(g, m, p);
    if n == 0 {
    } else if n > 0 {
      MulProduct(g, n - 1, m, p);
      assert n * m == m + (n - 1) * m;
      MulSum(g, m, (n - 1) * m, p);
    } else {
      MulProduct(g, n + 1, m, p);
      assert n * m == -m + (n + 1) * m;
      MulSum(g, -m, (n + 1) * m, p);
      MulNeg(g, m, p);
    }
  }

  lemma MulDouble<G(!new)>(g: Group<G>, n: int, p: G)
    requires Abelian(g)
    ensures Mul(g, 2 * n, p) == g.add(Mul(g, n, p), Mul(g, n, p))
  {
    hide Abelian, Mul;
    MulSum(g, n, n, p);
  }

  /** The middle two of four change places. */
  lemma Exchange<G(!new)>(g: Group<G>, a: G, b: G, c: G, d: G)
    requires Abelian(g)
    ensures g.add(g.add(a, b), g.add(c, d)) == g.add(g.add(a, c), g.add(b, d))
  {
    hide Abelian;
    Associates(g, a, b, g.add(c, d));
    Associates(g, b, c, d);
    Commutes(g, b, c);
    Associates(g, c, b, d);
    Associates(g, a, c, g.add(b, d));
  }

  lemma MulZero<G(!new)>(g: Group<G>, n: int)
    requires Abelian(g)
    ensures Mul(g, n, g.zero) == g.zero
  {
    MulProduct(g, n, 0, g.zero);
  }

  /** Multiples of a point of order l depend on the factor modulo l only. */
  lemma MulMod<G(!new)>(g: Group<G>, n: int, l: int, p: G)
    requires Abelian(g) && l > 0 && Mul(g, l, p) == g.zero
    ensures Mul(g, n % l, p) == Mul(g, n, p)
  {
    hide Abelian, Mul;
    var q := n / l;
    assert n == q * l + n % l;
    MulSum(g, q * l, n % l, p);
    MulProduct(g, q, l, p);
    MulZero(g, q);
    Unit(g, Mul(g, n % l, p));
  }
}
