/** The curve b v^2 = u^3 + 486662 u^2 + u over Z/P, b = 1 for Curve25519 and b no
    square for its twist: the two formulas of the ladder are its doubling and its
    addition, and X25519 writes the u-coordinate of a multiple of a point. */
module Montgomery {
  import opened MachineInts
  import opened Field25519
  import opened Bytes
  import opened Fermat
  import opened Rfc7748
  import PointGroup

  datatype Point = Infinity | Affine(u: Fp, v: Fp)

  function Cubic(u: int): int { u * u * u + 486662 * u * u + u }

  predicate OnCurve(b: Fp, p: Point) {
    p.Affine? ==> Reduce(b * (p.v * p.v)) == Reduce(Cubic(p.u))
  }

  function TangentRise(u: int): int { 3 * u * u + 2 * 486662 * u + 1 }

  function Quotient(n: Fp, d: Fp): Fp { Mul(n, Pow(d, P - 2)) }

  function Negate(p: Point): Point {
    if p.Infinity? then p else Affine(p.u, Sub(0, p.v))
  }

  /** The slope of the line through two points, of the tangent for equal u. */
  function Slope(b: Fp, p: Point, q: Point): Fp
    requires p.Affine? && q.Affine?
  {
    if p.u == q.u then Quotient(Reduce(TangentRise(p.u)), Reduce(2 * (b * p.v)))
    else Quotient(Sub(q.v, p.v), Sub(q.u, p.u))
  }

  /** The third u-coordinate of a line of slope l. */
  function Third(b: int, l: int, u: int, u': int): int { b * (l * l) - 486662 - u - u' }

  /** Addition by chord and tangent. */
  function Plus(b: Fp, p: Point, q: Point): Point {
    if p.Infinity? then q
    else if q.Infinity? then p
    else if p.u == q.u && Add(p.v, q.v) == 0 then Infinity
    else
      var l := Slope(b, p, q);
      var u := Reduce(Third(b, l, p.u, q.u));
      Affine(u, Reduce(l * (p.u - u) - p.v))
  }

  /** x : z is the u-coordinate of p. */
  predicate Represents(p: Point, x: Fp, z: Fp) {
    match p
    case Infinity => x != 0 && z == 0
    case Affine(u, _) => z != 0 && x == Mul(u, z)
  }

  // ----- congruences -----

  function Times(k: int): int { k * P }

  /** Apart by a multiple of P. */
  ghost predicate Same(x: int, y: int) { exists k: int {:trigger Times(k)} :: x == y + Times(k) }

  lemma Apart(x: int, y: int, k: int)
    requires x == y + Times(k)
    ensures Same(x, y)
  {}

  lemma SameResidue(x: int, y: int)
    ensures Same(x, y) <==> Reduce(x) == Reduce(y)
  {
    if Same(x, y) {
      var k :| x == y + Times(k);
      ReduceShift(y, k);
    }
    if Reduce(x) == Reduce(y) {
      Apart(x, y, x / P - y / P);
    }
  }

  lemma SameTimes(x: int, y: int, c: int)
    requires Same(x, y)
    ensures Same(x * c, y * c)
  {
    var k :| x == y + Times(k);
    MulDistributes(y, Times(k), c);
    Apart(x * c, y * c, k * c);
  }

  lemma SameChain(x: int, y: int, z: int)
    requires Same(x, y) && Same(y, z)
    ensures Same(x, z) && Same(y, x)
  {
    var k :| x == y + Times(k);
    var j :| y == z + Times(j);
    Apart(x, z, k + j);
    Apart(y, x, -k);
  }

  lemma SameProducts(x: int, y: int, x': int, y': int)
    requires Same(x, y) && Same(x', y')
    ensures Same(x * x', y * y')
  {
    hide Same;
    SameTimes(x, y, x');
    SameTimes(x', y', y);
    SameChain(x * x', y * x', y * y');
  }

  lemma SameDifference(x: int, y: int, x': int, y': int)
    requires Same(x, y) && Same(x', y')
    ensures Same(x - x', y - y')
  {
    var k :| x == y + Times(k);
    var j :| x' == y' + Times(j);
    Apart(x - x', y - y', k - j);
  }

  lemma SameSum(x: int, y: int, x': int, y': int)
    requires Same(x, y) && Same(x', y')
    ensures Same(x + x', y + y')
  {
    var k :| x == y + Times(k);
    var j :| x' == y' + Times(j);
    Apart(x + x', y + y', k + j);
  }

  lemma ReduceSame(x: int)
    ensures Same(Reduce(x), x) && Same(x, x)
  {
    SameResidue(Reduce(x), x);
    SameResidue(x, x);
  }

  lemma CancelSame(d: int, x: int, y: int)
    requires PrimeP() && Reduce(d) != 0 && Same(d * x, d * y)
    ensures Same(x, y)
  {
    hide Reduce, PrimeP, Same;
    SameResidue(d * x, d * y);
    SameResidue(x, y);
    ReduceMul(d, x);
    ReduceMul(d, y);
    Cancel(Reduce(d), Reduce(x), Reduce(y));
  }

  lemma QuotientTimes(n: Fp, d: Fp)
    requires PrimeP() && d != 0
    ensures Same(d * Quotient(n, d), n)
  {
    hide Mul, Pow, PrimeP, Same, Reduce;
    Commutative(d, Mul(n, Pow(d, P - 2)));
    Associative(n, Pow(d, P - 2), d);
    Commutative(Pow(d, P - 2), d);
    PowStep(d, P - 2);
    LittleTheorem(d);
    One(n);
    MulReads(d, Quotient(n, d));
    MulReads(n, 1);
    SameResidue(d * Quotient(n, d), n);
  }

  lemma MulReads(a: Fp, b: Fp)
    ensures Mul(a, b) == Reduce(a * b) && Reduce(Mul(a, b)) == Mul(a, b) && Reduce(a) == a
  {}

  // ----- doubling -----

  /** The tangent's identity in u alone. */
  lemma TangentNumbers(u: int, n: int, f: int)
    requires n == TangentRise(u) && f == Cubic(u)
    ensures n * n - f * (4 * (486662 + 2 * u)) == (u * u - 1) * (u * u - 1)
  {}

  lemma TangentThird(b: int, v: int, l: int, c: int, w: int, m: int, t: int)
    requires w == b * (v * v) && m == 2 * (b * v) * l && t == b * (l * l) - c
    ensures w * (4 * t) == m * m - w * (4 * c)
  {
    assert m * m == w * (4 * (b * (l * l)));
  }

  /** Four times f, times the u-coordinate of 2 p, for a point with b v^2 = f and a tangent
      of rise n. */
  lemma TangentSame(b: int, u: int, v: int, l: int, f: int, n: int)
    requires Same(b * (v * v), f) && Same(2 * (b * v) * l, n)
    ensures Same(f * (4 * Third(b, l, u, u)), n * n - f * (4 * (486662 + 2 * u)))
  {
    hide Same;
    var w, m, c := b * (v * v), 2 * (b * v) * l, 486662 + 2 * u;
    var t := Third(b, l, u, u);
    TangentThird(b, v, l, c, w, m, t);
    TangentChain(w, f, m, n, 4 * c, 4 * t);
  }

  lemma TangentChain(w: int, f: int, m: int, n: int, c: int, t: int)
    requires Same(w, f) && Same(m, n) && w * t == m * m - w * c
    ensures Same(f * t, n * n - f * c)
  {
    hide Same;
    SameTimes(w, f, t);
    SameTimes(w, f, c);
    SameProducts(m, n, m, n);
    SameDifference(m * m, n * n, w * c, f * c);
    ReduceSame(f * t);
    SameChain(w * t, f * t, f * t);
    SameChain(f * t, w * t, n * n - f * c);
  }

  // ----- addition of points of different u -----

  /** u2^2 + 486662 u2 + 1 times the same of u3, in their sum and product. */
  function Symmetric(s: int, q: int): int {
    q * q + 486662 * q * s + (s * s - 2 * q) + 486662 * 486662 * q + 486662 * s + 1
  }

  lemma CubicProduct(u2: int, u3: int)
    ensures Cubic(u2) * Cubic(u3) == (u2 * u3) * Symmetric(u2 + u3, u2 * u3)
  {
    var a2, a3 := u2 * u2 + 486662 * u2 + 1, u3 * u3 + 486662 * u3 + 1;
    assert Cubic(u2) == u2 * a2 && Cubic(u3) == u3 * a3;
    SymmetricProduct(u2, u3);
    hide Cubic, Symmetric;
    Rearrange(u2, a2, u3, a3);
  }

  lemma SymmetricProduct(u2: int, u3: int)
    ensures (u2 * u2 + 486662 * u2 + 1) * (u3 * u3 + 486662 * u3 + 1) == Symmetric(u2 + u3, u2 * u3)
  {}

  lemma SumOfCubics(u2: int, u3: int)
    ensures Cubic(u2) + Cubic(u3) == (u2 * u2 * u2 + u3 * u3 * u3) + 486662 * (u2 * u2 + u3 * u3) + (u2 + u3)
  {}

  lemma ChordTerms(e: int, c: int, x: int, r: int, s: int, q: int)
    requires e == c + 486662 * x + s - r * (486662 + s) && c - r * s == s * q && x - r == 2 * q
    ensures e == s * (q + 1) + 2 * 486662 * q
  {}

  lemma CubesAndSquares(u2: int, u3: int)
    ensures u2 * u2 * u2 + u3 * u3 * u3 - (u3 - u2) * (u3 - u2) * (u2 + u3) == (u2 + u3) * (u2 * u3)
    ensures u2 * u2 + u3 * u3 - (u3 - u2) * (u3 - u2) == 2 * (u2 * u3)
  {}

  lemma SquareOfRun(u2: int, u3: int)
    ensures (u3 - u2) * (u3 - u2) == (u2 + u3) * (u2 + u3) - 4 * (u2 * u3)
  {}

  lemma Rearrange(a: int, b: int, c: int, d: int)
    ensures (a * b) * (c * d) == (a * c) * (b * d)
  {}

  lemma ChordSquare(s: int, q: int)
    ensures (s * (q + 1) + 2 * 486662 * q) * (s * (q + 1) + 2 * 486662 * q) == (s * (q + 1)) * (s * (q + 1)) + 4 * 486662 * q * s * (q + 1) + 4 * 486662 * 486662 * q * q
  {}

  lemma FourSymmetric(s: int, q: int)
    ensures 4 * (q * Symmetric(s, q)) == 4 * 486662 * q * s * (q + 1) + 4 * 486662 * 486662 * q * q + 4 * q * (q * q + s * s - 2 * q + 1)
  {}

  lemma ChordRest(s: int, q: int)
    ensures (s * (q + 1)) * (s * (q + 1)) - 4 * q * (q * q + s * s - 2 * q + 1) == (s * s - 4 * q) * ((q - 1) * (q - 1))
  {}

  /** The chord's identity in the two u-coordinates alone. */
  lemma ChordNumbers(u2: int, u3: int, e: int)
    requires e == Cubic(u2) + Cubic(u3) - (u3 - u2) * (u3 - u2) * (486662 + (u2 + u3))
    ensures e * e - 4 * (Cubic(u2) * Cubic(u3)) == (u3 - u2) * (u3 - u2) * ((u2 * u3 - 1) * (u2 * u3 - 1))
  {
    var r, s, q := (u3 - u2) * (u3 - u2), u2 + u3, u2 * u3;
    SumOfCubics(u2, u3);
    hide Cubic, Symmetric;
    CubesAndSquares(u2, u3);
    ChordTerms(e, u2 * u2 * u2 + u3 * u3 * u3, u2 * u2 + u3 * u3, r, s, q);
    SquareOfRun(u2, u3);
    CubicProduct(u2, u3);
    ChordSymmetric(s, q);
  }

  lemma ChordSymmetric(s: int, q: int)
    ensures (s * (q + 1) + 2 * 486662 * q) * (s * (q + 1) + 2 * 486662 * q) - 4 * (q * Symmetric(s, q)) == (s * s - 4 * q) * ((q - 1) * (q - 1))
  {
    ChordSquare(s, q);
    FourSymmetric(s, q);
    ChordRest(s, q);
    hide Symmetric;
  }

  /** A chord of slope l over a run of d and a rise of n, b n^2 being f. */
  lemma ChordThird(b: int, l: int, d: int, n: int, k: int, f: int)
    requires Same(l * d, n) && Same(b * (n * n), f)
    ensures Same(d * d * (b * (l * l) - k), f - d * d * k)
  {
    hide Same;
    var m := l * d;
    SameProducts(m, n, m, n);
    SameTimes(m * m, n * n, b);
    SameChain(m * m * b, n * n * b, f);
    assert d * d * (b * (l * l) - k) == m * m * b - d * d * k by {
      assert m * m == d * d * (l * l);
    }
    ReduceSame(d * d * k);
    SameDifference(m * m * b, f, d * d * k, d * d * k);
  }

  /** b n^2 for the rises v3 - v2 and v3 + v2 between points of the curve. */
  lemma RiseOnCurve(b: int, v2: int, v3: int, f2: int, f3: int, y: int)
    requires Same(b * (v2 * v2), f2) && Same(b * (v3 * v3), f3)
    requires y == 2 * (b * (v2 * v3))
    ensures Same(b * ((v3 - v2) * (v3 - v2)), f2 + f3 - y) && Same(b * ((v3 + v2) * (v3 + v2)), f2 + f3 + y)
  {
    hide Same;
    var w2, w3 := b * (v2 * v2), b * (v3 * v3);
    SameSum(w2, f2, w3, f3);
    ReduceSame(y);
    SameDifference(w2 + w3, f2 + f3, y, y);
    SameSum(w2 + w3, f2 + f3, y, y);
    SquareOfRise(b, v2, v3);
  }

  lemma SquareOfRise(b: int, v2: int, v3: int)
    ensures b * ((v3 - v2) * (v3 - v2)) == b * (v2 * v2) + b * (v3 * v3) - 2 * (b * (v2 * v3))
    ensures b * ((v3 + v2) * (v3 + v2)) == b * (v2 * v2) + b * (v3 * v3) + 2 * (b * (v2 * v3))
  {}

  /** The u-coordinates t of the sum and w of the difference, over a run of d. */
  lemma ChordSame(b: int, u2: int, v2: int, u3: int, v3: int, l: int, l': int, d: int)
    requires Same(b * (v2 * v2), Cubic(u2)) && Same(b * (v3 * v3), Cubic(u3)) && d == u3 - u2
    requires Same(l * d, v3 - v2) && Same(l' * d, v3 + v2)
    ensures var s := Cross(u2, u3, 1, 1);
      Same(d * (d * (d * d * (Third(b, l, u2, u3) * Third(b, l', u2, u3)))), d * (d * (s * s)))
  {
    hide Same, Cubic;
    var k := 486662 + u2 + u3;
    var t, w := b * (l * l) - k, b * (l' * l') - k;
    var f2, f3, y := Cubic(u2), Cubic(u3), 2 * (b * (v2 * v3));
    var e := f2 + f3 - d * d * k;
    RiseOnCurve(b, v2, v3, f2, f3, y);
    ChordThird(b, l, d, v3 - v2, k, f2 + f3 - y);
    ChordThird(b, l', d, v3 + v2, k, f2 + f3 + y);
    SameProducts(d * d * t, e - y, d * d * w, e + y);
    SumTimesRise(e, y, b, v2, v3, f2, f3);
    SameChain(d * d * t * (d * d * w), (e - y) * (e + y), e * e - 4 * (f2 * f3));
    ChordNumbers(u2, u3, e);
    Rearrange(d * d, t, d * d, w);
    var r := (u2 * u3 - 1) * (u2 * u3 - 1);
    MulAssociates(d * d, d * d, t * w);
    MulAssociates(d, d, d * d * (t * w));
    MulAssociates(d, d, r);
  }

  lemma SumTimesRise(e: int, y: int, b: int, v2: int, v3: int, f2: int, f3: int)
    requires Same(b * (v2 * v2), f2) && Same(b * (v3 * v3), f3)
    requires y == 2 * (b * (v2 * v3))
    ensures Same((e - y) * (e + y), e * e - 4 * (f2 * f3))
  {
    hide Same;
    var w2, w3 := b * (v2 * v2), b * (v3 * v3);
    SameProducts(w2, f2, w3, f3);
    SameTimes(w2 * w3, f2 * f3, 4);
    ReduceSame(e * e);
    SameDifference(e * e, e * e, w2 * w3 * 4, f2 * f3 * 4);
    SquareOfProduct(b, v2, v3);
    assert (e - y) * (e + y) == e * e - y * y;
  }

  lemma SquareOfProduct(b: int, v2: int, v3: int)
    ensures (2 * (b * (v2 * v3))) * (2 * (b * (v2 * v3))) == (b * (v2 * v2)) * (b * (v3 * v3)) * 4
  {}

  // ----- the ladder's formulas on points -----

  /** The simplest coordinates of a point. */
  function Simplest(p: Point): (Fp, Fp) {
    match p
    case Infinity => (1, 0)
    case Affine(u, _) => (u, 1)
  }

  /** All others are multiples of these. */
  lemma MultiplesOfSimplest(p: Point, x: Fp, z: Fp) returns (c: Fp)
    requires Represents(p, x, z)
    ensures c != 0 && x == Mul(c, Simplest(p).0) && z == Mul(c, Simplest(p).1)
  {
    hide Mul;
    c := if p.Infinity? then x else z;
    One(c);
    Annihilates(c);
    if p.Affine? {
      Commutative(p.u, z);
    }
  }

  lemma RepresentsScales(p: Point, c: Fp, x: Fp, z: Fp)
    requires PrimeP() && c != 0 && Represents(p, x, z)
    ensures Represents(p, Mul(c, x), Mul(c, z))
  {
    hide Mul, PrimeP;
    if p.Infinity? {
      NoZeroDivisors(c, x);
      Annihilates(c);
    } else {
      NoZeroDivisors(c, z);
      Associative(c, p.u, z);
      Commutative(c, p.u);
      Associative(p.u, c, z);
    }
  }

  lemma NonzeroProduct(a: int, b: int)
    requires PrimeP() && Reduce(a) != 0 && Reduce(b) != 0
    ensures Reduce(a * b) != 0
  {
    hide PrimeP, Reduce, Mul;
    ReduceMul(a, b);
    NoZeroDivisors(Reduce(a), Reduce(b));
  }

  lemma SmallResidues(c: int, v: Fp)
    ensures 0 <= c < P ==> Reduce(c) == c
    ensures Reduce(v) == v && (Reduce(v + v) == 0 <==> v == 0)
  {}

  /** Double and AddDiff of simplest coordinates. */
  lemma DoubleSimplest(u: Fp)
    ensures Double(u, 1) == (Reduce((u * u - 1) * (u * u - 1)), Reduce(4 * Cubic(u)))
  {
    hide Double, Reduce, Cubic, DoubledX, DoubledZ;
    DoubleInNumbers(u, 1);
    DoubledSimplest(u);
  }

  lemma DoubledSimplest(u: int)
    ensures DoubledX(u, 1) == (u * u - 1) * (u * u - 1) && DoubledZ(u, 1) == 4 * Cubic(u)
  {}

  lemma AddDiffSimplest(w: Fp, u2: Fp, u3: Fp)
    ensures AddDiff(w, u2, 1, u3, 1) == (Reduce(FourSquares(Cross(u2, u3, 1, 1))), Reduce(FourSquaresTimes(w, u3 - u2)))
  {
    hide AddDiff, Reduce, FourSquares, FourSquaresTimes, Cross;
    AddDiffInNumbers(w, u2, 1, u3, 1);
    SimplestRun(w, u2, u3);
  }

  lemma SimplestRun(w: int, u2: int, u3: int)
    ensures FourSquaresTimes(w, Cross(u2, 1, 1, u3)) == FourSquaresTimes(w, u3 - u2)
  {
    SquareOfOpposite(Cross(u2, 1, 1, u3), u3 - u2);
  }

  lemma SquareOfOpposite(d: int, d': int)
    requires d == -d'
    ensures d * d == d' * d'
  {}

  /** A point with v = 0 is not among u = 1, u = -1: 486662^2 is not 4. */
  lemma RootsApart(u: int)
    requires Reduce(Cubic(u)) == 0
    ensures Reduce(u * u - 1) != 0
  {
    hide Cubic, Reduce;
    var m := (u + 486662) * (2 * u - 486662) + 4;
    RootNumbers(u, u * u - 1, m);
    ZeroResidue(Cubic(u));
    NonzeroFactor(Cubic(u), 2 * u - 486662, u * u - 1, m);
  }

  /** y divides what is not zero. */
  lemma NonzeroFactor(f: int, k: int, y: int, m: int)
    requires Same(f, 0) && y * m == f * k + (486662 * 486662 - 4)
    ensures Reduce(y) != 0
  {
    hide Same, Mul;
    SameTimes(f, 0, k);
    ReduceSame(486662 * 486662 - 4);
    SameSum(f * k, 0, 486662 * 486662 - 4, 486662 * 486662 - 4);
    SameResidue(y * m, 486662 * 486662 - 4);
    ReduceMul(y, m);
    ZeroTimes(Reduce(m));
  }

  lemma ZeroTimes(m: Fp)
    ensures Mul(0, m) == 0
  {}

  lemma RootNumbers(u: int, y: int, m: int)
    requires y == u * u - 1 && m == (u + 486662) * (2 * u - 486662) + 4
    ensures y * m == Cubic(u) * (2 * u - 486662) + (486662 * 486662 - 4)
  {}

  lemma ZeroResidue(x: int)
    ensures Same(x, 0) <==> Reduce(x) == 0
  {
    SameResidue(x, 0);
  }

  lemma DoublingOfSimplest(b: Fp, p: Point)
    requires PrimeP() && b != 0 && OnCurve(b, p)
    ensures var (x, z) := Simplest(p); Represents(Plus(b, p, p), Double(x, z).0, Double(x, z).1)
  {
    if p.Infinity? {
      hide Double;
      DoubleInfinity();
    } else if p.v == 0 {
      DoublingOfRoot(b, p.u);
    } else {
      DoublingOfAffine(b, p.u, p.v);
    }
  }

  lemma DoublingOfRoot(b: Fp, u: Fp)
    requires PrimeP() && OnCurve(b, Affine(u, 0))
    ensures Double(u, 1).0 != 0 && Double(u, 1).1 == 0
  {
    hide PrimeP, Double, Reduce, Cubic;
    DoubleSimplest(u);
    NoMultiple(b);
    RootsApart(u);
    NonzeroProduct(u * u - 1, u * u - 1);
    ZeroResidue(Cubic(u));
    SameTimes(Cubic(u), 0, 4);
    ZeroResidue(Cubic(u) * 4);
  }

  lemma NoMultiple(b: Fp)
    ensures Reduce(b * (0 * 0)) == 0
  {}

  lemma TangentSlope(b: Fp, u: Fp, v: Fp) returns (l: Fp)
    requires PrimeP() && b != 0 && v != 0
    ensures l == Slope(b, Affine(u, v), Affine(u, v))
    ensures Same(2 * (b * v) * l, TangentRise(u))
  {
    hide PrimeP, Reduce, Pow, Mul, TangentRise;
    SmallResidues(2, v);
    SmallResidues(2, b);
    NonzeroProduct(b, v);
    NonzeroProduct(2, b * v);
    l := Quotient(Reduce(TangentRise(u)), Reduce(2 * (b * v)));
    SlopeTimes(TangentRise(u), 2 * (b * v));
  }

  lemma SlopeTimes(n: int, d: int)
    requires PrimeP() && Reduce(d) != 0
    ensures Same(d * Quotient(Reduce(n), Reduce(d)), n)
  {
    hide PrimeP, Reduce, Quotient, Same;
    var l := Quotient(Reduce(n), Reduce(d));
    QuotientTimes(Reduce(n), Reduce(d));
    ReduceSame(d);
    ReduceSame(n);
    SameTimes(Reduce(d), d, l);
    SameChain(Reduce(d) * l, Reduce(n), n);
    ReduceSame(d * l);
    SameChain(Reduce(d) * l, d * l, d * l);
    SameChain(d * l, Reduce(d) * l, n);
  }

  lemma DoublingOfAffine(b: Fp, u: Fp, v: Fp)
    requires PrimeP() && b != 0 && v != 0 && OnCurve(b, Affine(u, v))
    ensures Represents(Plus(b, Affine(u, v), Affine(u, v)), Double(u, 1).0, Double(u, 1).1)
  {
    hide PrimeP, Double, Reduce, Plus, Cubic, Mul, Same, OnCurve;
    var t := TangentPoint(b, u, v);
    DoubleSimplest(u);
    CubicNonzero(b, u, v);
    ThirdOfTangent(t, Cubic(u), (u * u - 1) * (u * u - 1));
  }

  lemma TangentPoint(b: Fp, u: Fp, v: Fp) returns (t: int)
    requires PrimeP() && b != 0 && v != 0 && OnCurve(b, Affine(u, v))
    ensures var p := Plus(b, Affine(u, v), Affine(u, v)); p.Affine? && p.u == Reduce(t)
    ensures Same(Cubic(u) * (4 * t), (u * u - 1) * (u * u - 1))
  {
    hide PrimeP, Reduce, Slope, Cubic, Third, TangentRise, Same;
    var l := TangentSlope(b, u, v);
    SameResidue(b * (v * v), Cubic(u));
    SmallResidues(0, v);
    TangentSame(b, u, v, l, Cubic(u), TangentRise(u));
    TangentNumbers(u, TangentRise(u), Cubic(u));
    t := Third(b, l, u, u);
  }

  lemma CubicNonzero(b: Fp, u: Fp, v: Fp)
    requires PrimeP() && b != 0 && v != 0 && OnCurve(b, Affine(u, v))
    ensures Reduce(Cubic(u)) != 0 && Reduce(4 * Cubic(u)) != 0
  {
    hide PrimeP, Reduce, Cubic;
    SmallResidues(4, v);
    SmallResidues(4, b);
    NonzeroProduct(v, v);
    NonzeroProduct(b, v * v);
    NonzeroProduct(4, Cubic(u));
  }

  lemma ThirdOfTangent(t: int, f: int, x: int)
    requires Same(f * (4 * t), x)
    ensures Reduce(x) == Mul(Reduce(t), Reduce(4 * f))
  {
    hide Reduce, Mul, Same;
    SameResidue(f * (4 * t), x);
    ReduceMul(t, 4 * f);
    FourTimesThird(t, f);
  }

  lemma FourTimesThird(t: int, f: int)
    ensures t * (4 * f) == f * (4 * t)
  {}

  /** Double is the doubling of the curve: x : z to the coordinates of p + p. */
  lemma DoublingRepresents(b: Fp, p: Point, x: Fp, z: Fp)
    requires PrimeP() && b != 0 && OnCurve(b, p) && Represents(p, x, z)
    ensures Represents(Plus(b, p, p), Double(x, z).0, Double(x, z).1)
  {
    hide PrimeP, Double, Plus, Mul, OnCurve, Represents, Simplest;
    var c := MultiplesOfSimplest(p, x, z);
    var (x0, z0) := Simplest(p);
    DoublingOfSimplest(b, p);
    DoubleScales(c, x0, z0);
    NoZeroDivisors(c, c);
    NoZeroDivisors(Sqr(c), Sqr(c));
    RepresentsScales(Plus(b, p, p), Sqr(Sqr(c)), Double(x0, z0).0, Double(x0, z0).1);
  }

  lemma AddDiffInfinity(w: Fp)
    requires PrimeP() && w != 0
    ensures AddDiff(w, 1, 0, w, 1) == (Mul(w, Reduce(4 * w)), Reduce(4 * w)) == AddDiff(w, w, 1, 1, 0)
    ensures Reduce(4 * w) != 0
  {
    AddDiffSymmetric(w, 1, 0, w, 1);
    hide AddDiff, PrimeP, Reduce, Mul, FourSquares, FourSquaresTimes, Cross;
    AddDiffInNumbers(w, 1, 0, w, 1);
    SmallResidues(4, w);
    NonzeroProduct(4, w);
    ReduceMul(w, 4 * w);
    FourSquaresOfOne(w);
  }

  lemma FourSquaresOfOne(w: int)
    ensures FourSquares(Cross(1, w, 0, 1)) == w * (4 * w) && FourSquaresTimes(w, Cross(1, 1, 0, w)) == 4 * w
  {}

  lemma EqualSquares(v: Fp, v': Fp)
    requires PrimeP() && Same(v * v, v' * v')
    ensures v == v' || Add(v, v') == 0
  {
    hide PrimeP, Reduce;
    if v != v' && Add(v, v') != 0 {
      DistinctResidues(v', v);
      NonzeroProduct(v - v', v + v');
      ProductOfSumAndDifference(v, v');
    }
  }

  lemma ProductOfSumAndDifference(v: int, v': int)
    requires Same(v * v, v' * v')
    ensures Reduce((v - v') * (v + v')) == 0
  {
    hide Same, Reduce;
    ReduceSame(v' * v');
    SameDifference(v * v, v' * v', v' * v', v' * v');
    DifferenceOfSquares(v, v');
    ZeroResidue(v * v - v' * v');
  }

  lemma DifferenceOfSquares(v: int, v': int)
    ensures (v - v') * (v + v') == v * v - v' * v' && v' * v' - v' * v' == 0
  {}

  /** Two points of the curve with the same u are equal or opposite. */
  lemma SameU(b: Fp, u: Fp, v: Fp, v': Fp)
    requires PrimeP() && b != 0 && OnCurve(b, Affine(u, v)) && OnCurve(b, Affine(u, v'))
    ensures v == v' || Add(v, v') == 0
  {
    hide PrimeP, Reduce, Cubic, Same;
    SmallResidues(0, b);
    SameResidue(b * (v * v), b * (v' * v'));
    CancelSame(b, v * v, v' * v');
    EqualSquares(v, v');
  }

  lemma Opposite(v: Fp, v': Fp)
    ensures Add(v, v') == 0 ==> Sub(0, v) == v'
    ensures Add(v', Sub(0, v)) == 0 <==> v == v'
  {
    hide Reduce;
    SumResidue(v + v');
    SumResidue(v' + Sub(0, v));
    DifferenceResidue(0 - v);
  }

  lemma SumResidue(x: int)
    requires 0 <= x < 2 * P
    ensures Reduce(x) == if x < P then x else x - P
  {}

  lemma DifferenceResidue(x: int)
    requires -P < x <= 0
    ensures Reduce(x) == if x == 0 then 0 else x + P
  {}

  lemma NonzeroThird(f: int, t: int, x: int)
    requires PrimeP() && Reduce(f) != 0 && Reduce(t) != 0 && Same(f * (4 * t), x)
    ensures Reduce(4 * x) != 0
  {
    hide PrimeP, Reduce, Same;
    SmallResidues(4, 0);
    NonzeroProduct(4, t);
    NonzeroProduct(f, 4 * t);
    SameResidue(f * (4 * t), x);
    NonzeroProduct(4, x);
  }

  lemma CrossSquare(u: int)
    ensures FourSquares(Cross(u, u, 1, 1)) == 4 * ((u * u - 1) * (u * u - 1))
  {}

  lemma NoRun(w: int, u: int)
    ensures Reduce(FourSquaresTimes(w, u - u)) == 0
  {}

  lemma ChordSlope(b: Fp, p: Point, q: Point, d: int, n: int) returns (l: Fp)
    requires PrimeP() && p.Affine? && q.Affine? && p.u != q.u
    requires d == q.u - p.u && Reduce(n) == Sub(q.v, p.v)
    ensures l == Slope(b, p, q) && Same(d * l, n) && Reduce(d) != 0
  {
    hide PrimeP, Quotient;
    DistinctResidues(p.u, q.u);
    hide Reduce;
    l := Quotient(Reduce(n), Reduce(d));
    SlopeTimes(n, d);
  }

  /** The slopes of the chords to a point and to its opposite. */
  lemma ChordSlopes(b: Fp, p: Point, q: Point, d: int) returns (l: Fp, l': Fp)
    requires PrimeP() && p.Affine? && q.Affine? && p.u != q.u && d == q.u - p.u
    ensures l == Slope(b, p, q) && l' == Slope(b, q, Negate(p))
    ensures Same(l * d, q.v - p.v) && Same(l' * d, q.v + p.v) && Reduce(d) != 0
  {
    hide PrimeP, Slope, Reduce, Same;
    l := ChordSlope(b, p, q, d, q.v - p.v);
    RiseToOpposite(p.v, q.v);
    l' := ChordSlope(b, q, Negate(p), -d, 0 - p.v - q.v);
    NegateBoth(l', d, -d, q.v + p.v, 0 - p.v - q.v);
    MulCommutes(d, l);
  }

  lemma DistinctResidues(u: Fp, u': Fp)
    requires u != u'
    ensures Reduce(u' - u) != 0 && Reduce(u - u') != 0
  {
    if u < u' {
      SumResidue(u' - u);
      DifferenceResidue(u - u');
    } else {
      SumResidue(u - u');
      DifferenceResidue(u' - u);
    }
  }

  lemma RiseToOpposite(v: Fp, v': Fp)
    ensures Sub(Sub(0, v), v') == Reduce(0 - v - v')
  {
    ReduceSub(0 - v, v');
    SmallResidues(0, v');
  }

  lemma NegateBoth(l: int, d: int, d': int, n: int, n': int)
    requires d' == -d && n' == -n && Same(d' * l, n')
    ensures Same(l * d, n)
  {
    hide Same;
    SameTimes(d' * l, n', -1);
    assert d' * l * -1 == l * d;
  }

  lemma RunNonzero(w: Fp, d: int)
    requires PrimeP() && Reduce(d) != 0 && w != 0
    ensures Reduce(FourSquaresTimes(w, d)) != 0
  {
    hide PrimeP, Reduce;
    SmallResidues(4, w);
    NonzeroProduct(d, d);
    NonzeroProduct(w, d * d);
    NonzeroProduct(4, w * (d * d));
  }

  /** X and Z of points of different u: t of the sum, w of the difference. */
  lemma ChordCoordinates(t: int, w: int, d: int, s: int)
    requires PrimeP() && Reduce(d) != 0
    requires Same(d * (d * (d * d * (t * w))), d * (d * (s * s)))
    ensures Reduce(FourSquares(s)) == Mul(Reduce(t), Reduce(FourSquaresTimes(Reduce(w), d)))
  {
    hide PrimeP, Reduce, Mul, Same, FourSquares, FourSquaresTimes;
    CancelSame(d, d * (d * d * (t * w)), d * (s * s));
    CancelSame(d, d * d * (t * w), s * s);
    var w', z := Reduce(w), FourSquaresTimes(Reduce(w), d);
    ReadSquares(s, w', d);
    ReduceMul(t, z);
    ReduceSame(w);
    SameTimes(w', w, 4 * t * (d * d));
    SameTimes(d * d * (t * w), s * s, 4);
    ChordProduct(t, w, w', d * d);
    SameChain(t * z, w * (4 * t * (d * d)), s * s * 4);
    SameResidue(t * z, s * s * 4);
  }

  lemma ReadSquares(s: int, w: int, d: int)
    ensures FourSquares(s) == s * s * 4 && FourSquaresTimes(w, d) == 4 * (w * (d * d))
  {}

  lemma ChordProduct(t: int, w: int, w': int, dd: int)
    ensures t * (4 * (w' * dd)) == w' * (4 * t * dd) && w * (4 * t * dd) == dd * (t * w) * 4
  {}

  lemma SumOfChord(b: Fp, p: Point, q: Point, w: Fp)
    requires PrimeP() && b != 0 && w != 0 && OnCurve(b, p) && OnCurve(b, q)
    requires p.Affine? && q.Affine? && p.u != q.u
    requires var m := Plus(b, q, Negate(p)); m.Affine? && m.u == w
    ensures Represents(Plus(b, p, q), AddDiff(w, p.u, 1, q.u, 1).0, AddDiff(w, p.u, 1, q.u, 1).1)
  {
    hide PrimeP, Reduce, Mul, AddDiff, Slope, Third, Cubic, Cross, FourSquares, FourSquaresTimes, Same;
    SameResidue(b * (p.v * p.v), Cubic(p.u));
    SameResidue(b * (q.v * q.v), Cubic(q.u));
    var l, l' := ChordSlopes(b, p, q, q.u - p.u);
    ChordSame(b, p.u, p.v, q.u, q.v, l, l', q.u - p.u);
    ThirdSymmetric(b, l', p.u, q.u);
    AddDiffSimplest(w, p.u, q.u);
    RunNonzero(w, q.u - p.u);
    ChordCoordinates(Third(b, l, p.u, q.u), Third(b, l', p.u, q.u), q.u - p.u, Cross(p.u, q.u, 1, 1));
  }

  lemma ThirdSymmetric(b: int, l: int, u: int, u': int)
    ensures Third(b, l, u, u') == Third(b, l, u', u)
  {}

  lemma SumOfSimplest(b: Fp, p: Point, q: Point, w: Fp)
    requires PrimeP() && b != 0 && w != 0 && OnCurve(b, p) && OnCurve(b, q)
    requires var m := Plus(b, q, Negate(p)); m.Affine? && m.u == w
    ensures var (x2, z2) := Simplest(p); var (x3, z3) := Simplest(q);
      Represents(Plus(b, p, q), AddDiff(w, x2, z2, x3, z3).0, AddDiff(w, x2, z2, x3, z3).1)
  {
    hide PrimeP, AddDiff;
    if p.Infinity? || q.Infinity? {
      hide Mul, Reduce;
      AddDiffInfinity(w);
    } else if p.u == q.u {
      hide Reduce, OnCurve, Slope, Third, Cubic, Same;
      Opposite(p.v, q.v);
      SameU(b, p.u, p.v, q.v);
      SmallResidues(0, q.v);
      var t := TangentPoint(b, q.u, q.v);
      CubicNonzero(b, q.u, q.v);
      NonzeroThird(Cubic(q.u), t, (q.u * q.u - 1) * (q.u * q.u - 1));
      hide Cross, FourSquares, FourSquaresTimes, Mul;
      CrossSquare(q.u);
      AddDiffSimplest(w, q.u, q.u);
      NoRun(w, q.u);
    } else {
      hide Plus, OnCurve, Represents, Negate;
      SumOfChord(b, p, q, w);
    }
  }

  /** AddDiff is the addition of the curve: to the coordinates of p + q, from those of
      p and q and the u-coordinate w of q - p. */
  lemma AdditionRepresents(b: Fp, p: Point, q: Point, w: Fp, x2: Fp, z2: Fp, x3: Fp, z3: Fp)
    requires PrimeP() && b != 0 && w != 0 && OnCurve(b, p) && OnCurve(b, q)
    requires var m := Plus(b, q, Negate(p)); m.Affine? && m.u == w
    requires Represents(p, x2, z2) && Represents(q, x3, z3)
    ensures Represents(Plus(b, p, q), AddDiff(w, x2, z2, x3, z3).0, AddDiff(w, x2, z2, x3, z3).1)
  {
    hide PrimeP, AddDiff, Plus, Mul, OnCurve, Represents, Simplest, Negate;
    var c := MultiplesOfSimplest(p, x2, z2);
    var d := MultiplesOfSimplest(q, x3, z3);
    var (a2, b2) := Simplest(p);
    var (a3, b3) := Simplest(q);
    SumOfSimplest(b, p, q, w);
    AddDiffScales(w, c, d, a2, b2, a3, b3);
    NoZeroDivisors(d, c);
    NoZeroDivisors(Mul(d, c), Mul(d, c));
    RepresentsScales(Plus(b, p, q), Sqr(Mul(d, c)), AddDiff(w, a2, b2, a3, b3).0, AddDiff(w, a2, b2, a3, b3).1);
  }

  // ----- the group of the curve -----

  /** g is a group and `at` takes it to points of the curve, its sum to chord and tangent. */
  ghost predicate CurveGroup<G(!new)>(g: PointGroup.Group<G>, at: G -> Point, b: Fp) {
    && PointGroup.Abelian(g) && b != 0 && at(g.zero) == Infinity
    && (forall p {:trigger at(p)} :: OnCurve(b, at(p)))
    && (forall p, q {:trigger g.add(p, q)} :: at(g.add(p, q)) == Plus(b, at(p), at(q)))
  }

  lemma SumAt<G(!new)>(g: PointGroup.Group<G>, at: G -> Point, b: Fp, p: G, q: G)
    requires CurveGroup(g, at, b)
    ensures at(g.add(p, q)) == Plus(b, at(p), at(q)) && OnCurve(b, at(p)) && OnCurve(b, at(q))
  {}

  lemma InverseIsNegation(b: Fp, p: Point, r: Point)
    requires Plus(b, p, r) == Infinity
    ensures r == Negate(p)
  {
    hide Slope, Third;
    if p.Affine? && r.Affine? {
      Opposite(p.v, r.v);
    }
  }

  lemma NegAt<G(!new)>(g: PointGroup.Group<G>, at: G -> Point, b: Fp, p: G)
    requires CurveGroup(g, at, b)
    ensures at(g.neg(p)) == Negate(at(p))
  {
    hide CurveGroup, Plus, Negate;
    SumAt(g, at, b, p, g.neg(p));
    GroupOfCurve(g, at, b);
    PointGroup.Unit(g, p);
    InverseIsNegation(b, at(p), at(g.neg(p)));
  }

  /** x : z is the u-coordinate of m q. */
  ghost function Multiples<G(!new)>(g: PointGroup.Group<G>, at: G -> Point, q: G): Representation {
    (m: nat, x: Fp, z: Fp) => Represents(at(PointGroup.Mul(g, m, q)), x, z)
  }

  lemma DoublingHolds<G(!new)>(g: PointGroup.Group<G>, at: G -> Point, b: Fp, q: G)
    requires PrimeP() && CurveGroup(g, at, b)
    ensures DoublingLaw(Multiples(g, at, q))
  {
    hide PrimeP, Double, Plus, Represents, OnCurve, CurveGroup, PointGroup.Mul;
    forall m: nat, x: Fp, z: Fp | Represents(at(PointGroup.Mul(g, m, q)), x, z)
      ensures Represents(at(PointGroup.Mul(g, 2 * m, q)), Double(x, z).0, Double(x, z).1)
    {
      var p := PointGroup.Mul(g, m, q);
      GroupOfCurve(g, at, b);
      PointGroup.MulDouble(g, m, q);
      SumAt(g, at, b, p, p);
      DoublingRepresents(b, at(p), x, z);
    }
  }

  lemma GroupOfCurve<G(!new)>(g: PointGroup.Group<G>, at: G -> Point, b: Fp)
    requires CurveGroup(g, at, b)
    ensures PointGroup.Abelian(g) && b != 0 && at(g.zero) == Infinity
  {}

  /** (m + 1) q less m q is q. */
  lemma NextMultiple<G(!new)>(g: PointGroup.Group<G>, at: G -> Point, b: Fp, q: G, m: nat)
    requires CurveGroup(g, at, b)
    ensures at(q) == Plus(b, at(PointGroup.Mul(g, m + 1, q)), Negate(at(PointGroup.Mul(g, m, q))))
  {
    hide PointGroup.Mul, Plus, Negate, CurveGroup;
    GroupOfCurve(g, at, b);
    var p, r := PointGroup.Mul(g, m, q), PointGroup.Mul(g, m + 1, q);
    PointGroup.Successor(g, m, q);
    PointGroup.Associates(g, q, p, g.neg(p));
    PointGroup.Unit(g, p);
    PointGroup.Unit(g, q);
    SumAt(g, at, b, r, g.neg(p));
    NegAt(g, at, b, p);
  }

  lemma AdditionHolds<G(!new)>(g: PointGroup.Group<G>, at: G -> Point, b: Fp, q: G, w: Fp)
    requires PrimeP() && CurveGroup(g, at, b) && at(q).Affine? && at(q).u == w && w != 0
    ensures DifferentialAdditionLaw(w, Multiples(g, at, q))
  {
    hide PrimeP, AddDiff, Plus, Represents, OnCurve, CurveGroup, PointGroup.Mul, Negate;
    forall m: nat, x2: Fp, z2: Fp, x3: Fp, z3: Fp | Represents(at(PointGroup.Mul(g, m, q)), x2, z2) && Represents(at(PointGroup.Mul(g, m + 1, q)), x3, z3)
      ensures Represents(at(PointGroup.Mul(g, 2 * m + 1, q)), AddDiff(w, x2, z2, x3, z3).0, AddDiff(w, x2, z2, x3, z3).1)
    {
      var p, r := PointGroup.Mul(g, m, q), PointGroup.Mul(g, m + 1, q);
      GroupOfCurve(g, at, b);
      PointGroup.MulSum(g, m, m + 1, q);
      SumAt(g, at, b, p, r);
      NextMultiple(g, at, b, q, m);
      AdditionRepresents(b, at(p), at(r), w, x2, z2, x3, z3);
    }
  }

  // ----- what X25519 writes -----

  /** The u-coordinate, 0 for the point at infinity. */
  function UCoordinate(p: Point): Fp {
    if p.Infinity? then 0 else p.u
  }

  lemma QuotientOfRepresented(p: Point, x: Fp, z: Fp)
    requires PrimeP() && Represents(p, x, z)
    ensures Mul(x, Pow(z, P - 2)) == UCoordinate(p)
  {
    hide PrimeP, Mul, Pow;
    if p.Infinity? {
      PowStep(0, P - 3);
      Annihilates(Pow(0, P - 3));
      Annihilates(x);
    } else {
      Associative(p.u, z, Pow(z, P - 2));
      PowStep(z, P - 2);
      LittleTheorem(z);
      One(p.u);
    }
  }

  lemma NonzeroU<G(!new)>(g: PointGroup.Group<G>, at: G -> Point, b: Fp, q: G, k: seq<u8>, u: seq<u8>)
    requires PrimeP() && CurveGroup(g, at, b) && |k| == |u| == 32
    requires at(q).Affine? && at(q).u == DecodeU(u) && DecodeU(u) != 0
    ensures X25519(k, u) == Encode(UCoordinate(at(PointGroup.Mul(g, DecodeScalar(k), q))), 32)
  {
    hide PrimeP, CurveGroup, X25519, DecodeU, DecodeScalar, Encode, UCoordinate, Mul, Pow, DoublingLaw, DifferentialAdditionLaw, PointGroup.Mul;
    var rep := Multiples(g, at, q);
    GroupOfCurve(g, at, b);
    PointGroup.MulOne(g, q);
    One(DecodeU(u));
    DoublingHolds(g, at, b, q);
    AdditionHolds(g, at, b, q, DecodeU(u));
    X25519Multiplies(k, u, rep);
    var x, z :| rep(DecodeScalar(k), x, z) && X25519(k, u) == Encode(Mul(x, Pow(z, P - 2)), 32);
    QuotientOfRepresented(at(PointGroup.Mul(g, DecodeScalar(k), q)), x, z);
  }

  lemma {:induction false} InfinityStays<G(!new)>(g: PointGroup.Group<G>, at: G -> Point, b: Fp, n: nat, r: G)
    requires CurveGroup(g, at, b) && at(r) == Infinity
    ensures at(PointGroup.Mul(g, n, r)) == Infinity
  {
    hide CurveGroup;
    GroupOfCurve(g, at, b);
    if n != 0 {
      InfinityStays(g, at, b, n - 1, r);
      SumAt(g, at, b, r, PointGroup.Mul(g, n - 1, r));
    }
  }

  /** The point of u = 0 has order two, and a decoded scalar is even. */
  lemma ZeroU<G(!new)>(g: PointGroup.Group<G>, at: G -> Point, b: Fp, q: G, n: nat)
    requires PrimeP() && CurveGroup(g, at, b) && at(q).Affine? && at(q).u == 0
    ensures at(PointGroup.Mul(g, 2 * n, q)) == Infinity
  {
    hide PrimeP, CurveGroup, PointGroup.Mul, Slope, Third, OnCurve;
    GroupOfCurve(g, at, b);
    PointGroup.MulProduct(g, n, 2, q);
    PointGroup.MulDouble(g, 1, q);
    PointGroup.MulOne(g, q);
    SumAt(g, at, b, q, q);
    if at(q).v != 0 {
      CubicNonzero(b, 0, at(q).v);
    }
    InfinityStays(g, at, b, n, PointGroup.Mul(g, 2, q));
  }

  lemma X25519OfZero(k: seq<u8>, u: seq<u8>)
    requires PrimeP() && |k| == |u| == 32 && DecodeU(u) == 0
    ensures X25519(k, u) == Encode(0, 32)
  {
    hide PrimeP, X25519, DecodeU, DecodeScalar, Encode, Mul, Pow, EagerLadder;
    X25519ByEagerLadder(k, u);
    ZeroStays(DecodeScalar(k), 256);
    PowStep(0, P - 3);
    Annihilates(Pow(0, P - 3));
    Annihilates(EagerLadder(0, DecodeScalar(k), 256).x2);
  }

  lemma EitherU<G(!new)>(g: PointGroup.Group<G>, at: G -> Point, b: Fp, q: G, k: seq<u8>, u: seq<u8>)
    requires PrimeP() && CurveGroup(g, at, b) && |k| == |u| == 32
    requires at(q).Affine? && at(q).u == DecodeU(u)
    ensures X25519(k, u) == Encode(UCoordinate(at(PointGroup.Mul(g, DecodeScalar(k), q))), 32)
  {
    hide PrimeP, CurveGroup, X25519, DecodeU, DecodeScalar, Encode, PointGroup.Mul, UCoordinate;
    if DecodeU(u) == 0 {
      X25519OfZero(k, u);
      EvenScalar(k);
      ZeroU(g, at, b, q, DecodeScalar(k) / 2);
      InfinityCoordinate();
    } else {
      NonzeroU(g, at, b, q, k, u);
    }
  }

  lemma EvenScalar(k: seq<u8>)
    requires |k| == 32
    ensures DecodeScalar(k) == 2 * (DecodeScalar(k) / 2)
  {
    hide DecodeScalar, LittleEndian;
    DecodedScalar(k);
  }

  /** Every u belongs to a point of one of these curves. */
  lemma EveryU(u: Fp) returns (b: Fp, v: Fp)
    ensures b != 0 && OnCurve(b, Affine(u, v))
  {
    var f := Reduce(Cubic(u));
    hide Cubic;
    b, v := if f == 0 then 1 else f, if f == 0 then 0 else 1;
    SmallResidues(0, f);
  }

  /** X25519 in numbers: of a scalar of 32 bytes and the u-coordinate of a point q of the
      curve or of its twist, the u-coordinate of the multiple of q. */
  lemma X25519OnCurve<G(!new)>(g: PointGroup.Group<G>, at: G -> Point, b: Fp, q: G, k: seq<u8>, u: seq<u8>)
    requires PrimeP() && CurveGroup(g, at, b) && |k| == |u| == 32
    requires at(q).Affine? && at(q).u == LittleEndian(u) % 0x8000000000000000000000000000000000000000000000000000000000000000 % P
    ensures |X25519(k, u)| == 32
    ensures var n := 0x4000000000000000000000000000000000000000000000000000000000000000 + 8 * (LittleEndian(k) / 8 % 0x800000000000000000000000000000000000000000000000000000000000000);
      LittleEndian(X25519(k, u)) == UCoordinate(at(PointGroup.Mul(g, n, q)))
  {
    hide PrimeP, CurveGroup, X25519, DecodeU, DecodeScalar, Encode, PointGroup.Mul, LittleEndian, UCoordinate;
    DecodedU(u);
    DecodedScalar(k);
    EitherU(g, at, b, q, k, u);
    CoordinateBytes(UCoordinate(at(PointGroup.Mul(g, DecodeScalar(k), q))));
  }

  lemma InfinityCoordinate()
    ensures UCoordinate(Infinity) == 0
  {}

  lemma CoordinateBytes(x: Fp)
    ensures |Encode(x, 32)| == 32 && LittleEndian(Encode(x, 32)) == x
  {
    hide LittleEndian, Pow256, Encode;
    EncodeDecodes(x, 32);
    Pow256Values();
    QuotientUnique(x, 0x1_0000000000000000000000000000000000000000000000000000000000000000, 0, x);
  }
}
