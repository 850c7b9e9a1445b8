/** A multiplicative subgroup of a prime field, and the Lagrange polynomial of its last point. */
module Domains {
  import opened Field

  /** The sum of x^k a^(n-1-k) for k below n. */
  function Geometric(x: int, a: int, n: nat): int {
    if n == 0 then 0 else Pow(x, n - 1) + a * Geometric(x, a, n - 1)
  }

  lemma {:induction false} GeometricTelescopes(x: int, a: int, n: nat)
    ensures (x - a) * Geometric(x, a, n) == Pow(x, n) - Pow(a, n)
  {
    if n > 0 {
      GeometricTelescopes(x, a, n - 1);
      TelescopeStep(x, a, Pow(x, n - 1), Geometric(x, a, n - 1), Pow(a, n - 1));
    }
  }

  lemma TelescopeStep(x: int, a: int, u: int, g: int, v: int)
    requires (x - a) * g == u - v
    ensures (x - a) * (u + a * g) == x * u - a * v
  {
    calc {
      (x - a) * (u + a * g);
      (x - a) * u + (x - a) * (a * g);
      { assert (x - a) * (a * g) == a * ((x - a) * g); }
      (x - a) * u + a * (u - v);
      x * u - a * u + a * u - a * v;
    }
  }

  lemma {:induction false} GeometricAtSame(a: int, n: nat)
    ensures n > 0 ==> Geometric(a, a, n) == n * Pow(a, n - 1)
    ensures n == 0 ==> Geometric(a, a, n) == 0
  {
    if n > 1 {
      GeometricAtSame(a, n - 1);
      var u := Pow(a, n - 2);
      assert a * ((n - 1) * u) == (n - 1) * (a * u);
      assert Pow(a, n - 1) + (n - 1) * Pow(a, n - 1) == n * Pow(a, n - 1);
    }
  }

  /** A primitive n-th root of unity, the inverse of n, and the prime. */
  datatype Domain = Domain(p: int, n: nat, omega: int, inverseOfN: int) {
    ghost predicate Valid() {
      && Prime(p) && n >= 1
      && Same(p, n * inverseOfN, 1)
      && Same(p, Pow(omega, n), 1)
      && forall k :: 0 < k < n ==> !Same(p, Pow(omega, k), 1)
    }

    /** The last domain point, omega^(n-1). */
    function Last(): int
      requires n >= 1
    {
      Pow(omega, n - 1)
    }

    function Vanishing(r: int): int {
      Pow(r, n) - 1
    }

    /** The Lagrange polynomial of the last domain point. */
    function Lagrange(r: int): int
      requires n >= 1
    {
      Last() * inverseOfN * Geometric(r, Last(), n)
    }
  }

  lemma PointsVanish(d: Domain, i: nat)
    requires d.Valid()
    ensures Zero(d.p, d.Vanishing(Pow(d.omega, i)))
  {
    PowOfPow(d.omega, i, d.n);
    SamePow(d.p, Pow(d.omega, d.n), 1, i);
    PowOfOne(i);
  }

  /**
   * The quotient the verifier evaluates is that polynomial: away from the last point, where it can
   * be evaluated at all, the two agree.
   */
  lemma QuotientIsLagrange(d: Domain, r: int, inverse: int)
    requires d.Valid() && Same(d.p, (r - d.Last()) * inverse, 1)
    ensures Same(d.p, d.Last() * d.inverseOfN * (d.Vanishing(r) * inverse), d.Lagrange(r))
  {
    var p, a, z := d.p, d.Last(), d.Vanishing(r);
    var g := Geometric(r, a, d.n);
    PointsVanish(d, d.n - 1);
    GeometricTelescopes(r, a, d.n);
    Cancelled(p, z, r - a, g, inverse);
    SameProduct(p, z * inverse, g, a * d.inverseOfN);
  }

  /** z = x g and x y = 1 give z y = g. */
  lemma Cancelled(p: int, z: int, x: int, g: int, y: int)
    requires p > 0 && Same(p, z, x * g) && Same(p, x * y, 1)
    ensures Same(p, z * y, g)
  {
    var xg, xy, zy := x * g, x * y, z * y;
    SameProduct(p, z, xg, y);
    SameProduct(p, xy, 1, g);
    assert xg * y == xy * g && 1 * g == g by { Swapped(x, g, y); }
    SameTransitive(p, zy, xg * y, g);
  }

  lemma Swapped(x: int, g: int, y: int)
    ensures x * g * y == x * y * g
  {
  }

  function Delta(d: Domain, i: nat): int {
    if i + 1 == d.n then 1 else 0
  }

  lemma LagrangeAtLast(d: Domain)
    requires d.Valid()
    ensures Same(d.p, d.Lagrange(d.Last()), 1)
  {
    var p, n, a, c := d.p, d.n, d.Last(), d.inverseOfN;
    GeometricAtSame(a, n);
    calc {
      d.Lagrange(a);
      a * c * (n * Pow(a, n - 1));
      { Shuffle(a, c, Pow(a, n - 1), n); assert n * Pow(a, n - 1) == Pow(a, n - 1) * n; }
      a * Pow(a, n - 1) * (c * n);
      { assert c * n == n * c; }
      Pow(a, n) * (n * c);
    }
    PointsVanish(d, n - 1);
    SameProduct(p, n * c, 1, Pow(a, n));
    SameTransitive(p, Pow(a, n) * (n * c), Pow(a, n) * 1, 1);
  }

  lemma PointsDiffer(d: Domain, i: nat)
    requires d.Valid() && i + 1 < d.n
    ensures !Same(d.p, Pow(d.omega, i), d.Last())
  {
    if Same(d.p, Pow(d.omega, i), d.Last()) {
      SameProduct(d.p, Pow(d.omega, i), d.Last(), d.omega);
      assert d.omega * Pow(d.omega, i) == Pow(d.omega, i + 1) && d.omega * d.Last() == Pow(d.omega, d.n);
      SameTransitive(d.p, Pow(d.omega, i + 1), Pow(d.omega, d.n), 1);
      assert false;
    }
  }

  /** It is 1 at the last domain point and 0 at every other. */
  lemma LagrangeAtPoint(d: Domain, i: nat)
    requires d.Valid() && i < d.n
    ensures Same(d.p, d.Lagrange(Pow(d.omega, i)), Delta(d, i))
  {
    if i + 1 == d.n {
      LagrangeAtLast(d);
    } else {
      var p, a, r := d.p, d.Last(), Pow(d.omega, i);
      var g := Geometric(r, a, d.n);
      GeometricTelescopes(r, a, d.n);
      PointsVanish(d, i);
      PointsVanish(d, d.n - 1);
      ZeroSum(p, Pow(r, d.n) - 1, Pow(a, d.n) - 1);
      assert (r - a) * g == Pow(r, d.n) - 1 - (Pow(a, d.n) - 1);
      PointsDiffer(d, i);
      Euclid(p, r - a, g);
      ZeroProduct(p, g, a * d.inverseOfN);
    }
  }
}
