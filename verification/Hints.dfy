/** The weight argument of the hinTS threshold signature, and its threshold check. */
module Hints {
  import opened Common
  import opened Field
  import opened Polynomial
  import opened Domains

  // ----- The polynomial identities -----------------------------------------------------------

  /** What the signer commits to, with the committee's weights w. */
  datatype Polynomials = Polynomials(parsum: Poly, w: Poly, b: Poly, q1: Poly, q2: Poly, q3: Poly, q4: Poly) {
    predicate Below(m: nat) {
      |parsum| <= m && |w| <= m && |b| <= m && |q1| <= m && |q2| <= m && |q3| <= m && |q4| <= m
    }
  }

  /** The claimed evaluations a signature carries; parsumBefore is the one at r / omega. */
  datatype Evaluations = Evaluations(
    parsum: int, parsumBefore: int, w: int, b: int, q1: int, q2: int, q3: int, q4: int)

  datatype StepSix = StepSix(
    parsumAccumulation: bool, parsumConstraint: bool, bitmapWellFormedness: bool, bitmapConstraint: bool)
  {
    predicate AllPassed() {
      parsumAccumulation && parsumConstraint && bitmapWellFormedness && bitmapConstraint
    }
  }

  /** The four checks at the challenge r; inverse is the field inverse of r - omega^(n-1). */
  function CheckIdentities(d: Domain, r: int, inverse: int, e: Evaluations): StepSix
    requires d.p > 0 && d.n >= 1
  {
    var z := d.Vanishing(r);
    var l := d.Last() * d.inverseOfN * (z * inverse);
    StepSix(
      Same(d.p, e.parsum - e.parsumBefore - e.w * e.b, e.q1 * z),
      Same(d.p, l * e.parsum, z * e.q3),
      Same(d.p, e.b * e.b - e.b, e.q2 * z),
      Same(d.p, l * (e.b - 1), z * e.q4))
  }

  /**
   * The true evaluations at a challenge: w is opened on its commitment less aggWeight times that of
   * the last Lagrange polynomial, and omega^(n-1) is the inverse of omega.
   */
  function Openings(d: Domain, f: Polynomials, aggWeight: int, r: int): Evaluations
    requires d.n >= 1
  {
    Evaluations(Eval(f.parsum, r), Eval(f.parsum, d.Last() * r),
                Eval(f.w, r) - aggWeight * d.Lagrange(r), Eval(f.b, r),
                Eval(f.q1, r), Eval(f.q2, r), Eval(f.q3, r), Eval(f.q4, r))
  }

  /** Left side less right side of each identity. */
  function Accumulation(d: Domain, f: Polynomials, aggWeight: int, r: int): int
    requires d.n >= 1
  {
    var e := Openings(d, f, aggWeight, r);
    e.parsum - e.parsumBefore - e.w * e.b - e.q1 * d.Vanishing(r)
  }

  function LastParsum(d: Domain, f: Polynomials, r: int): int
    requires d.n >= 1
  {
    d.Lagrange(r) * Eval(f.parsum, r) - d.Vanishing(r) * Eval(f.q3, r)
  }

  function BitsOnly(d: Domain, f: Polynomials, r: int): int {
    Eval(f.b, r) * Eval(f.b, r) - Eval(f.b, r) - Eval(f.q2, r) * d.Vanishing(r)
  }

  function LastBit(d: Domain, f: Polynomials, r: int): int
    requires d.n >= 1
  {
    d.Lagrange(r) * (Eval(f.b, r) - 1) - d.Vanishing(r) * Eval(f.q4, r)
  }

  ghost predicate HoldAt(d: Domain, f: Polynomials, aggWeight: int, r: int)
    requires d.p > 0 && d.n >= 1
  {
    && Zero(d.p, Accumulation(d, f, aggWeight, r))
    && Zero(d.p, LastParsum(d, f, r))
    && Zero(d.p, BitsOnly(d, f, r))
    && Zero(d.p, LastBit(d, f, r))
  }

  lemma SameFactor(p: int, l: int, m: int, x: int, y: int)
    requires p > 0 && Same(p, l, m)
    ensures Same(p, l * x, y) <==> Same(p, m * x, y)
  {
    SameProduct(p, l, m, x);
    SameTransitive(p, l * x, m * x, m * x + 0) by { MultipleIsZero(p, 0); }
    if Same(p, l * x, y) { SameTransitive(p, m * x, l * x, y); }
    if Same(p, m * x, y) { SameTransitive(p, l * x, m * x, y); }
  }

  /** On true evaluations the checks of the code, with its quotient, are the polynomial identities at the challenge. */
  lemma ChecksAreIdentities(d: Domain, f: Polynomials, aggWeight: int, r: int, inverse: int)
    requires d.Valid() && Same(d.p, (r - d.Last()) * inverse, 1)
    ensures CheckIdentities(d, r, inverse, Openings(d, f, aggWeight, r)).AllPassed() <==> HoldAt(d, f, aggWeight, r)
  {
    QuotientIsLagrange(d, r, inverse);
    var z := d.Vanishing(r);
    var l := d.Last() * d.inverseOfN * (z * inverse);
    SameFactor(d.p, l, d.Lagrange(r), Eval(f.parsum, r), z * Eval(f.q3, r));
    SameFactor(d.p, l, d.Lagrange(r), Eval(f.b, r) - 1, z * Eval(f.q4, r));
  }

  // ----- From many challenges to every point -------------------------------------------------

  function GeometricPoly(a: int, n: nat): (c: Poly)
    ensures |c| == n
  {
    if n == 0 then [] else Plus(Monomial(n - 1), Scaled(a, GeometricPoly(a, n - 1)))
  }

  lemma {:induction false} EvalGeometric(a: int, n: nat, x: int)
    ensures Eval(GeometricPoly(a, n), x) == Geometric(x, a, n)
  {
    if n > 0 {
      EvalGeometric(a, n - 1, x);
      EvalMonomial(n - 1, x);
      EvalScaled(a, GeometricPoly(a, n - 1), x);
      EvalPlus(Monomial(n - 1), Scaled(a, GeometricPoly(a, n - 1)), x);
    }
  }

  function LagrangePoly(d: Domain): (c: Poly)
    requires d.n >= 1
    ensures |c| == d.n
  {
    Scaled(d.Last() * d.inverseOfN, GeometricPoly(d.Last(), d.n))
  }

  function VanishingPoly(d: Domain): (c: Poly)
    ensures |c| == d.n + 1
  {
    Minus(Monomial(d.n), [1])
  }

  lemma EvalDomain(d: Domain, x: int)
    requires d.n >= 1
    ensures Eval(LagrangePoly(d), x) == d.Lagrange(x)
    ensures Eval(VanishingPoly(d), x) == d.Vanishing(x)
  {
    EvalGeometric(d.Last(), d.n, x);
    EvalScaled(d.Last() * d.inverseOfN, GeometricPoly(d.Last(), d.n), x);
    EvalMonomial(d.n, x);
    EvalMinus(Monomial(d.n), [1], x);
    assert [1][1..] == [];
  }

  /** The identities as polynomials. */
  function AccumulationPoly(d: Domain, f: Polynomials, aggWeight: int): Poly
    requires d.n >= 1
  {
    Minus(
      Minus(Minus(f.parsum, Stretched(d.Last(), f.parsum)),
            Times(Minus(f.w, Scaled(aggWeight, LagrangePoly(d))), f.b)),
      Times(f.q1, VanishingPoly(d)))
  }

  function LastParsumPoly(d: Domain, f: Polynomials): Poly
    requires d.n >= 1
  {
    Minus(Times(LagrangePoly(d), f.parsum), Times(VanishingPoly(d), f.q3))
  }

  function BitsOnlyPoly(d: Domain, f: Polynomials): Poly {
    Minus(Minus(Times(f.b, f.b), f.b), Times(f.q2, VanishingPoly(d)))
  }

  function LastBitPoly(d: Domain, f: Polynomials): Poly
    requires d.n >= 1
  {
    Minus(Times(LagrangePoly(d), Minus(f.b, [1])), Times(VanishingPoly(d), f.q4))
  }

  lemma EvalAccumulation(d: Domain, f: Polynomials, aggWeight: int, x: int)
    requires d.n >= 1
    ensures Eval(AccumulationPoly(d, f, aggWeight), x) == Accumulation(d, f, aggWeight, x)
  {
    var l, z, s := LagrangePoly(d), VanishingPoly(d), Stretched(d.Last(), f.parsum);
    var w := Minus(f.w, Scaled(aggWeight, l));
    EvalDomain(d, x);
    EvalStretched(d.Last(), f.parsum, x);
    EvalMinus(f.parsum, s, x);
    EvalScaled(aggWeight, l, x);
    EvalMinus(f.w, Scaled(aggWeight, l), x);
    EvalTimes(w, f.b, x);
    EvalMinus(Minus(f.parsum, s), Times(w, f.b), x);
    EvalTimes(f.q1, z, x);
    EvalMinus(Minus(Minus(f.parsum, s), Times(w, f.b)), Times(f.q1, z), x);
  }

  lemma EvalLastParsum(d: Domain, f: Polynomials, x: int)
    requires d.n >= 1
    ensures Eval(LastParsumPoly(d, f), x) == LastParsum(d, f, x)
  {
    var l, z := LagrangePoly(d), VanishingPoly(d);
    EvalDomain(d, x);
    EvalTimes(l, f.parsum, x);
    EvalTimes(z, f.q3, x);
    EvalMinus(Times(l, f.parsum), Times(z, f.q3), x);
  }

  lemma EvalBitsOnly(d: Domain, f: Polynomials, x: int)
    requires d.n >= 1
    ensures Eval(BitsOnlyPoly(d, f), x) == BitsOnly(d, f, x)
  {
    var z := VanishingPoly(d);
    EvalDomain(d, x);
    EvalTimes(f.b, f.b, x);
    EvalMinus(Times(f.b, f.b), f.b, x);
    EvalTimes(f.q2, z, x);
    EvalMinus(Minus(Times(f.b, f.b), f.b), Times(f.q2, z), x);
  }

  lemma EvalLastBit(d: Domain, f: Polynomials, x: int)
    requires d.n >= 1
    ensures Eval(LastBitPoly(d, f), x) == LastBit(d, f, x)
  {
    var l, z := LagrangePoly(d), VanishingPoly(d);
    EvalDomain(d, x);
    EvalMinus(f.b, [1], x);
    assert [1][1..] == [];
    EvalTimes(l, Minus(f.b, [1]), x);
    EvalTimes(z, f.q4, x);
    EvalMinus(Times(l, Minus(f.b, [1])), Times(z, f.q4), x);
  }

  lemma IdentitiesAreRoots(d: Domain, f: Polynomials, aggWeight: int, x: int)
    requires d.p > 0 && d.n >= 1
    ensures HoldAt(d, f, aggWeight, x) <==>
      && Zero(d.p, Eval(AccumulationPoly(d, f, aggWeight), x)) && Zero(d.p, Eval(LastParsumPoly(d, f), x))
      && Zero(d.p, Eval(BitsOnlyPoly(d, f), x)) && Zero(d.p, Eval(LastBitPoly(d, f), x))
  {
    EvalAccumulation(d, f, aggWeight, x);
    EvalLastParsum(d, f, x);
    EvalBitsOnly(d, f, x);
    EvalLastBit(d, f, x);
  }

  lemma ShortProducts(a: Poly, b: Poly, c: Poly, e: Poly, m: nat)
    requires |a| <= m && |b| <= m && |c| <= m && |e| <= m
    ensures |Minus(Times(a, b), Times(c, e))| <= 2 * m
  {
  }

  lemma ShortAccumulation(d: Domain, f: Polynomials, aggWeight: int, m: nat)
    requires 1 <= d.n < m && f.Below(m)
    ensures |AccumulationPoly(d, f, aggWeight)| <= 2 * m
  {
  }

  lemma ShortPolynomials(d: Domain, f: Polynomials, aggWeight: int, m: nat)
    requires 1 <= d.n < m && f.Below(m)
    ensures |AccumulationPoly(d, f, aggWeight)| <= 2 * m && |LastParsumPoly(d, f)| <= 2 * m
    ensures |BitsOnlyPoly(d, f)| <= 2 * m && |LastBitPoly(d, f)| <= 2 * m
  {
    var l, z := LagrangePoly(d), VanishingPoly(d);
    ShortAccumulation(d, f, aggWeight, m);
    ShortProducts(l, f.parsum, z, f.q3, m);
    ShortProducts(l, Minus(f.b, [1]), z, f.q4, m);
  }

  /**
   * With every committed degree below m, an identity that fails anywhere passes at fewer than 2m
   * challenges: 2m accepting ones make all four hold everywhere.
   */
  lemma ManyChallengesBind(
    d: Domain, f: Polynomials, aggWeight: int, m: nat, challenges: seq<int>, x: int)
    requires d.Valid() && d.n < m && f.Below(m)
    requires Distinct(d.p, challenges) && |challenges| >= 2 * m
    requires forall i :: 0 <= i < |challenges| ==> HoldAt(d, f, aggWeight, challenges[i])
    ensures HoldAt(d, f, aggWeight, x)
  {
    ShortPolynomials(d, f, aggWeight, m);
    var c1, c2 := AccumulationPoly(d, f, aggWeight), LastParsumPoly(d, f);
    var c3, c4 := BitsOnlyPoly(d, f), LastBitPoly(d, f);
    forall i | 0 <= i < |challenges|
      ensures Zero(d.p, Eval(c1, challenges[i])) && Zero(d.p, Eval(c2, challenges[i]))
      ensures Zero(d.p, Eval(c3, challenges[i])) && Zero(d.p, Eval(c4, challenges[i]))
    {
      IdentitiesAreRoots(d, f, aggWeight, challenges[i]);
    }
    TooManyRoots(d.p, c1, challenges, x);
    TooManyRoots(d.p, c2, challenges, x);
    TooManyRoots(d.p, c3, challenges, x);
    TooManyRoots(d.p, c4, challenges, x);
    IdentitiesAreRoots(d, f, aggWeight, x);
  }

  // ----- From every domain point to the weights ----------------------------------------------

  /** A committed polynomial's value at the i-th domain point. */
  function At(d: Domain, c: Poly, i: nat): int {
    Eval(c, Pow(d.omega, i))
  }

  function Chosen(d: Domain, f: Polynomials, i: nat): bool
    requires d.p > 0
  {
    Same(d.p, At(d, f.b, i), 1)
  }

  /** The total weight of the first k members whose bit is set. */
  function SelectedWeight(d: Domain, f: Polynomials, weights: seq<nat>, k: nat): nat
    requires d.p > 0 && k <= |weights|
  {
    if k == 0 then 0
    else SelectedWeight(d, f, weights, k - 1) + if Chosen(d, f, k - 1) then weights[k - 1] else 0
  }

  ghost predicate CommitsTo(d: Domain, f: Polynomials, weights: seq<nat>)
    requires d.p > 0
  {
    |weights| == d.n && forall i :: 0 <= i < d.n ==> Same(d.p, At(d, f.w, i), weights[i])
  }

  lemma SameZero(p: int, x: int, y: int)
    requires p > 0 && Same(p, y, x)
    ensures Zero(p, x) <==> Zero(p, y)
  {
    if Zero(p, x) { ZeroSum(p, y - x, x); }
    if Zero(p, y) { ZeroSum(p, y, y - x); }
  }

  /** At a domain point the third identity says that the bitmap holds a bit. */
  lemma BitAt(d: Domain, f: Polynomials, i: nat)
    requires d.Valid() && i < d.n
    ensures Zero(d.p, BitsOnly(d, f, Pow(d.omega, i))) <==> Zero(d.p, At(d, f.b, i)) || Chosen(d, f, i)
  {
    var r, b := Pow(d.omega, i), At(d, f.b, i);
    PointsVanish(d, i);
    ZeroProduct(d.p, d.Vanishing(r), Eval(f.q2, r));
    assert b * b - b == b * (b - 1);
    SameZero(d.p, BitsOnly(d, f, r), b * (b - 1));
    if Zero(d.p, b * (b - 1)) { Euclid(d.p, b, b - 1); }
    if Zero(d.p, b) { ZeroProduct(d.p, b, b - 1); }
    if Chosen(d, f, i) { ZeroProduct(d.p, b - 1, b); }
  }

  /** At a domain point, l y = z q with l the last Lagrange value says that y is zero, if it is the last. */
  lemma LastValue(d: Domain, i: nat, y: int, q: int)
    requires d.Valid() && i < d.n
    ensures Zero(d.p, d.Lagrange(Pow(d.omega, i)) * y - d.Vanishing(Pow(d.omega, i)) * q)
      <==> (i + 1 == d.n ==> Zero(d.p, y))
  {
    var r := Pow(d.omega, i);
    var l, z := d.Lagrange(r), d.Vanishing(r);
    PointsVanish(d, i);
    ZeroProduct(d.p, z, q);
    LagrangeAtPoint(d, i);
    SameProduct(d.p, l, Delta(d, i), y);
    ZeroSum(d.p, z * q, l * y - Delta(d, i) * y);
    SameZero(d.p, l * y - z * q, Delta(d, i) * y);
    if i + 1 < d.n { MultipleIsZero(d.p, 0); }
  }

  function Before(d: Domain, i: nat): nat
    requires i < d.n
  {
    if i == 0 then d.n - 1 else i - 1
  }

  /** The running sum's value at r / omega is its value one point earlier, cyclically. */
  lemma OnePointEarlier(d: Domain, c: Poly, i: nat)
    requires d.Valid() && i < d.n
    ensures Same(d.p, Eval(c, d.Last() * Pow(d.omega, i)), At(d, c, Before(d, i)))
  {
    var r := d.Last() * Pow(d.omega, i);
    if i == 0 {
      assert r == d.Last();
      MultipleIsZero(d.p, 0);
    } else {
      PowAdd(d.omega, d.n - 1, i);
      PowAdd(d.omega, d.n, i - 1);
      var u := Pow(d.omega, i - 1);
      assert r == Pow(d.omega, d.n) * u;
      SameProduct(d.p, Pow(d.omega, d.n), 1, u);
      assert 1 * u == u;
      SameEval(d.p, c, r, u);
    }
  }

  /** One member's contribution: its weight if chosen, less aggWeight at the last point. */
  function Share(d: Domain, f: Polynomials, aggWeight: int, weights: seq<nat>, i: nat): int
    requires d.p > 0 && i < d.n == |weights|
  {
    (if Chosen(d, f, i) then weights[i] else 0) - aggWeight * Delta(d, i)
  }

  /** (w - agg l) b is the member's share, for a weight v, a bit b and the last Lagrange value l. */
  lemma ShareIs(p: int, w: int, v: int, agg: int, l: int, delta: int, b: int)
    requires p > 0 && Same(p, w, v) && Same(p, l, delta) && (Zero(p, b) || Same(p, b, 1))
    requires delta == 0 || Same(p, b, 1)
    ensures Same(p, (w - agg * l) * b, (if Same(p, b, 1) then v else 0) - agg * delta)
  {
    if Same(p, b, 1) {
      SameProduct(p, b, 1, w - agg * l);
      SameProduct(p, l, delta, agg);
      ZeroSum(p, w - v, agg * l - agg * delta);
      assert (w - agg * l) * 1 == w - agg * l;
      SameTransitive(p, (w - agg * l) * b, w - agg * l, v - agg * delta);
    } else {
      ZeroProduct(p, b, w - agg * l);
      assert agg * delta == 0;
    }
  }

  ghost predicate HoldOnDomain(d: Domain, f: Polynomials, aggWeight: int)
    requires d.p > 0 && d.n >= 1
  {
    forall i :: 0 <= i < d.n ==> HoldAt(d, f, aggWeight, Pow(d.omega, i))
  }

  /** At a bit, the first identity says that the running sum grows by the member's share. */
  lemma StepAt(d: Domain, f: Polynomials, aggWeight: int, weights: seq<nat>, i: nat)
    requires d.Valid() && i < d.n && CommitsTo(d, f, weights) && Chosen(d, f, d.n - 1)
    requires Zero(d.p, At(d, f.b, i)) || Chosen(d, f, i)
    ensures Zero(d.p, Accumulation(d, f, aggWeight, Pow(d.omega, i)))
      <==> Same(d.p, At(d, f.parsum, i) - At(d, f.parsum, Before(d, i)), Share(d, f, aggWeight, weights, i))
  {
    var p, r := d.p, Pow(d.omega, i);
    var e := Openings(d, f, aggWeight, r);
    var share, before := Share(d, f, aggWeight, weights, i), At(d, f.parsum, Before(d, i));
    LagrangeAtPoint(d, i);
    ShareIs(p, Eval(f.w, r), weights[i], aggWeight, d.Lagrange(r), Delta(d, i), e.b);
    PointsVanish(d, i);
    ZeroProduct(p, d.Vanishing(r), e.q1);
    OnePointEarlier(d, f.parsum, i);
    ZeroSum(p, e.parsumBefore - before, e.w * e.b - share);
    ZeroSum(p, e.parsumBefore - before + (e.w * e.b - share), e.q1 * d.Vanishing(r));
    SameZero(p, Accumulation(d, f, aggWeight, r), e.parsum - before - share);
  }

  /**
   * What the argument is for: a bitmap of bits with its last set, a running sum that holds the
   * chosen weight so far and closes at zero, and a claimed weight that is all of it.
   */
  ghost predicate Honest(d: Domain, f: Polynomials, aggWeight: int, weights: seq<nat>)
    requires d.p > 0 && d.n == |weights| >= 1
  {
    && (forall i :: 0 <= i < d.n ==> Zero(d.p, At(d, f.b, i)) || Chosen(d, f, i))
    && Chosen(d, f, d.n - 1)
    && (forall i :: 0 <= i < d.n ==> RunningSum(d, f, weights, i))
    && aggWeight == SelectedWeight(d, f, weights, d.n) % d.p
  }

  ghost predicate RunningSum(d: Domain, f: Polynomials, weights: seq<nat>, i: nat)
    requires d.p > 0 && i < d.n == |weights|
  {
    Same(d.p, At(d, f.parsum, i), if i + 1 < d.n then SelectedWeight(d, f, weights, i + 1) else 0)
  }

  lemma {:induction false} SumsBefore(d: Domain, f: Polynomials, aggWeight: int, weights: seq<nat>, k: nat)
    requires d.Valid() && k < d.n && CommitsTo(d, f, weights)
    requires HoldOnDomain(d, f, aggWeight)
    requires Chosen(d, f, d.n - 1) && Zero(d.p, At(d, f.parsum, d.n - 1))
    ensures Same(d.p, At(d, f.parsum, Before(d, k)), SelectedWeight(d, f, weights, k))
  {
    if k > 0 {
      SumsBefore(d, f, aggWeight, weights, k - 1);
      BitAt(d, f, k - 1);
      StepAt(d, f, aggWeight, weights, k - 1);
      ZeroSum(d.p,
        At(d, f.parsum, k - 1) - At(d, f.parsum, Before(d, k - 1)) - Share(d, f, aggWeight, weights, k - 1),
        At(d, f.parsum, Before(d, k - 1)) - SelectedWeight(d, f, weights, k - 1));
    }
  }

  lemma CanonicalIsRemainder(p: int, x: int, y: int)
    requires 0 <= x < p && Same(p, x, y)
    ensures x == y % p
  {
    MultipleIsZero(p, y / p);
    ZeroSum(p, x - y, y / p * p);
    assert x - y + y / p * p == x - y % p;
    SameCanonical(p, x, y % p);
  }

  lemma ClaimedWeight(d: Domain, f: Polynomials, aggWeight: nat, weights: seq<nat>)
    requires d.Valid() && aggWeight < d.p && CommitsTo(d, f, weights)
    requires HoldOnDomain(d, f, aggWeight)
    requires Chosen(d, f, d.n - 1) && Zero(d.p, At(d, f.parsum, d.n - 1))
    ensures aggWeight == SelectedWeight(d, f, weights, d.n) % d.p
  {
    var last, p := d.n - 1, d.p;
    var before, after := At(d, f.parsum, Before(d, last)), At(d, f.parsum, last);
    var share, earlier := Share(d, f, aggWeight, weights, last), SelectedWeight(d, f, weights, last);
    SumsBefore(d, f, aggWeight, weights, last);
    BitAt(d, f, last);
    StepAt(d, f, aggWeight, weights, last);
    assert share == weights[last] - aggWeight by { assert aggWeight * Delta(d, last) == aggWeight; }
    ZeroSum(p, after - before - share, before - earlier);
    ZeroSum(p, after - earlier - share, after);
    assert -(earlier + share) == aggWeight - SelectedWeight(d, f, weights, d.n);
    CanonicalIsRemainder(p, aggWeight, SelectedWeight(d, f, weights, d.n));
  }

  lemma IdentitiesForceHonesty(d: Domain, f: Polynomials, aggWeight: nat, weights: seq<nat>)
    requires d.Valid() && aggWeight < d.p && CommitsTo(d, f, weights)
    requires HoldOnDomain(d, f, aggWeight)
    ensures Honest(d, f, aggWeight, weights)
  {
    forall i | 0 <= i < d.n ensures Zero(d.p, At(d, f.b, i)) || Chosen(d, f, i) {
      BitAt(d, f, i);
    }
    var last, p := d.n - 1, d.p;
    assert HoldAt(d, f, aggWeight, Pow(d.omega, last));
    LastValue(d, last, At(d, f.b, last) - 1, At(d, f.q4, last));
    LastValue(d, last, At(d, f.parsum, last), At(d, f.q3, last));
    forall i | 0 <= i < d.n ensures RunningSum(d, f, weights, i) {
      if i + 1 < d.n { SumsBefore(d, f, aggWeight, weights, i + 1); }
    }
    ClaimedWeight(d, f, aggWeight, weights);
  }

  lemma HonestStep(d: Domain, f: Polynomials, aggWeight: nat, weights: seq<nat>, i: nat)
    requires d.Valid() && CommitsTo(d, f, weights) && Honest(d, f, aggWeight, weights) && i < d.n
    ensures Same(d.p, At(d, f.parsum, i) - At(d, f.parsum, Before(d, i)), Share(d, f, aggWeight, weights, i))
  {
    assert RunningSum(d, f, weights, i) && RunningSum(d, f, weights, Before(d, i));
    var p, n, total := d.p, d.n, SelectedWeight(d, f, weights, d.n);
    var before, after := At(d, f.parsum, Before(d, i)), At(d, f.parsum, i);
    var share, earlier := Share(d, f, aggWeight, weights, i), SelectedWeight(d, f, weights, i);
    ZeroSum(p, after - if i + 1 < n then SelectedWeight(d, f, weights, i + 1) else 0, before - earlier);
    if i + 1 == n {
      assert aggWeight * Delta(d, i) == aggWeight;
      WholeMultiples(p, total);
      ZeroSum(p, after - (before - earlier), total - total % p);
    } else {
      assert aggWeight * Delta(d, i) == 0;
    }
  }

  lemma WholeMultiples(p: int, x: int)
    requires p > 0
    ensures Zero(p, x - x % p)
  {
    MultipleIsZero(p, x / p);
    assert x / p * p == x - x % p;
  }

  lemma HonestyMeetsIdentities(
    d: Domain, f: Polynomials, aggWeight: nat, weights: seq<nat>, i: nat)
    requires d.Valid() && CommitsTo(d, f, weights) && Honest(d, f, aggWeight, weights) && i < d.n
    ensures HoldAt(d, f, aggWeight, Pow(d.omega, i))
  {
    BitAt(d, f, i);
    LastValue(d, i, At(d, f.b, i) - 1, At(d, f.q4, i));
    assert i + 1 == d.n ==> RunningSum(d, f, weights, i);
    LastValue(d, i, At(d, f.parsum, i), At(d, f.q3, i));
    HonestStep(d, f, aggWeight, weights, i);
    StepAt(d, f, aggWeight, weights, i);
  }

  /** The identities hold at every domain point exactly for an honest argument. */
  lemma IdentitiesExactly(d: Domain, f: Polynomials, aggWeight: nat, weights: seq<nat>)
    requires d.Valid() && aggWeight < d.p && CommitsTo(d, f, weights)
    ensures HoldOnDomain(d, f, aggWeight) <==> Honest(d, f, aggWeight, weights)
  {
    if HoldOnDomain(d, f, aggWeight) {
      IdentitiesForceHonesty(d, f, aggWeight, weights);
    }
    if Honest(d, f, aggWeight, weights) {
      forall i | 0 <= i < d.n ensures HoldAt(d, f, aggWeight, Pow(d.omega, i)) {
        HonestyMeetsIdentities(d, f, aggWeight, weights, i);
      }
    }
  }

  // ----- The threshold -----------------------------------------------------------------------

  const THRESHOLD_NUMERATOR: nat := 1
  const THRESHOLD_DENOMINATOR: nat := 3

  const TWO_128: nat := 0x1_0000_0000_0000_0000_0000_0000_0000_0000

  /** The BLS12-381 scalar field's order. */
  const FR_ORDER: nat := 0x73eda753299d7d483339d80809a1d80553bda402fffe5bfeffffffff00000001

  type Fr = v: nat | v < FR_ORDER

  /** The i-th 64-bit limb of a field element's canonical value, lowest first. */
  function Limb(v: nat, i: nat): u64 {
    if i == 0 then v % TWO_64 else Limb(v / TWO_64, i - 1)
  }

  lemma LimbsOfFr(v: Fr)
    ensures v < TWO_128 <==> Limb(v, 2) == Limb(v, 3) == 0
    ensures v < TWO_128 ==> v == Limb(v, 0) + Limb(v, 1) * TWO_64
  {
    var a := v / TWO_64;
    var b := a / TWO_64;
    var c := b / TWO_64;
    assert Limb(v, 1) == Limb(a, 0) == a % TWO_64;
    assert Limb(v, 2) == Limb(a, 1) == Limb(b, 0) == b % TWO_64;
    assert Limb(v, 3) == Limb(a, 2) == Limb(b, 1) == Limb(c, 0) == c % TWO_64;
    assert c < TWO_64;
  }

  /** A field element as a 128-bit integer, by its two low limbs. */
  function FrToU128(v: Fr): (r: Result<nat>)
    ensures r == if v < TWO_128 then Success(v) else Failure(WeightTooLarge)
  {
    LimbsOfFr(v);
    if Limb(v, 2) != 0 || Limb(v, 3) != 0 then Failure(WeightTooLarge)
    else Success(Limb(v, 0) + Limb(v, 1) * TWO_64)
  }

  /** The comparison is made in 128 bits, and the products wrap. */
  function ThresholdMet(aggWeight: Fr, totalWeight: Fr): Result<bool> {
    var agg :- FrToU128(aggWeight);
    var total :- FrToU128(totalWeight);
    Success((THRESHOLD_DENOMINATOR * agg) % TWO_128 > (THRESHOLD_NUMERATOR * total) % TWO_128)
  }

  /** A threshold reported as met is met, even when the product wraps. */
  lemma MetIsMoreThanAThird(aggWeight: Fr, totalWeight: Fr)
    requires ThresholdMet(aggWeight, totalWeight) == Success(true)
    ensures 3 * aggWeight > totalWeight
  {
    var product := 3 * aggWeight;
    assert product % TWO_128 <= product;
  }

  /** The comparison is exact for every total weight precisely when the product does not wrap. */
  lemma ThresholdIsExactBelowOneThird(aggWeight: Fr)
    requires aggWeight < TWO_128
    ensures 3 * aggWeight < TWO_128 <==>
      forall total: Fr :: total < TWO_128 ==> ThresholdMet(aggWeight, total) == Success(3 * aggWeight > total)
  {
    if 3 * aggWeight >= TWO_128 {
      var total: Fr := 3 * aggWeight % TWO_128;
      assert ThresholdMet(aggWeight, total) == Success(false);
    }
  }

  /** One that wraps: a little over a third of 2^128, which is far more than a third of 2. */
  lemma WrappedThreshold()
    ensures var aggWeight := (TWO_128 + 2) / 3;
            3 * aggWeight > 2 && ThresholdMet(aggWeight, 2) == Success(false)
  {
  }

  /**
   * The challenges at which a false argument passes: the field elements where its identities happen to
   * hold. They depend on the committed polynomials and the claimed weight alone.
   */
  ghost function Exceptional(d: Domain, f: Polynomials, aggWeight: int): set<int>
    requires d.p > 0 && d.n >= 1
  {
    if HoldOnDomain(d, f, aggWeight) then {} else set r | 0 <= r < d.p && HoldAt(d, f, aggWeight, r)
  }

  lemma Member<T>(s: set<T>) returns (x: T)
    requires s != {}
    ensures x in s
  {
    x :| x in s;
  }

  /** Distinct representatives below p are distinct field elements. */
  lemma {:induction false} Listed(p: int, s: set<int>) returns (rs: seq<int>)
    requires p > 0 && forall r :: r in s ==> 0 <= r < p
    ensures |rs| == |s| && Distinct(p, rs) && forall i :: 0 <= i < |rs| ==> rs[i] in s
    decreases |s|
  {
    rs := [];
    if s != {} {
      var r := Member(s);
      var rest := Listed(p, s - {r});
      rs := rest + [r];
      forall i, j | 0 <= i < j < |rs| ensures !Same(p, rs[j], rs[i]) {
        if Same(p, rs[j], rs[i]) { SameCanonical(p, rs[j], rs[i]); }
      }
    }
  }

  /** With every committed degree below m, fewer than 2m of the p challenges are exceptional. */
  lemma FewExceptional(d: Domain, f: Polynomials, aggWeight: int, m: nat)
    requires d.Valid() && d.n < m && f.Below(m)
    ensures |Exceptional(d, f, aggWeight)| < 2 * m
  {
    var bad := Exceptional(d, f, aggWeight);
    if |bad| >= 2 * m {
      var rs := Listed(d.p, bad);
      forall i | 0 <= i < d.n ensures HoldAt(d, f, aggWeight, Pow(d.omega, i)) {
        ManyChallengesBind(d, f, aggWeight, m, rs, Pow(d.omega, i));
      }
    }
  }

  // ----- The batched opening -----------------------------------------------------------------

  /** Group elements by their discrete logarithms: the loop evaluates the batch at r. */
  method MergeOpenings(args: seq<int>, r: int) returns (merged: int)
    requires args != []
    ensures merged == Eval(args, r)
  {
    merged := args[0];
    var rPow, i := r, 1;
    assert args[..1] == [args[0]];
    while i < |args|
      invariant 1 <= i <= |args|
      invariant rPow == Pow(r, i) && merged == Eval(args[..i], r)
    {
      EvalGrows(args[..i], args[i], r);
      SliceGrows(args, 0, i);
      assert args[0..i] == args[..i] && args[0..i + 1] == args[..i + 1];
      merged := merged + args[i] * rPow;
      rPow := rPow * r;
      i := i + 1;
    }
    assert args[..i] == args;
  }

  lemma {:induction false} EvalGrows(c: Poly, a: int, x: int)
    ensures Eval(c + [a], x) == Eval(c, x) + a * Pow(x, |c|)
  {
    if c == [] {
      assert ([] + [a])[1..] == [];
    } else {
      EvalGrows(c[1..], a, x);
      assert (c + [a])[1..] == c[1..] + [a];
      var e, u := Eval(c[1..], x), Pow(x, |c| - 1);
      assert x * (e + a * u) == x * e + a * (x * u);
    }
  }

  /** What is left of each committed polynomial, opened at r: its value at the secret less that at r. */
  function LessValues(fs: seq<Poly>, tau: int, r: int): (s: seq<int>)
    ensures |s| == |fs|
  {
    if fs == [] then [] else [Eval(fs[0], tau) - Eval(fs[0], r)] + LessValues(fs[1..], tau, r)
  }

  /** The quotients by x - r that an honest signer commits to in the opening proof. */
  function Quotients(fs: seq<Poly>, tau: int, r: int): (s: seq<int>)
    ensures |s| == |fs|
  {
    if fs == [] then [] else [Eval(Divided(fs[0], r), tau)] + Quotients(fs[1..], tau, r)
  }

  lemma FactorOut(k: int, q: int, r: int, e: int)
    ensures k * q + r * (k * e) == k * (q + r * e)
  {
    assert r * (k * e) == k * (r * e);
  }

  /** An honest batched opening passes the pairing check, whose exponents these are. */
  lemma {:induction false} HonestBatchOpens(fs: seq<Poly>, tau: int, r: int)
    ensures Eval(LessValues(fs, tau, r), r) == (tau - r) * Eval(Quotients(fs, tau, r), r)
  {
    if fs != [] {
      HonestBatchOpens(fs[1..], tau, r);
      Division(fs[0], r, tau);
      assert LessValues(fs, tau, r)[1..] == LessValues(fs[1..], tau, r);
      assert Quotients(fs, tau, r)[1..] == Quotients(fs[1..], tau, r);
      FactorOut(tau - r, Eval(Divided(fs[0], r), tau), r, Eval(Quotients(fs[1..], tau, r), r));
    }
  }

  /** The batch polynomial: consecutive powers of r times the opened polynomials. */
  function Batched(fs: seq<Poly>, r: int): Poly {
    if fs == [] then [] else Plus(fs[0], Scaled(r, Batched(fs[1..], r)))
  }

  function EvalAll(fs: seq<Poly>, x: int): (s: seq<int>)
    ensures |s| == |fs|
  {
    if fs == [] then [] else [Eval(fs[0], x)] + EvalAll(fs[1..], x)
  }

  lemma {:induction false} EvalBatched(fs: seq<Poly>, r: int, x: int)
    ensures Eval(Batched(fs, r), x) == Eval(EvalAll(fs, x), r)
  {
    if fs != [] {
      EvalBatched(fs[1..], r, x);
      EvalScaled(r, Batched(fs[1..], r), x);
      EvalPlus(fs[0], Scaled(r, Batched(fs[1..], r)), x);
      assert EvalAll(fs, x)[1..] == EvalAll(fs[1..], x);
    }
  }

  /**
   * What an opening equation says of a proof polynomial q, at every secret: values claimed at x for
   * polynomials fs, batched by powers of s.
   */
  ghost predicate Opens(p: int, fs: seq<Poly>, values: seq<int>, x: int, s: int, q: Poly)
    requires p > 0
  {
    forall tau :: Same(p, Eval(EvalAll(fs, tau), s) - Eval(values, s), (tau - x) * Eval(q, tau))
  }

  ghost predicate Opened(p: int, fs: seq<Poly>, values: seq<int>, x: int, s: int)
    requires p > 0
  {
    exists q :: Opens(p, fs, values, x, s, q)
  }

  /**
   * A batched opening has a proof polynomial exactly when the claimed values, combined by powers of s,
   * are the combined evaluations: that one combination is what a passing opening pins down.
   */
  lemma BatchOpensExactly(p: int, fs: seq<Poly>, values: seq<int>, x: int, s: int)
    requires p > 0
    ensures Opened(p, fs, values, x, s) <==> Same(p, Eval(values, s), Eval(EvalAll(fs, x), s))
  {
    var honest, v, e := Divided(Batched(fs, s), x), Eval(values, s), Eval(EvalAll(fs, x), s);
    if Same(p, v, e) {
      forall tau ensures Same(p, Eval(EvalAll(fs, tau), s) - v, (tau - x) * Eval(honest, tau)) {
        EvalBatched(fs, s, tau);
        EvalBatched(fs, s, x);
        Division(Batched(fs, s), x, tau);
        ZeroSum(p, v - e, v - e);
        assert Eval(EvalAll(fs, tau), s) - v - (tau - x) * Eval(honest, tau) == -(v - e);
      }
      assert Opens(p, fs, values, x, s, honest);
    }
    if q :| Opens(p, fs, values, x, s, q) {
      assert Same(p, e - v, (x - x) * Eval(q, x));
      ZeroSum(p, e - v, e - v);
    }
  }

  /** Values agree as field elements, one by one. */
  predicate AllSame(p: int, values: seq<int>, truth: seq<int>)
    requires p > 0 && |values| == |truth|
  {
    forall i :: 0 <= i < |values| ==> Same(p, values[i], truth[i])
  }

  lemma CombinedSame(p: int, values: seq<int>, truth: seq<int>, s: int)
    requires p > 0 && |values| == |truth|
    ensures Same(p, Eval(values, s), Eval(truth, s)) <==> Zero(p, Eval(Minus(values, truth), s))
  {
    EvalMinus(values, truth, s);
  }

  lemma {:induction false} MinusAt(a: Poly, b: Poly, i: nat)
    requires i < |a| == |b|
    ensures Minus(a, b)[i] == a[i] - b[i]
  {
    if i > 0 {
      MinusAt(a[1..], b[1..], i - 1);
      assert Minus(a, b)[1..] == Minus(a[1..], b[1..]);
    }
  }

  lemma {:induction false} AllSameCombines(p: int, values: seq<int>, truth: seq<int>, s: int)
    requires p > 0 && |values| == |truth| && AllSame(p, values, truth)
    ensures Same(p, Eval(values, s), Eval(truth, s))
  {
    if values == [] {
      MultipleIsZero(p, 0);
    } else {
      AllSameCombines(p, values[1..], truth[1..], s);
      SameProduct(p, Eval(values[1..], s), Eval(truth[1..], s), s);
      ZeroSum(p, values[0] - truth[0], s * Eval(values[1..], s) - s * Eval(truth[1..], s));
    }
  }

  /** As many scalars as values decide: the combinations are right at all of them if and only if every value is. */
  lemma CombinationsDecide(p: int, values: seq<int>, truth: seq<int>, scalars: seq<int>)
    requires Prime(p) && |values| == |truth| <= |scalars| && Distinct(p, scalars)
    ensures (forall j :: 0 <= j < |scalars| ==> Same(p, Eval(values, scalars[j]), Eval(truth, scalars[j])))
      <==> AllSame(p, values, truth)
  {
    if AllSame(p, values, truth) {
      forall j | 0 <= j < |scalars| ensures Same(p, Eval(values, scalars[j]), Eval(truth, scalars[j])) {
        AllSameCombines(p, values, truth, scalars[j]);
      }
    }
    if forall j :: 0 <= j < |scalars| ==> Same(p, Eval(values, scalars[j]), Eval(truth, scalars[j])) {
      forall j | 0 <= j < |scalars| ensures Zero(p, Eval(Minus(values, truth), scalars[j])) {
        CombinedSame(p, values, truth, scalars[j]);
      }
      OnlyZeroHasRoots(p, Minus(values, truth), scalars);
      forall i | 0 <= i < |values| ensures Same(p, values[i], truth[i]) {
        MinusAt(values, truth, i);
      }
    }
  }

  // ----- Acceptance --------------------------------------------------------------------------

  /** The seven polynomials of the merged opening and the values claimed for them, in the order batched. */
  function Committed(d: Domain, f: Polynomials, aggWeight: int): (fs: seq<Poly>)
    requires d.n >= 1
    ensures |fs| == 7
  {
    [f.parsum, Minus(f.w, Scaled(aggWeight, LagrangePoly(d))), f.b, f.q1, f.q3, f.q2, f.q4]
  }

  function Claimed(e: Evaluations): (values: seq<int>)
    ensures |values| == 7
  {
    [e.parsum, e.w, e.b, e.q1, e.q3, e.q2, e.q4]
  }

  lemma TrueValues(d: Domain, f: Polynomials, aggWeight: int, r: int)
    requires d.n >= 1
    ensures EvalAll(Committed(d, f, aggWeight), r) == Claimed(Openings(d, f, aggWeight, r))
  {
    EvalDomain(d, r);
    EvalScaled(aggWeight, LagrangePoly(d), r);
    EvalMinus(f.w, Scaled(aggWeight, LagrangePoly(d)), r);
    var fs := Committed(d, f, aggWeight);
    forall i | 0 <= i < 7 ensures EvalAll(fs, r)[i] == Claimed(Openings(d, f, aggWeight, r))[i] {
      EvalAllAt(fs, r, i);
    }
  }

  lemma {:induction false} EvalAllAt(fs: seq<Poly>, x: int, i: nat)
    requires i < |fs|
    ensures EvalAll(fs, x)[i] == Eval(fs[i], x)
  {
    if i > 0 {
      EvalAllAt(fs[1..], x, i - 1);
    }
  }

  /**
   * Claimed evaluations e pass the four checks at a challenge, and the two openings have proofs. The
   * merged one batches by powers of `scalar`; the code takes the challenge itself.
   */
  ghost predicate Accepted(
    d: Domain, f: Polynomials, aggWeight: int, challenge: int, inverse: int, scalar: int, e: Evaluations)
    requires d.p > 0 && d.n >= 1
  {
    && 0 <= challenge < d.p && 0 <= scalar < d.p && Same(d.p, (challenge - d.Last()) * inverse, 1)
    && CheckIdentities(d, challenge, inverse, e).AllPassed()
    && Opened(d.p, Committed(d, f, aggWeight), Claimed(e), challenge, scalar)
    && Opened(d.p, [f.parsum], [e.parsumBefore], d.Last() * challenge, scalar)
  }

  /** The claimed evaluations are the true ones. */
  predicate Right(d: Domain, f: Polynomials, aggWeight: int, challenge: int, e: Evaluations)
    requires d.p > 0 && d.n >= 1
  {
    var truth := Openings(d, f, aggWeight, challenge);
    AllSame(d.p, Claimed(e), Claimed(truth)) && Same(d.p, e.parsumBefore, truth.parsumBefore)
  }

  /** The scalars at which wrong values happen to combine to the right sum. */
  ghost function Fooling(d: Domain, f: Polynomials, aggWeight: int, challenge: int, e: Evaluations): set<int>
    requires d.p > 0 && d.n >= 1
  {
    var values, truth := Claimed(e), Claimed(Openings(d, f, aggWeight, challenge));
    if AllSame(d.p, values, truth) then {}
    else set s | 0 <= s < d.p && Same(d.p, Eval(values, s), Eval(truth, s))
  }

  /** For values fixed beforehand there are fewer than seven of them. */
  lemma FewFooling(d: Domain, f: Polynomials, aggWeight: int, challenge: int, e: Evaluations)
    requires d.Valid()
    ensures |Fooling(d, f, aggWeight, challenge, e)| < 7
  {
    var bad := Fooling(d, f, aggWeight, challenge, e);
    if |bad| >= 7 {
      var scalars := Listed(d.p, bad);
      CombinationsDecide(d.p, Claimed(e), Claimed(Openings(d, f, aggWeight, challenge)), scalars);
    }
  }

  /** Accepted values are the true ones exactly when the scalar was not a fooling one. */
  lemma AcceptedIsRightExactly(
    d: Domain, f: Polynomials, aggWeight: int, challenge: int, inverse: int, scalar: int, e: Evaluations)
    requires d.Valid() && Accepted(d, f, aggWeight, challenge, inverse, scalar, e)
    ensures Right(d, f, aggWeight, challenge, e) <==> scalar !in Fooling(d, f, aggWeight, challenge, e)
  {
    TrueValues(d, f, aggWeight, challenge);
    BatchOpensExactly(d.p, Committed(d, f, aggWeight), Claimed(e), challenge, scalar);
    var x := d.Last() * challenge;
    BatchOpensExactly(d.p, [f.parsum], [e.parsumBefore], x, scalar);
    EvalAlone(e.parsumBefore, scalar);
    EvalAlone(Eval(f.parsum, x), scalar);
    assert [f.parsum][1..] == [] && EvalAll([f.parsum], x) == [Eval(f.parsum, x)];
  }

  lemma EvalAlone(v: int, s: int)
    ensures Eval([v], s) == v
  {
    assert [v][1..] == [];
  }

  lemma SameTimes(p: int, x: int, x': int, y: int, y': int)
    requires p > 0 && Same(p, x, x') && Same(p, y, y')
    ensures Same(p, x * y, x' * y')
  {
    SameProduct(p, x, x', y);
    SameProduct(p, y, y', x');
    SameTransitive(p, x * y, x' * y, x' * y');
  }

  lemma SameTests(p: int, x: int, x': int, y: int, y': int)
    requires p > 0 && Same(p, x, x') && Same(p, y, y')
    ensures Same(p, x, y) <==> Same(p, x', y')
  {
    ZeroSum(p, x - x', y - y');
    ZeroSum(p, x - x' - (y - y'), 0) by { MultipleIsZero(p, 0); }
    SameZero(p, x' - y', x - y);
  }

  /** The four checks do not tell representatives of one field element apart. */
  lemma ChecksRespectSame(d: Domain, r: int, inverse: int, e: Evaluations, t: Evaluations)
    requires d.p > 0 && d.n >= 1 && AllSame(d.p, Claimed(e), Claimed(t)) && Same(d.p, e.parsumBefore, t.parsumBefore)
    ensures CheckIdentities(d, r, inverse, e) == CheckIdentities(d, r, inverse, t)
  {
    var p, z := d.p, d.Vanishing(r);
    var l := d.Last() * d.inverseOfN * (z * inverse);
    var v, u := Claimed(e), Claimed(t);
    assert Same(p, v[0], u[0]) && Same(p, v[1], u[1]) && Same(p, v[2], u[2]) && Same(p, v[3], u[3]);
    assert Same(p, v[4], u[4]) && Same(p, v[5], u[5]) && Same(p, v[6], u[6]);
    SameTimes(p, e.w, t.w, e.b, t.b);
    SameTimes(p, e.b, t.b, e.b, t.b);
    ZeroSum(p, e.parsum - t.parsum, e.parsumBefore - t.parsumBefore);
    ZeroSum(p, e.parsum - t.parsum - (e.parsumBefore - t.parsumBefore), e.w * e.b - t.w * t.b);
    ZeroSum(p, e.b * e.b - t.b * t.b, e.b - t.b);
    SameProduct(p, e.q1, t.q1, z);
    SameProduct(p, e.q2, t.q2, z);
    SameProduct(p, e.q3, t.q3, z);
    SameProduct(p, e.q4, t.q4, z);
    SameProduct(p, e.parsum, t.parsum, l);
    SameProduct(p, e.b - 1, t.b - 1, l);
    SameTests(p, e.parsum - e.parsumBefore - e.w * e.b, t.parsum - t.parsumBefore - t.w * t.b, e.q1 * z, t.q1 * z);
    SameTests(p, l * e.parsum, l * t.parsum, z * e.q3, z * t.q3);
    SameTests(p, e.b * e.b - e.b, t.b * t.b - t.b, e.q2 * z, t.q2 * z);
    SameTests(p, l * (e.b - 1), l * (t.b - 1), z * e.q4, z * t.q4);
  }

  /** True evaluations accepted at a challenge that is not exceptional mean an honest argument. */
  lemma RightIsHonest(
    d: Domain, f: Polynomials, aggWeight: nat, weights: seq<nat>, challenge: int, inverse: int, e: Evaluations)
    requires d.Valid() && aggWeight < d.p && CommitsTo(d, f, weights) && 0 <= challenge < d.p
    requires Same(d.p, (challenge - d.Last()) * inverse, 1) && CheckIdentities(d, challenge, inverse, e).AllPassed()
    requires Right(d, f, aggWeight, challenge, e) && challenge !in Exceptional(d, f, aggWeight)
    ensures Honest(d, f, aggWeight, weights)
  {
    ChecksRespectSame(d, challenge, inverse, e, Openings(d, f, aggWeight, challenge));
    ChecksAreIdentities(d, f, aggWeight, challenge, inverse);
    IdentitiesExactly(d, f, aggWeight, weights);
  }

  lemma SameAsItself(p: int, values: seq<int>)
    requires p > 0
    ensures AllSame(p, values, values)
  {
    MultipleIsZero(p, 0);
  }

  /** True evaluations are accepted, with any scalar, exactly when the identities hold at the challenge. */
  lemma TruthIsAcceptedExactly(d: Domain, f: Polynomials, aggWeight: int, challenge: int, inverse: int, scalar: int)
    requires d.Valid() && 0 <= challenge < d.p && 0 <= scalar < d.p && Same(d.p, (challenge - d.Last()) * inverse, 1)
    ensures (exists e :: Right(d, f, aggWeight, challenge, e) && Accepted(d, f, aggWeight, challenge, inverse, scalar, e))
      <==> HoldAt(d, f, aggWeight, challenge)
  {
    var truth := Openings(d, f, aggWeight, challenge);
    ChecksAreIdentities(d, f, aggWeight, challenge, inverse);
    if e :| Right(d, f, aggWeight, challenge, e) && Accepted(d, f, aggWeight, challenge, inverse, scalar, e) {
      ChecksRespectSame(d, challenge, inverse, e, truth);
    }
    if HoldAt(d, f, aggWeight, challenge) {
      SameAsItself(d.p, Claimed(truth));
      SameAsItself(d.p, [truth.parsumBefore]);
      assert Same(d.p, [truth.parsumBefore][0], [truth.parsumBefore][0]);
      TrueValuesOpen(d, f, aggWeight, challenge, scalar);
      assert Right(d, f, aggWeight, challenge, truth);
    }
  }

  lemma TrueValuesOpen(d: Domain, f: Polynomials, aggWeight: int, challenge: int, scalar: int)
    requires d.p > 0 && d.n >= 1
    ensures var truth := Openings(d, f, aggWeight, challenge);
            && Opened(d.p, Committed(d, f, aggWeight), Claimed(truth), challenge, scalar)
            && Opened(d.p, [f.parsum], [truth.parsumBefore], d.Last() * challenge, scalar)
  {
    var x := d.Last() * challenge;
    TrueValues(d, f, aggWeight, challenge);
    MultipleIsZero(d.p, 0);
    BatchOpensExactly(d.p, Committed(d, f, aggWeight), Claimed(Openings(d, f, aggWeight, challenge)), challenge, scalar);
    EvalAllAt([f.parsum], x, 0);
    assert EvalAll([f.parsum], x) == [Eval(f.parsum, x)];
    BatchOpensExactly(d.p, [f.parsum], [Eval(f.parsum, x)], x, scalar);
  }

  /** Accepted with a scalar that does not fool, at a challenge that is not exceptional, the argument is honest. */
  lemma AcceptedIsHonest(
    d: Domain, f: Polynomials, aggWeight: nat, weights: seq<nat>, challenge: int, inverse: int, scalar: int, e: Evaluations)
    requires d.Valid() && aggWeight < d.p && CommitsTo(d, f, weights)
    requires Accepted(d, f, aggWeight, challenge, inverse, scalar, e)
    requires scalar !in Fooling(d, f, aggWeight, challenge, e) && challenge !in Exceptional(d, f, aggWeight)
    ensures Honest(d, f, aggWeight, weights)
  {
    AcceptedIsRightExactly(d, f, aggWeight, challenge, inverse, scalar, e);
    RightIsHonest(d, f, aggWeight, weights, challenge, inverse, e);
  }

  lemma RemainderIsLess(x: nat, p: nat)
    requires p > 0
    ensures x % p <= x && (x < p ==> x % p == x)
  {
  }

  /**
   * The whole argument, for claimed evaluations that are the true ones: a threshold reported as met means
   * that the members the bitmap selects weigh strictly more than a third of the total, and the claimed
   * weight is theirs unless it wraps the field. Fewer than 2m challenges are excepted.
   */
  lemma SelectedMembersMeetThreshold(
    d: Domain, f: Polynomials, aggWeight: Fr, weights: seq<nat>, totalWeight: Fr, m: nat,
    challenge: int, inverse: int, scalar: int, e: Evaluations)
    requires d.Valid() && d.p == FR_ORDER && d.n < m && f.Below(m) && CommitsTo(d, f, weights)
    requires Accepted(d, f, aggWeight, challenge, inverse, scalar, e)
    requires ThresholdMet(aggWeight, totalWeight) == Success(true)
    ensures |Exceptional(d, f, aggWeight)| < 2 * m && |Fooling(d, f, aggWeight, challenge, e)| < 7
    ensures Right(d, f, aggWeight, challenge, e) <==> scalar !in Fooling(d, f, aggWeight, challenge, e)
    ensures Right(d, f, aggWeight, challenge, e) && challenge !in Exceptional(d, f, aggWeight) ==>
              && 3 * SelectedWeight(d, f, weights, d.n) > totalWeight
              && (SelectedWeight(d, f, weights, d.n) < FR_ORDER ==> SelectedWeight(d, f, weights, d.n) == aggWeight)
  {
    FewExceptional(d, f, aggWeight, m);
    FewFooling(d, f, aggWeight, challenge, e);
    AcceptedIsRightExactly(d, f, aggWeight, challenge, inverse, scalar, e);
    if Right(d, f, aggWeight, challenge, e) && challenge !in Exceptional(d, f, aggWeight) {
      RightIsHonest(d, f, aggWeight, weights, challenge, inverse, e);
      MetIsMoreThanAThird(aggWeight, totalWeight);
      RemainderIsLess(SelectedWeight(d, f, weights, d.n), d.p);
    }
  }

  /** The field of seven elements with its two square roots of one, and a bitmap that selects nobody. */
  const SMALL: Domain := Domain(7, 2, 6, 4)
  const NOBODY: Polynomials := Polynomials([], [1], [], [], [], [], [])

  const ONE_COMBINATION: Evaluations := Evaluations(1, 0, 3, 1, 4, 0, 1, 0)

  lemma SmallField()
    ensures SMALL.Valid() && SMALL.Last() == 6 && SMALL.Vanishing(2) == 3 && SMALL.Lagrange(2) == 192
  {
    assert Pow(6, 1) == 6 && Pow(6, 2) == 36 && Pow(2, 1) == 2 && Pow(2, 2) == 4;
    assert Geometric(2, 6, 1) == 1 && Geometric(2, 6, 2) == 8;
  }

  lemma NobodyAt(x: int)
    ensures Eval(NOBODY.w, x) == 1 && Eval(NOBODY.b, x) == 0 && Eval(NOBODY.parsum, x) == 0 && Eval(NOBODY.q4, x) == 0
    ensures Eval(NOBODY.q1, x) == 0 && Eval(NOBODY.q2, x) == 0 && Eval(NOBODY.q3, x) == 0
  {
    EvalAlone(1, x);
  }

  lemma NobodyIsSelected()
    ensures CommitsTo(SMALL, NOBODY, [1, 1])
    ensures SelectedWeight(SMALL, NOBODY, [1, 1], 2) == 0 && !Honest(SMALL, NOBODY, 1, [1, 1])
  {
    forall i: nat ensures At(SMALL, NOBODY.w, i) == 1 && !Chosen(SMALL, NOBODY, i) {
      NobodyAt(Pow(6, i));
    }
    assert SelectedWeight(SMALL, NOBODY, [1, 1], 0) == 0 && SelectedWeight(SMALL, NOBODY, [1, 1], 1) == 0;
  }

  lemma RunningSumOpens()
    ensures Opened(7, [NOBODY.parsum], [ONE_COMBINATION.parsumBefore], SMALL.Last() * 2, 2)
  {
    NobodyAt(SMALL.Last() * 2);
    EvalAlone(0, 2);
    EvalAllAt([NOBODY.parsum], SMALL.Last() * 2, 0);
    assert EvalAll([NOBODY.parsum], SMALL.Last() * 2) == [0];
    BatchOpensExactly(7, [NOBODY.parsum], [0], SMALL.Last() * 2, 2);
  }

  lemma TruthAtTwo()
    ensures Claimed(Openings(SMALL, NOBODY, 1, 2)) == [0, -191, 0, 0, 0, 0, 0]
  {
    SmallField();
    NobodyAt(2);
  }

  lemma CombinedAtTwo()
    ensures Eval([1, 3, 1, 4, 1, 0, 0], 2) == 59 && Eval([0, -191, 0, 0, 0, 0, 0], 2) == -382
  {
    EvalSeven(1, 3, 1, 4, 1, 0, 0, 2);
    EvalSeven(0, -191, 0, 0, 0, 0, 0, 2);
  }

  lemma OneCombinationOpens()
    ensures Opened(7, Committed(SMALL, NOBODY, 1), Claimed(ONE_COMBINATION), 2, 2)
  {
    TruthAtTwo();
    CombinedAtTwo();
    var fs := Committed(SMALL, NOBODY, 1);
    assert EvalAll(fs, 2) == [0, -191, 0, 0, 0, 0, 0] by { TrueValues(SMALL, NOBODY, 1, 2); }
    BatchOpensExactly(7, fs, [1, 3, 1, 4, 1, 0, 0], 2, 2);
  }

  lemma EvalSeven(a: int, b: int, c: int, d: int, e: int, f: int, g: int, x: int)
    ensures Eval([a, b, c, d, e, f, g], x) == a + x * (b + x * (c + x * (d + x * (e + x * (f + x * g)))))
  {
    EvalAlone(g, x);
    EvalFirst([f, g], [g], x);
    EvalFirst([e, f, g], [f, g], x);
    EvalFirst([d, e, f, g], [e, f, g], x);
    EvalFirst([c, d, e, f, g], [d, e, f, g], x);
    EvalFirst([b, c, d, e, f, g], [c, d, e, f, g], x);
    EvalFirst([a, b, c, d, e, f, g], [b, c, d, e, f, g], x);
  }

  lemma EvalFirst(c: Poly, rest: Poly, x: int)
    requires c != [] && c[1..] == rest
    ensures Eval(c, x) == c[0] + x * Eval(rest, x)
  {
  }

  /**
   * That the values are the true ones has to be asked: with the challenge itself as the scalar, the
   * combined sum alone does not give it. In the field of seven elements one combination is right, the
   * values are not, and a claimed weight of 1 of 2 goes with a bitmap that selects nobody.
   */
  lemma OneCombinationIsNotEnough()
    ensures SMALL.Valid() && CommitsTo(SMALL, NOBODY, [1, 1]) && 3 * 1 > 1 + 1
    ensures Accepted(SMALL, NOBODY, 1, 2, 5, 2, ONE_COMBINATION) && 2 !in Exceptional(SMALL, NOBODY, 1)
    ensures !Right(SMALL, NOBODY, 1, 2, ONE_COMBINATION)
    ensures SelectedWeight(SMALL, NOBODY, [1, 1], 2) == 0 && !Honest(SMALL, NOBODY, 1, [1, 1])
  {
    SmallField();
    NobodyIsSelected();
    OneCombinationOpens();
    RunningSumOpens();
    OneCombinationPasses();
    TwoIsNotExceptional();
    OneCombinationIsWrong();
  }

  lemma OneCombinationPasses()
    ensures Same(SMALL.p, (2 - SMALL.Last()) * 5, 1) && CheckIdentities(SMALL, 2, 5, ONE_COMBINATION).AllPassed()
  {
    SmallField();
  }

  lemma TwoIsNotExceptional()
    ensures 2 !in Exceptional(SMALL, NOBODY, 1)
  {
    SmallField();
    NobodyAt(2);
    assert LastBit(SMALL, NOBODY, 2) == -192;
    assert !HoldAt(SMALL, NOBODY, 1, 2);
  }

  lemma OneCombinationIsWrong()
    ensures !Right(SMALL, NOBODY, 1, 2, ONE_COMBINATION)
  {
    TruthAtTwo();
    assert !Same(7, Claimed(ONE_COMBINATION)[0], 0);
  }
}
