/** Polynomials with integer coefficients, lowest degree first, and their roots in a prime field. */
module Polynomial {
  import opened Field

  type Poly = seq<int>

  function Eval(c: Poly, x: int): int {
    if c == [] then 0 else c[0] + x * Eval(c[1..], x)
  }

  function Scaled(k: int, c: Poly): (r: Poly)
    ensures |r| == |c|
  {
    if c == [] then [] else [k * c[0]] + Scaled(k, c[1..])
  }

  function Plus(a: Poly, b: Poly): (r: Poly)
    ensures |r| == if |a| < |b| then |b| else |a|
  {
    if a == [] then b
    else if b == [] then a
    else [a[0] + b[0]] + Plus(a[1..], b[1..])
  }

  function Minus(a: Poly, b: Poly): (r: Poly)
    ensures |r| == if |a| < |b| then |b| else |a|
  {
    Plus(a, Scaled(-1, b))
  }

  function Times(a: Poly, b: Poly): (r: Poly)
    ensures |r| <= |a| + |b|
  {
    if a == [] then [] else Plus(Scaled(a[0], b), [0] + Times(a[1..], b))
  }

  /** c with k x in place of x. */
  function Stretched(k: int, c: Poly): (r: Poly)
    ensures |r| == |c|
  {
    if c == [] then [] else [c[0]] + Scaled(k, Stretched(k, c[1..]))
  }

  function Monomial(k: nat): (r: Poly)
    ensures |r| == k + 1
  {
    if k == 0 then [1] else [0] + Monomial(k - 1)
  }

  lemma {:induction false} EvalScaled(k: int, c: Poly, x: int)
    ensures Eval(Scaled(k, c), x) == k * Eval(c, x)
  {
    if c != [] {
      EvalScaled(k, c[1..], x);
      assert Scaled(k, c)[1..] == Scaled(k, c[1..]);
      var e := Eval(c[1..], x);
      assert k * (c[0] + x * e) == k * c[0] + x * (k * e);
    }
  }

  lemma {:induction false} EvalPlus(a: Poly, b: Poly, x: int)
    ensures Eval(Plus(a, b), x) == Eval(a, x) + Eval(b, x)
  {
    if a != [] && b != [] {
      EvalPlus(a[1..], b[1..], x);
      assert Plus(a, b)[1..] == Plus(a[1..], b[1..]);
      var e, f := Eval(a[1..], x), Eval(b[1..], x);
      assert x * (e + f) == x * e + x * f;
    }
  }

  lemma EvalMinus(a: Poly, b: Poly, x: int)
    ensures Eval(Minus(a, b), x) == Eval(a, x) - Eval(b, x)
  {
    EvalScaled(-1, b, x);
    EvalPlus(a, Scaled(-1, b), x);
  }

  lemma Distribute(h: int, x: int, e: int, f: int)
    ensures (h + x * e) * f == h * f + x * (e * f)
  {
    assert (h + x * e) * f == h * f + x * e * f;
  }

  lemma {:induction false} EvalTimes(a: Poly, b: Poly, x: int)
    ensures Eval(Times(a, b), x) == Eval(a, x) * Eval(b, x)
  {
    if a != [] {
      EvalTimes(a[1..], b, x);
      EvalScaled(a[0], b, x);
      EvalPlus(Scaled(a[0], b), [0] + Times(a[1..], b), x);
      assert ([0] + Times(a[1..], b))[1..] == Times(a[1..], b);
      Distribute(a[0], x, Eval(a[1..], x), Eval(b, x));
    }
  }

  lemma {:induction false} EvalStretched(k: int, c: Poly, x: int)
    ensures Eval(Stretched(k, c), x) == Eval(c, k * x)
  {
    if c != [] {
      EvalStretched(k, c[1..], x);
      EvalScaled(k, Stretched(k, c[1..]), x);
      assert Stretched(k, c)[1..] == Scaled(k, Stretched(k, c[1..]));
      var e := Eval(c[1..], k * x);
      assert x * (k * e) == k * x * e;
    }
  }

  lemma {:induction false} EvalMonomial(k: nat, x: int)
    ensures Eval(Monomial(k), x) == Pow(x, k)
  {
    if k == 0 {
      assert Monomial(0)[1..] == [];
    } else {
      EvalMonomial(k - 1, x);
      assert Monomial(k)[1..] == Monomial(k - 1);
    }
  }

  lemma {:induction false} SameEval(p: int, c: Poly, x: int, y: int)
    requires p > 0 && Same(p, x, y)
    ensures Same(p, Eval(c, x), Eval(c, y))
  {
    if c == [] {
      MultipleIsZero(p, 0);
    } else {
      SameEval(p, c[1..], x, y);
      var e, f := Eval(c[1..], x), Eval(c[1..], y);
      SameProduct(p, x, y, e);
      SameProduct(p, e, f, y);
      SameTransitive(p, x * e, y * e, y * f);
    }
  }

  // ----- Roots -------------------------------------------------------------------------------

  /** The quotient of c by x - a. */
  function Divided(c: Poly, a: int): (r: Poly)
    ensures |r| == if c == [] then 0 else |c| - 1
  {
    if |c| <= 1 then [] else [Eval(c[1..], a)] + Divided(c[1..], a)
  }

  lemma {:induction false} Division(c: Poly, a: int, x: int)
    ensures Eval(c, x) == (x - a) * Eval(Divided(c, a), x) + Eval(c, a)
  {
    if |c| == 1 {
      assert c[1..] == [];
    } else if |c| > 1 {
      Division(c[1..], a, x);
      assert Divided(c, a)[1..] == Divided(c[1..], a);
      DivisionStep(x, x - a, a, Eval(Divided(c[1..], a), x), Eval(c[1..], a));
    }
  }

  lemma DivisionStep(x: int, y: int, a: int, q: int, e: int)
    requires y == x - a
    ensures x * (y * q + e) == y * (e + x * q) + a * e
  {
    assert x * (y * q) == y * (x * q) && x * e == y * e + a * e;
  }

  ghost predicate Distinct(p: int, xs: seq<int>)
    requires p > 0
  {
    forall i, j :: 0 <= i < j < |xs| ==> !Same(p, xs[j], xs[i])
  }

  /** A polynomial with as many distinct roots as coefficients is zero everywhere. */
  lemma {:induction false} TooManyRoots(p: int, c: Poly, xs: seq<int>, x: int)
    requires Prime(p) && Distinct(p, xs) && |c| <= |xs|
    requires forall i :: 0 <= i < |xs| ==> Zero(p, Eval(c, xs[i]))
    ensures Zero(p, Eval(c, x))
    decreases |c|
  {
    if c == [] {
      MultipleIsZero(p, 0);
    } else {
      var a, q, rest := xs[0], Divided(c, xs[0]), xs[1..];
      forall i | 0 <= i < |rest| ensures Zero(p, Eval(q, rest[i])) {
        NextRoot(p, c, a, xs[i + 1]);
      }
      TooManyRoots(p, q, rest, x);
      Division(c, a, x);
      ZeroProduct(p, Eval(q, x), x - a);
      ZeroSum(p, (x - a) * Eval(q, x), Eval(c, a));
    }
  }

  /** If quotient and remainder vanish coefficient by coefficient, so does the polynomial. */
  lemma {:induction false} ZeroQuotient(p: int, c: Poly, a: int)
    requires p > 0 && Zero(p, Eval(c, a))
    requires forall i :: 0 <= i < |Divided(c, a)| ==> Zero(p, Divided(c, a)[i])
    ensures forall i :: 0 <= i < |c| ==> Zero(p, c[i])
  {
    if c != [] {
      var q, e := Divided(c, a), Eval(c[1..], a);
      if |c| == 1 {
        assert e == 0;
        MultipleIsZero(p, 0);
      } else {
        assert q[0] == e && q[1..] == Divided(c[1..], a);
      }
      ZeroProduct(p, e, a);
      ZeroSum(p, Eval(c, a), a * e);
      ZeroQuotient(p, c[1..], a);
    }
  }

  /** A polynomial with as many distinct roots as coefficients has none but zero coefficients. */
  lemma {:induction false} OnlyZeroHasRoots(p: int, c: Poly, xs: seq<int>)
    requires Prime(p) && Distinct(p, xs) && |c| <= |xs|
    requires forall i :: 0 <= i < |xs| ==> Zero(p, Eval(c, xs[i]))
    ensures forall i :: 0 <= i < |c| ==> Zero(p, c[i])
    decreases |c|
  {
    if c != [] {
      var a, q, rest := xs[0], Divided(c, xs[0]), xs[1..];
      forall i | 0 <= i < |rest| ensures Zero(p, Eval(q, rest[i])) {
        NextRoot(p, c, a, xs[i + 1]);
      }
      OnlyZeroHasRoots(p, q, rest);
      ZeroQuotient(p, c, a);
    }
  }

  /** A second root of c is a root of its quotient by the first. */
  lemma NextRoot(p: int, c: Poly, a: int, y: int)
    requires Prime(p) && !Same(p, y, a) && Zero(p, Eval(c, a)) && Zero(p, Eval(c, y))
    ensures Zero(p, Eval(Divided(c, a), y))
  {
    var q := Divided(c, a);
    Division(c, a, y);
    ZeroSum(p, Eval(c, y), Eval(c, a));
    assert (y - a) * Eval(q, y) == Eval(c, y) - Eval(c, a);
    Euclid(p, y - a, Eval(q, y));
  }
}
