/** Integers up to congruence modulo a prime: the arithmetic of a prime field. */
module Field {
  import opened Common

  predicate Prime(p: int) {
    p >= 2 && forall d :: 2 <= d < p ==> p % d != 0
  }

  /** x is zero in the field. */
  predicate Zero(p: int, x: int)
    requires p > 0
  {
    x % p == 0
  }

  predicate Same(p: int, x: int, y: int)
    requires p > 0
  {
    Zero(p, x - y)
  }

  lemma MultipleIsZero(p: int, k: int)
    requires p > 0
    ensures Zero(p, k * p)
  {
    var q, r := (k * p) / p, (k * p) % p;
    assert (k - q) * p == r;
    if k != q { LargeMultiple(k - q, p); }
  }

  lemma ZeroIsMultiple(p: int, x: int) returns (k: int)
    requires p > 0 && Zero(p, x)
    ensures x == k * p
  {
    k := x / p;
  }

  lemma ZeroSum(p: int, x: int, y: int)
    requires p > 0 && Zero(p, x) && Zero(p, y)
    ensures Zero(p, x + y) && Zero(p, x - y) && Zero(p, -x)
  {
    var j := ZeroIsMultiple(p, x);
    var k := ZeroIsMultiple(p, y);
    MultipleIsZero(p, j + k);
    MultipleIsZero(p, j - k);
    MultipleIsZero(p, -j);
    assert (j + k) * p == x + y && (j - k) * p == x - y && (-j) * p == -x;
  }

  lemma ZeroProduct(p: int, x: int, y: int)
    requires p > 0 && Zero(p, x)
    ensures Zero(p, x * y) && Zero(p, y * x)
  {
    var k := ZeroIsMultiple(p, x);
    MultipleIsZero(p, k * y);
    calc {
      k * y * p;
      k * p * y;
      x * y;
    }
  }

  lemma SameProduct(p: int, x: int, y: int, z: int)
    requires p > 0 && Same(p, x, y)
    ensures Same(p, x * z, y * z) && Same(p, z * x, z * y)
  {
    ZeroProduct(p, x - y, z);
    assert (x - y) * z == x * z - y * z && z * (x - y) == z * x - z * y;
  }

  lemma SameTransitive(p: int, x: int, y: int, z: int)
    requires p > 0 && Same(p, x, y) && Same(p, y, z)
    ensures Same(p, x, z) && Same(p, y, x)
  {
    ZeroSum(p, x - y, y - z);
    ZeroSum(p, x - y, x - y);
  }

  /** Canonical representatives of one element are equal. */
  lemma SameCanonical(p: int, x: int, y: int)
    requires 0 <= x < p && 0 <= y < p && Same(p, x, y)
    ensures x == y
  {
    var k := ZeroIsMultiple(p, x - y);
    if k != 0 { LargeMultiple(k, p); }
  }

  /** Euclid's lemma for a smaller factor, by dividing the prime by it. */
  lemma {:induction false} EuclidBelow(p: int, a: int, b: int)
    requires Prime(p) && 0 < a < p && Zero(p, a * b)
    ensures Zero(p, b)
    decreases a
  {
    if a > 1 {
      var q, r := p / a, p % a;
      assert p == q * a + r;
      ZeroProduct(p, a * b, q);
      MultipleIsZero(p, b);
      ZeroSum(p, b * p, q * (a * b));
      calc {
        b * p - q * (a * b);
        { assert b * p == b * (q * a) + b * r; }
        b * (q * a) + b * r - q * (a * b);
        { assert b * (q * a) == q * (a * b); }
        r * b;
      }
      EuclidBelow(p, r, b);
    }
  }

  /** A field has no zero divisors. */
  lemma Euclid(p: int, a: int, b: int)
    requires Prime(p) && Zero(p, a * b)
    ensures Zero(p, a) || Zero(p, b)
  {
    var q, r := a / p, a % p;
    if r != 0 {
      MultipleIsZero(p, q);
      ZeroProduct(p, q * p, b);
      ZeroSum(p, a * b, q * p * b);
      assert a * b - q * p * b == r * b by { assert a == q * p + r; }
      EuclidBelow(p, r, b);
    }
  }

  // ----- Powers ------------------------------------------------------------------------------

  function Pow(x: int, k: nat): int {
    if k == 0 then 1 else x * Pow(x, k - 1)
  }

  lemma {:induction false} PowAdd(x: int, j: nat, k: nat)
    ensures Pow(x, j + k) == Pow(x, j) * Pow(x, k)
  {
    if j > 0 {
      PowAdd(x, j - 1, k);
      assert x * (Pow(x, j - 1) * Pow(x, k)) == x * Pow(x, j - 1) * Pow(x, k);
    }
  }

  lemma {:induction false} SamePow(p: int, x: int, y: int, k: nat)
    requires p > 0 && Same(p, x, y)
    ensures Same(p, Pow(x, k), Pow(y, k))
  {
    if k == 0 {
      MultipleIsZero(p, 0);
    } else {
      SamePow(p, x, y, k - 1);
      SameProduct(p, x, y, Pow(x, k - 1));
      SameProduct(p, Pow(x, k - 1), Pow(y, k - 1), y);
      SameTransitive(p, x * Pow(x, k - 1), y * Pow(x, k - 1), y * Pow(y, k - 1));
    }
  }

  lemma {:induction false} PowOfOne(k: nat)
    ensures Pow(1, k) == 1
  {
    if k > 0 {
      PowOfOne(k - 1);
    }
  }

  lemma {:induction false} PowOfPow(x: int, i: nat, k: nat)
    ensures Pow(Pow(x, i), k) == Pow(Pow(x, k), i)
  {
    if i == 0 {
      PowOfOne(k);
    } else {
      PowOfPow(x, i - 1, k);
      PowOfProduct(x, Pow(x, i - 1), k);
    }
  }

  lemma Shuffle(x: int, y: int, u: int, v: int)
    ensures x * y * (u * v) == x * u * (y * v)
  {
    calc {
      x * y * (u * v);
      x * (y * (u * v));
      { assert y * (u * v) == u * (y * v); }
      x * (u * (y * v));
      x * u * (y * v);
    }
  }

  lemma {:induction false} PowOfProduct(x: int, y: int, k: nat)
    ensures Pow(x * y, k) == Pow(x, k) * Pow(y, k)
  {
    if k > 0 {
      PowOfProduct(x, y, k - 1);
      Shuffle(x, y, Pow(x, k - 1), Pow(y, k - 1));
    }
  }
}
