/** The limb encoding that feeds BN254 coordinates to the WRAPS circuit. */
module Wraps {
  import opened Common

  /** The BN254 base field's modulus. */
  const FQ_MODULUS: nat := 21888242871839275222246405745257275088696311157297823662689037894645226208583

  type Fq = v: nat | v < FQ_MODULUS

  const LIMBS := 5
  const BITS_PER_LIMB := 55
  const LIMB: nat := 0x80_0000_0000_0000

  // ----- Bits --------------------------------------------------------------------------------

  /** The number the low m bits of n stand for. */
  function Low(n: nat, m: nat): nat {
    if m == 0 then 0 else n % 2 + 2 * Low(n / 2, m - 1)
  }

  function Bit(n: nat, k: nat): nat {
    Shift(n, k) % 2
  }

  lemma {:induction false} LowGrows(n: nat, m: nat)
    ensures Low(n, m + 1) == Low(n, m) + if Bit(n, m) == 1 then Pow2(m) else 0
    ensures Low(n, m) < Pow2(m)
  {
    if m > 0 {
      LowGrows(n / 2, m - 1);
    }
  }

  lemma {:induction false} BitOfLow(n: nat, m: nat, k: nat)
    requires k < m
    ensures Bit(Low(n, m), k) == Bit(n, k)
  {
    if k > 0 {
      assert Low(n, m) / 2 == Low(n / 2, m - 1);
      BitOfLow(n / 2, m - 1, k - 1);
    }
  }

  lemma {:induction false} ShiftTwice(n: nat, a: nat, b: nat)
    ensures Shift(Shift(n, a), b) == Shift(n, a + b)
  {
    if a > 0 {
      ShiftTwice(n / 2, a - 1, b);
    }
  }

  /** A number is its low bits and the rest. */
  lemma {:induction false} Recompose(n: nat, m: nat)
    ensures n == Low(n, m) + ShiftLeft(Shift(n, m), m)
  {
    if m > 0 {
      Recompose(n / 2, m - 1);
    }
  }

  // ----- Bytes -------------------------------------------------------------------------------

  /** n little-endian bytes of v. */
  function LittleEndian(v: nat, n: nat): (b: Bytes)
    ensures |b| == n
  {
    if n == 0 then [] else [v % 256] + LittleEndian(v / 256, n - 1)
  }

  lemma EightBits(n: nat)
    ensures n % 256 == Low(n, 8) && n / 256 == Shift(n, 8)
  {
    Recompose(n, 8);
    ShiftLeftMultiplies(Shift(n, 8), 8);
    LowGrows(n, 8);
    assert Pow2(8) == 256;
    DivModUnique(n, 256, Shift(n, 8), Low(n, 8));
  }

  lemma {:induction false} ByteAt(v: nat, n: nat, j: nat)
    requires j < n
    ensures LittleEndian(v, n)[j] == Low(Shift(v, 8 * j), 8)
  {
    EightBits(v);
    if j > 0 {
      ByteAt(v / 256, n - 1, j - 1);
      ShiftTwice(v, 8, 8 * (j - 1));
    }
  }

  /** The bit the source reads out of the bytes is the bit of the number; past the end both are 0. */
  lemma BitInBytes(v: nat, n: nat, k: nat)
    requires v < Pow2(8 * n)
    ensures var bytes := LittleEndian(v, n);
            Bit(if k / 8 < |bytes| then bytes[k / 8] else 0, k % 8) == Bit(v, k)
  {
    if k / 8 < n {
      ByteAt(v, n, k / 8);
      BitOfLow(Shift(v, 8 * (k / 8)), 8, k % 8);
      ShiftTwice(v, 8 * (k / 8), k % 8);
    } else {
      ShiftBound(v, 8 * n, 0);
      ShiftTwice(v, 8 * n, k - 8 * n);
      ShiftOfZero(k - 8 * n);
      ShiftOfZero(k % 8);
    }
  }

  lemma {:induction false} ShiftOfZero(k: nat)
    ensures Shift(0, k) == 0
  {
    if k > 0 {
      ShiftOfZero(k - 1);
    }
  }

  lemma FqFits()
    ensures FQ_MODULUS <= Pow2(254) && Pow2(254) <= Pow2(8 * 32) && Pow2(BITS_PER_LIMB) == LIMB
  {
    TwoTo254();
    Pow2Add(254, 2);
    assert Pow2(2) == 4;
    LimbSize();
  }

  lemma TwoTo254()
    ensures FQ_MODULUS <= Pow2(254)
  {
    Pow2Of64();
    Pow2Add(64, 64);
    Pow2Add(62, 2);
    assert Pow2(2) == 4;
    Pow2Add(128, 64);
    Pow2Add(192, 62);
  }

  lemma LimbSize()
    ensures Pow2(BITS_PER_LIMB) == LIMB
  {
    Pow2Of64();
    Pow2Add(55, 9);
    assert Pow2(9) == 512;
  }

  // ----- Limbs -------------------------------------------------------------------------------

  /** The value of limbs in base 2^55, lowest first. */
  function FromLimbs(limbs: seq<nat>): nat {
    if limbs == [] then 0 else limbs[0] + LIMB * FromLimbs(limbs[1..])
  }

  function LimbsOf(v: nat, n: nat): (limbs: seq<nat>)
    ensures |limbs| == n
    decreases n
  {
    if n == 0 then [] else [Low(v, BITS_PER_LIMB)] + LimbsOf(Shift(v, BITS_PER_LIMB), n - 1)
  }

  lemma {:induction false} LimbAt(v: nat, n: nat, i: nat)
    requires i < n
    ensures LimbsOf(v, n)[i] == Low(Shift(v, BITS_PER_LIMB * i), BITS_PER_LIMB) < LIMB
    decreases n
  {
    FqFits();
    LowGrows(Shift(v, BITS_PER_LIMB * i), BITS_PER_LIMB);
    if i > 0 {
      LimbAt(Shift(v, BITS_PER_LIMB), n - 1, i - 1);
      ShiftTwice(v, BITS_PER_LIMB, BITS_PER_LIMB * (i - 1));
    }
  }

  lemma {:induction false} LimbsSumUp(v: nat, n: nat)
    requires v < Pow2(BITS_PER_LIMB * n)
    ensures FromLimbs(LimbsOf(v, n)) == v
    decreases n
  {
    if n > 0 {
      var rest := Shift(v, BITS_PER_LIMB);
      Recompose(v, BITS_PER_LIMB);
      ShiftLeftMultiplies(rest, BITS_PER_LIMB);
      FqFits();
      ShiftBound(v, BITS_PER_LIMB, BITS_PER_LIMB * (n - 1));
      LimbsSumUp(rest, n - 1);
      assert LimbsOf(v, n)[1..] == LimbsOf(rest, n - 1);
    }
  }

  /** One limb: 55 bits set one by one. */
  method ReadLimb(bytes: Bytes, i: nat, ghost v: nat) returns (value: nat)
    requires v < Pow2(8 * |bytes|) && bytes == LittleEndian(v, |bytes|)
    ensures value == Low(Shift(v, BITS_PER_LIMB * i), BITS_PER_LIMB)
  {
    value := 0;
    for bit := 0 to BITS_PER_LIMB
      invariant value == Low(Shift(v, BITS_PER_LIMB * i), bit)
    {
      var bitIndex := i * BITS_PER_LIMB + bit;
      var b := if bitIndex / 8 < |bytes| then bytes[bitIndex / 8] else 0;
      BitInBytes(v, |bytes|, bitIndex);
      ShiftTwice(v, BITS_PER_LIMB * i, bit);
      LowGrows(Shift(v, BITS_PER_LIMB * i), bit);
      if Shift(b, bitIndex % 8) % 2 == 1 {
        value := value + Pow2(bit);  // `|=` of a bit above all those set
      }
    }
  }

  /** Five limbs below 2^55 that add up, weighted by powers of 2^55, to the field element. */
  method FqToLimbs(v: Fq) returns (limbs: seq<nat>)
    ensures limbs == LimbsOf(v, LIMBS) && |limbs| == LIMBS
    ensures forall i :: 0 <= i < LIMBS ==> limbs[i] < LIMB
    ensures FromLimbs(limbs) == v
  {
    var bytes := LittleEndian(v, 32);
    FqBelow256(v);
    limbs := [];
    for i := 0 to LIMBS
      invariant |limbs| == i && forall j :: 0 <= j < i ==> limbs[j] == LimbsOf(v, LIMBS)[j] < LIMB
    {
      var value := ReadLimb(bytes, i, v);
      LimbAt(v, LIMBS, i);
      limbs := limbs + [value];
    }
    LimbsAre(v, limbs);
  }

  lemma LimbsAre(v: Fq, limbs: seq<nat>)
    requires |limbs| == LIMBS && forall j :: 0 <= j < LIMBS ==> limbs[j] == LimbsOf(v, LIMBS)[j]
    ensures limbs == LimbsOf(v, LIMBS) && FromLimbs(limbs) == v
  {
    FqBelow275(v);
    LimbsSumUp(v, LIMBS);
    assert limbs == LimbsOf(v, LIMBS);
  }

  lemma FqBelow256(v: Fq)
    ensures v < Pow2(8 * 32)
  {
    FqFits();
  }

  lemma FqBelow275(v: Fq)
    ensures v < Pow2(BITS_PER_LIMB * LIMBS)
  {
    FqFits();
    Pow2Add(254, 21);
    LeTimes(Pow2(254), Pow2(21));
  }

  /** Distinct field elements have distinct limbs. */
  lemma LimbsAreInjective(v: Fq, w: Fq)
    requires LimbsOf(v, LIMBS) == LimbsOf(w, LIMBS)
    ensures v == w
  {
    FqBelow275(v);
    FqBelow275(w);
    LimbsSumUp(v, LIMBS);
    LimbsSumUp(w, LIMBS);
  }

  // ----- Points ------------------------------------------------------------------------------

  datatype G1 = Infinity | Affine(x: Fq, y: Fq)

  /** y^2 = x^3 + 3 over the base field. */
  predicate OnCurve(p: G1) {
    p.Affine? ==> p.y * p.y % FQ_MODULUS == (p.x * p.x * p.x + 3) % FQ_MODULUS
  }

  /** x in the first five limbs and y in the last five, each 55 bits wide; infinity is ten zeros. */
  function G1ToNonnative(p: G1): (r: seq<nat>)
    ensures |r| == 10 && forall i :: 0 <= i < 10 ==> r[i] < 0x80_0000_0000_0000
    ensures p.Affine? ==> FromLimbs(r[..5]) == p.x && FromLimbs(r[5..]) == p.y
    ensures p.Infinity? ==> r == [0, 0, 0, 0, 0, 0, 0, 0, 0, 0]
  {
    match p
    case Infinity =>
      LimbsOfFq(0);
      ZeroLimbs();
      LimbsOf(0, LIMBS) + LimbsOf(0, LIMBS)
    case Affine(x, y) =>
      LimbsOfFq(x);
      LimbsOfFq(y);
      Halves(LimbsOf(x, LIMBS), LimbsOf(y, LIMBS));
      LimbsOf(x, LIMBS) + LimbsOf(y, LIMBS)
  }

  lemma LimbsOfFq(v: Fq)
    ensures FromLimbs(LimbsOf(v, LIMBS)) == v && forall i :: 0 <= i < LIMBS ==> LimbsOf(v, LIMBS)[i] < LIMB
  {
    FqBelow275(v);
    LimbsSumUp(v, LIMBS);
    forall i | 0 <= i < LIMBS ensures LimbsOf(v, LIMBS)[i] < LIMB {
      LimbAt(v, LIMBS, i);
    }
  }

  lemma Halves(a: seq<nat>, b: seq<nat>)
    requires |a| == |b| == 5
    ensures (a + b)[..5] == a && (a + b)[5..] == b
  {
  }

  lemma ZeroLimbs()
    ensures LimbsOf(0, LIMBS) == [0, 0, 0, 0, 0]
  {
    forall i | 0 <= i < LIMBS ensures LimbsOf(0, LIMBS)[i] == 0 {
      LimbAt(0, LIMBS, i);
      ShiftOfZero(BITS_PER_LIMB * i);
      LowOfZero(BITS_PER_LIMB);
    }
  }

  lemma {:induction false} LowOfZero(m: nat)
    ensures Low(0, m) == 0
  {
    if m > 0 {
      LowOfZero(m - 1);
    }
  }

  /** Distinct points have distinct encodings: the all-zero one belongs to infinity alone. */
  lemma NonnativeSeparatesPoints(p: G1, q: G1)
    requires OnCurve(p) && OnCurve(q) && G1ToNonnative(p) == G1ToNonnative(q)
    ensures p == q
  {
    var (px, py) := if p.Affine? then (p.x, p.y) else (0, 0);
    var (qx, qy) := if q.Affine? then (q.x, q.y) else (0, 0);
    var a, b := G1ToNonnative(p), G1ToNonnative(q);
    assert a[..LIMBS] == LimbsOf(px, LIMBS) && a[LIMBS..] == LimbsOf(py, LIMBS);
    assert b[..LIMBS] == LimbsOf(qx, LIMBS) && b[LIMBS..] == LimbsOf(qy, LIMBS);
    LimbsAreInjective(px, qx);
    LimbsAreInjective(py, qy);
  }
}
