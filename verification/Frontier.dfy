/** The newest available block: an expanding probe, then a binary search. */
module Frontier {
  import opened Common

  /** An existence probe answers or fails. */
  datatype Answer = Present | Absent | Failed

  type Prober = nat -> Answer

  datatype Found = Newest(block: u64) | FloorMissing | ProbeError

  const FIRST_STEP := 1024

  /** Nothing exists above `top`, and the widest probe still fits 64 bits. */
  ghost predicate Bounded(probe: Prober, floor: nat, top: nat) {
    && floor <= top && 4 * top + FIRST_STEP < TWO_64
    && forall n :: n > top ==> probe(n) != Present
  }

  ghost predicate NeverFails(probe: Prober) {
    forall n :: probe(n) != Failed
  }

  lemma {:induction false} Log2Monotone(a: nat, b: nat)
    requires a <= b
    ensures Log2(a) <= Log2(b)
  {
    if a >= 2 {
      Log2Monotone(a / 2, b / 2);
    }
  }

  lemma {:induction false} Log2OfPow2(k: nat)
    ensures Log2(Pow2(k)) == k
  {
    if k > 0 {
      Log2OfPow2(k - 1);
    }
  }

  /** Halves a gap of 2^width with one probe each time. */
  method Bisect(probe: Prober, low: u64, high: u64, ghost width: nat) returns (found: Found, probes: nat)
    requires probe(low) == Present && probe(high) == Absent && high - low == Pow2(width)
    ensures found.Newest? ==>
              low <= found.block < high && probe(found.block) == Present && probe(found.block + 1) == Absent
    ensures !found.FloorMissing? && (NeverFails(probe) ==> found.Newest?)
    ensures probes <= width
  {
    var lo: u64, hi: u64 := low, high;
    ghost var left := width;
    probes := 0;
    while hi - lo > 1
      invariant low <= lo < hi <= high && probe(lo) == Present && probe(hi) == Absent
      invariant hi - lo == Pow2(left) && probes + left == width
      decreases hi - lo
    {
      var mid: u64 := lo + (hi - lo) / 2;
      probes := probes + 1;
      left := left - 1;
      match probe(mid) {
        case Failed => return ProbeError, probes;
        case Present => lo := mid;
        case Absent => hi := mid;
      }
    }
    return Newest(lo), probes;
  }

  /**
   * From a floor that exists, finds a block that exists and whose successor does not, in
   * logarithmically many probes. Every number computed fits 64 bits.
   */
  method FindNewest(probe: Prober, floor: u64, ghost top: nat) returns (found: Found, probes: nat)
    requires Bounded(probe, floor, top)
    ensures found.FloorMissing? <==> probe(floor) == Absent
    ensures found.Newest? ==>
              floor <= found.block <= top && probe(found.block) == Present && probe(found.block + 1) == Absent
    ensures NeverFails(probe) && probe(floor) == Present ==> found.Newest?
    ensures found.Newest? && (forall n :: floor <= n <= top ==> probe(n) == Present) ==> found.block == top
    ensures probes <= 2 * Log2(3 * (top - floor) + FIRST_STEP)
  {
    ghost var width := 10;
    assert Pow2(10) == FIRST_STEP;
    Log2OfPow2(10);
    Log2Monotone(FIRST_STEP, 3 * (top - floor) + FIRST_STEP);
    probes := 1;
    match probe(floor) {
      case Failed => return ProbeError, probes;
      case Absent => return FloorMissing, probes;
      case Present =>
    }
    var lo: u64, step: u64 := floor, FIRST_STEP;
    var hi: u64 := lo + step;
    probes := probes + 1;
    while probe(hi) == Present
      invariant probe(lo) == Present && floor <= lo <= top
      invariant step == 3 * (lo - floor) + FIRST_STEP && hi == lo + step
      invariant step == Pow2(width) && 2 * probes == width - 6 && 10 <= width <= Log2(3 * (top - floor) + FIRST_STEP)
      decreases top - lo
    {
      lo := hi;
      step := step * 4;
      hi := lo + step;
      width := width + 2;
      probes := probes + 1;
      Log2OfPow2(width);
      Log2Monotone(step, 3 * (top - floor) + FIRST_STEP);
    }
    if probe(hi) == Failed {
      return ProbeError, probes;
    }
    var more;
    found, more := Bisect(probe, lo, hi, width);
    probes := probes + more;
  }
}
