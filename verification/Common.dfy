/** Types shared by every part of the model: bytes, machine integers, results and errors. */
module Common {

  datatype Option<+T> = None | Some(value: T)

  /** A Rust `Result`: `?` on the source side is `:-` here. */
  datatype Result<+T> = Success(value: T) | Failure(error: Error) {
    predicate IsFailure() { Failure? }
    function PropagateFailure<U>(): Result<U> requires Failure? { Failure(error) }
    function Extract(): T requires Success? { value }
  }

  /** The failures the modelled code distinguishes, one constructor per message. */
  datatype Error =
    | TruncatedVarint
    | VarintTooLong
    | LengthOverflow
    | LengthExceedsInput
    | UnsupportedWireType
    | MultipleOneofFields
    | EmptyItem
    | CannotInflate
    | FilteredItem
    | UnknownItem(field: nat)
    | CannotDecode
    | HeaderMissing
    | FooterMissing
    | SignedProofMissing
    | IndexOutOfRange
    | NotA48ByteHash
    | RootMismatch
    | WeightTooLarge
    | HintsRejected
    | SchnorrRejected
    | WrapsRejected
    | UnknownProofSuffix

  type byte = b: int | 0 <= b < 256
  type Bytes = seq<byte>

  const TWO_64 := 0x1_0000_0000_0000_0000
  const TWO_63 := 0x8000_0000_0000_0000

  type u64 = n: nat | n < TWO_64

  newtype i64 = x: int | -TWO_63 <= x < TWO_63

  /** A byte buffer the program can hold: Rust allocations stay below 2^63 bytes. */
  type Buffer = b: Bytes | |b| < TWO_63

  function Pow2(k: nat): (p: nat)
    ensures p >= 1
  {
    if k == 0 then 1 else 2 * Pow2(k - 1)
  }

  /** `n >> k`. */
  function Shift(n: nat, k: nat): nat {
    if k == 0 then n else Shift(n / 2, k - 1)
  }

  /** `n << k`, without a width. */
  function ShiftLeft(n: nat, k: nat): nat {
    if k == 0 then n else 2 * ShiftLeft(n, k - 1)
  }

  lemma {:induction false} ShiftLeftMultiplies(n: nat, k: nat)
    ensures ShiftLeft(n, k) == n * Pow2(k)
  {
    if k > 0 {
      ShiftLeftMultiplies(n, k - 1);
    }
  }

  lemma {:induction false} ShiftStep(n: nat, k: nat)
    ensures Shift(n, k + 1) == Shift(n, k) / 2
  {
    if k > 0 {
      ShiftStep(n / 2, k - 1);
    }
  }

  lemma {:induction false} ShiftBound(n: nat, k: nat, m: nat)
    requires n < Pow2(k + m)
    ensures Shift(n, k) < Pow2(m)
  {
    if k > 0 {
      ShiftBound(n / 2, k - 1, m);
    }
  }

  lemma Pow2Of64()
    ensures Pow2(64) == TWO_64
  {
    assert Pow2(4) == 16;
    Pow2Add(4, 4);
    Pow2Add(8, 8);
    Pow2Add(16, 16);
    Pow2Add(32, 32);
  }

  lemma LeTimes(a: nat, b: nat)
    requires b >= 1
    ensures a <= a * b
  {
  }

  lemma NonNegative(a: nat, b: nat)
    ensures a * b >= 0
  {
  }

  lemma LargeMultiple(x: int, d: nat)
    requires x != 0
    ensures x * d >= d || x * d + d <= 0
  {
    if x > 0 {
      NonNegative(x - 1, d);
      assert x * d == d + (x - 1) * d;
    } else {
      NonNegative(-x - 1, d);
      assert x * d + d == -((-x - 1) * d);
    }
  }

  /** Quotient and remainder are the only ones. */
  lemma DivModUnique(n: nat, d: nat, q: nat, r: nat)
    requires d > 0 && n == q * d + r && r < d
    ensures n / d == q && n % d == r
  {
    var q', r' := n / d, n % d;
    assert (q - q') * d == r' - r by {
      assert n == q' * d + r';
      assert (q - q') * d == q * d - q' * d;
    }
    if q != q' { LargeMultiple(q - q', d); }
  }

  /** floor(log2 n), and 0 for n = 0. */
  function Log2(n: nat): nat {
    if n < 2 then 0 else 1 + Log2(n / 2)
  }

  lemma {:induction false} Log2Bounds(n: nat)
    requires n > 0
    ensures Pow2(Log2(n)) <= n < 2 * Pow2(Log2(n))
  {
    if n >= 2 {
      Log2Bounds(n / 2);
    }
  }

  lemma {:induction false} Pow2Add(a: nat, b: nat)
    ensures Pow2(a + b) == Pow2(a) * Pow2(b)
  {
    if a > 0 {
      Pow2Add(a - 1, b);
    }
  }

  function Map<A, B>(f: A -> B, s: seq<A>): (r: seq<B>)
    ensures |r| == |s|
    ensures forall i :: 0 <= i < |s| ==> r[i] == f(s[i])
  {
    seq(|s|, i requires 0 <= i < |s| => f(s[i]))
  }

  /** The lists that elements of s stand for, one after another. */
  function Gather<T, U>(each: T -> seq<U>, s: seq<T>): seq<U> {
    if s == [] then [] else Gather(each, s[..|s| - 1]) + each(s[|s| - 1])
  }

  lemma GatherPush<T, U>(each: T -> seq<U>, s: seq<T>, x: T)
    ensures Gather(each, s + [x]) == Gather(each, s) + each(x)
  {
    assert (s + [x])[..|s|] == s;
  }

  lemma GatherOne<T, U>(each: T -> seq<U>, x: T)
    ensures Gather(each, [x]) == each(x)
  {
    GatherPush(each, [], x);
    assert [] + [x] == [x];
  }

  lemma {:induction false} GatherAppend<T, U>(each: T -> seq<U>, a: seq<T>, b: seq<T>)
    ensures Gather(each, a + b) == Gather(each, a) + Gather(each, b)
  {
    if b == [] {
      assert a + b == a;
    } else {
      var front, last := b[..|b| - 1], b[|b| - 1];
      GatherAppend(each, a, front);
      SplitLast(a, b);
      GatherPush(each, a + front, last);
      Regroup(Gather(each, a), Gather(each, front), each(last));
    }
  }

  lemma SliceGrows<T>(s: seq<T>, from: nat, to: nat)
    requires from <= to < |s|
    ensures s[from..to] + [s[to]] == s[from..to + 1]
  {
  }

  lemma SliceOfSlice<T>(s: seq<T>, from: nat, to: nat, i: nat, j: nat)
    requires from <= to <= |s| && i <= j <= to - from
    ensures s[from..to][i..j] == s[from + i..from + j]
  {
    var inner, outer := s[from..to][i..j], s[from + i..from + j];
    assert |inner| == |outer|;
    forall k | 0 <= k < |inner|
      ensures inner[k] == outer[k]
    {
      assert inner[k] == s[from..to][i + k] == s[from + i + k];
    }
  }

  lemma SplitAt<T>(s: seq<T>, i: nat)
    requires i < |s|
    ensures s[..i + 1] == s[..i] + [s[i]]
    ensures s == s[..i] + [s[i]] + s[i + 1..]
  {
  }

  lemma SplitLast<T>(a: seq<T>, b: seq<T>)
    requires b != []
    ensures a + b == a + b[..|b| - 1] + [b[|b| - 1]]
  {
  }

  lemma FrontAndLast<T>(s: seq<T>)
    requires s != []
    ensures s == s[..|s| - 1] + [s[|s| - 1]]
  {
  }

  lemma Regroup<T>(a: seq<T>, b: seq<T>, c: seq<T>)
    ensures a + b + c == a + (b + c)
  {
  }

  lemma Single<T>(s: seq<T>)
    requires |s| == 1
    ensures s == [s[0]] && s[1..] == []
  {
  }
}
