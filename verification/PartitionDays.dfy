/** What the texts of a row's day and timestamp say about when it happened. */
module PartitionDays {
  import opened Common
  import opened Calendar
  import opened DayText
  import opened Sorting
  import opened Transactions
  import opened BlockEtl

  /** `{nanos:09}`: the sign takes one of the nine places. */
  function NanosText(nanos: int): string {
    if nanos < 0 then "-" + Digits(-nanos, 8) else Digits(nanos, 9)
  }

  function SecondsText(seconds: int): string {
    if seconds < 0 then "-" + Digits(-seconds, 1) else Digits(seconds, 1)
  }

  /** A timestamp as both parsers print it. */
  function TimeText(seconds: int, nanos: int): string {
    SecondsText(seconds) + ("." + NanosText(nanos))
  }

  /** What both parsers make of a transaction's consensus time. */
  predicate ParsedAt(tx: Transaction, seconds: i64, nanos: int) {
    && tx.consensusTimestamp == TimeText(seconds as int, nanos)
    && ValidDate(DayFromSeconds(seconds)) && tx.day == Text(DayFromSeconds(seconds))
  }

  // ----- Partitions are UTC days -------------------------------------------------------------

  /** Two rows written by the block pipeline share a partition exactly when their seconds share a UTC day. */
  lemma PartitionIsUtcDay(written: seq<Partition>, i: nat, k: nat, j: nat, l: nat, s: i64, m: int, t: i64, n: int)
    requires OwnDays(written) && i < |written| && k < |written[i].rows| && j < |written| && l < |written[j].rows|
    requires ParsedAt(written[i].rows[k], s, m) && ParsedAt(written[j].rows[l], t, n)
    ensures i == j <==> s as int / 86_400 == t as int / 86_400
  {
    PartitionsAreDays(s, t);
    LessTrichotomy(written[i].day, written[j].day);
  }

  // ----- Timestamp order ---------------------------------------------------------------------

  predicate Nanos(n: int) {
    0 <= n < 1_000_000_000
  }

  lemma NanosOrder(m: int, n: int)
    requires Nanos(m) && Nanos(n)
    ensures |NanosText(m)| == |NanosText(n)| == 9
    ensures Less(NanosText(m), NanosText(n)) <==> m < n
  {
    assert Power10(9) == 1_000_000_000 by { assert Power10(8) == 100_000_000 by { Powers(); assert Power10(6) == 1_000_000; } }
    DigitCount(m, 9);
    DigitCount(n, 9);
    DigitsOrder(m, n, 9);
  }

  /** Seconds of equally many digits: the timestamp texts sort in time. */
  lemma TimeOrder(s: nat, m: int, t: nat, n: int)
    requires |Digits(s, 1)| == |Digits(t, 1)| && Nanos(m) && Nanos(n)
    ensures Less(TimeText(s, m), TimeText(t, n)) <==> s < t || (s == t && m < n)
  {
    SameCountOrder(s, t);
    DigitsAreInjective(s, t, 1);
    NanosOrder(m, n);
    LessTrichotomy(".", ".");
    LessByParts(".", ".", NanosText(m), NanosText(n));
    LessByParts(Digits(s, 1), Digits(t, 1), "." + NanosText(m), "." + NanosText(n));
  }

  /** A number is below the power of ten of its digit count, and not below the one before. */
  lemma {:induction false} CountOf(n: nat)
    ensures n < Power10(|Digits(n, 1)|) && (n > 0 ==> n >= Power10(|Digits(n, 1)| - 1))
    decreases n
  {
    if n >= 10 {
      CountOf(n / 10);
      NoPadding(n / 10);
    }
  }

  lemma NoPadding(n: nat)
    ensures Digits(n, 0) == Digits(n, 1)
  {
  }

  lemma {:induction false} PaddedToCount(n: nat, width: nat)
    requires width >= 1 && |Digits(n, 1)| <= width
    ensures |Digits(n, 1)| == width ==> Digits(n, 1) == Digits(n, width)
    decreases width
  {
    if width > 1 && n >= 10 {
      NoPadding(n / 10);
      PaddedToCount(n / 10, width - 1);
    }
  }

  lemma SameCountOrder(s: nat, t: nat)
    requires |Digits(s, 1)| == |Digits(t, 1)|
    ensures Less(Digits(s, 1), Digits(t, 1)) <==> s < t
  {
    var width := |Digits(s, 1)|;
    CountOf(s);
    CountOf(t);
    PaddedToCount(s, width);
    PaddedToCount(t, width);
    DigitsOrder(s, t, width);
  }

  /** The texts of all times in a span of seconds sort in time. */
  ghost predicate TimesSort(lo: nat, hi: nat) {
    forall s: nat, m, t: nat, n {:trigger TimeText(s, m), TimeText(t, n)} ::
      lo <= s <= hi && lo <= t <= hi && Nanos(m) && Nanos(n) ==>
        (Less(TimeText(s, m), TimeText(t, n)) <==> s < t || (s == t && m < n))
  }

  lemma {:induction false} MonotoneCount(s: nat, t: nat)
    requires s <= t
    ensures |Digits(s, 1)| <= |Digits(t, 1)|
    decreases t
  {
    if t >= 10 {
      NoPadding(t / 10);
      if s >= 10 {
        NoPadding(s / 10);
        MonotoneCount(s / 10, t / 10);
      }
    }
  }

  lemma {:induction false} FirstDigit(k: nat)
    requires k >= 1
    ensures Digits(Power10(k), 1)[0] == '1' && |Digits(Power10(k), 1)| == k + 1
    ensures Digits(Power10(k) - 1, 1)[0] == '9' && |Digits(Power10(k) - 1, 1)| == k
  {
    if k == 1 {
      assert Power10(1) == 10 && Digits(10, 1) == Digits(1, 0) + "0" && Digits(9, 1) == "9";
    } else {
      FirstDigit(k - 1);
      assert (Power10(k) - 1) / 10 == Power10(k - 1) - 1 && Power10(k) / 10 == Power10(k - 1);
      NoPadding(Power10(k - 1));
      NoPadding(Power10(k - 1) - 1);
      TenOrMore(k);
    }
  }

  lemma {:induction false} TenOrMore(k: nat)
    requires k >= 2
    ensures Power10(k) >= 100
  {
    if k > 2 { TenOrMore(k - 1); } else { Powers(); }
  }

  /** They do exactly when the span's seconds all have equally many digits, as from 2001 to 2286. */
  lemma TimesSortExactly(lo: nat, hi: nat)
    requires lo <= hi
    ensures TimesSort(lo, hi) <==> |Digits(lo, 1)| == |Digits(hi, 1)|
  {
    if |Digits(lo, 1)| == |Digits(hi, 1)| {
      forall s: nat, m, t: nat, n | lo <= s <= hi && lo <= t <= hi && Nanos(m) && Nanos(n)
        ensures Less(TimeText(s, m), TimeText(t, n)) <==> s < t || (s == t && m < n)
      {
        MonotoneCount(lo, s);
        MonotoneCount(s, hi);
        MonotoneCount(lo, t);
        MonotoneCount(t, hi);
        TimeOrder(s, m, t, n);
      }
    } else {
      MonotoneCount(lo, hi);
      var k := |Digits(lo, 1)|;
      CrossesPower(lo, hi, k);
      FirstDigit(k);
      assert TimeText(Power10(k), 0)[0] == '1' && TimeText(Power10(k) - 1, 0)[0] == '9';
      assert Less(TimeText(Power10(k), 0), TimeText(Power10(k) - 1, 0));
      assert Nanos(0);
    }
  }

  lemma CrossesPower(lo: nat, hi: nat, k: nat)
    requires lo <= hi && k == |Digits(lo, 1)| < |Digits(hi, 1)|
    ensures lo <= Power10(k) - 1 < Power10(k) <= hi
  {
    CountOf(lo);
    CountOf(hi);
    PowersGrow(k, |Digits(hi, 1)| - 1);
  }

  lemma {:induction false} PowersGrow(j: nat, k: nat)
    requires j <= k
    ensures 1 <= Power10(j) <= Power10(k)
    decreases k
  {
    if j < k { PowersGrow(j, k - 1); } else if k > 0 { PowersGrow(k - 1, k - 1); }
  }
}
