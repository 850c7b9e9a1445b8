/** The text form of a day, which is what rows are partitioned by. */
module DayText {
  import opened Common
  import opened Calendar
  import opened Sorting

  function Digit(n: int): char
    requires 0 <= n < 10
  {
    '0' + n as char
  }

  /** Decimal digits, zero-padded to at least `width`. */
  function Digits(n: nat, width: nat): (text: string)
    ensures text != [] && |text| >= width
    ensures forall i :: 0 <= i < |text| ==> '0' <= text[i] <= '9'
    decreases n + width
  {
    if n < 10 && width <= 1 then [Digit(n)]
    else Digits(n / 10, if width == 0 then 0 else width - 1) + [Digit(n % 10)]
  }

  /** `{:04}`: the sign takes one of the four places. */
  function YearText(year: int): string {
    if year < 0 then "-" + Digits(-year, 3) else Digits(year, 4)
  }

  function Text(d: Date): string
    requires ValidDate(d)
  {
    YearText(d.year) + AfterYear(d)
  }

  function AfterYear(d: Date): string
    requires ValidDate(d)
  {
    "-" + (Digits(d.month, 2) + ("-" + Digits(d.day, 2)))
  }

  function Value(text: string): int {
    if text == [] then 0 else 10 * Value(text[..|text| - 1]) + (text[|text| - 1] as int - '0' as int)
  }

  lemma {:induction false} ValueOfDigits(n: nat, width: nat)
    ensures Value(Digits(n, width)) == n
    decreases n + width
  {
    var text := Digits(n, width);
    if n >= 10 || width > 1 {
      ValueOfDigits(n / 10, if width == 0 then 0 else width - 1);
      assert text[..|text| - 1] == Digits(n / 10, if width == 0 then 0 else width - 1);
    } else {
      assert text[..0] == [];
    }
  }

  lemma {:induction false} DigitCount(n: nat, width: nat)
    requires width >= 1 && n < Power10(width)
    ensures |Digits(n, width)| == width
    decreases width
  {
    if width > 1 {
      DigitCount(n / 10, width - 1);
    }
  }

  function Power10(k: nat): nat {
    if k == 0 then 1 else 10 * Power10(k - 1)
  }

  /** Texts of one length compare by their parts, first part first. */
  lemma {:induction false} LessByParts(a: string, b: string, x: string, y: string)
    requires |a| == |b|
    ensures Less(a + x, b + y) <==> Less(a, b) || (a == b && Less(x, y))
  {
    if a == [] {
      assert a + x == x && b + y == y;
    } else {
      LessByParts(a[1..], b[1..], x, y);
      assert (a + x)[1..] == a[1..] + x && (b + y)[1..] == b[1..] + y;
      assert a == [a[0]] + a[1..] && b == [b[0]] + b[1..];
    }
  }

  lemma OneDigit(m: nat, n: nat)
    requires m < 10 && n < 10
    ensures Less([Digit(m)], [Digit(n)]) <==> m < n
  {
    assert [Digit(m)][1..] == [] && [Digit(n)][1..] == [];
  }

  lemma HighDigitsFirst(m: nat, n: nat)
    ensures m < n <==> m / 10 < n / 10 || (m / 10 == n / 10 && m % 10 < n % 10)
  {
  }

  /** A number has one text of a given padding. */
  lemma DigitsAreInjective(m: nat, n: nat, width: nat)
    ensures Digits(m, width) == Digits(n, width) <==> m == n
  {
    ValueOfDigits(m, width);
    ValueOfDigits(n, width);
  }

  /** Equally many digits compare as numbers. */
  lemma {:induction false} DigitsOrder(m: nat, n: nat, width: nat)
    requires width >= 1 && m < Power10(width) && n < Power10(width)
    ensures Less(Digits(m, width), Digits(n, width)) <==> m < n
    decreases width
  {
    if width == 1 {
      OneDigit(m, n);
    } else {
      var a, b := Digits(m / 10, width - 1), Digits(n / 10, width - 1);
      DigitsOrder(m / 10, n / 10, width - 1);
      DigitsAreInjective(m / 10, n / 10, width - 1);
      DigitCount(m / 10, width - 1);
      DigitCount(n / 10, width - 1);
      LessByParts(a, b, [Digit(m % 10)], [Digit(n % 10)]);
      OneDigit(m % 10, n % 10);
      HighDigitsFirst(m, n);
    }
  }

  lemma TwoDigits(d: Date)
    requires ValidDate(d)
    ensures 1 <= d.month < Power10(2) && 1 <= d.day < Power10(2)
    ensures |Digits(d.month, 2)| == |Digits(d.day, 2)| == 2
  {
    Powers();
    DigitCount(d.month, 2);
    DigitCount(d.day, 2);
  }

  lemma SignComesFirst(year: int)
    ensures YearText(year) != [] && (YearText(year)[0] == '-' <==> year < 0)
  {
  }

  predicate FourPlaces(year: int) {
    -1 <= year <= 9999
  }

  /** Year texts of four places sort as the years do; a sign sorts below every digit. */
  lemma YearOrder(m: int, n: int)
    requires FourPlaces(m) && FourPlaces(n)
    ensures |YearText(m)| == |YearText(n)| == 4
    ensures Less(YearText(m), YearText(n)) <==> m < n
    ensures YearText(m) == YearText(n) <==> m == n
  {
    Powers();
    SignComesFirst(m);
    SignComesFirst(n);
    LessTrichotomy(YearText(m), YearText(n));
    DigitCount(1, 3);
    if m >= 0 { DigitCount(m, 4); }
    if n >= 0 { DigitCount(n, 4); }
    if m >= 0 && n >= 0 {
      DigitsOrder(m, n, 4);
      DigitsAreInjective(m, n, 4);
    }
  }

  /** Dates with such years sort by text as the calendar does. */
  lemma TextOrder(d: Date, e: Date)
    requires ValidDate(d) && ValidDate(e) && FourPlaces(d.year) && FourPlaces(e.year)
    ensures Less(Text(d), Text(e)) <==> Before(d, e)
  {
    TwoDigits(d);
    TwoDigits(e);
    YearOrder(d.year, e.year);
    DigitsOrder(d.month, e.month, 2);
    DigitsOrder(d.day, e.day, 2);
    DigitsAreInjective(d.month, e.month, 2);
    var x, y := "-" + Digits(d.day, 2), "-" + Digits(e.day, 2);
    LessByParts("-", "-", Digits(d.day, 2), Digits(e.day, 2));
    LessByParts(Digits(d.month, 2), Digits(e.month, 2), x, y);
    LessByParts("-", "-", Digits(d.month, 2) + x, Digits(e.month, 2) + y);
    LessByParts(YearText(d.year), YearText(e.year), "-" + (Digits(d.month, 2) + x), "-" + (Digits(e.month, 2) + y));
    LessTrichotomy("-", "-");
  }

  lemma SameTails(a: string, b: string, x: string, y: string)
    requires a + x == b + y && |x| == |y|
    ensures a == b && x == y
  {
    assert a == (a + x)[..|a|] && b == (b + y)[..|b|];
    assert x == (a + x)[|a|..] && y == (b + y)[|b|..];
  }

  lemma YearTextIsInjective(m: int, n: int)
    requires YearText(m) == YearText(n)
    ensures m == n
  {
    SignComesFirst(m);
    SignComesFirst(n);
    if m < 0 && n < 0 {
      SameTails("-", "-", Digits(-m, 3), Digits(-n, 3));
      DigitsAreInjective(-m, -n, 3);
    } else if m >= 0 && n >= 0 {
      DigitsAreInjective(m, n, 4);
    }
  }

  /** No two dates share a text, in any year. */
  lemma TextIsInjective(d: Date, e: Date)
    requires ValidDate(d) && ValidDate(e) && Text(d) == Text(e)
    ensures d == e
  {
    TwoDigits(d);
    TwoDigits(e);
    var x, y := "-" + Digits(d.day, 2), "-" + Digits(e.day, 2);
    SameTails(YearText(d.year), YearText(e.year), "-" + (Digits(d.month, 2) + x), "-" + (Digits(e.month, 2) + y));
    YearTextIsInjective(d.year, e.year);
    SameTails("-", "-", Digits(d.month, 2) + x, Digits(e.month, 2) + y);
    SameTails(Digits(d.month, 2), Digits(e.month, 2), x, y);
    SameTails("-", "-", Digits(d.day, 2), Digits(e.day, 2));
    DigitsAreInjective(d.month, e.month, 2);
    DigitsAreInjective(d.day, e.day, 2);
  }

  /** Day partitions are UTC days: one text exactly for the seconds of one day, over all of i64. */
  lemma PartitionsAreDays(s: i64, t: i64)
    ensures ValidDate(DayFromSeconds(s)) && ValidDate(DayFromSeconds(t))
    ensures Text(DayFromSeconds(s)) == Text(DayFromSeconds(t)) <==> s as int / 86_400 == t as int / 86_400
  {
    DayPartition(s, t);
    DayPartition(t, s);
    var d, e := DayFromSeconds(s), DayFromSeconds(t);
    if Text(d) == Text(e) { TextIsInjective(d, e); }
  }

  // ----- Where the text sorts as the days do -------------------------------------------------

  lemma YearDecides(d: Date, e: Date)
    requires ValidDate(d) && ValidDate(e) && |YearText(d.year)| == |YearText(e.year)|
    requires Less(YearText(d.year), YearText(e.year))
    ensures Less(Text(d), Text(e))
  {
    LessByParts(YearText(d.year), YearText(e.year), AfterYear(d), AfterYear(e));
  }

  /** Years before 1 BC of three digits sort by text against time. */
  lemma NegativeYears(m: int, n: int)
    requires -1000 < n < m < 0
    ensures |YearText(m)| == |YearText(n)| == 4 && Less(YearText(m), YearText(n))
  {
    Powers();
    DigitCount(-m, 3);
    DigitCount(-n, 3);
    DigitsOrder(-m, -n, 3);
    LessTrichotomy("-", "-");
    LessByParts("-", "-", Digits(-m, 3), Digits(-n, 3));
  }

  lemma Powers()
    ensures Power10(1) == 10 && Power10(2) == 100 && Power10(3) == 1000 && Power10(4) == 10_000
  {
  }

  /** A fifth digit sorts 10000 before 9999, and year -1 sorts before -2. */
  lemma FarYearsSortBackwards()
    ensures Less(Text(Date(10_000, 1, 1)), Text(Date(9999, 12, 31)))
    ensures Less(Text(Date(-1, 1, 1)), Text(Date(-2, 12, 31)))
  {
    FiveDigits();
    NegativeYears(-1, -2);
    YearDecides(Date(-1, 1, 1), Date(-2, 12, 31));
  }

  lemma FiveDigits()
    ensures Less(Text(Date(10_000, 1, 1)), Text(Date(9999, 12, 31)))
  {
    assert Digits(10_000, 4)[0] == Digits(1000, 3)[0] == Digits(100, 2)[0] == Digits(10, 1)[0] == Digits(1, 0)[0] == '1';
    assert Digits(9999, 4)[0] == Digits(999, 3)[0] == Digits(99, 2)[0] == Digits(9, 1)[0] == '9';
  }

  ghost predicate YearsSort(lo: int, hi: int) {
    forall d, e :: ValidDate(d) && ValidDate(e) && lo <= d.year <= hi && lo <= e.year <= hi ==>
      (Less(Text(d), Text(e)) <==> Before(d, e))
  }

  /** The texts of all dates in a span of years around 0 sort as the calendar does exactly within -1..9999. */
  lemma YearsSortExactly(lo: int, hi: int)
    requires lo <= 0 <= hi
    ensures YearsSort(lo, hi) <==> -1 <= lo && hi <= 9999
  {
    FarYearsSortBackwards();
    if -1 <= lo && hi <= 9999 {
      forall d, e | ValidDate(d) && ValidDate(e) && lo <= d.year <= hi && lo <= e.year <= hi
        ensures Less(Text(d), Text(e)) <==> Before(d, e)
      {
        TextOrder(d, e);
      }
    }
    if hi > 9999 {
      var d, e := Date(10_000, 1, 1), Date(9999, 12, 31);
      assert Less(Text(d), Text(e)) && !Before(d, e);
    }
    if lo < -1 {
      var d, e := Date(-1, 1, 1), Date(-2, 12, 31);
      assert Less(Text(d), Text(e)) && !Before(d, e);
    }
  }

  /** The first second of year -1, and of year 10000. */
  const FIRST_SECOND: i64 := -62_198_755_200
  const END_SECOND: i64 := 253_402_300_800

  lemma EdgeDays()
    ensures DayFromSeconds(FIRST_SECOND - 1) == Date(-2, 12, 31) && DayFromSeconds(FIRST_SECOND) == Date(-1, 1, 1)
    ensures DayFromSeconds(END_SECOND - 1) == Date(9999, 12, 31) && DayFromSeconds(END_SECOND) == Date(10_000, 1, 1)
  {
    EdgeDates();
    DayFromSecondsIsCivil(FIRST_SECOND - 1);
    DayFromSecondsIsCivil(FIRST_SECOND);
    DayFromSecondsIsCivil(END_SECOND - 1);
    DayFromSecondsIsCivil(END_SECOND);
    EdgeNumbers();
  }

  lemma EdgeNumbers()
    ensures (FIRST_SECOND - 1) as int / 86_400 == -719_894 && FIRST_SECOND as int / 86_400 == -719_893
    ensures (END_SECOND - 1) as int / 86_400 == 2_932_896 && END_SECOND as int / 86_400 == 2_932_897
  {
  }

  lemma EdgeDates()
    ensures Civil(-719_894) == Date(-2, 12, 31) && Civil(-719_893) == Date(-1, 1, 1)
    ensures Civil(2_932_896) == Date(9999, 12, 31) && Civil(2_932_897) == Date(10_000, 1, 1)
  {
    CivilAt(-719_894, Place(-1, 3, 24, 2, 305));
    CivilAt(-719_893, Place(-1, 3, 24, 2, 306));
    CivilAt(2_932_896, Place(24, 3, 24, 3, 305));
    CivilAt(2_932_897, Place(24, 3, 24, 3, 306));
  }

  ghost predicate SecondsSort(lo: i64, hi: i64) {
    forall s: i64, t: i64 {:trigger DayFromSeconds(s), DayFromSeconds(t)} :: lo <= s <= hi && lo <= t <= hi ==>
      (LessText(DayFromSeconds(s), DayFromSeconds(t)) <==> s as int / 86_400 < t as int / 86_400)
  }

  predicate LessText(d: Date, e: Date) {
    ValidDate(d) && ValidDate(e) && Less(Text(d), Text(e))
  }

  lemma InsideYears(s: i64)
    requires FIRST_SECOND <= s < END_SECOND
    ensures ValidDate(DayFromSeconds(s)) && FourPlaces(DayFromSeconds(s).year)
  {
    EdgeDays();
    DayPartition(s, FIRST_SECOND);
    DayPartition(END_SECOND - 1, s);
  }

  /** Over instants: the day texts of a span around the epoch sort in time exactly within those years. */
  lemma SecondsSortExactly(lo: i64, hi: i64)
    requires lo <= 0 <= hi
    ensures SecondsSort(lo, hi) <==> FIRST_SECOND <= lo && hi < END_SECOND
  {
    FarYearsSortBackwards();
    EdgeDays();
    if FIRST_SECOND <= lo && hi < END_SECOND {
      forall s: i64, t: i64 | lo <= s <= hi && lo <= t <= hi
        ensures LessText(DayFromSeconds(s), DayFromSeconds(t)) <==> s as int / 86_400 < t as int / 86_400
      {
        InsideYears(s);
        InsideYears(t);
        TextOrder(DayFromSeconds(s), DayFromSeconds(t));
        DayPartition(s, t);
      }
    }
    if hi >= END_SECOND {
      assert LessText(DayFromSeconds(END_SECOND), DayFromSeconds(END_SECOND - 1));
    }
    if lo < FIRST_SECOND {
      assert LessText(DayFromSeconds(FIRST_SECOND), DayFromSeconds(FIRST_SECOND - 1));
    }
  }
}
