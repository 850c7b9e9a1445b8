/** Epoch seconds to a UTC calendar day, by the civil-from-days computation. */
module Calendar {
  import opened Common

  datatype Date = Date(year: int, month: int, day: int)

  // ----- The Gregorian calendar, defined independently ---------------------------------------

  /** The leap rule of RFC 3339, Appendix C. */
  predicate IsLeap(year: int) {
    year % 4 == 0 && (year % 100 != 0 || year % 400 == 0)
  }

  function DaysInMonth(year: int, month: int): int {
    if month == 2 then (if IsLeap(year) then 29 else 28)
    else if month == 4 || month == 6 || month == 9 || month == 11 then 30
    else 31
  }

  predicate ValidDate(d: Date) {
    1 <= d.month <= 12 && 1 <= d.day <= DaysInMonth(d.year, d.month)
  }

  /** The day after. */
  function NextDay(d: Date): Date {
    if d.day < DaysInMonth(d.year, d.month) then d.(day := d.day + 1)
    else if d.month < 12 then Date(d.year, d.month + 1, 1)
    else Date(d.year + 1, 1, 1)
  }

  // ----- The computation ---------------------------------------------------------------------

  const SECONDS_PER_DAY: i64 := 86_400
  const EPOCH_SHIFT: i64 := 719_468
  const DAYS_PER_ERA: i64 := 146_097

  /** Seconds since 1970-01-01T00:00:00Z to a date; no step leaves 64 bits. */
  function DayFromSeconds(seconds: i64): (date: Date) {
    var z := seconds / SECONDS_PER_DAY + EPOCH_SHIFT;
    var era := z / DAYS_PER_ERA;
    var doe := z % DAYS_PER_ERA;
    var yoe := (doe - doe / 1460 + doe / 36_524 - doe / 146_096) / 365;
    var y := yoe + era * 400;
    var doy := doe - (365 * yoe + yoe / 4 - yoe / 100);
    var mp := (5 * doy + 2) / 153;
    var d := doy - (153 * mp + 2) / 5 + 1;
    var m := if mp < 10 then mp + 3 else mp - 9;
    var y' := if m <= 2 then y + 1 else y;
    Date(y' as int, m as int, d as int)
  }

  /** The same computation on the day number alone, over all integers. */
  function Civil(days: int): Date {
    var z := days + 719_468;
    OfEra(z / 146_097, z % 146_097)
  }

  function YearOfEra(doe: int): int {
    (doe - doe / 1460 + doe / 36_524 - doe / 146_096) / 365
  }

  /** Days in an era before its year yoe, years counted from 1 March. */
  function YearStart(yoe: int): int {
    365 * yoe + yoe / 4 - yoe / 100
  }

  function OfEra(era: int, doe: int): Date {
    var yoe := YearOfEra(doe);
    OfYear(yoe + era * 400, doe - YearStart(yoe))
  }

  /** The doy-th day of the year that begins on 1 March of year y. */
  function OfYear(y: int, doy: int): Date {
    var mp := (5 * doy + 2) / 153;
    var d := doy - (153 * mp + 2) / 5 + 1;
    var m := if mp < 10 then mp + 3 else mp - 9;
    Date(if m <= 2 then y + 1 else y, m, d)
  }

  lemma EraFits(seconds: i64)
    ensures var z := seconds / SECONDS_PER_DAY + EPOCH_SHIFT;
            && (z / DAYS_PER_ERA) as int == (seconds as int / 86_400 + 719_468) / 146_097
            && (z % DAYS_PER_ERA) as int == (seconds as int / 86_400 + 719_468) % 146_097
  {
  }

  lemma YearFits(doe: i64)
    requires 0 <= doe < DAYS_PER_ERA
    ensures 0 <= YearOfEra(doe as int) < 400
    ensures ((doe - doe / 1460 + doe / 36_524 - doe / 146_096) / 365) as int == YearOfEra(doe as int)
  {
  }

  lemma DayFromSecondsIsCivil(seconds: i64)
    ensures DayFromSeconds(seconds) == Civil(seconds as int / 86_400)
  {
    EraFits(seconds);
    YearFits((seconds / SECONDS_PER_DAY + EPOCH_SHIFT) % DAYS_PER_ERA);
  }

  // ----- Years -------------------------------------------------------------------------------

  /** Days in the year that begins on 1 March of year y: its last month is February of y + 1. */
  function YearLength(y: int): int {
    if IsLeap(y + 1) then 366 else 365
  }

  /** A day of an era, split into century, four-year group, year and day of the year. */
  predicate Splits(doe: int, c: int, g: int, t: int, u: int) {
    && 0 <= c < 4 && 0 <= g < 25 && 0 <= t < 4 && 0 <= u <= 365
    && doe == 36_524 * c + 1461 * g + 365 * t + u
    && (u == 365 ==> t == 3 && (g < 24 || c == 3))
  }

  lemma SplitDay(doe: int) returns (c: int, g: int, t: int, u: int)
    requires 0 <= doe < 146_097
    ensures Splits(doe, c, g, t, u)
  {
    c := if doe < 36_524 then 0 else if doe < 73_048 then 1 else if doe < 109_572 then 2 else 3;
    var r := doe - 36_524 * c;
    g := r / 1461;
    var s := r - 1461 * g;
    t := if s < 365 then 0 else if s < 730 then 1 else if s < 1095 then 2 else 3;
    u := s - 365 * t;
  }

  /** The quotient the code takes is the year of the era. */
  lemma YearOfEraIs(doe: int, c: int, g: int, t: int, u: int)
    requires Splits(doe, c, g, t, u)
    ensures YearOfEra(doe) == 100 * c + 4 * g + t
    ensures YearStart(100 * c + 4 * g + t) == 36_524 * c + 1461 * g + 365 * t
  {
    var e := if 24 * c + g + 365 * t + u >= 1460 then 1 else 0;
    assert doe / 1460 == 25 * c + g + e;
    assert doe / 36_524 - doe / 146_096 == c;
    var y := 100 * c + 4 * g + t;
    assert y / 4 == 25 * c + g && y / 100 == c;
  }

  lemma OfEraIs(era: int, doe: int, c: int, g: int, t: int, u: int)
    requires Splits(doe, c, g, t, u)
    ensures OfEra(era, doe) == OfYear(100 * c + 4 * g + t + era * 400, u)
  {
    YearOfEraIs(doe, c, g, t, u);
    assert doe - YearStart(YearOfEra(doe)) == u;
  }

  lemma LengthOfYear(era: int, c: int, g: int, t: int)
    requires 0 <= c < 4 && 0 <= g < 25 && 0 <= t < 4
    ensures YearLength(100 * c + 4 * g + t + era * 400) == if t == 3 && (g < 24 || c == 3) then 366 else 365
  {
    var y := 100 * c + 4 * g + t + 1;
    LeapRepeats(y, era);
    assert y % 4 == (t + 1) % 4;
    if t == 3 {
      assert y % 100 == (4 * g + 4) % 100;
    }
  }

  /** The leap rule has a period of 400 years. */
  lemma LeapRepeats(y: int, era: int)
    ensures IsLeap(y + era * 400) == IsLeap(y)
  {
    SameRemainder(y, 100 * era, 4);
    SameRemainder(y, 4 * era, 100);
    SameRemainder(y, era, 400);
  }

  lemma SameRemainder(y: int, k: int, d: int)
    requires d == 4 || d == 100 || d == 400
    ensures (y + k * d) % d == y % d
  {
  }

  /** The split of the day after: next in its year, or first of the next year of the era. */
  lemma NextSplit(doe: int, c: int, g: int, t: int, u: int) returns (c': int, g': int, t': int, u': int)
    requires Splits(doe, c, g, t, u) && doe < 146_096
    ensures Splits(doe + 1, c', g', t', u')
    ensures if u + 1 < (if t == 3 && (g < 24 || c == 3) then 366 else 365)
            then c' == c && g' == g && t' == t && u' == u + 1
            else 100 * c' + 4 * g' + t' == 100 * c + 4 * g + t + 1 && u' == 0
  {
    if u + 1 < (if t == 3 && (g < 24 || c == 3) then 366 else 365) {
      c', g', t', u' := c, g, t, u + 1;
    } else if t < 3 {
      c', g', t', u' := c, g, t + 1, 0;
    } else if g < 24 {
      c', g', t', u' := c, g + 1, 0, 0;
    } else {
      c', g', t', u' := c + 1, 0, 0, 0;
    }
  }

  lemma EraDivMod(z: int, era: int, doe: int)
    requires 0 <= doe < 146_097 && z == era * 146_097 + doe
    ensures z / 146_097 == era && z % 146_097 == doe
  {
  }

  lemma EraOf(days: int, era: int, doe: int)
    requires 0 <= doe < 146_097 && days + 719_468 == era * 146_097 + doe
    ensures Civil(days) == OfEra(era, doe)
  {
    EraDivMod(days + 719_468, era, doe);
  }

  /** Where a day number lies: era, then century, group, year and day within it. */
  datatype Place = Place(era: int, c: int, g: int, t: int, u: int) {
    function Year(): int {
      100 * c + 4 * g + t + era * 400
    }

    function DayOfEra(): int {
      36_524 * c + 1461 * g + 365 * t + u
    }

    predicate Holds(days: int) {
      Splits(DayOfEra(), c, g, t, u) && DayOfEra() < 146_097 && days + 719_468 == era * 146_097 + DayOfEra()
    }
  }

  lemma FindPlace(days: int) returns (p: Place)
    ensures p.Holds(days)
  {
    var era, doe := (days + 719_468) / 146_097, (days + 719_468) % 146_097;
    var c, g, t, u := SplitDay(doe);
    p := Place(era, c, g, t, u);
  }

  lemma CivilAt(days: int, p: Place)
    requires p.Holds(days)
    ensures Civil(days) == OfYear(p.Year(), p.u)
  {
    EraOf(days, p.era, p.DayOfEra());
    OfEraIs(p.era, p.DayOfEra(), p.c, p.g, p.t, p.u);
  }

  /** The next day number is the next day of the same year, or the first day of the next year. */
  lemma NextPlace(days: int, p: Place) returns (q: Place)
    requires p.Holds(days)
    ensures q.Holds(days + 1) && 0 <= p.u < YearLength(p.Year())
    ensures if p.u + 1 < YearLength(p.Year()) then q.Year() == p.Year() && q.u == p.u + 1
            else q.Year() == p.Year() + 1 && q.u == 0
  {
    LengthOfYear(p.era, p.c, p.g, p.t);
    if p.DayOfEra() < 146_096 {
      var c, g, t, u := NextSplit(p.DayOfEra(), p.c, p.g, p.t, p.u);
      q := Place(p.era, c, g, t, u);
    } else {
      q := Place(p.era + 1, 0, 0, 0, 0);
    }
  }

  // ----- Months ------------------------------------------------------------------------------

  /** Days before the mp-th month of a year that begins in March. */
  function MonthStart(mp: int): int {
    (153 * mp + 2) / 5
  }

  function MonthOf(mp: int): int {
    if mp < 10 then mp + 3 else mp - 9
  }

  lemma MonthLengths(y: int, mp: int)
    requires 0 <= mp < 12
    ensures var m := MonthOf(mp);
            DaysInMonth(if m <= 2 then y + 1 else y, m)
            == if mp < 11 then MonthStart(mp + 1) - MonthStart(mp) else YearLength(y) - MonthStart(11)
  {
    if mp == 0 {} else if mp == 1 {} else if mp == 2 {} else if mp == 3 {} else if mp == 4 {} else if mp == 5 {}
    else if mp == 6 {} else if mp == 7 {} else if mp == 8 {} else if mp == 9 {} else if mp == 10 {} else {}
  }

  /** The month the code finds is the one that holds the day. */
  lemma MonthHolds(doy: int, mp: int)
    requires 0 <= mp < 12 && MonthStart(mp) <= doy && (if mp < 11 then doy < MonthStart(mp + 1) else doy <= 365)
    ensures (5 * doy + 2) / 153 == mp
  {
    if mp == 0 {} else if mp == 1 {} else if mp == 2 {} else if mp == 3 {} else if mp == 4 {} else if mp == 5 {}
    else if mp == 6 {} else if mp == 7 {} else if mp == 8 {} else if mp == 9 {} else if mp == 10 {} else {}
  }

  lemma FindMonth(doy: int) returns (mp: int)
    requires 0 <= doy <= 365
    ensures 0 <= mp < 12 && MonthStart(mp) <= doy && (mp < 11 ==> doy < MonthStart(mp + 1))
  {
    mp := if doy < 31 then 0 else if doy < 61 then 1 else if doy < 92 then 2 else if doy < 122 then 3
          else if doy < 153 then 4 else if doy < 184 then 5 else if doy < 214 then 6 else if doy < 245 then 7
          else if doy < 275 then 8 else if doy < 306 then 9 else if doy < 337 then 10 else 11;
  }

  lemma DayOfYear(y: int, doy: int) returns (mp: int)
    requires 0 <= doy < YearLength(y)
    ensures 0 <= mp < 12 && MonthStart(mp) <= doy && (mp < 11 ==> doy < MonthStart(mp + 1))
    ensures var m := MonthOf(mp);
            OfYear(y, doy) == Date(if m <= 2 then y + 1 else y, m, doy - MonthStart(mp) + 1)
  {
    mp := FindMonth(doy);
    MonthHolds(doy, mp);
  }

  lemma NextDayOfYear(y: int, doy: int)
    requires 0 <= doy < YearLength(y)
    ensures ValidDate(OfYear(y, doy))
    ensures NextDay(OfYear(y, doy)) == if doy + 1 < YearLength(y) then OfYear(y, doy + 1) else OfYear(y + 1, 0)
  {
    var mp := DayOfYear(y, doy);
    MonthLengths(y, mp);
    if doy + 1 < YearLength(y) {
      if mp < 11 && doy + 1 == MonthStart(mp + 1) {
        MonthHolds(doy + 1, mp + 1);
      } else {
        MonthHolds(doy + 1, mp);
      }
    } else {
      assert mp == 11;
      MonthHolds(0, 0);
    }
  }

  // ----- The calendar ------------------------------------------------------------------------

  predicate Follows(d: Date, e: Date) {
    ValidDate(d) && NextDay(d) == e
  }

  lemma PlacesFollow(p: Place, q: Place)
    requires 0 <= p.u < YearLength(p.Year())
    requires if p.u + 1 < YearLength(p.Year()) then q.Year() == p.Year() && q.u == p.u + 1
             else q.Year() == p.Year() + 1 && q.u == 0
    ensures Follows(OfYear(p.Year(), p.u), OfYear(q.Year(), q.u))
  {
    NextDayOfYear(p.Year(), p.u);
  }

  /** Every day number gives a valid date, and the next day number gives the next day. */
  lemma CivilSteps(days: int)
    ensures Follows(Civil(days), Civil(days + 1))
  {
    var p := FindPlace(days);
    var q := NextPlace(days, p);
    CivilAt(days, p);
    CivilAt(days + 1, q);
    PlacesFollow(p, q);
  }

  function Advance(d: Date, n: nat): Date {
    if n == 0 then d else NextDay(Advance(d, n - 1))
  }

  predicate Before(d: Date, e: Date) {
    d.year < e.year || (d.year == e.year && (d.month < e.month || (d.month == e.month && d.day < e.day)))
  }

  /** A run of dates in which each is the day after the one before it. */
  ghost predicate Consecutive(f: int -> Date) {
    forall k, m {:trigger f(k), f(m)} :: m == k + 1 ==> Follows(f(k), f(m))
  }

  lemma {:induction false} ConsecutiveAdvances(f: int -> Date, k: int, n: nat)
    requires Consecutive(f)
    ensures Advance(f(k), n) == f(k + n)
  {
    if n > 0 {
      ConsecutiveAdvances(f, k, n - 1);
      assert Follows(f(k + n - 1), f(k + n));
    }
  }

  lemma {:induction false} ConsecutiveIncreases(f: int -> Date, a: int, b: int)
    requires Consecutive(f) && a < b
    ensures Before(f(a), f(b))
    decreases b - a
  {
    assert Follows(f(b - 1), f(b));
    if a < b - 1 {
      ConsecutiveIncreases(f, a, b - 1);
    }
  }

  lemma CivilIsConsecutive(f: int -> Date)
    requires forall k :: f(k) == Civil(k)
    ensures Consecutive(f)
  {
    forall k, m | m == k + 1
      ensures Follows(f(k), f(m))
    {
      CivilSteps(k);
    }
  }

  lemma EpochIs1970()
    ensures Civil(0) == Date(1970, 1, 1)
  {
    CivilAt(0, Place(4, 3, 17, 1, 306));
  }

  /** Day numbers count days, forwards and backwards, from 1 January 1970. */
  lemma CivilCounts(days: int, n: nat)
    ensures Civil(0) == Date(1970, 1, 1)
    ensures Advance(Civil(days), n) == Civil(days + n)
  {
    EpochIs1970();
    var f := (k: int) => Civil(k);
    CivilIsConsecutive(f);
    ConsecutiveAdvances(f, days, n);
  }

  lemma SplitYear(y: int) returns (era: int, c: int, g: int, t: int)
    ensures 0 <= c < 4 && 0 <= g < 25 && 0 <= t < 4 && y == 100 * c + 4 * g + t + era * 400
  {
    var yoe := y % 400;
    era, c, g, t := y / 400, yoe / 100, yoe % 100 / 4, yoe % 4;
  }

  /** The day number of a date, counted independently: the inverse of the computation. */
  lemma EveryDateIsReached(d: Date) returns (days: int)
    requires ValidDate(d)
    ensures Civil(days) == d
  {
    var y, doy := YearDayOf(d);
    var era, c, g, t := SplitYear(y);
    LengthOfYear(era, c, g, t);
    var p := Place(era, c, g, t, doy);
    days := era * 146_097 + p.DayOfEra() - 719_468;
    CivilAt(days, p);
  }

  /** The year from 1 March that a date falls in, and its day there. */
  lemma YearDayOf(d: Date) returns (y: int, doy: int)
    requires ValidDate(d)
    ensures 0 <= doy < YearLength(y) && OfYear(y, doy) == d
  {
    y := if d.month <= 2 then d.year - 1 else d.year;
    var mp := if d.month <= 2 then d.month + 9 else d.month - 3;
    doy := MonthStart(mp) + d.day - 1;
    MonthLengths(y, mp);
    MonthHolds(doy, mp);
  }

  /** Any two instants: same day number, same date; earlier day number, earlier date. */
  lemma DayPartition(s: i64, t: i64)
    ensures ValidDate(DayFromSeconds(s))
    ensures DayFromSeconds(s) == DayFromSeconds(t) <==> s as int / 86_400 == t as int / 86_400
    ensures Before(DayFromSeconds(s), DayFromSeconds(t)) <==> s as int / 86_400 < t as int / 86_400
  {
    DayFromSecondsIsCivil(s);
    DayFromSecondsIsCivil(t);
    CivilSteps(s as int / 86_400);
    SameOrOrdered(s as int / 86_400, t as int / 86_400);
  }

  lemma SameOrOrdered(a: int, b: int)
    ensures Civil(a) == Civil(b) <==> a == b
    ensures Before(Civil(a), Civil(b)) <==> a < b
  {
    var f := (k: int) => Civil(k);
    CivilIsConsecutive(f);
    if a < b {
      ConsecutiveIncreases(f, a, b);
    } else if b < a {
      ConsecutiveIncreases(f, b, a);
    }
    assert f(a) == Civil(a) && f(b) == Civil(b);
  }
}
