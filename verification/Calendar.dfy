/**
 Calendar dates as ISO text.  The metrics queries filter rows twice: by a text range on the raw UTC
 timestamp, which an index can serve, and by the exact local date.  The text range must never drop a
 row the exact predicate keeps, across month ends, leap years and every offset under a day.
 */
module Calendar {
  import opened Options
  import opened Sequences

  datatype Date = Date(year: int, month: int, day: int)

  const MIN_YEAR := 1
  const MAX_YEAR := 9999

  predicate IsLeap(y: int) {
    y % 4 == 0 && (y % 100 != 0 || y % 400 == 0)
  }

  function DaysInMonth(y: int, m: int): int {
    if m == 2 then (if IsLeap(y) then 29 else 28)
    else if m == 4 || m == 6 || m == 9 || m == 11 then 30
    else 31
  }

  predicate ValidDate(d: Date) {
    && MIN_YEAR <= d.year <= MAX_YEAR
    && 1 <= d.month <= 12
    && 1 <= d.day <= DaysInMonth(d.year, d.month)
  }

  function DaysBeforeYear(y: int): int {
    365 * (y - 1) + (y - 1) / 4 - (y - 1) / 100 + (y - 1) / 400
  }

  function DaysBeforeMonth(y: int, m: int): int
    decreases m
  {
    if m <= 1 then 0 else DaysBeforeMonth(y, m - 1) + DaysInMonth(y, m - 1)
  }

  /** Days since 0001-01-01. */
  function DayNumber(d: Date): int {
    DaysBeforeYear(d.year) + DaysBeforeMonth(d.year, d.month) + d.day - 1
  }

  /** The day after; None is the overflow past 9999-12-31. */
  function Next(d: Date): (r: Option<Date>)
    requires ValidDate(d)
    ensures r.Some? ==> ValidDate(r.value)
  {
    if d.day < DaysInMonth(d.year, d.month) then Some(Date(d.year, d.month, d.day + 1))
    else if d.month < 12 then Some(Date(d.year, d.month + 1, 1))
    else if d.year < MAX_YEAR then Some(Date(d.year + 1, 1, 1))
    else None
  }

  /** The day before; None is the overflow before 0001-01-01. */
  function Previous(d: Date): (r: Option<Date>)
    requires ValidDate(d)
    ensures r.Some? ==> ValidDate(r.value)
  {
    if d.day > 1 then Some(Date(d.year, d.month, d.day - 1))
    else if d.month > 1 then Some(Date(d.year, d.month - 1, DaysInMonth(d.year, d.month - 1)))
    else if d.year > MIN_YEAR then Some(Date(d.year - 1, 12, 31))
    else None
  }

  // ----- day order -----

  predicate Earlier(a: Date, b: Date) {
    a.year < b.year || (a.year == b.year && (a.month < b.month || (a.month == b.month && a.day < b.day)))
  }

  lemma {:induction false} MonthFits(y: int, m: int)
    requires 1 <= m <= 12
    ensures 0 <= DaysBeforeMonth(y, m)
    ensures m < 12 ==> DaysBeforeMonth(y, m + 1) == DaysBeforeMonth(y, m) + DaysInMonth(y, m)
    ensures DaysBeforeMonth(y, m) + DaysInMonth(y, m) <= DaysBeforeMonth(y, 12) + 31 == if IsLeap(y) then 366 else 365
    decreases 12 - m
  {
    MonthsAddUp(y);
    if m < 12 {
      MonthFits(y, m + 1);
    }
  }

  lemma MonthsAddUp(y: int)
    ensures DaysBeforeMonth(y, 12) == if IsLeap(y) then 335 else 334
    ensures forall m :: 1 <= m <= 12 ==> DaysBeforeMonth(y, m) >= 0
  {
    assert DaysBeforeMonth(y, 2) == 31;
    assert DaysBeforeMonth(y, 4) == DaysBeforeMonth(y, 2) + DaysInMonth(y, 2) + 31;
    assert DaysBeforeMonth(y, 6) == DaysBeforeMonth(y, 4) + 61;
    assert DaysBeforeMonth(y, 8) == DaysBeforeMonth(y, 6) + 61;
    assert DaysBeforeMonth(y, 10) == DaysBeforeMonth(y, 8) + 61;
    assert DaysBeforeMonth(y, 12) == DaysBeforeMonth(y, 10) + 61;
    assert DaysBeforeMonth(y, 1) == 0;
    assert DaysBeforeMonth(y, 3) >= 0 && DaysBeforeMonth(y, 5) >= 0 && DaysBeforeMonth(y, 7) >= 0;
    assert DaysBeforeMonth(y, 9) >= 0 && DaysBeforeMonth(y, 11) >= 0;
  }

  lemma QuotientSteps(y: int)
    ensures y / 4 - (y - 1) / 4 == if y % 4 == 0 then 1 else 0
    ensures y / 100 - (y - 1) / 100 == if y % 100 == 0 then 1 else 0
    ensures y / 400 - (y - 1) / 400 == if y % 400 == 0 then 1 else 0
  {
  }

  lemma LeapRule(y: int)
    ensures y % 100 == 0 ==> y % 4 == 0
    ensures y % 400 == 0 ==> y % 100 == 0
  {
    var k, n := y / 100, y / 400;
    assert y % 100 == 0 ==> y == 4 * (25 * k);
    assert y % 400 == 0 ==> y == 100 * (4 * n);
  }

  lemma YearsAddUp(y: int)
    ensures DaysBeforeYear(y + 1) == DaysBeforeYear(y) + if IsLeap(y) then 366 else 365
  {
    QuotientSteps(y);
    LeapRule(y);
    assert y + 1 - 1 == y;
  }

  lemma {:induction false} YearsRise(y: int, z: int)
    requires y <= z
    ensures DaysBeforeYear(y) <= DaysBeforeYear(z)
    decreases z - y
  {
    if y < z {
      YearsRise(y, z - 1);
      YearsAddUp(z - 1);
    }
  }

  lemma {:induction false} MonthsRise(y: int, m: int, n: int)
    requires 1 <= m < n <= 12
    ensures DaysBeforeMonth(y, m) + DaysInMonth(y, m) <= DaysBeforeMonth(y, n)
    decreases n - m
  {
    if m < n - 1 {
      MonthsRise(y, m, n - 1);
    }
  }

  lemma WithinYear(d: Date)
    requires ValidDate(d)
    ensures DaysBeforeYear(d.year) <= DayNumber(d) < DaysBeforeYear(d.year + 1)
  {
    MonthFits(d.year, d.month);
    YearsAddUp(d.year);
  }

  lemma EarlierHasSmallerNumber(a: Date, b: Date)
    requires ValidDate(a) && ValidDate(b) && Earlier(a, b)
    ensures DayNumber(a) < DayNumber(b)
  {
    if a.year < b.year {
      WithinYear(a);
      WithinYear(b);
      YearsRise(a.year + 1, b.year);
    } else {
      SameYear(a, b);
    }
  }

  lemma SameYear(a: Date, b: Date)
    requires ValidDate(a) && ValidDate(b) && a.year == b.year && Earlier(a, b)
    ensures DayNumber(a) < DayNumber(b)
  {
    if a.month < b.month {
      MonthsRise(a.year, a.month, b.month);
    }
  }

  lemma EarlierIffSmallerNumber(a: Date, b: Date)
    requires ValidDate(a) && ValidDate(b)
    ensures Earlier(a, b) <==> DayNumber(a) < DayNumber(b)
    ensures a == b <==> DayNumber(a) == DayNumber(b)
  {
    if Earlier(a, b) {
      EarlierHasSmallerNumber(a, b);
    } else if Earlier(b, a) {
      EarlierHasSmallerNumber(b, a);
    }
  }

  /** A day forward or back moves the number by exactly one, across month ends and leap years. */
  lemma NeighboursAreOneApart(d: Date)
    requires ValidDate(d)
    ensures Next(d).Some? ==> DayNumber(Next(d).value) == DayNumber(d) + 1
    ensures Previous(d).Some? ==> DayNumber(Previous(d).value) == DayNumber(d) - 1
  {
    if Next(d).Some? {
      NextIsOneLater(d);
    }
    if Previous(d).Some? {
      var p := Previous(d).value;
      NextOfPrevious(d);
      NextIsOneLater(p);
    }
  }

  lemma NextOfPrevious(d: Date)
    requires ValidDate(d) && Previous(d).Some?
    ensures Next(Previous(d).value) == Some(d)
  {
  }

  lemma NextIsOneLater(d: Date)
    requires ValidDate(d) && Next(d).Some?
    ensures DayNumber(Next(d).value) == DayNumber(d) + 1
  {
    MonthFits(d.year, d.month);
    if d.day == DaysInMonth(d.year, d.month) && d.month == 12 {
      MonthFits(d.year, 12);
      YearsAddUp(d.year);
      assert DaysBeforeMonth(d.year + 1, 1) == 0;
    }
  }

  // ----- this is the Gregorian calendar -----

  lemma ClosedFormStep(m: int)
    requires 2 <= m <= 12
    ensures (367 * m - 362) / 12 == (367 * (m - 1) - 362) / 12 +
            if m == 3 || m == 5 || m == 7 || m == 10 || m == 12 then 30 else 31
  {
  }

  /** The days before a month in closed form. */
  lemma {:induction false} DaysBeforeMonthIs(y: int, m: int, leap: bool)
    requires 1 <= m <= 12
    requires leap <==> y % 400 == 0 || (y % 4 == 0 && y % 100 != 0)
    ensures DaysBeforeMonth(y, m) == (367 * m - 362) / 12 - if m <= 2 then 0 else if leap then 1 else 2
    decreases m
  {
    LeapRule(y);
    assert IsLeap(y) == leap;
    if m > 1 {
      DaysBeforeMonthIs(y, m - 1, leap);
      ClosedFormStep(m);
    }
  }

  /** Where each month ends. */
  lemma MonthEnds(y: int)
    requires 1 <= y < 9999
    ensures Next(Date(y, 1, 31)) == Some(Date(y, 2, 1))
    ensures y % 400 == 0 || (y % 4 == 0 && y % 100 != 0) ==>
              Next(Date(y, 2, 28)) == Some(Date(y, 2, 29)) && Next(Date(y, 2, 29)) == Some(Date(y, 3, 1))
    ensures y % 4 != 0 || (y % 100 == 0 && y % 400 != 0) ==> Next(Date(y, 2, 28)) == Some(Date(y, 3, 1))
    ensures Next(Date(y, 3, 31)) == Some(Date(y, 4, 1)) && Next(Date(y, 4, 30)) == Some(Date(y, 5, 1))
    ensures Next(Date(y, 5, 31)) == Some(Date(y, 6, 1)) && Next(Date(y, 6, 30)) == Some(Date(y, 7, 1))
    ensures Next(Date(y, 7, 31)) == Some(Date(y, 8, 1)) && Next(Date(y, 8, 31)) == Some(Date(y, 9, 1))
    ensures Next(Date(y, 9, 30)) == Some(Date(y, 10, 1)) && Next(Date(y, 10, 31)) == Some(Date(y, 11, 1))
    ensures Next(Date(y, 11, 30)) == Some(Date(y, 12, 1)) && Next(Date(y, 12, 31)) == Some(Date(y + 1, 1, 1))
  {
  }

  /** Day numbers of known days: the Unix epoch, a leap day and the last day; 400 years are 146 097 days. */
  lemma KnownDays(y: int)
    ensures DayNumber(Date(1, 1, 1)) == 0 && DayNumber(Date(1970, 1, 1)) == 719_162
    ensures DayNumber(Date(2024, 2, 29)) == 738_944 && DayNumber(Date(9999, 12, 31)) == 3_652_058
    ensures DaysBeforeYear(y + 400) == DaysBeforeYear(y) + 146_097
  {
    MonthsAddUp(9999);
    assert (y + 399) / 400 == (y - 1) / 400 + 1;
  }

  // ----- text order -----

  predicate TextLess(a: string, b: string) {
    b != [] && (a == [] || a[0] < b[0] || (a[0] == b[0] && TextLess(a[1..], b[1..])))
  }

  /** It is the order of code points: `a` is a proper prefix of `b`, or smaller where they first differ. */
  lemma {:induction false} TextLessIff(a: string, b: string)
    ensures TextLess(a, b) <==>
            || (|a| < |b| && a <= b)
            || exists n :: 0 <= n < |a| && n < |b| && a[..n] == b[..n] && a[n] < b[n]
  {
    if a != [] && b != [] {
      TextLessIff(a[1..], b[1..]);
      if a[0] == b[0] {
        FirstDifference(a, b);
      } else {
        assert a[..0] == b[..0];
        assert forall n :: 0 < n <= |a| && n <= |b| ==> a[..n][0] != b[..n][0];
      }
    }
  }

  lemma FirstDifference(a: string, b: string)
    requires a != [] && b != [] && a[0] == b[0]
    ensures a <= b <==> a[1..] <= b[1..]
    ensures (exists n :: 0 <= n < |a| && n < |b| && a[..n] == b[..n] && a[n] < b[n]) <==>
            exists n :: 0 <= n < |a[1..]| && n < |b[1..]| && a[1..][..n] == b[1..][..n] && a[1..][n] < b[1..][n]
  {
    assert a == [a[0]] + a[1..] && b == [b[0]] + b[1..];
    if n :| 0 <= n < |a| && n < |b| && a[..n] == b[..n] && a[n] < b[n] {
      var k := n - 1;
      assert a[1..][..k] == a[..n][1..] && b[1..][..k] == b[..n][1..];
      assert 0 <= k && a[1..][k] < b[1..][k];
    }
    if k :| 0 <= k < |a[1..]| && k < |b[1..]| && a[1..][..k] == b[1..][..k] && a[1..][k] < b[1..][k] {
      var n := k + 1;
      assert a[..n] == [a[0]] + a[1..][..k] && b[..n] == [b[0]] + b[1..][..k];
      assert a[n] < b[n];
    }
  }

  function Digit(n: int): char
    requires 0 <= n < 10
  {
    '0' + n as char
  }

  function Power(w: nat): nat {
    if w == 0 then 1 else 10 * Power(w - 1)
  }

  /** Zero-padded decimal text of width `w`. */
  function Digits(n: int, w: nat): (r: string)
    requires 0 <= n
    ensures |r| == w
  {
    if w == 0 then [] else Digits(n / 10, w - 1) + [Digit(n % 10)]
  }

  function Iso(d: Date): (r: string)
    requires ValidDate(d)
    ensures |r| == 10
  {
    Digits(d.year, 4) + "-" + Digits(d.month, 2) + "-" + Digits(d.day, 2)
  }

  lemma {:induction false} TextLessConcat(a: string, a': string, b: string, b': string)
    requires |a| == |a'|
    ensures TextLess(a + b, a' + b') <==> TextLess(a, a') || (a == a' && TextLess(b, b'))
  {
    if a == [] {
      assert a + b == b && a' + b' == b';
    } else {
      TextLessConcat(a[1..], a'[1..], b, b');
      assert (a + b)[1..] == a[1..] + b && (a' + b')[1..] == a'[1..] + b';
      assert a == [a[0]] + a[1..] && a' == [a'[0]] + a'[1..];
    }
  }

  lemma TextLessIrreflexive(a: string)
    ensures !TextLess(a, a)
  {
    if a != [] {
      TextLessIrreflexive(a[1..]);
    }
  }

  lemma {:induction false} DigitsOrder(n: int, m: int, w: nat)
    requires 0 <= n < Power(w) && 0 <= m < Power(w)
    ensures TextLess(Digits(n, w), Digits(m, w)) <==> n < m
    ensures Digits(n, w) == Digits(m, w) <==> n == m
  {
    if w > 0 {
      var a, a' := Digits(n / 10, w - 1), Digits(m / 10, w - 1);
      var b, b' := [Digit(n % 10)], [Digit(m % 10)];
      DigitsOrder(n / 10, m / 10, w - 1);
      TextLessConcat(a, a', b, b');
      assert TextLess(b, b') <==> n % 10 < m % 10;
      assert a + b == a' + b' <==> a == a' && b == b' by {
        assert (a + b)[..w - 1] == a && (a' + b')[..w - 1] == a';
        assert (a + b)[w - 1] == b[0] && (a' + b')[w - 1] == b'[0];
      }
      assert b == b' <==> n % 10 == m % 10;
    }
  }

  lemma Powers()
    ensures Power(2) == 100 && Power(4) == 10000
  {
    assert Power(2) == 10 * Power(1) && Power(4) == 100 * Power(2);
  }

  /** Two separated parts compare by the first, then the second. */
  lemma PartsOrder(a: string, a': string, rest: string, rest': string)
    requires |a| == |a'| && |rest| == |rest'|
    ensures TextLess(a + "-" + rest, a' + "-" + rest') <==> TextLess(a, a') || (a == a' && TextLess(rest, rest'))
  {
    TextLessConcat(a, a', "-" + rest, "-" + rest');
    TextLessConcat("-", "-", rest, rest');
    TextLessIrreflexive("-");
    AppendAssociates(a, "-", rest);
    AppendAssociates(a', "-", rest');
  }

  lemma PartsEqual(a: string, a': string, rest: string, rest': string)
    requires |a| == |a'| && |rest| == |rest'|
    ensures a + "-" + rest == a' + "-" + rest' <==> a == a' && rest == rest'
  {
    var x, x' := a + "-" + rest, a' + "-" + rest';
    assert x[..|a|] == a && x[|a| + 1..] == rest;
    assert x'[..|a|] == a' && x'[|a| + 1..] == rest';
  }

  /** Text order of ISO dates is day order. */
  lemma IsoOrder(a: Date, b: Date)
    requires ValidDate(a) && ValidDate(b)
    ensures TextLess(Iso(a), Iso(b)) <==> DayNumber(a) < DayNumber(b)
    ensures Iso(a) == Iso(b) <==> a == b
  {
    var (y, m, d) := (Digits(a.year, 4), Digits(a.month, 2), Digits(a.day, 2));
    var (y', m', d') := (Digits(b.year, 4), Digits(b.month, 2), Digits(b.day, 2));
    IsoSplits(a);
    IsoSplits(b);
    PartsOrder(y, y', m + "-" + d, m' + "-" + d');
    PartsOrder(m, m', d, d');
    PartsEqual(y, y', m + "-" + d, m' + "-" + d');
    PartsEqual(m, m', d, d');
    FieldsOrder(a, b);
    EarlierIffSmallerNumber(a, b);
  }

  lemma IsoSplits(a: Date)
    requires ValidDate(a)
    ensures Iso(a) == Digits(a.year, 4) + "-" + (Digits(a.month, 2) + "-" + Digits(a.day, 2))
  {
  }

  lemma FieldsOrder(a: Date, b: Date)
    requires ValidDate(a) && ValidDate(b)
    ensures TextLess(Digits(a.year, 4), Digits(b.year, 4)) <==> a.year < b.year
    ensures Digits(a.year, 4) == Digits(b.year, 4) <==> a.year == b.year
    ensures TextLess(Digits(a.month, 2), Digits(b.month, 2)) <==> a.month < b.month
    ensures Digits(a.month, 2) == Digits(b.month, 2) <==> a.month == b.month
    ensures TextLess(Digits(a.day, 2), Digits(b.day, 2)) <==> a.day < b.day
    ensures Digits(a.day, 2) == Digits(b.day, 2) <==> a.day == b.day
  {
    Powers();
    DigitsOrder(a.year, b.year, 4);
    DigitsOrder(a.month, b.month, 2);
    DigitsOrder(a.day, b.day, 2);
  }

  lemma YearAndMonthText()
    ensures Iso(Date(1000, 10, 10)) == "1000-10-10"
  {
    assert Digits(1, 1) == Digits(0, 0) + [Digit(1)];
    assert Digits(10, 2) == Digits(1, 1) + [Digit(0)];
    assert Digits(100, 3) == Digits(10, 2) + [Digit(0)];
    assert Digits(1000, 4) == Digits(100, 3) + [Digit(0)];
  }

  /** A timestamp text compares with a date text by its own date first. */
  lemma TimestampOrder(d: Date, time: string, bound: Date)
    requires ValidDate(d) && ValidDate(bound)
    ensures TextLess(Iso(d) + time, Iso(bound)) <==> DayNumber(d) < DayNumber(bound)
  {
    IsoOrder(d, bound);
    TextLessConcat(Iso(d), Iso(bound), time, "");
    assert Iso(bound) + "" == Iso(bound);
  }

  // ----- the filters -----

  const SECONDS_PER_DAY := 86_400

  /** A stored row's start: an instant in seconds since 0001-01-01 UTC, whose raw text is its UTC date followed
      by a time, and its date in the configured zone, `offset` seconds from UTC at that instant. */
  datatype Row = Row(second: int, offset: int, utcDate: Date, time: string, localDate: Date) {
    ghost predicate Valid() {
      && -SECONDS_PER_DAY < offset < SECONDS_PER_DAY
      && ValidDate(utcDate) && DayNumber(utcDate) == second / SECONDS_PER_DAY
      && ValidDate(localDate) && DayNumber(localDate) == (second + offset) / SECONDS_PER_DAY
    }

    function StartTime(): string
      requires ValidDate(utcDate)
    {
      Iso(utcDate) + time
    }
  }

  /** Every offset under 24 hours keeps the local date within a day of the UTC date. */
  lemma LocalDateIsNear(r: Row)
    requires r.Valid()
    ensures -1 <= DayNumber(r.localDate) - DayNumber(r.utcDate) <= 1
  {
  }

  predicate ValidIfGiven(d: Option<Date>) {
    d.Some? ==> ValidDate(d.value)
  }

  /** `utc_lo` and `utc_hi`, or the OverflowError of date arithmetic at the ends of the calendar, which no
      handler there catches. */
  datatype Window = Bounds(lo: string, hi: string) | Overflow

  /** The window used when a date does not parse. */
  const MALFORMED := Bounds("", "9999-12-31")

  /** `_utc_window_params`; None is a text that does not parse.  The lower bound is computed first. */
  function UtcWindow(start: Option<Date>, end: Option<Date>): Window
    requires ValidIfGiven(start) && ValidIfGiven(end)
  {
    if start.None? then MALFORMED
    else if Previous(start.value).None? then Overflow
    else if end.None? then MALFORMED
    else
      match Next(end.value)
      case None => Overflow
      case Some(mid) =>
        if Next(mid).None? then Overflow else Bounds(Iso(Previous(start.value).value), Iso(Next(mid).value))
  }

  predicate InWindow(text: string, w: Window)
    requires w.Bounds?
  {
    !TextLess(text, w.lo) && TextLess(text, w.hi)
  }

  predicate InLocalRange(r: Row, start: Date, end: Date)
    requires ValidDate(r.localDate) && ValidDate(start) && ValidDate(end)
  {
    !TextLess(Iso(r.localDate), Iso(start)) && !TextLess(Iso(end), Iso(r.localDate))
  }

  const FIRST_DAY := Date(1, 1, 1)
  const LAST_DAY := Date(9999, 12, 31)
  const SECOND_LAST_DAY := Date(9999, 12, 30)

  /** Exactly when building the window raises: the start is the calendar's first day, or both dates parse and
      the end is one of its last two days. */
  lemma WindowOverflowsIff(start: Option<Date>, end: Option<Date>)
    requires ValidIfGiven(start) && ValidIfGiven(end)
    ensures UtcWindow(start, end).Overflow? <==>
            || start == Some(FIRST_DAY)
            || (start.Some? && end.Some? && DayNumber(end.value) >= DayNumber(SECOND_LAST_DAY))
  {
    if end.Some? {
      EarlierIffSmallerNumber(end.value, SECOND_LAST_DAY);
    }
  }

  /** Between two dates that parse and do not overflow, the window is two plain bounds. */
  lemma WindowBounds(start: Date, end: Date)
    requires ValidDate(start) && ValidDate(end)
    requires start != FIRST_DAY && DayNumber(end) < DayNumber(SECOND_LAST_DAY)
    ensures Previous(start).Some? && Next(end).Some? && Next(Next(end).value).Some?
    ensures UtcWindow(Some(start), Some(end)) == Bounds(Iso(Previous(start).value), Iso(Next(Next(end).value).value))
    ensures DayNumber(Previous(start).value) == DayNumber(start) - 1
    ensures DayNumber(Next(Next(end).value).value) == DayNumber(end) + 2
  {
    WindowOverflowsIff(Some(start), Some(end));
    NeighboursAreOneApart(start);
    NeighboursAreOneApart(end);
    NeighboursAreOneApart(Next(end).value);
  }

  /** The window never excludes a qualifying row, so filtering by both is filtering by the local date. */
  lemma WindowNeverExcludes(r: Row, start: Date, end: Date)
    requires r.Valid() && ValidDate(start) && ValidDate(end)
    requires start != FIRST_DAY && DayNumber(end) < DayNumber(SECOND_LAST_DAY)
    ensures UtcWindow(Some(start), Some(end)).Bounds?
    ensures InLocalRange(r, start, end) && InWindow(r.StartTime(), UtcWindow(Some(start), Some(end)))
            <==> InLocalRange(r, start, end)
    ensures InLocalRange(r, start, end) <==> DayNumber(start) <= DayNumber(r.localDate) <= DayNumber(end)
  {
    WindowBounds(start, end);
    LocalDateIsNear(r);
    TimestampOrder(r.utcDate, r.time, Previous(start).value);
    TimestampOrder(r.utcDate, r.time, Next(Next(end).value).value);
    IsoOrder(r.localDate, start);
    IsoOrder(end, r.localDate);
  }

  /** The window is as narrow as it can be a day at a time: it does exclude rows two days out. */
  lemma WindowExcludesFarRows(r: Row, start: Date, end: Date)
    requires r.Valid() && ValidDate(start) && ValidDate(end)
    requires start != FIRST_DAY && DayNumber(end) < DayNumber(SECOND_LAST_DAY)
    ensures UtcWindow(Some(start), Some(end)).Bounds?
    ensures InWindow(r.StartTime(), UtcWindow(Some(start), Some(end))) <==>
            DayNumber(start) - 1 <= DayNumber(r.utcDate) < DayNumber(end) + 2
  {
    WindowBounds(start, end);
    TimestampOrder(r.utcDate, r.time, Previous(start).value);
    TimestampOrder(r.utcDate, r.time, Next(Next(end).value).value);
  }

  /** The window for a malformed date is not one that excludes nothing: it keeps a text exactly when the text
      sorts before 9999-12-31, so it drops the rows of the calendar's last day and every text such as
      "unknown" that sorts after the digits. */
  lemma MalformedWindowIff(r: Row, text: string)
    requires r.Valid()
    ensures InWindow(text, MALFORMED) <==> TextLess(text, Iso(LAST_DAY))
    ensures InWindow(r.StartTime(), MALFORMED) <==> r.utcDate != LAST_DAY
    ensures !InWindow("unknown", MALFORMED)
  {
    LastDayText();
    TimestampOrder(r.utcDate, r.time, LAST_DAY);
    EarlierIffSmallerNumber(r.utcDate, LAST_DAY);
  }

  lemma LastYearText()
    ensures Digits(9999, 4) == "9999"
  {
    assert Digits(9, 1) == Digits(0, 0) + [Digit(9)];
    assert Digits(99, 2) == Digits(9, 1) + [Digit(9)];
    assert Digits(999, 3) == Digits(99, 2) + [Digit(9)];
    assert Digits(9999, 4) == Digits(999, 3) + [Digit(9)];
  }

  lemma LastMonthText()
    ensures Digits(12, 2) == "12"
  {
    assert Digits(1, 1) == Digits(0, 0) + [Digit(1)];
    assert Digits(12, 2) == Digits(1, 1) + [Digit(2)];
  }

  lemma LastMonthDayText()
    ensures Digits(31, 2) == "31"
  {
    assert Digits(3, 1) == Digits(0, 0) + [Digit(3)];
    assert Digits(31, 2) == Digits(3, 1) + [Digit(1)];
  }

  lemma LastDayText()
    ensures Iso(LAST_DAY) == "9999-12-31"
  {
    LastYearText();
    LastMonthText();
    LastMonthDayText();
  }

  /** `since_lo`: the day before, the empty text when the date does not parse; None is the OverflowError. */
  function SinceLo(since: Option<Date>): Option<string>
    requires ValidIfGiven(since)
  {
    if since.None? then Some("")
    else match Previous(since.value) case None => None case Some(d) => Some(Iso(d))
  }

  /** The bound of an incremental snapshot rebuild keeps exactly the rows from the UTC day before on; a date that
      does not parse gives one that keeps every text, and only the calendar's first day raises. */
  lemma SinceKeepsIff(r: Row, since: Option<Date>, text: string)
    requires r.Valid() && ValidIfGiven(since)
    ensures SinceLo(since).None? <==> since == Some(FIRST_DAY)
    ensures since.None? ==> !TextLess(text, SinceLo(since).value)
    ensures since.Some? && SinceLo(since).Some? ==>
              (!TextLess(r.StartTime(), SinceLo(since).value) <==> DayNumber(r.utcDate) >= DayNumber(since.value) - 1)
  {
    if since.Some? && Previous(since.value).Some? {
      NeighboursAreOneApart(since.value);
      TimestampOrder(r.utcDate, r.time, Previous(since.value).value);
    }
  }

  /** So it drops no row on or after its local day. */
  lemma SinceNeverExcludes(r: Row, since: Option<Date>)
    requires r.Valid() && ValidIfGiven(since) && SinceLo(since).Some?
    requires since.Some? ==> !TextLess(Iso(r.localDate), Iso(since.value))
    ensures !TextLess(r.StartTime(), SinceLo(since).value)
  {
    SinceKeepsIff(r, since, r.StartTime());
    if since.Some? {
      LocalDateIsNear(r);
      IsoOrder(r.localDate, since.value);
    }
  }
}
