/** Python's proleptic-Gregorian `datetime.date`: the day ordinal
    (`date.toordinal`), `date + timedelta(days=n)` and `str(date)`. */
module Dates {
  import opened Wrappers
  import opened PyStr

  const MinYear := 1
  const MaxYear := 9999
  /** The ordinal of 9999-12-31, the last date Python can represent. */
  const MaxOrdinal := 3652059

  datatype Date = Date(year: int, month: int, day: int)

  predicate IsLeap(y: int) {
    y % 4 == 0 && (y % 100 != 0 || y % 400 == 0)
  }

  function DaysInYear(y: int): int {
    if IsLeap(y) then 366 else 365
  }

  function DaysInMonth(y: int, m: int): int
    requires 1 <= m <= 12
  {
    if m == 2 then (if IsLeap(y) then 29 else 28)
    else if m == 4 || m == 6 || m == 9 || m == 11 then 30
    else 31
  }

  /** A date Python's `date` constructor accepts. */
  predicate Valid(d: Date) {
    && MinYear <= d.year <= MaxYear
    && 1 <= d.month <= 12
    && 1 <= d.day <= DaysInMonth(d.year, d.month)
  }

  /** Days in the years before `y` (Python's `_days_before_year`). */
  function DaysBeforeYear(y: int): int
    requires y >= 1
  {
    var p := y - 1;
    p * 365 + p / 4 - p / 100 + p / 400
  }

  /** Days in the months of year `y` before month `m` (Python's
      `_days_before_month`). */
  function DaysBeforeMonth(y: int, m: int): int
    requires 1 <= m <= 12
  {
    [0, 31, 59, 90, 120, 151, 181, 212, 243, 273, 304, 334][m - 1]
      + (if m > 2 && IsLeap(y) then 1 else 0)
  }

  /** `d.toordinal()`: 0001-01-01 is day 1. */
  function ToOrdinal(d: Date): int
    requires Valid(d)
  {
    DaysBeforeYear(d.year) + DaysBeforeMonth(d.year, d.month) + d.day
  }

  /** Calendar order: by year, then month, then day. */
  predicate Before(a: Date, b: Date) {
    || a.year < b.year
    || (a.year == b.year && a.month < b.month)
    || (a.year == b.year && a.month == b.month && a.day < b.day)
  }

  lemma DivStep(p: int)
    requires p >= 0
    ensures (p + 1) / 4 == p / 4 + (if (p + 1) % 4 == 0 then 1 else 0)
    ensures (p + 1) / 100 == p / 100 + (if (p + 1) % 100 == 0 then 1 else 0)
    ensures (p + 1) / 400 == p / 400 + (if (p + 1) % 400 == 0 then 1 else 0)
  {
  }

  /** The Gregorian rule as a count: multiples of 4, less those of 100,
      plus those of 400. */
  lemma LeapCounts(y: int)
    ensures (if y % 4 == 0 then 1 else 0) - (if y % 100 == 0 then 1 else 0)
            + (if y % 400 == 0 then 1 else 0) == (if IsLeap(y) then 1 else 0)
  {
    if y % 400 == 0 {
      MultipleOf(y, 400, 100);
    }
    if y % 100 == 0 {
      MultipleOf(y, 100, 4);
    }
  }

  /** A multiple of `a` is a multiple of every divisor `b` of `a`. */
  lemma MultipleOf(y: int, a: int, b: int)
    requires (a == 400 && b == 100) || (a == 100 && b == 4)
    requires y % a == 0
    ensures y % b == 0
  {
    var q := y / a;
    assert y == a * q;
    assert y == b * ((a / b) * q);
  }

  /** A year adds exactly its own length to the running day count. */
  lemma DaysBeforeNextYear(y: int)
    requires y >= 1
    ensures DaysBeforeYear(y + 1) == DaysBeforeYear(y) + DaysInYear(y)
  {
    var p := y - 1;
    DivStep(p);
    LeapCounts(y);
    assert (p + 1) * 365 == p * 365 + 365;
  }

  lemma {:induction false} DaysBeforeYearGrows(a: int, b: int)
    requires 1 <= a <= b
    ensures DaysBeforeYear(a) + 365 * (b - a) <= DaysBeforeYear(b)
    decreases b - a
  {
    if a < b {
      DaysBeforeNextYear(a);
      DaysBeforeYearGrows(a + 1, b);
    }
  }

  lemma DaysBeforeNextMonth(y: int, m: int)
    requires 1 <= m <= 12
    ensures m < 12 ==> DaysBeforeMonth(y, m + 1) == DaysBeforeMonth(y, m) + DaysInMonth(y, m)
    ensures m == 12 ==> DaysBeforeMonth(y, m) + DaysInMonth(y, m) == DaysInYear(y)
  {
  }

  lemma DaysBeforeMonthGrows(y: int, m1: int, m2: int)
    requires 1 <= m1 < m2 <= 12
    ensures DaysBeforeMonth(y, m1) + DaysInMonth(y, m1) <= DaysBeforeMonth(y, m2)
  {
  }

  /** A valid date's ordinal lies inside its own year. */
  lemma OrdinalInYear(d: Date)
    requires Valid(d)
    ensures DaysBeforeYear(d.year) < ToOrdinal(d) <= DaysBeforeYear(d.year + 1)
  {
    DaysBeforeNextYear(d.year);
    DaysBeforeNextMonth(d.year, 12);
    if d.month < 12 {
      DaysBeforeMonthGrows(d.year, d.month, 12);
    }
  }

  lemma BeforeHasSmallerOrdinal(a: Date, b: Date)
    requires Valid(a) && Valid(b) && Before(a, b)
    ensures ToOrdinal(a) < ToOrdinal(b)
  {
    if a.year < b.year {
      OrdinalInYear(a);
      OrdinalInYear(b);
      DaysBeforeYearGrows(a.year + 1, b.year);
    } else if a.month < b.month {
      DaysBeforeMonthGrows(a.year, a.month, b.month);
    }
  }

  /** The calendar order of valid dates is the order of their ordinals. */
  lemma OrdinalOrder(a: Date, b: Date)
    requires Valid(a) && Valid(b)
    ensures Before(a, b) <==> ToOrdinal(a) < ToOrdinal(b)
    ensures a == b <==> ToOrdinal(a) == ToOrdinal(b)
  {
    if Before(a, b) {
      BeforeHasSmallerOrdinal(a, b);
    } else if Before(b, a) {
      BeforeHasSmallerOrdinal(b, a);
    }
  }

  /** The date after `d`, or `None` after 9999-12-31 (Python raises
      `OverflowError` there). */
  function NextDay(d: Date): (r: Option<Date>)
    requires Valid(d)
    ensures r.None? <==> ToOrdinal(d) == MaxOrdinal
    ensures r.Some? ==> Valid(r.value) && ToOrdinal(r.value) == ToOrdinal(d) + 1
  {
    DaysBeforeNextMonth(d.year, d.month);
    DaysBeforeNextYear(d.year);
    LastDate(d);
    if d.day < DaysInMonth(d.year, d.month) then Some(Date(d.year, d.month, d.day + 1))
    else if d.month < 12 then Some(Date(d.year, d.month + 1, 1))
    else if d.year < MaxYear then Some(Date(d.year + 1, 1, 1))
    else None
  }

  /** 9999-12-31 is the one valid date with the largest ordinal. */
  lemma LastDate(d: Date)
    requires Valid(d)
    ensures ToOrdinal(d) <= MaxOrdinal
    ensures ToOrdinal(d) == MaxOrdinal <==> d == Date(MaxYear, 12, 31)
  {
    var last := Date(MaxYear, 12, 31);
    assert ToOrdinal(last) == MaxOrdinal;
    OrdinalOrder(d, last);
  }

  /** `d + timedelta(days=n)` for `n >= 0`: `None` where Python raises
      `OverflowError`, otherwise the valid date whose ordinal is exactly
      `n` more, across month and year boundaries. */
  function AddDays(d: Date, n: nat): (r: Option<Date>)
    requires Valid(d)
    ensures r.Some? <==> ToOrdinal(d) + n <= MaxOrdinal
    ensures r.Some? ==> Valid(r.value) && ToOrdinal(r.value) == ToOrdinal(d) + n
    decreases n
  {
    if n == 0 then (LastDate(d); Some(d))
    else match NextDay(d)
         case None => None
         case Some(e) => AddDays(e, n - 1)
  }

  /** Adding nothing gives the same date. */
  lemma AddZero(d: Date)
    requires Valid(d)
    ensures AddDays(d, 0) == Some(d)
  {
    LastDate(d);
  }

  /** The sum is the date Python's `date.fromordinal` would return: the
      only valid date with that ordinal. */
  lemma AddDaysUnique(d: Date, n: nat, e: Date)
    requires Valid(d) && Valid(e)
    ensures AddDays(d, n) == Some(e) <==> ToOrdinal(e) == ToOrdinal(d) + n
  {
    var r := AddDays(d, n);
    if ToOrdinal(e) == ToOrdinal(d) + n {
      LastDate(e);
      OrdinalOrder(r.value, e);
    }
  }

  /** A decimal digit as a character. */
  function Digit(n: int): char
    requires 0 <= n < 10
  {
    ('0' as int + n) as char
  }

  /** `'%02d' % n`. */
  function Pad2(n: int): (r: string)
    requires 0 <= n < 100
  {
    [Digit(n / 10), Digit(n % 10)]
  }

  /** `str(d)`, the ISO form `YYYY-MM-DD` the application stores and
      compares (the year as `%04d` is two `%02d` halves). */
  function Format(d: Date): (r: string)
    requires Valid(d)
    ensures |r| == 10 && r[4] == '-' && r[7] == '-'
  {
    Pad2(d.year / 100) + (Pad2(d.year % 100) + ("-" + (Pad2(d.month) + ("-" + Pad2(d.day)))))
  }

  /** Two-digit fields compare as text the way they compare as numbers. */
  lemma Pad2Order(a: int, b: int)
    requires 0 <= a < 100 && 0 <= b < 100
    ensures Less(Pad2(a), Pad2(b)) <==> a < b
  {
    var pa, pb := Pad2(a), Pad2(b);
    assert pa[1..] == [Digit(a % 10)] && pb[1..] == [Digit(b % 10)];
    assert Less(pa[1..], pb[1..]) <==> a % 10 < b % 10;
  }

  lemma YearHalves(a: int, b: int)
    requires 0 <= a && 0 <= b
    ensures a < b <==> a / 100 < b / 100 || (a / 100 == b / 100 && a % 100 < b % 100)
  {
  }

  /** `str(a) < str(b)` exactly when `a` is the earlier date, so ordering
      the stored text orders the dates. */
  lemma FormatOrder(a: Date, b: Date)
    requires Valid(a) && Valid(b)
    ensures Less(Format(a), Format(b)) <==> Before(a, b)
  {
    var ya, yb := a.year, b.year;
    var ra := "-" + (Pad2(a.month) + ("-" + Pad2(a.day)));
    var rb := "-" + (Pad2(b.month) + ("-" + Pad2(b.day)));
    LessConcat(Pad2(ya / 100), Pad2(ya % 100) + ra, Pad2(yb / 100), Pad2(yb % 100) + rb);
    LessConcat(Pad2(ya % 100), ra, Pad2(yb % 100), rb);
    LessConcat("-", Pad2(a.month) + ("-" + Pad2(a.day)), "-", Pad2(b.month) + ("-" + Pad2(b.day)));
    LessConcat(Pad2(a.month), "-" + Pad2(a.day), Pad2(b.month), "-" + Pad2(b.day));
    LessConcat("-", Pad2(a.day), "-", Pad2(b.day));
    LessIrreflexive("-");
    Pad2Order(ya / 100, yb / 100);
    Pad2Order(ya % 100, yb % 100);
    Pad2Order(a.month, b.month);
    Pad2Order(a.day, b.day);
    YearHalves(ya, yb);
    Pad2Injective(ya / 100, yb / 100);
    Pad2Injective(ya % 100, yb % 100);
    Pad2Injective(a.month, b.month);
  }

  lemma Pad2Injective(a: int, b: int)
    requires 0 <= a < 100 && 0 <= b < 100
    ensures Pad2(a) == Pad2(b) <==> a == b
  {
    if Pad2(a) == Pad2(b) {
      assert Pad2(a)[0] == Pad2(b)[0] && Pad2(a)[1] == Pad2(b)[1];
    }
  }

  /** Equal stored text means the same date. */
  lemma FormatInjective(a: Date, b: Date)
    requires Valid(a) && Valid(b)
    ensures Format(a) == Format(b) <==> a == b
  {
    if a != b {
      if Before(a, b) {
        FormatOrder(a, b);
      } else {
        assert Before(b, a);
        FormatOrder(b, a);
      }
      LessIrreflexive(Format(a));
    }
  }
}
