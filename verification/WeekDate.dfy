/**
 The ISO 8601 week date of `strftime`: `%G` walks a calendar date forward with
 `__addDays` and compares dates, `%V` is modular arithmetic on the day of the
 year and the weekday.  Both are proved against the day ordinal.
 */
module WeekDate {

  // ----- The proleptic Gregorian calendar -----

  // JavaScript's remainder: the sign follows the dividend.
  function JsRem(a: int, b: int): int
    requires b > 0
  {
    if a >= 0 then a % b else -((-a) % b)
  }

  predicate IsLeapYear(year: int) {
    JsRem(year, 4) == 0 && (JsRem(year, 100) != 0 || JsRem(year, 400) == 0)
  }

  function DaysInMonth(year: int, month: int): int
    requires 0 <= month < 12
  {
    if month == 1 then (if IsLeapYear(year) then 29 else 28)
    else if month in {3, 5, 8, 10} then 30
    else 31
  }

  function DaysInYear(year: int): int {
    if IsLeapYear(year) then 366 else 365
  }

  // The months of a common year, and February of a leap year.
  lemma MonthsAre(year: int, month: int)
    requires 0 <= month < 12
    ensures DaysInMonth(year, month) ==
      if month == 1 && IsLeapYear(year) then 29 else [31, 28, 31, 30, 31, 30, 31, 31, 30, 31, 30, 31][month]
  {
  }

  // Days in the months of `year` before `month`.
  function DaysBeforeMonth(year: int, month: int): int
    requires 0 <= month <= 12
    decreases month
  {
    if month == 0 then 0 else DaysBeforeMonth(year, month - 1) + DaysInMonth(year, month - 1)
  }

  // Days between 0001-01-01 and January 1 of `year`, negative for earlier years.
  function DaysBeforeYear(year: int): int
    decreases if year >= 1 then year else 2 - year
  {
    if year == 1 then 0
    else if year > 1 then DaysBeforeYear(year - 1) + DaysInYear(year - 1)
    else DaysBeforeYear(year + 1) - DaysInYear(year)
  }

  // A date as JavaScript's Date shows it: months count from 0, days from 1.
  datatype Date = Date(year: int, month: int, day: int)

  predicate ValidDate(d: Date) {
    0 <= d.month < 12 && 1 <= d.day <= DaysInMonth(d.year, d.month)
  }

  function Ordinal(d: Date): int
    requires ValidDate(d)
  {
    DaysBeforeYear(d.year) + DaysBeforeMonth(d.year, d.month) + d.day - 1
  }

  // Sunday is 0; 0001-01-01 was a Monday.
  function Weekday(ordinal: int): int {
    (ordinal + 1) % 7
  }

  // Where the remainder is zero does not depend on the sign convention.
  lemma JsRem4(a: int)
    ensures JsRem(a, 4) == 0 <==> a % 4 == 0
  {
  }

  lemma JsRem100(a: int)
    ensures JsRem(a, 100) == 0 <==> a % 100 == 0
  {
  }

  lemma JsRem400(a: int)
    ensures JsRem(a, 400) == 0 <==> a % 400 == 0
  {
  }

  lemma LeapIsEuclidean(y: int)
    ensures IsLeapYear(y) <==> y % 4 == 0 && (y % 100 != 0 || y % 400 == 0)
  {
    hide JsRem;
    JsRem4(y);
    JsRem100(y);
    JsRem400(y);
  }

  lemma YearStep(y: int)
    ensures DaysBeforeYear(y + 1) == DaysBeforeYear(y) + DaysInYear(y)
  {
  }

  function LeapDaysBefore(y: int): int {
    (y - 1) / 4 - (y - 1) / 100 + (y - 1) / 400
  }

  lemma LeapDaysStep(y: int)
    ensures LeapDaysBefore(y + 1) == LeapDaysBefore(y) + DaysInYear(y) - 365
  {
    LeapIsEuclidean(y);
    QuotientStep(y, 4);
    QuotientStep(y, 100);
    QuotientStep(y, 400);
    DivisibleByFactor(y);
  }

  lemma DivisibleByFactor(y: int)
    ensures y % 400 == 0 ==> y % 100 == 0
    ensures y % 100 == 0 ==> y % 4 == 0
  {
  }

  lemma {:induction false} DaysBeforeYearClosed(y: int)
    ensures DaysBeforeYear(y) == 365 * (y - 1) + LeapDaysBefore(y)
    decreases if y >= 1 then y else 2 - y
  {
    if y > 1 {
      DaysBeforeYearClosed(y - 1);
      LeapDaysStep(y - 1);
    } else if y < 1 {
      DaysBeforeYearClosed(y + 1);
      LeapDaysStep(y);
    }
  }

  lemma QuotientStep(y: int, n: int)
    requires n in {4, 100, 400}
    ensures y / n == (y - 1) / n + (if y % n == 0 then 1 else 0)
  {
  }

  lemma MonthsFillYear(y: int)
    ensures DaysBeforeMonth(y, 12) == DaysInYear(y)
  {
    assert DaysBeforeMonth(y, 2) == 31 + DaysInMonth(y, 1);
    assert DaysBeforeMonth(y, 4) == DaysBeforeMonth(y, 2) + 61;
    assert DaysBeforeMonth(y, 6) == DaysBeforeMonth(y, 4) + 61;
    assert DaysBeforeMonth(y, 8) == DaysBeforeMonth(y, 6) + 62;
    assert DaysBeforeMonth(y, 10) == DaysBeforeMonth(y, 8) + 61;
    assert DaysBeforeMonth(y, 12) == DaysBeforeMonth(y, 10) + 61;
  }

  lemma DecemberOrdinal(year: int)
    ensures DaysBeforeYear(year) + DaysBeforeMonth(year, 11) == DaysBeforeYear(year + 1) - 31
    ensures DaysInMonth(year, 11) == 31
  {
    YearStep(year);
    MonthsFillYear(year);
    assert DaysBeforeMonth(year, 12) == DaysBeforeMonth(year, 11) + 31;
  }

  lemma {:induction false} MonthsGrow(y: int, m: int, n: int)
    requires 0 <= m <= n <= 12
    ensures DaysBeforeMonth(y, m) <= DaysBeforeMonth(y, n)
    ensures m < n ==> DaysBeforeMonth(y, m) + DaysInMonth(y, m) <= DaysBeforeMonth(y, n)
    decreases n - m
  {
    if m < n {
      MonthsGrow(y, m + 1, n);
    }
  }

  lemma {:induction false} YearsGrow(y: int, z: int)
    requires y < z
    ensures DaysBeforeYear(y) + DaysInYear(y) <= DaysBeforeYear(z)
    decreases z - y
  {
    YearStep(y);
    if y + 1 < z {
      YearsGrow(y + 1, z);
    }
  }

  // A date lies inside its own year.
  lemma OrdinalInYear(d: Date)
    requires ValidDate(d)
    ensures DaysBeforeYear(d.year) <= Ordinal(d) < DaysBeforeYear(d.year) + DaysInYear(d.year)
  {
    MonthsGrow(d.year, 0, d.month);
    MonthsGrow(d.year, d.month, 12);
    MonthsFillYear(d.year);
  }

  // ----- Dates compared and moved -----

  function Sign(x: int): int {
    if x < 0 then -1 else if x > 0 then 1 else 0
  }

  function CompareByDay(a: Date, b: Date): int {
    if a.year != b.year then Sign(a.year - b.year)
    else if a.month != b.month then Sign(a.month - b.month)
    else Sign(a.day - b.day)
  }

  lemma CompareIsOrder(a: Date, b: Date)
    requires ValidDate(a) && ValidDate(b)
    ensures CompareByDay(a, b) == Sign(Ordinal(a) - Ordinal(b))
  {
    OrdinalInYear(a);
    OrdinalInYear(b);
    if a.year < b.year {
      YearsGrow(a.year, b.year);
    } else if b.year < a.year {
      YearsGrow(b.year, a.year);
    } else if a.month < b.month {
      MonthsGrow(a.year, a.month, b.month);
    } else if b.month < a.month {
      MonthsGrow(a.year, b.month, a.month);
    }
  }

  lemma FirstOfNextMonth(d: Date)
    requires ValidDate(d)
    ensures var next := if d.month < 11 then Date(d.year, d.month + 1, 1) else Date(d.year + 1, 0, 1);
      ValidDate(next) && Ordinal(next) == Ordinal(d) + DaysInMonth(d.year, d.month) - d.day + 1
  {
    if d.month == 11 {
      DecemberOrdinal(d.year);
    }
  }

  // Moves `date` forward month by month; a count of zero or less leaves it in place.
  method AddDays(date: Date, count: int) returns (newDate: Date)
    requires ValidDate(date)
    ensures ValidDate(newDate)
    ensures Ordinal(newDate) == Ordinal(date) + (if count > 0 then count else 0)
  {
    var days := count;
    newDate := date;
    while days > 0
      invariant ValidDate(newDate)
      invariant days >= 0 || (days == count && newDate == date)
      invariant days >= 0 ==> Ordinal(newDate) + days == Ordinal(date) + count
      decreases days
    {
      var currentMonth := newDate.month;
      var daysInCurrentMonth := DaysInMonth(newDate.year, currentMonth);
      ghost var was := newDate;
      if days > daysInCurrentMonth - newDate.day {
        days := days - (daysInCurrentMonth - newDate.day + 1);
        newDate := newDate.(day := 1);
        if currentMonth < 11 {
          newDate := newDate.(month := currentMonth + 1);
        } else {
          newDate := newDate.(month := 0);
          newDate := newDate.(year := newDate.year + 1);
        }
        FirstOfNextMonth(was);
      } else {
        newDate := newDate.(day := newDate.day + days);
        return;
      }
    }
  }

  // ----- ISO 8601 weeks -----

  lemma WeekdayOfDay(start: int, yday: int)
    ensures Weekday(start + yday) == (Weekday(start) + yday) % 7
  {
    var k := (start + 1) / 7;
    assert start + 1 == 7 * k + Weekday(start);
    var m := (Weekday(start) + yday) / 7;
    assert start + yday + 1 == 7 * (k + m) + (Weekday(start) + yday) % 7;
  }

  // Section 4.1.4 of ISO 8601:2004: weeks begin on Monday, and the first week
  // of a year is the one that holds January 4.
  function WeekStart(year: int): int {
    MondayOnOrBefore(DaysBeforeYear(year) + 3)
  }

  function MondayOnOrBefore(ordinal: int): int {
    ordinal - (Weekday(ordinal) + 6) % 7
  }

  lemma MondayOnOrBeforeIsMonday(ordinal: int)
    ensures var monday := MondayOnOrBefore(ordinal);
      && Weekday(monday) == 1 && Weekday(monday + 3) == 4 && monday <= ordinal < monday + 7
  {
    var k := (ordinal + 1) / 7;
    var w := (ordinal + 1) % 7;
    assert ordinal + 1 == 7 * k + w;
    if w == 0 {
      assert MondayOnOrBefore(ordinal) + 1 == 7 * (k - 1) + 1;
    } else {
      assert MondayOnOrBefore(ordinal) + 1 == 7 * k + 1;
    }
  }

  // ... which is the week that holds the year's first Thursday.
  lemma WeekStartHoldsFirstThursday(year: int)
    ensures Weekday(WeekStart(year)) == 1
    ensures Weekday(WeekStart(year) + 3) == 4
    ensures DaysBeforeYear(year) <= WeekStart(year) + 3 < DaysBeforeYear(year) + 7
  {
    hide DaysBeforeYear, MondayOnOrBefore, Weekday;
    MondayOnOrBeforeIsMonday(DaysBeforeYear(year) + 3);
  }

  // Where the first week begins, by the weekday of January 1.
  function FirstWeekOffset(jan1: int): int {
    if jan1 == 0 then 1 else if jan1 <= 4 then 1 - jan1 else 8 - jan1
  }

  lemma FirstMondayFromJan1(start: int)
    ensures MondayOnOrBefore(start + 3) == start + FirstWeekOffset(Weekday(start))
  {
    WeekdayOfDay(start, 3);
  }

  ghost predicate InWeekYear(ordinal: int, year: int) {
    WeekStart(year) <= ordinal < WeekStart(year + 1)
  }

  function GetFirstWeekStartDate(janFourth: Date): Date
    requires ValidDate(janFourth)
  {
    match Weekday(Ordinal(janFourth))
    case 0 => Date(janFourth.year - 1, 11, 29)
    case 1 => janFourth
    case 2 => Date(janFourth.year, 0, 3)
    case 3 => Date(janFourth.year, 0, 2)
    case 4 => Date(janFourth.year, 0, 1)
    case 5 => Date(janFourth.year - 1, 11, 31)
    case _ => Date(janFourth.year - 1, 11, 30)
  }

  lemma FirstWeekStartDateIsWeekStart(year: int)
    ensures var start := GetFirstWeekStartDate(Date(year, 0, 4));
      ValidDate(start) && Ordinal(start) == WeekStart(year)
  {
    hide Ordinal, DaysBeforeYear;
    JanuaryDay(year, 4);
    MondayInJanuary(year);
    MondayInDecember(year);
  }

  // The week of January 4 begins in January where that day is a Monday to a Thursday.
  lemma MondayInJanuary(year: int)
    ensures var w := Weekday(DaysBeforeYear(year) + 3);
      1 <= w <= 4 ==> ValidDate(Date(year, 0, 5 - w)) && Ordinal(Date(year, 0, 5 - w)) == WeekStart(year)
  {
    hide Ordinal, DaysBeforeYear, Weekday;
    var w := Weekday(DaysBeforeYear(year) + 3);
    if 1 <= w <= 4 {
      JanuaryDay(year, 5 - w);
    }
  }

  // Otherwise it begins in the December before.
  lemma MondayInDecember(year: int)
    ensures var w := Weekday(DaysBeforeYear(year) + 3);
      var day := if w == 0 then 29 else 36 - w;
      w == 0 || 5 <= w <= 6 ==>
        ValidDate(Date(year - 1, 11, day)) && Ordinal(Date(year - 1, 11, day)) == WeekStart(year)
  {
    hide Ordinal, DaysBeforeYear, Weekday;
    var w := Weekday(DaysBeforeYear(year) + 3);
    if w == 0 || 5 <= w <= 6 {
      DecemberDay(year - 1, if w == 0 then 29 else 36 - w);
    }
  }

  lemma JanuaryDay(year: int, day: int)
    requires 1 <= day <= 31
    ensures var d := Date(year, 0, day); ValidDate(d) && Ordinal(d) == DaysBeforeYear(year) + day - 1
  {
  }

  lemma DecemberDay(year: int, day: int)
    requires 1 <= day <= 31
    ensures var d := Date(year, 11, day); ValidDate(d) && Ordinal(d) == DaysBeforeYear(year + 1) + day - 32
  {
    DecemberOrdinal(year);
  }

  // The fields of `struct tm` that the week rules read.
  datatype Tm = Tm(year: int, yday: int, wday: int)

  function TmOrdinal(tm: Tm): int {
    DaysBeforeYear(tm.year + 1900) + tm.yday
  }

  predicate Consistent(tm: Tm) {
    0 <= tm.yday < DaysInYear(tm.year + 1900) && tm.wday == Weekday(TmOrdinal(tm))
  }

  function WeekBasedYearOf(thisDate: Date): int
    requires ValidDate(thisDate)
  {
    var firstWeekStartThisYear := GetFirstWeekStartDate(Date(thisDate.year, 0, 4));
    var firstWeekStartNextYear := GetFirstWeekStartDate(Date(thisDate.year + 1, 0, 4));
    if CompareByDay(firstWeekStartThisYear, thisDate) <= 0 then
      if CompareByDay(firstWeekStartNextYear, thisDate) <= 0 then thisDate.year + 1
      else thisDate.year
    else
      thisDate.year - 1
  }

  lemma ComparedWithFirstWeek(d: Date, year: int)
    requires ValidDate(d)
    ensures CompareByDay(GetFirstWeekStartDate(Date(year, 0, 4)), d) <= 0 <==> WeekStart(year) <= Ordinal(d)
  {
    FirstWeekStartDateIsWeekStart(year);
    CompareIsOrder(GetFirstWeekStartDate(Date(year, 0, 4)), d);
  }

  lemma WeekBasedYearOfDate(d: Date)
    requires ValidDate(d)
    ensures InWeekYear(Ordinal(d), WeekBasedYearOf(d))
  {
    hide CompareByDay, GetFirstWeekStartDate, WeekStart, Ordinal;
    ComparedWithFirstWeek(d, d.year);
    ComparedWithFirstWeek(d, d.year + 1);
    NearWeekYears(d);
    var year := WeekBasedYearOf(d);
    assert year == d.year - 1 || year == d.year || year == d.year + 1;
  }

  // `%G`.
  method GetWeekBasedYear(tm: Tm) returns (year: int)
    requires Consistent(tm)
    ensures InWeekYear(TmOrdinal(tm), year)
  {
    var thisDate := AddDays(Date(tm.year + 1900, 0, 1), tm.yday);
    WeekBasedYearOfDate(thisDate);
    year := WeekBasedYearOf(thisDate);
  }

  // A date is in one of the three week years that the code chooses from.
  lemma NearWeekYears(d: Date)
    requires ValidDate(d)
    ensures WeekStart(d.year - 1) <= Ordinal(d) < WeekStart(d.year + 2)
  {
    OrdinalInYear(d);
    YearStep(d.year);
    WeekYearsAreAYearLong(d.year);
  }

  // A year's days spread over at most three week years.
  lemma WeekYearsAreAYearLong(year: int)
    ensures WeekStart(year - 1) < DaysBeforeYear(year)
    ensures DaysBeforeYear(year + 1) <= WeekStart(year + 2)
  {
    WeekStartHoldsFirstThursday(year - 1);
    WeekStartHoldsFirstThursday(year + 2);
    YearStep(year - 1);
    YearStep(year);
    YearStep(year + 1);
  }

  // `%V`.  Leapness is asked of `tm_year` itself, without the 1900 offset.
  function WeekNumber(tm: Tm): int {
    var val := WeeksBegun(tm);
    if val == 0 then LastOfYearBefore(tm) else if val == 53 then LastOfYear(tm) else val
  }

  function WeeksBegun(tm: Tm): int {
    var val := (tm.yday + 7 - JsRem(tm.wday + 6, 7)) / 7;
    if JsRem(tm.wday + 371 - tm.yday - 2, 7) <= 2 then val + 1 else val
  }

  function LastOfYearBefore(tm: Tm): int {
    var dec31 := JsRem(tm.wday + 7 - tm.yday - 1, 7);
    if dec31 == 4 || (dec31 == 5 && IsLeapYear(JsRem(tm.year, 400) - 1)) then 53 else 52
  }

  function LastOfYear(tm: Tm): int {
    var jan1 := JsRem(tm.wday + 371 - tm.yday, 7);
    if jan1 != 4 && (jan1 != 3 || !IsLeapYear(tm.year)) then 1 else 53
  }

  // `%u`.
  function WeekdayNumber(tm: Tm): int {
    if tm.wday == 0 then 7 else tm.wday
  }

  // Dropping the 1900 offset never matters where `%V` looks at it: the years
  // whose leapness it gets wrong begin on a Saturday or a Monday.
  lemma LeapnessOfTmYear(y: int)
    ensures Weekday(DaysBeforeYear(y + 1900)) == 3 ==> (IsLeapYear(y) <==> IsLeapYear(y + 1900))
  {
    LeapIsEuclidean(y);
    LeapIsEuclidean(y + 1900);
    CenturyWeekday(y + 1900);
  }

  // Likewise for the year before, asked of `tm_year % 400 - 1`.
  lemma LeapnessOfYearBefore(y: int)
    ensures Weekday(DaysBeforeYear(y + 1900) - 1) == 5
      ==> (IsLeapYear(JsRem(y, 400) - 1) <==> IsLeapYear(y + 1899))
  {
    var q := if y >= 0 then y / 400 else -((-y) / 400);
    LeapIsPeriodic(JsRem(y, 400) - 1, q);
    WeekdayOfDay(DaysBeforeYear(y + 1900) - 1, 1);
    CenturyBeforeYear(y);
  }

  lemma CenturyBeforeYear(y: int)
    ensures Weekday(DaysBeforeYear(y + 1900)) == 6 ==> (IsLeapYear(y - 1) <==> IsLeapYear(y + 1899))
  {
    LeapIsEuclidean(y - 1);
    LeapIsEuclidean(y + 1899);
    CenturyWeekday(y + 1899);
  }

  lemma LeapIsPeriodic(a: int, q: int)
    ensures IsLeapYear(a) <==> IsLeapYear(a + 400 * q)
  {
    LeapIsEuclidean(a);
    LeapIsEuclidean(a + 400 * q);
    SameRemainder(a, 4, 100 * q);
    SameRemainder(a, 100, 4 * q);
    SameRemainder(a, 400, q);
  }

  lemma SameRemainder(a: int, n: int, k: int)
    requires n in {4, 100, 400}
    ensures (a + n * k) % n == a % n
  {
  }

  // The calendar repeats every 400 years, a whole number of weeks.
  lemma CenturyWeekday(y: int)
    ensures y % 400 == 0 ==> Weekday(DaysBeforeYear(y)) == 6 && Weekday(DaysBeforeYear(y + 1)) == 1
    ensures y % 400 == 300 ==> Weekday(DaysBeforeYear(y)) == 1 && Weekday(DaysBeforeYear(y + 1)) == 2
  {
    if y % 400 in {0, 300} {
      CenturyStart(y, y / 400, y % 400 / 100);
    }
  }

  lemma CenturyStart(y: int, k: int, c: int)
    requires c in {0, 3} && y == 400 * k + 100 * c
    ensures Weekday(DaysBeforeYear(y)) == (if c == 0 then 6 else 1)
    ensures Weekday(DaysBeforeYear(y + 1)) == (if c == 0 then 1 else 2)
  {
    CenturyDays(k, c);
    YearStep(y);
    CenturyYearLength(k, c);
    WholeWeeks(20871 * k, if c == 0 then -366 else 109207);
    WholeWeeks(20871 * k, if c == 0 then 0 else 109572);
  }

  lemma CenturyDays(k: int, c: int)
    requires c in {0, 3}
    ensures DaysBeforeYear(400 * k + 100 * c) == 7 * (20871 * k) + (if c == 0 then -366 else 109207)
  {
    DaysBeforeYearClosed(400 * k + 100 * c);
    CenturyLeapDays(k, c);
  }

  lemma WholeWeeks(k: int, days: int)
    ensures Weekday(7 * k + days) == Weekday(days)
  {
  }

  lemma CenturyYearLength(k: int, c: int)
    requires c in {0, 3}
    ensures DaysInYear(400 * k + 100 * c) == if c == 0 then 366 else 365
  {
    LeapIsPeriodic(100 * c, k);
  }

  lemma CenturyLeapDays(k: int, c: int)
    requires c in {0, 3}
    ensures LeapDaysBefore(400 * k + 100 * c) == 97 * k + (if c == 0 then -1 else 72)
  {
    Fourths(k, c);
    Hundredths(k, c);
    FourHundredths(k, c);
  }

  lemma Fourths(k: int, c: int)
    ensures (400 * k + 100 * c - 1) / 4 == 100 * k + 25 * c - 1
  {
  }

  lemma Hundredths(k: int, c: int)
    ensures (400 * k + 100 * c - 1) / 100 == 4 * k + c - 1
  {
  }

  lemma FourHundredths(k: int, c: int)
    requires c in {0, 3}
    ensures (400 * k + 100 * c - 1) / 400 == if c == 0 then k - 1 else k
  {
  }

  // The residues that `%V` computes are the weekdays of January 1 and of the
  // December 31 before it.
  lemma WeekdayResidues(jan1: int, yday: int, wday: int)
    requires 0 <= jan1 < 7 && 0 <= yday < 366 && wday == (jan1 + yday) % 7
    ensures JsRem(wday + 371 - yday, 7) == jan1
    ensures JsRem(wday + 371 - yday - 2, 7) == (jan1 + 5) % 7
    ensures wday + 7 - yday - 1 >= 0 ==> JsRem(wday + 7 - yday - 1, 7) == (jan1 + 6) % 7
  {
    var k := (jan1 + yday) / 7;
    assert wday - yday == jan1 - 7 * k;
  }

  // `%V` before its two corrections: the count of the weeks begun since the
  // first week of the calendar year.
  lemma UncorrectedWeek(jan1: int, yday: int, wday: int)
    requires 0 <= jan1 < 7 && 0 <= yday < 366 && wday == (jan1 + yday) % 7
    ensures var val0 := (yday + 7 - JsRem(wday + 6, 7)) / 7;
      var val := if (jan1 + 5) % 7 <= 2 then val0 + 1 else val0;
      FirstWeekOffset(jan1) + 7 * (val - 1) + (if wday == 0 then 7 else wday) - 1 == yday
  {
    var k := (jan1 + yday) / 7;
    assert jan1 + yday == 7 * k + wday;
    assert JsRem(wday + 6, 7) == if wday == 0 then 6 else wday - 1;
    assert (jan1 + 5) % 7 == if jan1 < 2 then jan1 + 5 else jan1 - 2;
  }

  // `%V` in terms of the weekday of January 1 and the leapness of the two years.
  ghost function CorrectedNumber(jan1: int, val: int, leap: bool, leapBefore: bool): int {
    var dec31 := (jan1 + 6) % 7;
    if val == 0 then (if dec31 == 4 || (dec31 == 5 && leapBefore) then 53 else 52)
    else if val == 53 then (if jan1 != 4 && (jan1 != 3 || !leap) then 1 else 53)
    else val
  }

  // The two corrections of `%V`, in days counted from January 1: a day before
  // the first week belongs to the last week of the year before, and a day at or
  // after the next first week belongs to that one.
  lemma CorrectedWeek(jan1: int, yday: int, u: int, val: int, leap: bool, leapBefore: bool)
    requires 0 <= jan1 < 7 && 1 <= u <= 7
    requires 0 <= yday < (if leap then 366 else 365)
    requires FirstWeekOffset(jan1) + 7 * (val - 1) + u - 1 == yday
    ensures var length := if leap then 366 else 365;
      var lengthBefore := if leapBefore then 366 else 365;
      var next := length + FirstWeekOffset((jan1 + length) % 7);
      var before := -lengthBefore + FirstWeekOffset((jan1 - lengthBefore) % 7);
      var v := CorrectedNumber(jan1, val, leap, leapBefore);
      && 1 <= v <= 53
      && (if yday < FirstWeekOffset(jan1) then before
          else if yday < next then FirstWeekOffset(jan1)
          else next) + 7 * (v - 1) + u - 1 == yday
  {
  }

  // `%G`, `%V` and `%u` name the day: week V of year G, day u, is the date's own ordinal.
  lemma WeekDateIsIso(tm: Tm, year: int)
    requires Consistent(tm)
    requires InWeekYear(TmOrdinal(tm), year)
    ensures 1 <= WeekNumber(tm) <= 53 && 1 <= WeekdayNumber(tm) <= 7
    ensures WeekStart(year) + 7 * (WeekNumber(tm) - 1) + (WeekdayNumber(tm) - 1) == TmOrdinal(tm)
  {
    hide WeekNumber, WeekdayNumber, WeekStart, Weekday;
    WeekNumberFromJan1(tm);
    WeekYearIsNear(tm, year);
    WeekStartsGrow(tm.year + 1900, tm.year + 1901);
  }

  // What `%G` computes from the date is the year that `%V` and `%u` count in.
  lemma WeekDateNamesTheDay(tm: Tm, d: Date)
    requires Consistent(tm) && ValidDate(d) && Ordinal(d) == TmOrdinal(tm)
    ensures WeekStart(WeekBasedYearOf(d)) + 7 * (WeekNumber(tm) - 1) + (WeekdayNumber(tm) - 1) == Ordinal(d)
  {
    WeekBasedYearOfDate(d);
    WeekDateIsIso(tm, WeekBasedYearOf(d));
  }

  // The week year by comparison, as `%G` chooses it, and the day that `%V` and `%u` give in it.
  lemma WeekNumberFromJan1(tm: Tm)
    requires Consistent(tm)
    ensures var y := tm.year + 1900;
      var g := if TmOrdinal(tm) < WeekStart(y) then y - 1
               else if TmOrdinal(tm) < WeekStart(y + 1) then y
               else y + 1;
      && 1 <= WeekNumber(tm) <= 53 && 1 <= WeekdayNumber(tm) <= 7
      && WeekStart(g) + 7 * (WeekNumber(tm) - 1) + (WeekdayNumber(tm) - 1) == TmOrdinal(tm)
  {
    var y := tm.year + 1900;
    var jan1 := Weekday(DaysBeforeYear(y));
    WeekdayOfDay(DaysBeforeYear(y), tm.yday);
    LeapnessOfTmYear(tm.year);
    LeapnessOfYearBefore(tm.year);
    WeekdayOfDay(DaysBeforeYear(y), -1);
    var val := WeekNumberLeapness(tm, jan1, IsLeapYear(y), IsLeapYear(y - 1));
    CorrectedWeek(jan1, tm.yday, WeekdayNumber(tm), val, IsLeapYear(y), IsLeapYear(y - 1));
    WeekStartsFromJan1(y);
  }

  // `%V` is the corrected count when its leapness tests agree with the true years where it matters.
  lemma WeekNumberLeapness(tm: Tm, jan1: int, leap: bool, leapBefore: bool) returns (val: int)
    requires 0 <= jan1 < 7 && 0 <= tm.yday < 366 && tm.wday == (jan1 + tm.yday) % 7
    requires jan1 == 3 ==> (IsLeapYear(tm.year) <==> leap)
    requires (jan1 + 6) % 7 == 5 ==> (IsLeapYear(JsRem(tm.year, 400) - 1) <==> leapBefore)
    ensures FirstWeekOffset(jan1) + 7 * (val - 1) + WeekdayNumber(tm) - 1 == tm.yday
    ensures WeekNumber(tm) == CorrectedNumber(jan1, val, leap, leapBefore)
  {
    hide IsLeapYear, LastOfYearBefore, LastOfYear, JsRem, FirstWeekOffset;
    WeekdayResidues(jan1, tm.yday, tm.wday);
    UncorrectedWeek(jan1, tm.yday, tm.wday);
    val := WeeksBegun(tm);
    if val == 0 {
      BeforeFirstWeek(tm, jan1);
      LastOfYearBeforeIs(tm, jan1, leapBefore);
    }
    LastOfYearIs(tm, jan1, leap);
  }

  // With no week begun, the day is at most the third of the year.
  lemma BeforeFirstWeek(tm: Tm, jan1: int)
    requires 0 <= jan1 < 7 && 0 <= tm.yday < 366 && 0 <= tm.wday < 7
    requires FirstWeekOffset(jan1) - 7 + WeekdayNumber(tm) - 1 == tm.yday
    ensures tm.wday + 7 - tm.yday - 1 >= 0
  {
  }

  lemma LastOfYearBeforeIs(tm: Tm, jan1: int, leapBefore: bool)
    requires JsRem(tm.wday + 7 - tm.yday - 1, 7) == (jan1 + 6) % 7
    requires (jan1 + 6) % 7 == 5 ==> (IsLeapYear(JsRem(tm.year, 400) - 1) <==> leapBefore)
    ensures LastOfYearBefore(tm) == CorrectedNumber(jan1, 0, true, leapBefore)
  {
    hide IsLeapYear, JsRem;
  }

  lemma LastOfYearIs(tm: Tm, jan1: int, leap: bool)
    requires JsRem(tm.wday + 371 - tm.yday, 7) == jan1
    requires jan1 == 3 ==> (IsLeapYear(tm.year) <==> leap)
    ensures LastOfYear(tm) == CorrectedNumber(jan1, 53, leap, true)
  {
    hide IsLeapYear, JsRem;
  }

  // The three first weeks near a year, by the weekday of its January 1.
  lemma WeekStartsFromJan1(y: int)
    ensures var start := DaysBeforeYear(y);
      var jan1 := Weekday(start);
      && WeekStart(y - 1) == start - DaysInYear(y - 1) + FirstWeekOffset((jan1 - DaysInYear(y - 1)) % 7)
      && WeekStart(y) == start + FirstWeekOffset(jan1)
      && WeekStart(y + 1) == start + DaysInYear(y) + FirstWeekOffset((jan1 + DaysInYear(y)) % 7)
  {
    var start := DaysBeforeYear(y);
    YearStep(y - 1);
    YearStep(y);
    WeekdayOfDay(start, DaysInYear(y));
    WeekdayOfDay(start, -DaysInYear(y - 1));
    FirstMondayFromJan1(start);
    FirstMondayFromJan1(start + DaysInYear(y));
    FirstMondayFromJan1(start - DaysInYear(y - 1));
  }

  lemma WeekYearIsNear(tm: Tm, year: int)
    requires Consistent(tm)
    requires InWeekYear(TmOrdinal(tm), year)
    ensures tm.year + 1899 <= year <= tm.year + 1901
  {
    var y := tm.year + 1900;
    WeekYearsAreAYearLong(y);
    YearStep(y);
    if year < y - 1 {
      WeekStartsGrow(year + 1, y - 1);
    } else if y + 1 < year {
      WeekStartsGrow(y + 2, year);
    }
  }

  lemma WeekStartsGrow(y: int, z: int)
    requires y <= z
    ensures WeekStart(y) <= WeekStart(z)
  {
    if y < z {
      WeekStartHoldsFirstThursday(y);
      WeekStartHoldsFirstThursday(z);
      YearsGrow(y, z);
    }
  }
}
