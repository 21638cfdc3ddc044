/**
Day numbers of civil dates. `DaysFromCivil` is the era arithmetic of the time parser; it is proved
equal, for every year, to counting days one year and one month at a time.
*/
module Calendar {

  datatype Date = Date(year: int, month: int, day: int)

  predicate Leap(year: int) {
    (year % 4 == 0 && year % 100 != 0) || year % 400 == 0
  }

  function DaysInMonth(year: int, month: int): nat {
    match month
    case 1 | 3 | 5 | 7 | 8 | 10 | 12 => 31
    case 4 | 6 | 9 | 11 => 30
    case 2 => if Leap(year) then 29 else 28
    case _ => 0
  }

  predicate ValidDate(d: Date) {
    1 <= d.month <= 12 && 1 <= d.day <= DaysInMonth(d.year, d.month)
  }

  /** Division that rounds toward zero, as on the machine integers of the source. */
  function TruncatedDiv(a: int, b: int): int
    requires b > 0
  {
    if a >= 0 then a / b else -(-a / b)
  }

  function DaysFromCivil(d: Date): int {
    var year := d.year - if d.month <= 2 then 1 else 0;
    var era := TruncatedDiv(if year >= 0 then year else year - 399, 400);
    var yearOfEra := year - era * 400;
    var adjustedMonth := d.month + if d.month > 2 then -3 else 9;
    var dayOfYear := TruncatedDiv(153 * adjustedMonth + 2, 5) + d.day - 1;
    var dayOfEra := yearOfEra * 365 + TruncatedDiv(yearOfEra, 4) - TruncatedDiv(yearOfEra, 100) + dayOfYear;
    era * 146_097 + dayOfEra - 719_468
  }

  // -- counting -------------------------------------------------------------------------------

  function YearLength(year: int): int {
    if Leap(year) then 366 else 365
  }

  /** Days from 1970-01-01 to the first day of `year`, one year at a time in either direction. */
  ghost function YearStart(year: int): int
    decreases if year >= 1970 then year - 1970 else 1970 - year
  {
    if year == 1970 then 0
    else if year > 1970 then YearStart(year - 1) + YearLength(year - 1)
    else YearStart(year + 1) - YearLength(year)
  }

  /** Days of `year` before the first of `month`, one month at a time. */
  ghost function MonthStart(year: int, month: nat): int {
    if month <= 1 then 0 else MonthStart(year, month - 1) + DaysInMonth(year, month - 1)
  }

  /** The naive count of days since 1970-01-01. */
  ghost function CountedDays(d: Date): int
    requires d.month >= 0
  {
    YearStart(d.year) + MonthStart(d.year, d.month) + d.day - 1
  }

  // -- the two agree --------------------------------------------------------------------------

  function LeapDaysThrough(year: int): int {
    year / 4 - year / 100 + year / 400
  }

  lemma LeapStep(year: int)
    ensures LeapDaysThrough(year) == LeapDaysThrough(year - 1) + if Leap(year) then 1 else 0
  {
    DivStep(year, 4);
    DivStep(year, 100);
    DivStep(year, 400);
    CenturyIsFourth(year);
  }

  lemma CenturyIsFourth(year: int)
    ensures year % 100 == 0 ==> year % 4 == 0
    ensures year % 400 == 0 ==> year % 100 == 0
  {
    if year % 100 == 0 {
      assert year == 4 * (25 * (year / 100));
    }
    if year % 400 == 0 {
      assert year == 100 * (4 * (year / 400));
    }
  }

  lemma DivStep(n: int, b: int)
    requires b == 4 || b == 100 || b == 400
    ensures n / b == (n - 1) / b + if n % b == 0 then 1 else 0
  {
  }

  lemma {:induction false} YearStartClosed(year: int)
    ensures YearStart(year) == 365 * (year - 1970) + LeapDaysThrough(year - 1) - LeapDaysThrough(1969)
    decreases if year >= 1970 then year - 1970 else 1970 - year
  {
    if year > 1970 {
      YearStartClosed(year - 1);
      LeapStep(year - 1);
    } else if year < 1970 {
      YearStartClosed(year + 1);
      LeapStep(year);
    }
  }

  lemma EraIsFloor(year: int)
    ensures TruncatedDiv(if year >= 0 then year else year - 399, 400) == year / 400
  {
    if year < 0 {
      var q, r := year / 400, year % 400;
      assert year == 400 * q + r;
      assert 399 - year == 400 * (-q) + (399 - r);
    }
  }

  /** The same whole-era decomposition that the code uses, in terms of floor divisions. */
  lemma EraCount(year: int)
    ensures var era := year / 400; var yoe := year - era * 400;
            && 0 <= yoe < 400
            && era * 146_097 + yoe * 365 + yoe / 4 - yoe / 100 == 365 * year + LeapDaysThrough(year)
  {
    var era, yoe := year / 400, year % 400;
    assert year == 400 * era + yoe;
    assert year / 4 == 100 * era + yoe / 4;
    assert year / 100 == 4 * era + yoe / 100;
  }

  /** The 153/5 formula lists the starts of the months counted from March. */
  lemma MonthsFromMarch(year: int, month: int)
    requires 1 <= month <= 12
    ensures var march := TruncatedDiv(153 * FromMarch(month) + 2, 5);
            MonthStart(year, month) == if month > 2 then 59 + (if Leap(year) then 1 else 0) + march else march - 306
  {
    assert MonthStart(year, 2) == 31;
    assert MonthStart(year, 3) == 59 + if Leap(year) then 1 else 0;
    assert MonthStart(year, 4) == MonthStart(year, 3) + 31;
    assert MonthStart(year, 5) == MonthStart(year, 3) + 61;
    assert MonthStart(year, 6) == MonthStart(year, 3) + 92;
    assert MonthStart(year, 7) == MonthStart(year, 3) + 122;
    assert MonthStart(year, 8) == MonthStart(year, 3) + 153;
    assert MonthStart(year, 9) == MonthStart(year, 3) + 184;
    assert MonthStart(year, 10) == MonthStart(year, 3) + 214;
    assert MonthStart(year, 11) == MonthStart(year, 3) + 245;
    assert MonthStart(year, 12) == MonthStart(year, 3) + 275;
  }

  /** The place of a month in the year that starts in March. */
  function FromMarch(month: int): int {
    if month > 2 then month - 3 else month + 9
  }

  /** Both counts in closed form, for the year that starts in March. */
  ghost function ClosedCount(d: Date): int {
    var year := if d.month <= 2 then d.year - 1 else d.year;
    365 * year + LeapDaysThrough(year) + TruncatedDiv(153 * FromMarch(d.month) + 2, 5) + d.day - 719_469
  }

  lemma CivilClosed(d: Date)
    ensures DaysFromCivil(d) == ClosedCount(d)
  {
    var year := d.year - if d.month <= 2 then 1 else 0;
    EraIsFloor(year);
    EraCount(year);
  }

  /** January and February belong to the year before; from March on the leap day of the year has passed. */
  lemma CountedClosed(d: Date)
    requires ValidDate(d)
    ensures CountedDays(d) == ClosedCount(d)
  {
    var march := TruncatedDiv(153 * FromMarch(d.month) + 2, 5);
    var before, through := LeapDaysThrough(d.year - 1), LeapDaysThrough(d.year);
    MonthsFromMarch(d.year, d.month);
    YearStartClosed(d.year);
    LeapStep(d.year);
    assert LeapDaysThrough(1969) == 477;
    FromParts(d, YearStart(d.year), MonthStart(d.year, d.month), march, before, through, Leap(d.year));
  }

  lemma FromParts(d: Date, yearStart: int, monthStart: int, march: int, before: int, through: int, leap: bool)
    requires yearStart == 365 * (d.year - 1970) + before - 477
    requires through == before + if leap then 1 else 0
    requires monthStart == if d.month > 2 then 59 + (if leap then 1 else 0) + march else march - 306
    ensures yearStart + monthStart + d.day - 1 ==
            if d.month <= 2 then 365 * (d.year - 1) + before + march + d.day - 719_469
            else 365 * d.year + through + march + d.day - 719_469
  {
  }

  /** For every date of every year, the era arithmetic is the day count. */
  lemma CivilIsCounted(d: Date)
    requires ValidDate(d)
    ensures DaysFromCivil(d) == CountedDays(d)
  {
    CivilClosed(d);
    CountedClosed(d);
  }

  // -- order, succession, and no gaps ---------------------------------------------------------

  ghost predicate Before(a: Date, b: Date) {
    a.year < b.year || (a.year == b.year && (a.month < b.month || (a.month == b.month && a.day < b.day)))
  }

  function NextDate(d: Date): Date {
    if d.day < DaysInMonth(d.year, d.month) then d.(day := d.day + 1)
    else if d.month < 12 then Date(d.year, d.month + 1, 1)
    else Date(d.year + 1, 1, 1)
  }

  function PreviousDate(d: Date): Date {
    if d.day > 1 then d.(day := d.day - 1)
    else if d.month > 1 then Date(d.year, d.month - 1, DaysInMonth(d.year, d.month - 1))
    else Date(d.year - 1, 12, 31)
  }

  lemma YearIsItsMonths(year: int)
    ensures MonthStart(year, 12) + 31 == YearLength(year)
  {
    MonthsFromMarch(year, 12);
  }

  lemma YearStartStep(year: int)
    ensures YearStart(year + 1) == YearStart(year) + YearLength(year)
  {
    YearStartClosed(year);
    YearStartClosed(year + 1);
    LeapStep(year);
  }

  /** The next calendar day has the next day number. */
  lemma NextDayIsOneMore(d: Date)
    requires ValidDate(d)
    ensures ValidDate(NextDate(d)) && PreviousDate(NextDate(d)) == d
    ensures DaysFromCivil(NextDate(d)) == DaysFromCivil(d) + 1
  {
    CivilIsCounted(d);
    CivilIsCounted(NextDate(d));
    if d.day == DaysInMonth(d.year, d.month) && d.month == 12 {
      YearIsItsMonths(d.year);
      YearStartStep(d.year);
    }
  }

  lemma PreviousDayIsOneLess(d: Date)
    requires ValidDate(d)
    ensures ValidDate(PreviousDate(d)) && NextDate(PreviousDate(d)) == d
    ensures DaysFromCivil(PreviousDate(d)) == DaysFromCivil(d) - 1
  {
    NextDayIsOneMore(PreviousDate(d));
  }

  lemma {:induction false} MonthStartMonotone(year: int, a: nat, b: nat)
    requires 1 <= a < b <= 12
    ensures MonthStart(year, a) + DaysInMonth(year, a) <= MonthStart(year, b)
  {
    if a + 1 == b {
    } else {
      MonthStartMonotone(year, a, b - 1);
    }
  }

  lemma {:induction false} YearStartMonotone(a: int, b: int)
    requires a < b
    ensures YearStart(a) + YearLength(a) <= YearStart(b)
    decreases b - a
  {
    YearStartStep(a);
    if a + 1 == b {
    } else {
      YearStartMonotone(a + 1, b);
    }
  }

  lemma WithinYear(d: Date)
    requires ValidDate(d)
    ensures 0 <= MonthStart(d.year, d.month) + d.day - 1 < YearLength(d.year)
  {
    YearIsItsMonths(d.year);
    if d.month < 12 { MonthStartMonotone(d.year, d.month, 12); }
    if d.month > 1 { MonthStartMonotone(d.year, 1, d.month); }
  }

  lemma LaterIsGreater(a: Date, b: Date)
    requires ValidDate(a) && ValidDate(b) && Before(a, b)
    ensures DaysFromCivil(a) < DaysFromCivil(b)
  {
    CivilIsCounted(a);
    CivilIsCounted(b);
    if a.year < b.year {
      YearStartMonotone(a.year, b.year);
      WithinYear(a);
      WithinYear(b);
    } else if a.month < b.month {
      MonthStartMonotone(a.year, a.month, b.month);
    }
  }

  /** Day numbers order dates exactly as the calendar does; in particular they never collide. */
  lemma DayNumbersOrderDates(a: Date, b: Date)
    requires ValidDate(a) && ValidDate(b)
    ensures DaysFromCivil(a) < DaysFromCivil(b) <==> Before(a, b)
    ensures DaysFromCivil(a) == DaysFromCivil(b) <==> a == b
  {
    if Before(a, b) { LaterIsGreater(a, b); }
    if Before(b, a) { LaterIsGreater(b, a); }
  }

  /** Every integer is the day number of a date: the numbering has no gaps. */
  lemma {:induction false} EveryDayHasADate(n: int) returns (d: Date)
    ensures ValidDate(d) && DaysFromCivil(d) == n
    decreases if n >= 0 then n else -n
  {
    if n == 0 {
      d := Date(1970, 1, 1);
    } else if n > 0 {
      var before := EveryDayHasADate(n - 1);
      NextDayIsOneMore(before);
      d := NextDate(before);
    } else {
      var after := EveryDayHasADate(n + 1);
      PreviousDayIsOneLess(after);
      d := PreviousDate(after);
    }
  }
}
