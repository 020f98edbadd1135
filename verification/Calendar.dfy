/**
 * The proleptic Gregorian calendar of Python's `datetime`, completed-year tenure
 * and the days on which a tenure condition can change its truth value.
 *
 * A calendar date keeps its year, month and day where the February 29 rule needs
 * them; everywhere else a date is its ordinal. An instant counts microseconds, so
 * that `DayOf` is its UTC date and `Midnight` the first instant of a date.
 */
module Calendar {
  import opened Common

  const MAX_YEAR := 9999
  const MAX_ORDINAL := 3652059  // December 31 of year 9999
  const TICKS_PER_DAY := 86_400_000_000

  datatype Date = Date(year: int, month: int, day: int)

  datatype Operator = Eq | Lt | Le | Gt | Ge

  predicate IsLeap(year: int) {
    year % 4 == 0 && (year % 100 != 0 || year % 400 == 0)
  }

  function DaysInMonth(year: int, month: int): int {
    if month == 2 then (if IsLeap(year) then 29 else 28)
    else if month in {4, 6, 9, 11} then 30
    else 31
  }

  predicate Valid(d: Date) {
    1 <= d.year <= MAX_YEAR && 1 <= d.month <= 12 && 1 <= d.day <= DaysInMonth(d.year, d.month)
  }

  /** The ordinal of a date that Python can represent. */
  type DateOrdinal = n: int | 1 <= n <= MAX_ORDINAL witness 1

  type ValidDate = d: Date | Valid(d) witness Date(1, 1, 1)

  function DaysBeforeYear(year: int): int {
    (year - 1) * 365 + (year - 1) / 4 - (year - 1) / 100 + (year - 1) / 400
  }

  function DaysBeforeMonth(year: int, month: int): int
    requires 1 <= month <= 12
  {
    if month == 1 then 0 else DaysBeforeMonth(year, month - 1) + DaysInMonth(year, month - 1)
  }

  function Ordinal(d: Date): int
    requires Valid(d)
  {
    DaysBeforeYear(d.year) + DaysBeforeMonth(d.year, d.month) + d.day
  }

  function DayOf(instant: int): int {
    instant / TICKS_PER_DAY
  }

  function Midnight(day: int): int {
    day * TICKS_PER_DAY
  }

  lemma MidnightIsFirst(day: int, instant: int)
    ensures Midnight(day) <= instant <==> day <= DayOf(instant)
    ensures DayOf(Midnight(day)) == day
  {
  }

  predicate Earlier(a: Date, b: Date) {
    a.year < b.year
    || (a.year == b.year && (a.month < b.month || (a.month == b.month && a.day < b.day)))
  }

  lemma LeapSteps(year: int)
    ensures year / 4 - (year - 1) / 4 == if year % 4 == 0 then 1 else 0
    ensures year / 100 - (year - 1) / 100 == if year % 100 == 0 then 1 else 0
    ensures year / 400 - (year - 1) / 400 == if year % 400 == 0 then 1 else 0
  {
  }

  lemma LeapDivisors(year: int)
    ensures year % 400 == 0 ==> year % 100 == 0
    ensures year % 100 == 0 ==> year % 4 == 0
  {
  }

  lemma YearLength(year: int)
    ensures DaysBeforeYear(year + 1) == DaysBeforeYear(year) + (if IsLeap(year) then 366 else 365)
  {
    LeapSteps(year);
    LeapDivisors(year);
  }

  lemma {:induction false} YearsGrow(a: int, b: int)
    requires a <= b
    ensures DaysBeforeYear(b) >= DaysBeforeYear(a) + 365 * (b - a)
    decreases b - a
  {
    if a < b {
      YearLength(b - 1);
      YearsGrow(a, b - 1);
    }
  }

  lemma {:induction false} MonthsGrow(year: int, a: int, b: int)
    requires 1 <= a <= b <= 12
    ensures a < b ==> DaysBeforeMonth(year, b) >= DaysBeforeMonth(year, a) + DaysInMonth(year, a)
    decreases b - a
  {
    if a < b - 1 {
      MonthsGrow(year, a, b - 1);
    }
  }

  lemma DayWithinYear(d: Date)
    requires Valid(d)
    ensures 1 <= DaysBeforeMonth(d.year, d.month) + d.day <= (if IsLeap(d.year) then 366 else 365)
  {
    MonthsGrow(d.year, 1, d.month);
    MonthsGrow(d.year, d.month, 12);
    var february := DaysInMonth(d.year, 2);
    assert DaysBeforeMonth(d.year, 2) == 31;
    assert DaysBeforeMonth(d.year, 4) == 62 + february;
    assert DaysBeforeMonth(d.year, 6) == 123 + february;
    assert DaysBeforeMonth(d.year, 8) == 184 + february;
    assert DaysBeforeMonth(d.year, 10) == 245 + february;
    assert DaysBeforeMonth(d.year, 12) == 306 + february;
  }

  lemma EarlierIsSmaller(a: Date, b: Date)
    requires Valid(a) && Valid(b) && Earlier(a, b)
    ensures Ordinal(a) < Ordinal(b)
  {
    DayWithinYear(a);
    DayWithinYear(b);
    if a.year < b.year {
      YearLength(a.year);
      YearsGrow(a.year + 1, b.year);
    } else {
      MonthsGrow(a.year, a.month, b.month);
    }
  }

  /** Comparing dates and comparing their ordinals is the same thing. */
  lemma OrdinalOrder(a: Date, b: Date)
    requires Valid(a) && Valid(b)
    ensures Ordinal(a) < Ordinal(b) <==> Earlier(a, b)
    ensures Ordinal(a) == Ordinal(b) <==> a == b
  {
    if Earlier(a, b) {
      EarlierIsSmaller(a, b);
    } else if Earlier(b, a) {
      EarlierIsSmaller(b, a);
    }
  }

  /** Every calendar date lies between `date.min` and `date.max`. */
  lemma OrdinalRange(d: Date)
    requires Valid(d)
    ensures 1 <= Ordinal(d) <= MAX_ORDINAL
    ensures Ordinal(d) == MAX_ORDINAL <==> d == Date(MAX_YEAR, 12, 31)
  {
    var first, last := Date(1, 1, 1), Date(MAX_YEAR, 12, 31);
    DayWithinYear(d);
    YearsGrow(1, d.year);
    assert DaysBeforeYear(1) == 0;
    assert DaysBeforeMonth(MAX_YEAR, 12) == 334 by {
      assert DaysBeforeMonth(MAX_YEAR, 2) == 31;
      assert DaysBeforeMonth(MAX_YEAR, 4) == 90;
      assert DaysBeforeMonth(MAX_YEAR, 6) == 151;
      assert DaysBeforeMonth(MAX_YEAR, 8) == 212;
      assert DaysBeforeMonth(MAX_YEAR, 10) == 273;
    }
    assert Ordinal(last) == MAX_ORDINAL;
    OrdinalOrder(d, last);
  }

  /** `date.replace`, with `None` for the ValueError. */
  function Replace(year: int, month: int, day: int): Option<Date> {
    if Valid(Date(year, month, day)) then Some(Date(year, month, day)) else None
  }

  /** `None` is the ValueError that escapes when the year leaves the calendar. */
  function AddCalendarYears(d: Date, years: int): Option<Date> {
    var exact := Replace(d.year + years, d.month, d.day);
    if exact.Some? then exact else Replace(d.year + years, d.month, 28)
  }

  /**
   * An anniversary exists exactly while the year is representable; it keeps month
   * and day, except that February 29 falls on February 28 of a common year.
   */
  lemma AnniversaryIsTheSameDay(d: Date, years: int)
    requires Valid(d)
    ensures AddCalendarYears(d, years).Some? <==> 1 <= d.year + years <= MAX_YEAR
    ensures AddCalendarYears(d, years).Some? ==>
              var a := AddCalendarYears(d, years).value;
              && Valid(a) && a.year == d.year + years && a.month == d.month
              && a.day == if d.month == 2 && d.day == 29 && !IsLeap(a.year) then 28 else d.day
    ensures AddCalendarYears(d, 0) == Some(d)
  {
  }

  /** Thresholds are strictly increasing in the number of years. */
  lemma ThresholdsIncrease(start: Date, fewer: int, more: int)
    requires Valid(start) && fewer < more
    requires AddCalendarYears(start, fewer).Some? && AddCalendarYears(start, more).Some?
    ensures Ordinal(AddCalendarYears(start, fewer).value) < Ordinal(AddCalendarYears(start, more).value)
  {
    OrdinalOrder(AddCalendarYears(start, fewer).value, AddCalendarYears(start, more).value);
  }

  /** `_compare_tenure`: both thresholds are computed whatever the operator is. */
  function TenureHolds(start: Date, op: Operator, years: int, today: int): Option<bool>
    requires Valid(start)
  {
    match (AddCalendarYears(start, years), AddCalendarYears(start, years + 1))
    case (Some(reached), Some(passed)) =>
      var threshold, next := Ordinal(reached), Ordinal(passed);
      Some(match op
           case Eq => threshold <= today < next
           case Lt => today < threshold
           case Le => today < next
           case Gt => today >= next
           case Ge => today >= threshold)
    case _ => None
  }

  function TransitionYears(op: Operator, years: int): seq<int> {
    match op
    case Eq => [years, years + 1]
    case Lt => [years]
    case Le => [years + 1]
    case Gt => [years + 1]
    case Ge => [years]
  }

  /** The anniversaries as ordinals; `None` when one of them is not representable. */
  function Anniversaries(start: Date, years: seq<int>): Option<seq<int>>
    requires Valid(start)
  {
    if years == [] then Some([])
    else
      match (AddCalendarYears(start, years[0]), Anniversaries(start, years[1..]))
      case (Some(d), Some(rest)) => Some([Ordinal(d)] + rest)
      case _ => None
  }

  function TransitionDays(start: Date, op: Operator, years: int): Option<seq<int>>
    requires Valid(start)
  {
    Anniversaries(start, TransitionYears(op, years))
  }

  lemma TransitionDaysOf(start: Date, op: Operator, years: int)
    requires Valid(start) && years >= 0 && start.year + years + 1 <= MAX_YEAR
    ensures TransitionDays(start, op, years).Some?
    ensures var reached := Ordinal(AddCalendarYears(start, years).value);
            var passed := Ordinal(AddCalendarYears(start, years + 1).value);
            && reached < passed
            && TransitionDays(start, op, years).value ==
               match op
               case Eq => [reached, passed]
               case Lt => [reached]
               case Ge => [reached]
               case Le => [passed]
               case Gt => [passed]
  {
    ThresholdsIncrease(start, years, years + 1);
    assert Anniversaries(start, []) == Some([]);
    assert [years, years + 1][1..] == [years + 1];
    assert Anniversaries(start, [years + 1]).Some?;
  }

  /** Evaluation raises exactly when the following anniversary is past year 9999. */
  lemma TenureDefined(start: Date, op: Operator, years: int, today: int)
    requires Valid(start) && years >= 0
    ensures TenureHolds(start, op, years, today).Some? <==> start.year + years + 1 <= MAX_YEAR
  {
  }

  /**
   * The computed transition days are exactly the days on which the condition's
   * truth differs from the day before.
   */
  lemma FlipDaysExact(start: Date, op: Operator, years: int, day: int)
    requires Valid(start) && years >= 0 && start.year + years + 1 <= MAX_YEAR
    ensures TransitionDays(start, op, years).Some?
    ensures TenureHolds(start, op, years, day) != TenureHolds(start, op, years, day - 1)
            <==> day in TransitionDays(start, op, years).value
  {
    TransitionDaysOf(start, op, years);
  }

  /** The largest number of years that the transition days of an operator need. */
  function LastYears(op: Operator, years: int): int {
    if op == Lt || op == Ge then years else years + 1
  }

  /** Scheduling raises exactly when its own last anniversary is past year 9999. */
  lemma TransitionDaysDefined(start: Date, op: Operator, years: int)
    requires Valid(start) && years >= 0
    ensures TransitionDays(start, op, years).Some? <==> start.year + LastYears(op, years) <= MAX_YEAR
  {
    AnniversaryIsTheSameDay(start, years);
    AnniversaryIsTheSameDay(start, years + 1);
    assert Anniversaries(start, []) == Some([]);
    assert [years, years + 1][1..] == [years + 1];
    assert Anniversaries(start, [years + 1]).Some? <==> AddCalendarYears(start, years + 1).Some?;
  }

  // ----- what the calendar and a tenure comparison mean

  /** The lengths of the months other than February alternate, with a second start in August. */
  lemma MonthLengths(year: int, month: int)
    requires 1 <= month <= 12
    ensures DaysInMonth(year, month) ==
            if month != 2 then 30 + (month + month / 8) % 2
            else if year % 400 == 0 || (year % 4 == 0 && year % 100 != 0) then 29 else 28
  {
  }

  predicate NextOnCalendar(d: Date, next: Date) {
    if d.day < DaysInMonth(d.year, d.month) then next == d.(day := d.day + 1)
    else if d.month < 12 then next == Date(d.year, d.month + 1, 1)
    else next == Date(d.year + 1, 1, 1)
  }

  /** The day after a date has the next ordinal, and the first day has ordinal 1. */
  lemma NextDay(d: ValidDate, next: ValidDate)
    requires NextOnCalendar(d, next)
    ensures Ordinal(next) == Ordinal(d) + 1
    ensures Ordinal(Date(1, 1, 1)) == 1
  {
    if next.year != d.year {
      YearLength(d.year);
      LastMonth(d.year);
    }
  }

  lemma LastMonth(year: int)
    ensures DaysBeforeMonth(year, 12) == if IsLeap(year) then 335 else 334
  {
    var february := DaysInMonth(year, 2);
    assert DaysBeforeMonth(year, 2) == 31;
    assert DaysBeforeMonth(year, 4) == 62 + february;
    assert DaysBeforeMonth(year, 6) == 123 + february;
    assert DaysBeforeMonth(year, 8) == 184 + february;
    assert DaysBeforeMonth(year, 10) == 245 + february;
  }

  /** Today the employee has completed `n` years: anniversary n is reached and anniversary n + 1 is not. */
  ghost predicate CompletedYears(start: Date, today: int, n: int)
    requires Valid(start)
  {
    var reached, next := AddCalendarYears(start, n), AddCalendarYears(start, n + 1);
    reached.Some? && Ordinal(reached.value) <= today && (next.Some? ==> today < Ordinal(next.value))
  }

  /** Tenure is counted in completed years, for every operator. */
  lemma TenureIsCompletedYears(start: Date, op: Operator, years: int, today: int, n: int)
    requires Valid(start) && CompletedYears(start, today, n) && TenureHolds(start, op, years, today).Some?
    ensures TenureHolds(start, op, years, today) ==
            Some(match op
                 case Eq => n == years
                 case Lt => n < years
                 case Le => n <= years
                 case Gt => n > years
                 case Ge => n >= years)
  {
    CompletedReaches(start, today, n, years);
    CompletedReaches(start, today, n, years + 1);
  }

  /** An anniversary is reached exactly when as many years are completed. */
  lemma CompletedReaches(start: Date, today: int, n: int, years: int)
    requires Valid(start) && CompletedYears(start, today, n) && AddCalendarYears(start, years).Some?
    ensures Ordinal(AddCalendarYears(start, years).value) <= today <==> years <= n
  {
    if years < n {
      ThresholdsIncrease(start, years, n);
    } else if years > n {
      AnniversaryIsTheSameDay(start, n + 1);
      AnniversaryIsTheSameDay(start, years);
      if years > n + 1 {
        ThresholdsIncrease(start, n + 1, years);
      }
    }
  }
}
