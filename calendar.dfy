/**
 * The calendar arithmetic of the solar calculator, as values.
 *
 * `Stamp` is the five date-time fields of a calculator. Each `while` loop of
 * the date stepper (`DateCalc`) is one recursive function here (`Carry…`
 * for the loop that runs while the running value is too large, `Borrow…` for
 * the one that runs while it is negative), and each part of the stepper is
 * the composition of its two loops in the order the stepper runs them. The
 * class in module Solar is proved to follow these functions; the lemmas at the
 * end of each section say what the loops achieve.
 */
module Calendar {

  /** An unsigned 8-bit field (`uint8_t`). */
  type Byte = x: int | 0 <= x < 256

  /** The date-time fields: a signed year and four unsigned 8-bit fields. */
  datatype Stamp = Stamp(year: int, month: Byte, day: Byte, hour: Byte, minute: Byte)

  /** The fields as they stand part-way through a stepping loop, with the loop's running value. */
  datatype Pending = Pending(at: Stamp, tmp: int)

  // ---------------------------------------------------------------------------
  // Leap years and the month-length table

  /**
   * The leap-year test, written as the nested conditional of the source.
   * (Only divisibility is tested, so the truncating `%` of C and Dafny's
   * Euclidean `%` agree here, also for negative years.)
   */
  function IsLeap(year: int): (r: bool)
    ensures r <==> year % 4 == 0 && (year % 100 != 0 || year % 400 == 0)
  {
    if year % 4 == 0 then
      if year % 100 == 0 then
        if year % 400 == 0 then true else false
      else true
    else false
  }

  /**
   * The number of days in month `m` of a year whose February has 29 days
   * exactly when `leap`, by the usual rule; 0 for the month number 0.
   */
  function MonthLength(leap: bool, m: int): (r: int)
    requires 0 <= m <= 12
    ensures m == 0 ==> r == 0
    ensures 1 <= m ==> 28 <= r <= 31
  {
    if m == 0 then 0
    else if m == 2 then (if leap then 29 else 28)
    else if m == 4 || m == 6 || m == 9 || m == 11 then 30
    else 31
  }

  /** The number of days in a year whose February has 29 days exactly when `leap`. */
  function YearLength(leap: bool): int
  {
    if leap then 366 else 365
  }

  /** The number of days in the months before month `m` of such a year (0 for months 0 and 1). */
  function DaysBefore(leap: bool, m: int): int
    requires 0 <= m <= 13
  {
    if m <= 1 then 0 else DaysBefore(leap, m - 1) + MonthLength(leap, m - 1)
  }

  /** The twelve month lengths add up to the length of the year. */
  lemma {:induction false} MonthLengthsFillYear(leap: bool)
    ensures DaysBefore(leap, 13) == YearLength(leap)
  {
    calc {
      DaysBefore(leap, 13);
      DaysBefore(leap, 12) + MonthLength(leap, 12);
      DaysBefore(leap, 11) + MonthLength(leap, 11) + 31;
      DaysBefore(leap, 10) + MonthLength(leap, 10) + 30 + 31;
      DaysBefore(leap, 9) + MonthLength(leap, 9) + 31 + 30 + 31;
      DaysBefore(leap, 8) + MonthLength(leap, 8) + 30 + 31 + 30 + 31;
      DaysBefore(leap, 7) + MonthLength(leap, 7) + 31 + 30 + 31 + 30 + 31;
      DaysBefore(leap, 6) + MonthLength(leap, 6) + 31 + 31 + 30 + 31 + 30 + 31;
      DaysBefore(leap, 5) + MonthLength(leap, 5) + 214;
      DaysBefore(leap, 4) + MonthLength(leap, 4) + 245;
      DaysBefore(leap, 3) + MonthLength(leap, 3) + 275;
      DaysBefore(leap, 2) + MonthLength(leap, 2) + 306;
      MonthLength(leap, 1) + MonthLength(leap, 2) + 306;
    }
  }

  /**
   * The position of day `day` of month `month` of `year` on a count of days
   * in which every year has the lengths of the table `leap`: the yardstick
   * by which part 'D' moves, since it keeps one table for the whole call.
   */
  function DayOrdinal(leap: bool, year: int, month: int, day: int): int
    requires 0 <= month <= 12
  {
    year * YearLength(leap) + DaysBefore(leap, month) + day
  }

  /**
   * The yardstick of the borrow path of part 'D': the borrow loop adds the
   * length of the month it leaves, so a (month, day) it yields stands for day
   * `day` of the month after `month`; and a borrow out of January passes
   * through month 0 to November, so no December is ever counted. Every year
   * is then 31 days shorter than under the table.
   */
  function BorrowOrdinal(leap: bool, year: int, month: int, day: int): int
    requires 0 <= month <= 12
  {
    year * (YearLength(leap) - 31) + DaysBefore(leap, month + 1) + day
  }

  // ---------------------------------------------------------------------------
  // Part 'Y'

  /** Part 'Y': the year moves by `k` and nothing else changes. */
  function AddYears(s: Stamp, k: int): (r: Stamp)
    ensures r.year == s.year + k
    ensures r.(year := s.year) == s
  {
    s.(year := s.year + k)
  }

  // ---------------------------------------------------------------------------
  // Part 'M'

  /** The first loop of part 'M': while the month value exceeds 12, take 12 off and add a year. */
  function CarryMonths(s: Stamp, tmp: int): (r: Pending)
    ensures 12 * r.at.year + r.tmp == 12 * s.year + tmp
    ensures r.at == s.(year := r.at.year)
    ensures r.tmp <= 12
    ensures tmp > 12 ==> 1 <= r.tmp
    ensures tmp <= 12 ==> r == Pending(s, tmp)
    decreases tmp
  {
    if tmp > 12 then CarryMonths(AddYears(s, 1), tmp - 12) else Pending(s, tmp)
  }

  /** The second loop of part 'M': while the month value is negative, add 12 and take a year off. */
  function BorrowMonths(s: Stamp, tmp: int): (r: Pending)
    ensures 12 * r.at.year + r.tmp == 12 * s.year + tmp
    ensures r.at == s.(year := r.at.year)
    ensures 0 <= r.tmp
    ensures tmp < 0 ==> r.tmp <= 11
    ensures tmp >= 0 ==> r == Pending(s, tmp)
    decreases -tmp
  {
    if tmp < 0 then BorrowMonths(AddYears(s, -1), tmp + 12) else Pending(s, tmp)
  }

  /**
   * Part 'M': the month moves by `k`, carrying into the year. The month count
   * `12 * year + month` moves by exactly `k`; the month lands in [0, 12] (0
   * is reachable, since the borrow loop stops at 0 rather than 1); day, hour
   * and minute are left alone, so the day is never clamped to the new month.
   */
  function AddMonths(s: Stamp, k: int): (r: Stamp)
    ensures 12 * r.year + r.month == 12 * s.year + s.month + k
    ensures 0 <= r.month <= 12
    ensures s.month + k > 12 ==> 1 <= r.month
    ensures s.month + k < 0 ==> r.month <= 11
    ensures r.day == s.day && r.hour == s.hour && r.minute == s.minute
    ensures 0 <= s.month + k <= 12 ==> r == s.(month := s.month + k)
  {
    var up := CarryMonths(s, s.month + k);
    var down := BorrowMonths(up.at, up.tmp);
    down.at.(month := down.tmp)
  }

  /** Where part 'M' lands, in closed form. */
  lemma AddMonthsClosedForm(s: Stamp, k: int)
    ensures var t, r := s.month + k, AddMonths(s, k);
      if t > 12 then r.month == (t - 1) % 12 + 1 && r.year == s.year + (t - 1) / 12
      else if t < 0 then r.month == t % 12 && r.year == s.year + t / 12
      else r.month == t && r.year == s.year
  {
  }

  /** Part 'M' yields month 0 exactly when the month value ends at or below 0 on a multiple of 12. */
  lemma AddMonthsToZero(s: Stamp, k: int)
    ensures AddMonths(s, k).month == 0 <==> s.month + k <= 0 && (s.month + k) % 12 == 0
  {
    AddMonthsClosedForm(s, k);
  }

  // ---------------------------------------------------------------------------
  // Part 'D'

  /**
   * The first loop of part 'D': while the day value exceeds the table's length
   * of the current month, take that length off and step the month forward.
   * `leap` is the table's February flag, fixed when the call began.
   */
  function CarryDays(leap: bool, s: Stamp, tmp: int): (r: Pending)
    requires s.month <= 12
    ensures r.at.month <= 12
    ensures r.tmp <= MonthLength(leap, r.at.month)
    ensures tmp > MonthLength(leap, s.month) ==> 1 <= r.tmp && 1 <= r.at.month
    ensures r.at.day == s.day && r.at.hour == s.hour && r.at.minute == s.minute
    ensures tmp <= MonthLength(leap, s.month) ==> r == Pending(s, tmp)
    decreases tmp, if s.month == 0 then 1 else 0
  {
    var len := MonthLength(leap, s.month);
    if tmp > len then CarryDays(leap, AddMonths(s, 1), tmp - len) else Pending(s, tmp)
  }

  /**
   * The second loop of part 'D': while the day value is negative, add the
   * table's length of the current month and step the month back. The loop
   * stops as soon as the value is not negative, so it can stop on 0, and on a
   * value larger than the length of the month it stepped back to.
   */
  function BorrowDays(leap: bool, s: Stamp, tmp: int): (r: Pending)
    requires s.month <= 12
    ensures r.at.month <= 12
    ensures 0 <= r.tmp
    ensures tmp < 0 ==> r.at.month <= 11 && r.tmp < MonthLength(leap, r.at.month + 1)
    ensures r.at.day == s.day && r.at.hour == s.hour && r.at.minute == s.minute
    ensures tmp >= 0 ==> r == Pending(s, tmp)
    decreases -tmp, if s.month == 0 then 1 else 0
  {
    if tmp < 0 then BorrowDays(leap, AddMonths(s, -1), tmp + MonthLength(leap, s.month)) else Pending(s, tmp)
  }

  /**
   * Part 'D': the day moves by `k`, carrying into the month, with the month
   * lengths of the year the call started in. Lemma AddDaysPaths bounds where
   * it lands; AddDaysOrdinal (day + k >= 0) and AddDaysBack (day + k < 0)
   * say exactly where.
   */
  function AddDays(s: Stamp, k: int): (r: Stamp)
    requires s.month <= 12
    ensures r.month <= 12 && r.day <= 31
    ensures r.hour == s.hour && r.minute == s.minute
  {
    var leap := IsLeap(s.year);
    var up := CarryDays(leap, s, s.day + k);
    var down := BorrowDays(leap, up.at, up.tmp);
    down.at.(day := down.tmp)
  }

  /**
   * Where part 'D' lands, judged by the month lengths of the year the call
   * started in (February does not change length when a carry crosses into
   * another year):
   *  - within the month (0 <= day + k <= its length) only the day changes; it can become 0;
   *  - on the carry path the result is a real day of a real month of that table;
   *  - on the borrow path the day is less than the length of the month after
   *    the resulting one (the length that was added last), which can exceed the
   *    resulting month's own length (1 March minus 2 days is 30 February).
   */
  lemma AddDaysPaths(s: Stamp, k: int)
    requires s.month <= 12
    ensures var leap, r := IsLeap(s.year), AddDays(s, k);
      && (0 <= s.day + k <= MonthLength(leap, s.month) ==> r == s.(day := s.day + k))
      && (s.day + k > MonthLength(leap, s.month) ==> 1 <= r.month && 1 <= r.day <= MonthLength(leap, r.month))
      && (s.day + k < 0 ==> r.month <= 11 && r.day < MonthLength(leap, r.month + 1))
  {
  }

  /** One month forward starts the next month's days right after the current month's last day. */
  lemma NextMonthOrdinal(leap: bool, s: Stamp)
    requires s.month <= 12
    ensures var n := AddMonths(s, 1);
      DayOrdinal(leap, n.year, n.month, 0) == DayOrdinal(leap, s.year, s.month, MonthLength(leap, s.month))
  {
    var n := AddMonths(s, 1);
    if s.month == 12 {
      AddMonthsClosedForm(s, 1);
      MonthLengthsFillYear(leap);
      assert n.year == s.year + 1 && n.month == 1;
      assert (s.year + 1) * YearLength(leap) == s.year * YearLength(leap) + YearLength(leap);
    } else {
      assert n == s.(month := s.month + 1);
    }
  }

  /**
   * The first loop of part 'D' conserves the day ordinal of (year, month,
   * tmp) under the table it reads: each step takes the current month's
   * length off tmp and moves to the next month, whose days start exactly
   * that much later (one year later for a step out of December).
   */
  lemma {:induction false} CarryDaysOrdinal(leap: bool, s: Stamp, tmp: int)
    requires s.month <= 12
    ensures var r := CarryDays(leap, s, tmp);
      DayOrdinal(leap, r.at.year, r.at.month, r.tmp) == DayOrdinal(leap, s.year, s.month, tmp)
    decreases tmp, if s.month == 0 then 1 else 0
  {
    var len := MonthLength(leap, s.month);
    if tmp > len {
      NextMonthOrdinal(leap, s);
      CarryDaysOrdinal(leap, AddMonths(s, 1), tmp - len);
    }
  }

  /**
   * Part 'D' forward (whenever day + k is not negative, so the borrow loop
   * does not run): the date reached is exactly `k` days on, counted with the
   * month lengths of the year the call started in.
   */
  lemma AddDaysOrdinal(s: Stamp, k: int)
    requires s.month <= 12 && s.day + k >= 0
    ensures var leap, r := IsLeap(s.year), AddDays(s, k);
      DayOrdinal(leap, r.year, r.month, r.day) == DayOrdinal(leap, s.year, s.month, s.day) + k
  {
    CarryDaysOrdinal(IsLeap(s.year), s, s.day + k);
  }

  /**
   * One month step back, taken by the borrow loop after adding the current
   * month's length, keeps the borrow ordinal; out of month 0 it goes to
   * November of the year before, one 334-day (or 335-day) year back.
   */
  lemma PrevMonthOrdinal(leap: bool, s: Stamp)
    requires s.month <= 12
    ensures var p := AddMonths(s, -1);
      BorrowOrdinal(leap, p.year, p.month, MonthLength(leap, s.month)) == BorrowOrdinal(leap, s.year, s.month, 0)
  {
    var p := AddMonths(s, -1);
    if s.month == 0 {
      AddMonthsClosedForm(s, -1);
      MonthLengthsFillYear(leap);
      assert p.year == s.year - 1 && p.month == 11;
      assert DaysBefore(leap, 12) == YearLength(leap) - 31;
      assert (s.year - 1) * (YearLength(leap) - 31) == s.year * (YearLength(leap) - 31) - (YearLength(leap) - 31);
    } else {
      assert p == s.(month := s.month - 1);
    }
  }

  /** The second loop of part 'D' conserves the borrow ordinal of (year, month, tmp). */
  lemma {:induction false} BorrowDaysOrdinal(leap: bool, s: Stamp, tmp: int)
    requires s.month <= 12
    ensures var r := BorrowDays(leap, s, tmp);
      BorrowOrdinal(leap, r.at.year, r.at.month, r.tmp) == BorrowOrdinal(leap, s.year, s.month, tmp)
    decreases -tmp, if s.month == 0 then 1 else 0
  {
    if tmp < 0 {
      PrevMonthOrdinal(leap, s);
      BorrowDaysOrdinal(leap, AddMonths(s, -1), tmp + MonthLength(leap, s.month));
    }
  }

  /**
   * Part 'D' backward (day + k negative, so the carry loop does not run): the
   * date reached is exactly `k` days back on the borrow count, with the month
   * lengths of the year the call started in and no December.
   */
  lemma AddDaysBack(s: Stamp, k: int)
    requires s.month <= 12 && s.day + k < 0
    ensures var leap, r := IsLeap(s.year), AddDays(s, k);
      BorrowOrdinal(leap, r.year, r.month, r.day) == BorrowOrdinal(leap, s.year, s.month, s.day) + k
  {
    BorrowDaysOrdinal(IsLeap(s.year), s, s.day + k);
  }

  // ---------------------------------------------------------------------------
  // Part 'h'

  /** The first loop of part 'h': while the hour value exceeds 23, take 24 off and step a day forward. */
  function CarryHours(s: Stamp, tmp: int): (r: Pending)
    requires s.month <= 12 || tmp <= 23
    ensures r.tmp <= 23
    ensures tmp > 23 ==> 0 <= r.tmp
    ensures s.month <= 12 ==> r.at.month <= 12
    ensures r.at.hour == s.hour && r.at.minute == s.minute
    ensures tmp <= 23 ==> r == Pending(s, tmp)
    decreases tmp
  {
    if tmp > 23 then CarryHours(AddDays(s, 1), tmp - 24) else Pending(s, tmp)
  }

  /** The second loop of part 'h': while the hour value is negative, add 24 and step a day back. */
  function BorrowHours(s: Stamp, tmp: int): (r: Pending)
    requires s.month <= 12 || tmp >= 0
    ensures 0 <= r.tmp
    ensures tmp < 0 ==> r.tmp <= 23
    ensures s.month <= 12 ==> r.at.month <= 12
    ensures r.at.hour == s.hour && r.at.minute == s.minute
    ensures tmp >= 0 ==> r == Pending(s, tmp)
    decreases -tmp
  {
    if tmp < 0 then BorrowHours(AddDays(s, -1), tmp + 24) else Pending(s, tmp)
  }

  /** Proof step for the loop method of the second hour loop: the recursive case of BorrowHours, unfolded once. */
  lemma BorrowHoursStep(s: Stamp, tmp: int)
    requires s.month <= 12 && tmp < 0
    ensures BorrowHours(s, tmp) == BorrowHours(AddDays(s, -1), tmp + 24)
  {
  }

  /** Part 'h': the hour moves by `k`, carrying into the day one day at a time. */
  function AddHours(s: Stamp, k: int): (r: Stamp)
    requires s.month <= 12 || 0 <= s.hour + k <= 23
    ensures 0 <= r.hour <= 23 && r.minute == s.minute
    ensures s.month <= 12 ==> r.month <= 12
    ensures 0 <= s.hour + k <= 23 ==> r == s.(hour := s.hour + k)
  {
    var up := CarryHours(s, s.hour + k);
    var down := BorrowHours(up.at, up.tmp);
    down.at.(hour := down.tmp)
  }

  /** `n` single-day steps (forward for positive `n`, back for negative `n`), each a part 'D' step of its own. */
  function StepDays(s: Stamp, n: int): (r: Stamp)
    requires s.month <= 12 || n == 0
    ensures s.month <= 12 ==> r.month <= 12
    ensures r.hour == s.hour && r.minute == s.minute
    decreases if n < 0 then -n else n
  {
    if n > 0 then StepDays(AddDays(s, 1), n - 1)
    else if n < 0 then StepDays(AddDays(s, -1), n + 1)
    else s
  }

  lemma {:induction false} CarryHoursSteps(s: Stamp, tmp: int)
    requires s.month <= 12 || tmp <= 23
    requires tmp >= 0
    ensures CarryHours(s, tmp) == Pending(StepDays(s, tmp / 24), tmp % 24)
    decreases tmp
  {
    if tmp > 23 {
      CarryHoursSteps(AddDays(s, 1), tmp - 24);
      assert (tmp - 24) / 24 == tmp / 24 - 1 && (tmp - 24) % 24 == tmp % 24;
    }
  }

  lemma {:induction false} BorrowHoursSteps(s: Stamp, tmp: int)
    requires s.month <= 12 || tmp >= 0
    requires tmp <= 23
    ensures BorrowHours(s, tmp) == Pending(StepDays(s, tmp / 24), tmp % 24)
    decreases -tmp
  {
    if tmp < 0 {
      BorrowHoursSteps(AddDays(s, -1), tmp + 24);
      assert (tmp + 24) / 24 == tmp / 24 + 1 && (tmp + 24) % 24 == tmp % 24;
    }
  }

  /**
   * Part 'h' in closed form: the hour becomes (hour + k) mod 24 and the date
   * takes (hour + k) div 24 single-day steps (Euclidean division).
   */
  lemma {:induction false} AddHoursSteps(s: Stamp, k: int)
    requires s.month <= 12 || 0 <= s.hour + k <= 23
    ensures AddHours(s, k) == StepDays(s, (s.hour + k) / 24).(hour := (s.hour + k) % 24)
  {
    var t := s.hour + k;
    if t >= 0 {
      CarryHoursSteps(s, t);
      var up := CarryHours(s, t);
      BorrowHoursSteps(up.at, up.tmp);
    } else {
      BorrowHoursSteps(s, t);
    }
  }

  // ---------------------------------------------------------------------------
  // Part 'm'

  /**
   * Moving the hour by `steps` single-hour steps keeps every intermediate hour
   * value in [0, 23], so none of the steps takes a day step.
   */
  predicate HourStepsStayInDay(hour: Byte, steps: int)
  {
    if steps > 0 then hour + steps <= 23
    else if steps < 0 then hour <= 24 && 0 <= hour + steps
    else true
  }

  /** The first loop of part 'm': while the minute value exceeds 59, take 60 off and step an hour forward. */
  function CarryMinutes(s: Stamp, tmp: int): (r: Pending)
    requires s.month <= 12 || HourStepsStayInDay(s.hour, tmp / 60)
    ensures r.tmp <= 59
    ensures tmp > 59 ==> 0 <= r.tmp
    ensures s.month <= 12 ==> r.at.month <= 12
    ensures r.at.minute == s.minute
    ensures tmp <= 59 ==> r == Pending(s, tmp)
    decreases tmp
  {
    if tmp > 59 then CarryMinutes(AddHours(s, 1), tmp - 60) else Pending(s, tmp)
  }

  /** The second loop of part 'm': while the minute value is negative, add 60 and step an hour back. */
  function BorrowMinutes(s: Stamp, tmp: int): (r: Pending)
    requires s.month <= 12 || HourStepsStayInDay(s.hour, tmp / 60)
    ensures 0 <= r.tmp
    ensures tmp < 0 ==> r.tmp <= 59
    ensures s.month <= 12 ==> r.at.month <= 12
    ensures r.at.minute == s.minute
    ensures tmp >= 0 ==> r == Pending(s, tmp)
    decreases -tmp
  {
    if tmp < 0 then BorrowMinutes(AddHours(s, -1), tmp + 60) else Pending(s, tmp)
  }

  /** Part 'm': the minute moves by `k`, carrying into the hour one hour at a time. */
  function AddMinutes(s: Stamp, k: int): (r: Stamp)
    requires s.month <= 12 || HourStepsStayInDay(s.hour, (s.minute + k) / 60)
    ensures 0 <= r.minute <= 59
    ensures s.month <= 12 ==> r.month <= 12
    ensures 0 <= s.minute + k <= 59 ==> r == s.(minute := s.minute + k)
  {
    var up := CarryMinutes(s, s.minute + k);
    var down := BorrowMinutes(up.at, up.tmp);
    down.at.(minute := down.tmp)
  }

  /** `n` single-hour steps (forward for positive `n`, back for negative `n`), each a part 'h' step of its own. */
  function StepHours(s: Stamp, n: int): (r: Stamp)
    requires s.month <= 12 || HourStepsStayInDay(s.hour, n)
    ensures s.month <= 12 ==> r.month <= 12
    ensures r.minute == s.minute
    decreases if n < 0 then -n else n
  {
    if n > 0 then StepHours(AddHours(s, 1), n - 1)
    else if n < 0 then StepHours(AddHours(s, -1), n + 1)
    else s
  }

  lemma {:induction false} CarryMinutesSteps(s: Stamp, tmp: int)
    requires s.month <= 12 || HourStepsStayInDay(s.hour, tmp / 60)
    requires tmp >= 0
    ensures CarryMinutes(s, tmp) == Pending(StepHours(s, tmp / 60), tmp % 60)
    decreases tmp
  {
    if tmp > 59 {
      CarryMinutesSteps(AddHours(s, 1), tmp - 60);
      assert (tmp - 60) / 60 == tmp / 60 - 1 && (tmp - 60) % 60 == tmp % 60;
    }
  }

  lemma {:induction false} BorrowMinutesSteps(s: Stamp, tmp: int)
    requires s.month <= 12 || HourStepsStayInDay(s.hour, tmp / 60)
    requires tmp <= 59
    ensures BorrowMinutes(s, tmp) == Pending(StepHours(s, tmp / 60), tmp % 60)
    decreases -tmp
  {
    if tmp < 0 {
      BorrowMinutesSteps(AddHours(s, -1), tmp + 60);
      assert (tmp + 60) / 60 == tmp / 60 + 1 && (tmp + 60) % 60 == tmp % 60;
    }
  }

  /**
   * Part 'm' in closed form: the minute becomes (minute + k) mod 60 and the
   * time takes (minute + k) div 60 single-hour steps (Euclidean division).
   */
  lemma {:induction false} AddMinutesSteps(s: Stamp, k: int)
    requires s.month <= 12 || HourStepsStayInDay(s.hour, (s.minute + k) / 60)
    ensures AddMinutes(s, k) == StepHours(s, (s.minute + k) / 60).(minute := (s.minute + k) % 60)
  {
    var t := s.minute + k;
    if t >= 0 {
      CarryMinutesSteps(s, t);
      var up := CarryMinutes(s, t);
      BorrowMinutesSteps(up.at, up.tmp);
    } else {
      BorrowMinutesSteps(s, t);
    }
  }

  /**
   * Ten minutes on from a time on a ten-minute mark: within the hour only the
   * minute moves; from minute 50 the hour moves on, and from 23:50 the day
   * moves on through a part 'D' step.
   */
  lemma TenMinutesLater(s: Stamp)
    requires s.month <= 12 && s.hour <= 23 && s.minute <= 50 && s.minute % 10 == 0
    ensures AddMinutes(s, 10) ==
      if s.minute < 50 then s.(minute := s.minute + 10)
      else if s.hour < 23 then s.(hour := s.hour + 1, minute := 0)
      else AddDays(s, 1).(hour := 0, minute := 0)
  {
    if s.minute == 50 {
      AddMinutesSteps(s, 10);
      assert StepHours(s, 1) == AddHours(s, 1);
      if s.hour == 23 {
        AddHoursSteps(s, 1);
        assert StepDays(s, 1) == AddDays(s, 1);
      }
    }
  }

  // ---------------------------------------------------------------------------
  // The stepper

  /**
   * Whether every read of the month-length table that a stepper call makes is
   * within its 13 entries: part 'D' reads the entry of the current month;
   * parts 'h' and 'm' read it only through the day steps they take.
   */
  predicate TableReadsInBounds(s: Stamp, part: char, offset: int)
  {
    match part
    case 'D' => s.month <= 12
    case 'h' => s.month <= 12 || 0 <= s.hour + offset <= 23
    case 'm' => s.month <= 12 || HourStepsStayInDay(s.hour, (s.minute + offset) / 60)
    case _ => true
  }
}
