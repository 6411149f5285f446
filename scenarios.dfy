/**
 * The two walks the test driver makes through the calendar, as clients of
 * class Solar: fifty steps of 25 years back with the leap-year mark read after
 * each, and one day in steps of ten minutes with the clock read after each.
 */
module Scenarios {
  import opened Calendar
  import opened Solar

  /**
   * From 2025-06-21 12:01, fifty calls that move the year back by 25, reading
   * after each the leap-year mark and the date-time that the debug line
   * shows: the years visited are 2000, 1975, ..., 775, and nothing but the
   * year ever changes.
   */
  method YearWalk(sun: Solar) returns (lines: seq<(bool, Stamp)>)
    modifies sun
    ensures |lines| == 50
    ensures forall i :: 0 <= i < 50 ==>
      lines[i] == (IsLeap(2000 - 25 * i), Stamp(2000 - 25 * i, 6, 21, 12, 1))
    ensures sun.Now() == Stamp(775, 6, 21, 12, 1)
  {
    sun.SetDateTime(2025, 6, 21, 12, 1);
    lines := [];
    var i := 0;
    while i < 50
      invariant 0 <= i <= 50
      invariant |lines| == i
      invariant forall j :: 0 <= j < i ==>
        lines[j] == (IsLeap(2000 - 25 * j), Stamp(2000 - 25 * j, 6, 21, 12, 1))
      invariant sun.Now() == Stamp(2025 - 25 * i, 6, 21, 12, 1)
    {
      sun.DateCalc('Y', -25);
      var leap := sun.LeapYear();
      lines := lines + [(leap, Stamp(sun.year, sun.month, sun.day, sun.hour, sun.minute))];
      i := i + 1;
    }
  }

  /** The clock reading (hour, minute) after `n` steps of ten minutes from midnight, the hour counted modulo 24. */
  function ClockAfter(n: nat): (int, int)
  {
    ((n / 6) % 24, 10 * (n % 6))
  }

  /** The date-time after `n` steps of ten minutes from 2025-06-21 00:00, for n <= 144. */
  function DayClock(n: nat): Stamp
    requires n <= 144
  {
    if n < 144 then Stamp(2025, 6, 21, n / 6, 10 * (n % 6)) else Stamp(2025, 6, 22, 0, 0)
  }

  /** Proof step for DayInTenMinuteSteps: the walk's date-time after `n` steps shows ClockAfter(n). */
  lemma DayClockReading(n: nat)
    requires n <= 144
    ensures (DayClock(n).hour, DayClock(n).minute) == ClockAfter(n)
  {
  }

  /** One call that moves the minute by 10 takes the walk from step `i` to step `i + 1`. */
  lemma TenMinuteStep(i: nat)
    requires i < 144
    ensures AddMinutes(DayClock(i), 10) == DayClock(i + 1)
  {
    var s := DayClock(i);
    TenMinutesLater(s);
    if i % 6 < 5 {
      assert (i + 1) / 6 == i / 6 && (i + 1) % 6 == i % 6 + 1;
    } else if i < 143 {
      assert (i + 1) / 6 == i / 6 + 1 && (i + 1) % 6 == 0;
    } else {
      AddDaysPaths(s, 1);
    }
  }

  /**
   * From 2025-06-21 00:00, 144 calls that move the minute by 10, reading the
   * clock after each: the readings run 00:10, 00:20, ..., 23:50, 00:00, and
   * the last call carries over midnight into June 22.
   */
  method DayInTenMinuteSteps(sun: Solar) returns (clock: seq<(int, int)>)
    modifies sun
    ensures |clock| == 144
    ensures forall i :: 0 <= i < 144 ==> clock[i] == ClockAfter(i + 1)
    ensures sun.Now() == Stamp(2025, 6, 22, 0, 0)
  {
    sun.SetDateTime(2025, 6, 21, 0, 0);
    clock := [];
    var i := 0;
    while i < 144
      invariant 0 <= i <= 144
      invariant |clock| == i
      invariant forall j :: 0 <= j < i ==> clock[j] == ClockAfter(j + 1)
      invariant sun.Now() == DayClock(i)
    {
      TenMinuteStep(i);
      DayClockReading(i + 1);
      sun.DateCalc('m', 10);
      var h := sun.GetHours();
      var m := sun.GetMinutes();
      clock := clock + [(h, m)];
      i := i + 1;
    }
  }

  /** A month step keeps the day, valid or not: January 31st plus one month is February 31st. */
  lemma MonthStepKeepsDay()
    ensures AddMonths(Stamp(2023, 1, 31, 8, 0), 1) == Stamp(2023, 2, 31, 8, 0)
    ensures AddMonths(Stamp(2023, 1, 15, 8, 0), -1) == Stamp(2023, 0, 15, 8, 0)
    ensures AddMonths(Stamp(2023, 1, 15, 8, 0), -13) == Stamp(2022, 0, 15, 8, 0)
  {
    AddMonthsClosedForm(Stamp(2023, 1, 15, 8, 0), -13);
  }

  /** Day steps across the end of a leap February. */
  lemma DayStepsAcrossLeapFebruary()
    ensures AddDays(Stamp(2024, 2, 28, 0, 0), 1) == Stamp(2024, 2, 29, 0, 0)
    ensures AddDays(Stamp(2024, 2, 29, 0, 0), 1) == Stamp(2024, 3, 1, 0, 0)
  {
    AddDaysPaths(Stamp(2024, 2, 28, 0, 0), 1);
    AddMonthsClosedForm(Stamp(2024, 2, 29, 0, 0), 1);
  }

  /** A day step back from March 1st by two days ends on February 30th, for the borrow adds March's length. */
  lemma DayStepBackIntoFebruary()
    ensures AddDays(Stamp(2025, 3, 1, 0, 0), -2) == Stamp(2025, 2, 30, 0, 0)
  {
    var s := Stamp(2025, 3, 1, 0, 0);
    assert CarryDays(false, s, -1) == Pending(s, -1);
    assert BorrowDays(false, s, -1) == BorrowDays(false, Stamp(2025, 2, 1, 0, 0), 30);
  }

  /**
   * Sixty days after 2023-12-31 is 2024-03-01, not 2024-02-29: the call
   * takes February's length from 2023, where the walk starts.
   */
  lemma FebruaryFrozenAtEntry()
    ensures AddDays(Stamp(2023, 12, 31, 0, 0), 60) == Stamp(2024, 3, 1, 0, 0)
  {
    AddMonthsClosedForm(Stamp(2023, 12, 31, 0, 0), 1);
    assert CarryDays(false, Stamp(2023, 12, 31, 0, 0), 91) == CarryDays(false, Stamp(2024, 1, 31, 0, 0), 60);
    assert CarryDays(false, Stamp(2024, 1, 31, 0, 0), 60) == CarryDays(false, Stamp(2024, 2, 31, 0, 0), 29);
    assert CarryDays(false, Stamp(2024, 2, 31, 0, 0), 29) == Pending(Stamp(2024, 3, 31, 0, 0), 1);
  }

  /**
   * A borrow across New Year skips December: from January with a running
   * value between -61 and -32, the borrow loop adds January's 31 days and
   * steps to month 0, adds that month's 0 days and steps to November of the
   * year before, adds November's 30 days and stops in October.
   */
  lemma BorrowSkipsDecember(leap: bool, s: Stamp, tmp: int)
    requires s.month == 1 && -61 <= tmp < -31
    ensures BorrowDays(leap, s, tmp) == Pending(s.(year := s.year - 1, month := 10), tmp + 61)
  {
    var zero := AddMonths(s, -1);
    assert zero == s.(month := 0);
    var nov := AddMonths(zero, -1);
    AddMonthsClosedForm(zero, -1);
    assert nov == s.(year := s.year - 1, month := 11);
    var oct := AddMonths(nov, -1);
    assert oct == s.(year := s.year - 1, month := 10);
    assert BorrowDays(leap, s, tmp) == BorrowDays(leap, zero, tmp + 31);
    assert BorrowDays(leap, zero, tmp + 31) == BorrowDays(leap, nov, tmp + 31);
    assert BorrowDays(leap, nov, tmp + 31) == BorrowDays(leap, oct, tmp + 61);
  }

  /** So 40 days before 2025-01-05 is 2024-10-26, where 2024-11-26 is the calendar date. */
  lemma FortyDaysBeforeJanuaryFifth()
    ensures AddDays(Stamp(2025, 1, 5, 0, 0), -40) == Stamp(2024, 10, 26, 0, 0)
  {
    var s := Stamp(2025, 1, 5, 0, 0);
    assert CarryDays(IsLeap(2025), s, -35) == Pending(s, -35);
    BorrowSkipsDecember(IsLeap(2025), s, -35);
  }
}
