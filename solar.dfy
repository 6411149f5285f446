/**
 * The date-time state of the solar calculator: a class with the five fields
 * the calculator updates in place, its setters and getters, the leap-year
 * test and the recursive date stepper, each proved to follow module Calendar.
 */
module Solar {
  import opened Calendar

  /** The rank of a part in the carry chain minute -> hour -> day -> month -> year. */
  function Rank(part: char): nat
  {
    match part
    case 'M' => 1
    case 'D' => 2
    case 'h' => 3
    case 'm' => 4
    case _ => 0
  }

  class Solar {
    // Observer configuration, stored by the constructor and never rewritten.
    // The astronomy that reads them is not part of this model.
    const timeZone: real
    const latitude: real
    const longitude: real

    // The date-time fields.
    var year: int
    var month: Byte
    var day: Byte
    var hour: Byte
    var minute: Byte

    /** The date-time fields as one value. */
    ghost function Now(): Stamp
      reads this
    {
      Stamp(year, month, day, hour, minute)
    }

    /** Stores the observer configuration; the date-time fields are left undetermined. */
    constructor (timeZone: real, latitude: real, longitude: real)
      ensures this.timeZone == timeZone && this.latitude == latitude && this.longitude == longitude
    {
      this.timeZone := timeZone;
      this.latitude := latitude;
      this.longitude := longitude;
    }

    /** Overwrites the date and time, with no validation. */
    method SetDateTime(year: int, month: Byte, day: Byte, hour: Byte, minute: Byte)
      modifies this
      ensures Now() == Stamp(year, month, day, hour, minute)
    {
      SetDate(year, month, day);
      SetTime(hour, minute);
    }

    /** Overwrites the date, with no validation; the time is kept. */
    method SetDate(year: int, month: Byte, day: Byte)
      modifies this
      ensures Now() == old(Now()).(year := year, month := month, day := day)
    {
      this.year := year;
      this.month := month;
      this.day := day;
    }

    /** Overwrites the time, with no validation; the date is kept. */
    method SetTime(hour: Byte, minute: Byte)
      modifies this
      ensures Now() == old(Now()).(hour := hour, minute := minute)
    {
      this.hour := hour;
      this.minute := minute;
    }

    /** The hour field of the current date-time. */
    function GetHours(): (h: Byte)
      reads this
      ensures h == Now().hour
    {
      hour
    }

    /** The minute field of the current date-time. */
    function GetMinutes(): (m: Byte)
      reads this
      ensures m == Now().minute
    {
      minute
    }

    /** Whether the current year is a Gregorian leap year. */
    function LeapYear(): (r: bool)
      reads this
      ensures r <==> year % 4 == 0 && (year % 100 != 0 || year % 400 == 0)
    {
      IsLeap(year)
    }

    /**
     * Moves the field named by `part` ('Y', 'M', 'D', 'h' or 'm') by `offset`,
     * carrying one unit at a time into the next coarser field by calling
     * itself; any other character changes nothing. The month-length table is
     * built once at entry, with February's length from the year at entry.
     * Each `while` loop of the switch is a method of its own below.
     */
    method DateCalc(part: char, offset: int)
      requires TableReadsInBounds(Now(), part, offset)
      modifies this
      ensures part == 'Y' ==> Now() == AddYears(old(Now()), offset)
      ensures part == 'M' ==> Now() == AddMonths(old(Now()), offset)
      ensures part == 'D' ==> Now() == AddDays(old(Now()), offset)
      ensures part == 'h' ==> Now() == AddHours(old(Now()), offset)
      ensures part == 'm' ==> Now() == AddMinutes(old(Now()), offset)
      ensures part !in "YMDhm" ==> Now() == old(Now())
      decreases Rank(part), 2
    {
      var leap := LeapYear();
      var months := [0, 31, if leap then 29 else 28, 31, 30, 31, 30, 31, 31, 30, 31, 30, 31];
      match part {
        case 'Y' => year := year + offset;
        case 'M' => DateCalcMonth(offset);
        case 'D' => DateCalcDay(leap, months, offset);
        case 'h' => DateCalcHour(offset);
        case 'm' => DateCalcMinute(offset);
        case _ =>
      }
    }

    /** Part 'M' of DateCalc. */
    method DateCalcMonth(offset: int)
      modifies this
      ensures Now() == AddMonths(old(Now()), offset)
      decreases 1, 1
    {
      var tmp := month + offset;
      tmp := CarryMonthsLoop(tmp);
      tmp := BorrowMonthsLoop(tmp);
      month := tmp;
    }

    /** Part 'D' of DateCalc, reading the table `months` that DateCalc built at entry. */
    method DateCalcDay(leap: bool, months: seq<int>, offset: int)
      requires month <= 12 && leap == IsLeap(year)
      requires |months| == 13 && forall m :: 0 <= m <= 12 ==> months[m] == MonthLength(leap, m)
      modifies this
      ensures Now() == AddDays(old(Now()), offset)
      decreases 2, 1
    {
      var tmp := day + offset;
      tmp := CarryDaysLoop(leap, months, tmp);
      tmp := BorrowDaysLoop(leap, months, tmp);
      day := tmp;
    }

    /** Part 'h' of DateCalc. */
    method DateCalcHour(offset: int)
      requires month <= 12 || 0 <= hour + offset <= 23
      modifies this
      ensures Now() == AddHours(old(Now()), offset)
      decreases 3, 1
    {
      var tmp := hour + offset;
      tmp := CarryHoursLoop(tmp);
      tmp := BorrowHoursLoop(tmp);
      hour := tmp;
    }

    /** Part 'm' of DateCalc. */
    method DateCalcMinute(offset: int)
      requires month <= 12 || HourStepsStayInDay(hour, (minute + offset) / 60)
      modifies this
      ensures Now() == AddMinutes(old(Now()), offset)
      decreases 4, 1
    {
      var tmp := minute + offset;
      tmp := CarryMinutesLoop(tmp);
      tmp := BorrowMinutesLoop(tmp);
      minute := tmp;
    }

    /** The first loop of part 'M'. */
    method CarryMonthsLoop(tmp0: int) returns (tmp: int)
      modifies this
      ensures Pending(Now(), tmp) == CarryMonths(old(Now()), tmp0)
      decreases 1, 0
    {
      tmp := tmp0;
      while tmp > 12
        invariant CarryMonths(Now(), tmp) == CarryMonths(old(Now()), tmp0)
        decreases tmp
      {
        ghost var before, t0 := Now(), tmp;
        tmp := tmp - 12;
        DateCalc('Y', 1);
        assert CarryMonths(Now(), tmp) == CarryMonths(before, t0);
      }
    }

    /** The second loop of part 'M'. */
    method BorrowMonthsLoop(tmp0: int) returns (tmp: int)
      modifies this
      ensures Pending(Now(), tmp) == BorrowMonths(old(Now()), tmp0)
      decreases 1, 0
    {
      tmp := tmp0;
      while tmp < 0
        invariant BorrowMonths(Now(), tmp) == BorrowMonths(old(Now()), tmp0)
        decreases -tmp
      {
        ghost var before, t0 := Now(), tmp;
        tmp := tmp + 12;
        DateCalc('Y', -1);
        assert BorrowMonths(Now(), tmp) == BorrowMonths(before, t0);
      }
    }

    /** The first loop of part 'D', reading the table `months` built at entry. */
    method CarryDaysLoop(leap: bool, months: seq<int>, tmp0: int) returns (tmp: int)
      requires month <= 12
      requires |months| == 13 && forall m :: 0 <= m <= 12 ==> months[m] == MonthLength(leap, m)
      modifies this
      ensures Pending(Now(), tmp) == CarryDays(leap, old(Now()), tmp0)
      decreases 2, 0
    {
      tmp := tmp0;
      while tmp > months[month]
        invariant month <= 12
        invariant CarryDays(leap, Now(), tmp) == CarryDays(leap, old(Now()), tmp0)
        decreases tmp, if month == 0 then 1 else 0
      {
        ghost var before, t0 := Now(), tmp;
        tmp := tmp - months[month];
        DateCalc('M', 1);
        assert CarryDays(leap, Now(), tmp) == CarryDays(leap, before, t0);
      }
    }

    /** The second loop of part 'D', reading the table `months` built at entry. */
    method BorrowDaysLoop(leap: bool, months: seq<int>, tmp0: int) returns (tmp: int)
      requires month <= 12
      requires |months| == 13 && forall m :: 0 <= m <= 12 ==> months[m] == MonthLength(leap, m)
      modifies this
      ensures Pending(Now(), tmp) == BorrowDays(leap, old(Now()), tmp0)
      decreases 2, 0
    {
      tmp := tmp0;
      while tmp < 0
        invariant month <= 12
        invariant BorrowDays(leap, Now(), tmp) == BorrowDays(leap, old(Now()), tmp0)
        decreases -tmp, if month == 0 then 1 else 0
      {
        ghost var before, t0 := Now(), tmp;
        tmp := tmp + months[month];
        DateCalc('M', -1);
        assert BorrowDays(leap, Now(), tmp) == BorrowDays(leap, before, t0);
      }
    }

    /** The first loop of part 'h'. */
    method CarryHoursLoop(tmp0: int) returns (tmp: int)
      requires month <= 12 || tmp0 <= 23
      modifies this
      ensures Pending(Now(), tmp) == CarryHours(old(Now()), tmp0)
      decreases 3, 0
    {
      tmp := tmp0;
      while tmp > 23
        invariant month <= 12 || tmp <= 23
        invariant CarryHours(Now(), tmp) == CarryHours(old(Now()), tmp0)
        decreases tmp
      {
        ghost var before, t0 := Now(), tmp;
        tmp := tmp - 24;
        DateCalc('D', 1);
        assert CarryHours(Now(), tmp) == CarryHours(before, t0);
      }
    }

    /** The second loop of part 'h'. */
    method BorrowHoursLoop(tmp0: int) returns (tmp: int)
      requires month <= 12 || tmp0 >= 0
      modifies this
      ensures Pending(Now(), tmp) == BorrowHours(old(Now()), tmp0)
      decreases 3, 0
    {
      tmp := tmp0;
      while tmp < 0
        invariant month <= 12 || tmp >= 0
        invariant BorrowHours(Now(), tmp) == BorrowHours(old(Now()), tmp0)
        decreases -tmp
      {
        ghost var before, t0 := Now(), tmp;
        tmp := tmp + 24;
        DateCalc('D', -1);
        BorrowHoursStep(before, t0);
      }
    }

    /** The first loop of part 'm'. */
    method CarryMinutesLoop(tmp0: int) returns (tmp: int)
      requires month <= 12 || HourStepsStayInDay(hour, tmp0 / 60)
      modifies this
      ensures Pending(Now(), tmp) == CarryMinutes(old(Now()), tmp0)
      decreases 4, 0
    {
      tmp := tmp0;
      while tmp > 59
        invariant month <= 12 || HourStepsStayInDay(hour, tmp / 60)
        invariant CarryMinutes(Now(), tmp) == CarryMinutes(old(Now()), tmp0)
        decreases tmp
      {
        ghost var before, t0 := Now(), tmp;
        tmp := tmp - 60;
        DateCalc('h', 1);
        assert CarryMinutes(Now(), tmp) == CarryMinutes(before, t0);
      }
    }

    /** The second loop of part 'm'. */
    method BorrowMinutesLoop(tmp0: int) returns (tmp: int)
      requires month <= 12 || HourStepsStayInDay(hour, tmp0 / 60)
      modifies this
      ensures Pending(Now(), tmp) == BorrowMinutes(old(Now()), tmp0)
      decreases 4, 0
    {
      tmp := tmp0;
      while tmp < 0
        invariant month <= 12 || HourStepsStayInDay(hour, tmp / 60)
        invariant BorrowMinutes(Now(), tmp) == BorrowMinutes(old(Now()), tmp0)
        decreases -tmp
      {
        ghost var before, t0 := Now(), tmp;
        tmp := tmp + 60;
        DateCalc('h', -1);
        assert BorrowMinutes(Now(), tmp) == BorrowMinutes(before, t0);
      }
    }
  }
}
