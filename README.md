# Solar calculator: the calendar state machine

The solar calculator (class `Solar`) keeps one local date and time in five
fields: a signed `int` year and four `uint8_t` fields for month, day, hour
and minute. The fields are set through `setDateTime`, `setDate` and `setTime`
without any validation. They are read back through `GetHours`, `GetMinutes` and
`LeapYear`. They are moved by `DateCalc(part, offset)`, a recursive stepper.
For part 'M', 'D', 'h' or 'm', it adds the offset to a running value `tmp`. A
first `while` loop then carries whole units into the next coarser part, one
recursive call per unit. A second `while` loop borrows while `tmp` is
negative. Part 'Y' adds the offset to the year, and any other character
changes nothing. The day loops read a 13-entry month-length table, built once
at entry, whose February entry comes from the leap-year test of the year at
entry.

The project has three modules:

- `Calendar` (calendar.dfy) describes the date-time as a value (`Stamp`).
  - Each `while` loop of the stepper is a recursive function. `Carry…` is
    the loop that runs while `tmp` is too large; `Borrow…` is the loop that
    runs while `tmp` is negative.
  - Each part is the two loops composed in source order: `AddMonths`,
    `AddDays`, `AddHours` and `AddMinutes`.
  - Lemmas state what the loops achieve:
    - Months are conserved, and the result is given in closed form.
    - A forward day step conserves a day ordinal, measured with the month
      lengths of the table in use. A backward day step conserves a second
      ordinal, in which no year has a December.
    - Hour and minute steps decompose into single day and hour steps.
    - A ten-minute step gives the wall-clock successor.
  - `MonthLength` defines the table entries. `DateCalc` builds the
    13-entry table from the literal, as the source does, and is proved to
    agree with `MonthLength`.
- `Solar` (solar.dfy) is the class with its mutable fields, setters,
  getters, leap-year test and the recursive `DateCalc`.
  - Each part of the `switch` and each `while` loop is a method of its own.
  - Each method is proved to leave the fields equal to the `Calendar`
    function of the fields it started from.
- `Scenarios` (scenarios.dfy) holds the two walks of the test driver, as
  clients of the class, plus worked examples of the stepper's edge cases.

Four properties of the code are worth knowing. They are stated as they are,
not smoothed over:

- A month step keeps the day, valid or not. 2023-01-31 plus one month is
  2023-02-31 (`MonthStepKeepsDay`).
- The month can reach 0, and so can the day. One month back from January is
  month 0 of the same year (`AddMonthsToZero`). Two days back from March 1st
  is "February 30th", because the borrow loop adds the length of the month it
  leaves (`DayStepBackIntoFebruary`).
- February's length is fixed when the stepper is entered. Sixty days after
  2023-12-31 is 2024-03-01, because 2023's February is used
  (`FebruaryFrozenAtEntry`).
- A borrow across New Year skips December. Stepping back from January goes
  to month 0, whose table entry is 0, and from there to November. So 40
  days before 2025-01-05 is 2024-10-26 (`BorrowSkipsDecember`). The
  borrow path still counts back exactly k days, but on a calendar with no
  December. There, a result (month, day) stands for day `day` of the month
  after `month` (`AddDaysBack`).

A read of the month table with a month above 12 would be out of bounds in
the source. Each stepper member therefore requires exactly the condition
under which every table read it makes is in bounds:

- part 'D' needs month ≤ 12;
- part 'h' needs month ≤ 12 only if it takes a day step;
- part 'm' needs month ≤ 12 only if one of its hour steps takes a day step
  (`TableReadsInBounds`).

## Model

| member | source | states |
|---|---|---|
| Calendar.IsLeap | Solar.cpp:220-222 | a year is a leap year exactly when it is divisible by 4, and not by 100 unless also by 400 |
| Calendar.MonthLength | Solar.cpp:226-227 | entry 0 of the month table is 0; every month 1..12 has 28 to 31 days |
| Calendar.MonthLengthsFillYear | Solar.cpp:226-227 | the twelve month entries of the table add up to 366 days in a leap year and 365 otherwise |
| Calendar.AddYears | Solar.cpp:229-231 | case 'Y' moves the year by exactly the offset and changes no other field |
| Calendar.CarryMonths | Solar.cpp:235-238 | the first month loop conserves 12*year + tmp, changes only the year, and leaves tmp in 1..12 when it ran (unchanged otherwise) |
| Calendar.BorrowMonths | Solar.cpp:239-242 | the second month loop conserves 12*year + tmp, changes only the year, and leaves tmp in 0..11 when it ran (unchanged otherwise) |
| Calendar.AddMonths | Solar.cpp:232-244 | part 'M' conserves 12*year + month + offset, leaves the month in 0..12, keeps day, hour and minute, and changes only the month when no carry is needed |
| Calendar.AddMonthsClosedForm | Solar.cpp:232-244 | part 'M' in closed form: above 12 the month is (t-1) mod 12 + 1 and the year moves by (t-1) div 12; below 0 the month is t mod 12 and the year moves by t div 12, where t is month + offset |
| Calendar.AddMonthsToZero | Solar.cpp:239-243 | part 'M' yields month 0 exactly when month + offset is a non-positive multiple of 12 |
| Calendar.CarryDays | Solar.cpp:248-251 | the first day loop stops with tmp at most the length of the month reached; when it ran, tmp ≥ 1 and the month is 1..12; only year and month change |
| Calendar.BorrowDays | Solar.cpp:252-255 | the second day loop stops with tmp ≥ 0; when it ran, the month is at most 11 and tmp is below the length of the month after it; only year and month change |
| Calendar.AddDays | Solar.cpp:245-257 | part 'D' leaves the month at most 12 and the day at most 31 and keeps hour and minute |
| Calendar.NextMonthOrdinal | Solar.cpp:248-250 | one month step forward starts the new month's days right after the last day of the month left, under the entry table, also out of December into the next year |
| Calendar.CarryDaysOrdinal | Solar.cpp:248-251 | the first day loop conserves the day ordinal year*(length of year) + (days before the month) + tmp, all under the table fixed at entry |
| Calendar.AddDaysOrdinal | Solar.cpp:245-257 | whenever day + offset is not negative, part 'D' reaches exactly the date offset days on, counted with the month lengths of the year the call started in |
| Calendar.PrevMonthOrdinal | Solar.cpp:253-254 | one borrow step keeps the borrow ordinal year*(length of year - 31) + (days before the month after) + tmp: it adds the length of the month left and steps back a month, from month 0 to November of the year before |
| Calendar.BorrowDaysOrdinal | Solar.cpp:252-255 | the second day loop conserves the borrow ordinal, under the table fixed at entry |
| Calendar.AddDaysBack | Solar.cpp:245-257 | whenever day + offset is negative, part 'D' reaches exactly offset days back on the borrow count: the month lengths of the year the call started in, with no December |
| Calendar.AddDaysPaths | Solar.cpp:245-257 | part 'D' within a month only moves the day; after a forward carry the day is a real day of the month reached; after a borrow the day is below the length of the following month |
| Calendar.CarryHours | Solar.cpp:261-264 | the first hour loop stops with tmp ≤ 23, and ≥ 0 when it ran; it keeps hour and minute and is a no-op when tmp ≤ 23 |
| Calendar.BorrowHours | Solar.cpp:265-268 | the second hour loop stops with tmp ≥ 0, and ≤ 23 when it ran; it keeps hour and minute and is a no-op when tmp ≥ 0 |
| Calendar.AddHours | Solar.cpp:258-270 | part 'h' leaves the hour in 0..23, keeps the minute and the month bound, and changes only the hour when no day step is needed |
| Calendar.StepDays | Solar.cpp:263-267 | repeated single-day steps keep hour, minute and the month bound |
| Calendar.CarryHoursSteps | Solar.cpp:261-264 | the first hour loop with tmp ≥ 0 takes tmp div 24 day steps and leaves tmp mod 24 |
| Calendar.BorrowHoursSteps | Solar.cpp:265-268 | the second hour loop with tmp ≤ 23 takes tmp div 24 (negative) day steps and leaves tmp mod 24 |
| Calendar.AddHoursSteps | Solar.cpp:258-270 | part 'h' sets the hour to (hour + offset) mod 24 after (hour + offset) div 24 single-day steps |
| Calendar.CarryMinutes | Solar.cpp:274-277 | the first minute loop stops with tmp ≤ 59, and ≥ 0 when it ran; it keeps the minute field and is a no-op when tmp ≤ 59 |
| Calendar.BorrowMinutes | Solar.cpp:278-281 | the second minute loop stops with tmp ≥ 0, and ≤ 59 when it ran; it is a no-op when tmp ≥ 0 |
| Calendar.AddMinutes | Solar.cpp:271-283 | part 'm' leaves the minute in 0..59 and changes only the minute when no hour step is needed |
| Calendar.StepHours | Solar.cpp:276-280 | repeated single-hour steps keep the minute and the month bound |
| Calendar.CarryMinutesSteps | Solar.cpp:274-277 | the first minute loop with tmp ≥ 0 takes tmp div 60 hour steps and leaves tmp mod 60 |
| Calendar.BorrowMinutesSteps | Solar.cpp:278-281 | the second minute loop with tmp ≤ 59 takes tmp div 60 (negative) hour steps and leaves tmp mod 60 |
| Calendar.AddMinutesSteps | Solar.cpp:271-283 | part 'm' sets the minute to (minute + offset) mod 60 after (minute + offset) div 60 single-hour steps |
| Calendar.TenMinutesLater | Solar.cpp:271-283 | from a time on a ten-minute mark, ten minutes later is the next mark, the next hour at :00, or the next day at 00:00 |
| Solar.Solar.constructor | Solar.cpp:46-50 | the time zone, latitude and longitude are stored as given |
| Solar.Solar.SetDateTime | Solar.cpp:67-70 | all five date-time fields take the given values |
| Solar.Solar.SetDate | Solar.cpp:72-76 | year, month and day take the given values; hour and minute are kept |
| Solar.Solar.SetTime | Solar.cpp:78-80 | hour and minute take the given values; the date is kept |
| Solar.Solar.GetHours | Solar.cpp:38-40 | returns the hour field |
| Solar.Solar.GetMinutes | Solar.cpp:42-44 | returns the minute field |
| Solar.Solar.LeapYear | Solar.cpp:220-222 | the current year is a leap year exactly under the Gregorian rule |
| Solar.Solar.DateCalc | Solar.cpp:224-285 | every part leaves the fields equal to that part's calendar function of the fields at entry; 'Y' adds the offset to the year; any other character changes nothing |
| Solar.Solar.DateCalcMonth | Solar.cpp:232-244 | case 'M' leaves the fields equal to AddMonths of the fields at entry |
| Solar.Solar.DateCalcDay | Solar.cpp:245-257 | case 'D', reading the table built at entry, leaves the fields equal to AddDays of the fields at entry |
| Solar.Solar.DateCalcHour | Solar.cpp:258-270 | case 'h' leaves the fields equal to AddHours of the fields at entry |
| Solar.Solar.DateCalcMinute | Solar.cpp:271-283 | case 'm' leaves the fields equal to AddMinutes of the fields at entry |
| Solar.Solar.CarryMonthsLoop | Solar.cpp:235-238 | the loop leaves the fields and tmp as CarryMonths says |
| Solar.Solar.BorrowMonthsLoop | Solar.cpp:239-242 | the loop leaves the fields and tmp as BorrowMonths says |
| Solar.Solar.CarryDaysLoop | Solar.cpp:248-251 | the loop leaves the fields and tmp as CarryDays says |
| Solar.Solar.BorrowDaysLoop | Solar.cpp:252-255 | the loop leaves the fields and tmp as BorrowDays says |
| Solar.Solar.CarryHoursLoop | Solar.cpp:261-264 | the loop leaves the fields and tmp as CarryHours says |
| Solar.Solar.BorrowHoursLoop | Solar.cpp:265-268 | the loop leaves the fields and tmp as BorrowHours says |
| Solar.Solar.CarryMinutesLoop | Solar.cpp:274-277 | the loop leaves the fields and tmp as CarryMinutes says |
| Solar.Solar.BorrowMinutesLoop | Solar.cpp:278-281 | the loop leaves the fields and tmp as BorrowMinutes says |
| Scenarios.YearWalk | main.cpp:47-54 | fifty steps of -25 years from 2025-06-21 12:01 visit 2000, 1975, ..., 775; after each, the debug line's leap mark and date-time are the Gregorian mark of that year and that year's 06-21 12:01 |
| Scenarios.TenMinuteStep | main.cpp:57-62 | each ten-minute step of the day walk reaches the next date-time of the walk, with 23:50 going to 00:00 on June 22 |
| Scenarios.DayInTenMinuteSteps | main.cpp:57-62 | 144 ten-minute steps from 2025-06-21 00:00 read 00:10, 00:20, ..., 23:50, 00:00 and end at 2025-06-22 00:00 |
| Scenarios.MonthStepKeepsDay | Solar.cpp:232-244 | 2023-01-31 plus one month is 2023-02-31; one month back from January is month 0; thirteen back is month 0 of the year before |
| Scenarios.DayStepsAcrossLeapFebruary | Solar.cpp:245-257 | in 2024, a day after February 28th is February 29th, and a day after that is March 1st |
| Scenarios.DayStepBackIntoFebruary | Solar.cpp:252-255 | two days back from 2025-03-01 is 2025-02-30 |
| Scenarios.BorrowSkipsDecember | Solar.cpp:252-255 | from January with a running value from -61 to -32, the borrow loop passes through month 0 to November of the year before and stops in October with the value raised by 61, so December is skipped |
| Scenarios.FortyDaysBeforeJanuaryFifth | Solar.cpp:245-257 | 40 days before 2025-01-05 is 2024-10-26 |
| Scenarios.FebruaryFrozenAtEntry | Solar.cpp:226-251 | sixty days after 2023-12-31 is 2024-03-01, because February keeps 2023's length |

## Left out

- The astronomy is not part of this model, because it is floating-point arithmetic: `radians`, `degrees`, `DecimalDate`, `GregorianToJulian`, `DecimalTime`, the sunrise, noon, sunset, elevation and azimuth functions, and `DayTime` (Solar.cpp:27-36, 52-65, 91-218). The constructor's three `double` parameters are stored as `real` values that nothing reads.
- `DebugPrint` and the optional debug print in `setTime` are not modelled, because they are output only.
- The Arduino `setup`/`loop` entry points and the driver's `printf` calls are not modelled. `YearWalk` returns, per step, the leap mark and the date-time that the debug line shows. `DayInTenMinuteSteps` returns, per step, the hour and minute. The `DayTime` flag the driver prints beside the hour and minute belongs to the astronomy and is left out. So are the driver's closing astronomy printouts (main.cpp:65-72).
- Solar.Solar.constructor: the source leaves the five date-time fields uninitialised. The model leaves them unconstrained, and states nothing about them.
- Solar.Solar.SetDateTime: arguments are taken already within 0..255, as the `Byte` subset type. The source's implicit truncation of wider arguments to `uint8_t` is not modelled.
- The integer widths of the year (`int`), the `int32_t` running value and the `int` offset are unbounded here, so overflow of these is not modelled. The `int8_t` table entries (at most 31) and the values the stepper stores back into the `uint8_t` fields (0..12, 0..31, 0..23, 0..59) always fit, and the model proves those bounds.
- Solar.Solar.DateCalc: the source's out-of-bounds table read, with a month above 12, is undefined behaviour. The model excludes it by precondition (`TableReadsInBounds`) instead of giving it a meaning.
- Each `switch` case and each `while` loop of `DateCalc` is a separate method of the class. The recursion, the order of the updates and the table built once at entry are kept.
