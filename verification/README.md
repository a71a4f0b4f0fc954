# Year progress, modelled in Dafny

The service answers `GET /progress` with how far the current calendar year
has gone: a percentage and a 20-cell text bar drawn with `▓` (selected) and
`▒` (back) cells. This project models the computation behind that answer,
`count_percent` and `progress` in `src/main.rs`, with the date passed in as
a parameter instead of read from the local clock:

1. **Days elapsed.** Whole days from January 1 of the date's year to the
   date. The date library's `signed_duration_since(..).num_days()` is
   modelled as the lengths of the years in between plus the difference of
   the two days of the year. The model proves this equals the difference of
   two proleptic Gregorian day numbers. The
   calendar is the ISO 8601 one: a year is a leap year when it is
   divisible by 4, except centuries not divisible by 400. The model proves
   that the difference is the day of the year minus one.
2. **Percent and fill position.** `percent = (days * 100) / 365` in `i64`.
   The divisor is fixed at 365, whatever the real length of the year. The
   fill position is `(len * percent as i32) / 100` in `i32`. Both divisions
   truncate toward zero, as Rust's `/` does. The cast wraps and the `i32`
   product can overflow; both are written out.
3. **Bar.** Cell `n` of the 20 cells is back when `n > till` and selected
   otherwise. So `till + 1` cells are selected, one more than the position.

Files:

- `wrappers.dfy` (`Wrappers`): the `Option` result, used for an `i32`
  overflow and for text that does not read back as a bar.
- `rust_int.dfy` (`RustInt`): `i32`/`i64` ranges, truncating division, the
  wrapping `as i32` cast, and `i32` multiplication that fails on overflow.
- `calendar.dfy` (`Calendar`): dates, leap years, month lengths, ordinals,
  day numbers, and the inverse of the ordinal.
- `year_progress.dfy` (`YearProgress`): the constants, `count_percent`,
  the bar, its text, and `progress` both as a function and as a method
  with the string-building loop of `progress`.
- `progress_properties.dfy` (`ProgressProperties`): properties that relate
  several calls: first and last day of the year, monotonicity, number of
  selected cells, text round trip, and a worked day-100 example.

The `n > till` test fills `till + 1` cells, one more than the position,
clamped to 20 (`SelectedCount`). For every real date the percentage stays
in 0..100 (`Percent`'s ensures), and it reaches 100 only on December 31 of
a leap year.

## Model

| member | source | states |
|---|---|---|
| RustInt.Div | src/main.rs:65-66 | Rust's `/` with a positive divisor: the remainder is smaller than the divisor and has the dividend's sign. For a non-negative dividend it is floor division |
| RustInt.MulI32 | src/main.rs:66 | the definition of the `i32` product: the product when it fits in `i32`, failure otherwise. The usable fact is the overflow clause of `Position` |
| RustInt.AsI32 | src/main.rs:66 | `as i32` gives an `i32` congruent to its input modulo 2^32, and leaves every value already in `i32` range unchanged |
| Calendar.DaysInMonth | src/main.rs:62-64 | month lengths of the calendar the date library uses: 28 to 31 days, and 29 exactly for February of a leap year (divisible by 4, except centuries not divisible by 400) |
| Calendar.DaysBetween | src/main.rs:64 | `signed_duration_since(..).num_days()`: for two dates of one year it is the difference of their ordinals. Across years, `DaysBetweenIsDayNumberDifference` and `DaysBetweenNext` state what it counts |
| Calendar.CumulativeTableIsSum | src/main.rs:64 | the cumulative month table equals the month lengths added one by one, and it ends at the year's length: 366 in leap years, 365 otherwise |
| Calendar.Ordinal | src/main.rs:62-64 | the day of the year runs from 1 to 366, reaches 366 only in a leap year, and is 1 exactly on January 1 |
| Calendar.YearStep | src/main.rs:64 | the day number of January 1 of the next year is greater by exactly the length of the current year |
| Calendar.YearSpanClosedForm | src/main.rs:64 | adding up year lengths between two years gives the difference of the closed-form day counts of their January 1sts, in either direction |
| Calendar.DaysBetweenIsDayNumberDifference | src/main.rs:64 | the whole-day difference of two dates is the difference of their running day numbers |
| Calendar.DaysBetweenNext | src/main.rs:64 | the whole-day difference counts days: from any date to the next, December 31 to January 1 included, it is exactly 1, and the day number grows by 1 |
| Calendar.OrdinalOrder | src/main.rs:62-64 | within one year, one date is on or before another exactly when its ordinal is less than or equal |
| Calendar.OrdinalInjective | src/main.rs:62-64 | two valid dates of one year with the same ordinal are equal |
| Calendar.DateOfOrdinalFrom | src/main.rs:62-64 | a search from month `m` on finds a valid date of the year, in month `m` or later, whose ordinal is the requested one |
| Calendar.DateOfOrdinal | src/main.rs:62-64 | every day number 1..year length belongs to a valid date of that year |
| Calendar.OrdinalRoundTrip | src/main.rs:62-64 | converting a date to its ordinal and back gives the same date |
| YearProgress.FixedDivisorIsCommonYear | src/main.rs:10 | definitional: the fixed `YEAR_DAYS` of 365 equals the real length of the year exactly in common years, and is one short in leap years. Its effect on the output is stated by `NewYearsEve` and `FullPercentOnlyOnLeapYearsEve` |
| YearProgress.Symbol | src/main.rs:8-9 | `BACK_SYMBOL` and `SELECT_SYMBOL` are each one character of text |
| YearProgress.ParseSymbol | src/main.rs:8-9 | a character reads as a cell only when it is that cell's symbol; characters other than the two symbols read as nothing |
| YearProgress.DaysElapsed | src/main.rs:62-64 | the whole-day difference from January 1 of the same year is the ordinal minus 1: between 0 and 365, and 365 only in a leap year |
| YearProgress.Percent | src/main.rs:65 | the percentage is the truncated quotient of `days * 100` by the fixed 365: `365 * p <= days * 100 < 365 * (p + 1)`, so it stays in 0..100 |
| YearProgress.Position | src/main.rs:66 | the `i32` fill position fails exactly when `len * percent` overflows. Otherwise it is `len * percent / 100` truncated toward zero, between 0 and `len` for a non-negative `len` |
| YearProgress.ProductFitsI32 | src/main.rs:66 | bars of at most 21474836 cells, in either sign, never overflow `len * percent` |
| YearProgress.CountPercent | src/main.rs:61-68 | `count_percent` fails only when `len * percent` overflows `i32`, which cannot happen for these lengths. Otherwise it returns the truncated percentage and the fill position computed from it |
| YearProgress.Till | src/main.rs:46-47 | for the 20-cell bar `count_percent` always succeeds, with a position in 0..20 that is `20 * percent / 100` truncated |
| YearProgress.Render | src/main.rs:50-56 | the loop yields exactly `n` cells; cell `i` is selected iff `i <= till`, so no back cell comes before a selected one |
| YearProgress.Line | src/main.rs:48-56 | the pushed text has one character per cell, and each character is the symbol of its cell |
| YearProgress.Progress | src/main.rs:45-59 | `progress` returns a 20-cell bar whose cell `n` is selected iff `n <= till`, together with the same percentage `count_percent` computed |
| YearProgress.LineStep | src/main.rs:50-55 | one more loop step appends `BACK_SYMBOL` when `n > till` and `SELECT_SYMBOL` otherwise |
| YearProgress.BuildLine | src/main.rs:48-56 | the `for n in 0..line_len` loop builds a 20-character text, exactly the text of the rendered bar |
| YearProgress.ProgressLine | src/main.rs:45-59 | the string-building loop produces a 20-character text, the text of the `progress` bar, and passes the percentage through unchanged |
| ProgressProperties.DaysElapsedNext | src/main.rs:62-64 | between two days in a row of one year, the elapsed-day count goes up by one |
| ProgressProperties.DaysElapsedRoundTrip | src/main.rs:62-64 | the elapsed-day count determines the date: day `days + 1` of the year is the date again |
| ProgressProperties.NewYearsDay | src/main.rs:50-66 | on January 1: 0 days, 0 percent, position 0, and a bar of one selected cell followed by 19 back cells |
| ProgressProperties.NewYearsEve | src/main.rs:62-66 | on December 31: 364 days and 99 percent in a common year, 365 days and 100 percent in a leap year. The position is 19 or 20, and the bar is fully selected either way |
| ProgressProperties.FullPercentOnlyOnLeapYearsEve | src/main.rs:65 | the percentage is 100 exactly on December 31 of a leap year |
| ProgressProperties.Monotone | src/main.rs:64-66 | within one year the elapsed days follow calendar order (both directions), and a later date never has a lower percentage or fill position |
| ProgressProperties.SelectedCount | src/main.rs:50-56 | a rendered bar of `n` cells has `min(till + 1, n)` selected cells, or none when `till < 0` |
| ProgressProperties.ProgressSelectedCount | src/main.rs:46-56 | the `progress` bar has `min(till + 1, 20)` selected cells, so between 1 and 20 |
| ProgressProperties.SymbolRoundTrip | src/main.rs:8-9 | each symbol reads back as the cell it was pushed for, so the two symbols differ |
| ProgressProperties.LineAppend | src/main.rs:50-56 | appending a cell to a bar appends its symbol to the text |
| ProgressProperties.LineRoundTrip | src/main.rs:8-9 | the bar's text reads back as the same bar, so the two symbols tell the cells apart |
| ProgressProperties.ParseLineSound | src/main.rs:8-9 | any text that reads back as a bar is exactly that bar's text |
| ProgressProperties.HundredthDay | src/main.rs:61-68 | April 10 of the common year 2023 is 99 days in: 27 percent, position 5, six selected cells then 14 back cells |

## Left out

- `main` (src/main.rs:18-32): process start-up, `.env` loading, listener takeover and binding. This is I/O with no behaviour to state.
- `get_progress` and `Response` (src/main.rs:12-16, 34-43): routing, the blocking-pool offload and JSON serialisation. These are framework and library calls. The serialised string is itself wrapped as a JSON value a second time; that double encoding is not modelled.
- The clock read `Local::now().date()` and local-time-zone resolution: the date is a parameter of every operation. Calls on the same date give the same result because the functions are pure.
- The UTF-8 encoding of the symbols: each symbol is one character here. In the Rust `String` each takes 3 bytes, so the text is 60 bytes long.
- The date library's bounded year range: years are unbounded integers. Building January 1 of the current year can therefore never fail in the model.
- Release builds: an `i32` overflow in `len * percent` is modelled as a failure, as a debug build panics. A release build would wrap instead. It cannot happen for the 20-cell bar either way.
