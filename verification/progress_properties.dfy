/**
 Properties of the year-progress computation that relate several calls or
 pin down its boundary behaviour: the first and last day of a year, order
 preservation, the number of filled cells, and the text round trip.
 */
module ProgressProperties {

  import opened Wrappers
  import opened RustInt
  import opened Calendar
  import opened YearProgress

  function Min(a: int, b: int): int { if a <= b then a else b }

  /** Elapsed days count calendar days: they grow by one from each day to the next within a year. */
  lemma DaysElapsedNext(d: Date)
    requires d.Valid() && NextDay(d).year == d.year
    ensures DaysElapsed(NextDay(d)) == DaysElapsed(d) + 1
  {
    DaysBetweenNext(d);
  }

  /** The elapsed-day count identifies the date: day `DaysElapsed(d) + 1` of the year is `d` again. */
  lemma DaysElapsedRoundTrip(d: Date)
    requires d.Valid()
    ensures DateOfOrdinal(d.year, DaysElapsed(d) + 1) == d
  {
    OrdinalRoundTrip(d);
  }

  /** January 1: no day has passed, 0 percent, and the inclusive bound still fills the first cell. */
  lemma NewYearsDay(y: int)
    ensures DaysElapsed(Date(y, 1, 1)) == 0
    ensures Percent(Date(y, 1, 1)) == 0
    ensures Till(Date(y, 1, 1)) == 0
    ensures Progress(Date(y, 1, 1)) == Report([Select] + seq(19, _ => Back), 0)
  {
    var r := Progress(Date(y, 1, 1));
    assert r.bar == [Select] + seq(19, _ => Back);
  }

  /**
   December 31: 364 days passed in a common year (99 percent), 365 in a
   leap year (100 percent); the bar is full either way.
   */
  lemma NewYearsEve(y: int)
    ensures DaysElapsed(Date(y, 12, 31)) == YearLength(y) - 1
    ensures Percent(Date(y, 12, 31)) == (if IsLeapYear(y) then 100 else 99)
    ensures Till(Date(y, 12, 31)) == (if IsLeapYear(y) then 20 else 19)
    ensures Progress(Date(y, 12, 31)).bar == seq(LineLen, _ => Select)
  {
    var r := Progress(Date(y, 12, 31));
    assert r.bar == seq(LineLen, _ => Select);
  }

  /** Only the last day of a leap year reaches 100 percent; every other date stays below. */
  lemma FullPercentOnlyOnLeapYearsEve(d: Date)
    requires d.Valid()
    ensures Percent(d) == 100 <==> IsLeapYear(d.year) && d.month == 12 && d.day == 31
  {
    NewYearsEve(d.year);
    if Percent(d) == 100 {
      OrdinalInjective(d, Date(d.year, 12, 31));
    }
  }

  /**
   Later dates of one year never show less progress: the elapsed days
   follow calendar order in both directions, and percentage and fill
   position never decrease.
   */
  lemma Monotone(a: Date, b: Date)
    requires a.Valid() && b.Valid() && a.year == b.year
    ensures OnOrBefore(a, b) <==> DaysElapsed(a) <= DaysElapsed(b)
    ensures OnOrBefore(a, b) ==> Percent(a) <= Percent(b)
    ensures OnOrBefore(a, b) ==> Till(a) <= Till(b)
  {
    OrdinalOrder(a, b);
  }

  /** `till + 1` cells of a bar are selected, clamped to the bar's length. */
  lemma {:induction false} SelectedCount(till: int, n: nat)
    ensures CountSelected(Render(till, n)) == (if till < 0 then 0 else Min(till + 1, n))
  {
    if n > 0 {
      var bar := Render(till, n);
      assert bar[..n - 1] == Render(till, n - 1);
      SelectedCount(till, n - 1);
    }
  }

  /** The bar `progress` draws has `min(till + 1, 20)` selected cells: always at least one. */
  lemma ProgressSelectedCount(today: Date)
    requires today.Valid()
    ensures CountSelected(Progress(today).bar) == Min(Till(today) + 1, LineLen)
    ensures 1 <= CountSelected(Progress(today).bar) <= LineLen
  {
    SelectedCount(Till(today), LineLen);
  }

  /** Each symbol reads back as the cell it was pushed for. */
  lemma SymbolRoundTrip(g: Glyph)
    ensures ParseSymbol(Symbol(g)[0]) == Some(g)
  {
  }

  /** Appending a cell to a bar appends that cell's symbol to its text. */
  lemma LineAppend(bar: seq<Glyph>, g: Glyph)
    ensures Line(bar + [g]) == Line(bar) + Symbol(g)
  {
    assert (bar + [g])[..|bar|] == bar;
  }

  /** The text of a bar reads back as the same bar. */
  lemma LineRoundTrip(bar: seq<Glyph>)
    ensures ParseLine(Line(bar)) == Some(bar)
  {
    var line := Line(bar);
    forall i | 0 <= i < |line|
      ensures ParseSymbol(line[i]) == Some(bar[i])
    {
      SymbolRoundTrip(bar[i]);
    }
    var parsed := seq(|line|, i requires 0 <= i < |line| => ParseSymbol(line[i]).value);
    assert parsed == bar;
  }

  /** Any text that reads as a bar is exactly that bar's text. */
  lemma ParseLineSound(line: string)
    requires ParseLine(line).Some?
    ensures Line(ParseLine(line).value) == line
  {
  }

  /** Day 100 of a common year: 99 days passed, 27 percent, position 5, six selected cells. */
  lemma HundredthDay()
    ensures DaysElapsed(Date(2023, 4, 10)) == 99
    ensures Percent(Date(2023, 4, 10)) == 27
    ensures Till(Date(2023, 4, 10)) == 5
    ensures Progress(Date(2023, 4, 10)).bar == seq(6, _ => Select) + seq(14, _ => Back)
  {
    var r := Progress(Date(2023, 4, 10));
    assert r.bar == seq(6, _ => Select) + seq(14, _ => Back);
  }
}
