/**
 The year-progress computation of the service: how many days of the current
 year have passed, that count as a percentage of a fixed 365-day year, the
 fill position of a 20-cell bar, and the bar itself.

 The wall-clock read of the service is replaced by the `today` parameter.
 */
module YearProgress {

  import opened Wrappers
  import opened RustInt
  import opened Calendar

  /** One cell of the bar: the back (empty) glyph or the selected (filled) one. */
  datatype Glyph = Back | Select

  /** The text pushed for a back cell, U+2592 MEDIUM SHADE. */
  const BackSymbol: string := "\U{2592}"

  /** The text pushed for a selected cell, U+2593 DARK SHADE. */
  const SelectSymbol: string := "\U{2593}"

  /** The fixed divisor of the percentage, whatever the year's real length. */
  const YearDays: int := 365

  /** The fixed divisor is the real length of the year exactly in common years. */
  lemma FixedDivisorIsCommonYear(y: int)
    ensures YearDays == YearLength(y) <==> !IsLeapYear(y)
    ensures YearDays < YearLength(y) <==> IsLeapYear(y)
  {
  }

  /** Number of cells in the bar. */
  const LineLen: int := 20

  /** The text pushed for a cell: always a single character. */
  function Symbol(g: Glyph): (text: string)
    ensures |text| == 1
  {
    match g
    case Back => BackSymbol
    case Select => SelectSymbol
  }

  /** Whole days from January 1 of `today`'s year to `today`. */
  function DaysElapsed(today: Date): (days: int)
    requires today.Valid()
    ensures days == Ordinal(today) - 1
    ensures 0 <= days <= 365
    ensures days == 365 ==> IsLeapYear(today.year)
  {
    DaysBetween(today, Date(today.year, 1, 1))
  }

  /**
   Elapsed days as a percentage of a 365-day year, truncated; `i64`
   arithmetic, where `days * 100` is at most 36500 and cannot overflow.
   */
  function Percent(today: Date): (percent: int)
    requires today.Valid()
    ensures 0 <= percent <= 100
    ensures YearDays * percent <= DaysElapsed(today) * 100 < YearDays * (percent + 1)
  {
    var days := DaysElapsed(today);
    Div(days * 100, YearDays)
  }

  /**
   Fill position of a bar of `len` cells for `percent`: `(len * percent as i32) / 100`
   in `i32` arithmetic, `None` when the product overflows (a panic).
   */
  function Position(len: int, percent: int): (r: Option<int>)
    requires IsI32(len) && 0 <= percent <= 100
    ensures r.Some? <==> IsI32(len * percent)
    ensures r.Some? && len >= 0 ==>
              0 <= r.value <= len && 100 * r.value <= len * percent < 100 * (r.value + 1)
    ensures r.Some? && len < 0 ==>
              len <= r.value <= 0 && 100 * (r.value - 1) < len * percent <= 100 * r.value
  {
    ProductBounds(len, percent);
    match MulI32(len, AsI32(percent))
    case None => None
    case Some(product) => Some(Div(product, 100))
  }

  lemma ProductBounds(len: int, percent: int)
    requires 0 <= percent <= 100
    ensures len >= 0 ==> 0 <= len * percent <= len * 100
    ensures len < 0 ==> len * 100 <= len * percent <= 0
  {
    MulMonotone(percent, 100, Abs(len));
    MulMonotone(0, percent, Abs(len));
  }

  /** The pair `count_percent` returns: fill position and percentage. */
  datatype Fill = Fill(position: int, percent: int)

  /**
   `count_percent(len)` for the date `today`: the percentage of the year
   passed and the fill position of a `len`-cell bar, or `None` when
   `len * percent` overflows `i32`.
   */
  function CountPercent(len: int, today: Date): (r: Option<Fill>)
    requires IsI32(len) && today.Valid()
    ensures r.None? <==> !IsI32(len * Percent(today))
    ensures r.Some? ==> r.value.percent == Percent(today) && Position(len, r.value.percent) == Some(r.value.position)
    ensures -21474836 <= len <= 21474836 ==> r.Some?
  {
    var percent := Percent(today);
    ProductFitsI32(len, percent);
    match Position(len, percent)
    case None => None
    case Some(position) => Some(Fill(position, percent))
  }

  /** A bar of at most 21474836 cells never overflows `i32` in `len * percent`. */
  lemma ProductFitsI32(len: int, percent: int)
    requires 0 <= percent <= 100
    ensures -21474836 <= len <= 21474836 ==> IsI32(len * percent)
  {
    if 0 <= len <= 21474836 {
      MulMonotone(len, 21474836, percent);
      MulMonotone(0, len, percent);
      MulMonotone(percent, 100, 21474836);
    } else if -21474836 <= len < 0 {
      MulMonotone(-21474836, len, percent);
      MulMonotone(len, 0, percent);
      MulMonotone(percent, 100, 21474836);
    }
  }

  /** The fill position `till` of the 20-cell bar for `today`. */
  function Till(today: Date): (till: int)
    requires today.Valid()
    ensures 0 <= till <= LineLen
    ensures 100 * till <= LineLen * Percent(today) < 100 * (till + 1)
    ensures CountPercent(LineLen, today) == Some(Fill(till, Percent(today)))
  {
    CountPercent(LineLen, today).value.position
  }

  /**
   The first `n` cells the bar loop produces: cell `i` is back when
   `i > till` and selected otherwise, so `till + 1` cells are selected.
   */
  function Render(till: int, n: nat): (bar: seq<Glyph>)
    ensures |bar| == n
    ensures forall i :: 0 <= i < n ==> (bar[i] == Select <==> i <= till)
    ensures forall i, j :: 0 <= i < j < n && bar[j] == Select ==> bar[i] == Select
  {
    if n == 0 then [] else Render(till, n - 1) + [if n - 1 > till then Back else Select]
  }

  /** The text of a bar: the symbols of its cells, one after another. */
  function Line(bar: seq<Glyph>): (line: string)
    ensures |line| == |bar|
    ensures forall i :: 0 <= i < |bar| ==> line[i] == Symbol(bar[i])[0]
  {
    if |bar| == 0 then "" else Line(bar[..|bar| - 1]) + Symbol(bar[|bar| - 1])
  }

  /** The cell a character of a bar's text stands for; `None` if it is neither symbol. */
  function ParseSymbol(c: char): (r: Option<Glyph>)
    ensures r.Some? ==> Symbol(r.value) == [c]
    ensures r.None? ==> c != BackSymbol[0] && c != SelectSymbol[0]
  {
    if [c] == BackSymbol then Some(Back)
    else if [c] == SelectSymbol then Some(Select)
    else None
  }

  /** Reads a bar back from its text; `None` if some character is neither symbol. */
  function ParseLine(line: string): (r: Option<seq<Glyph>>)
    ensures r.Some? ==> |r.value| == |line|
    ensures r.Some? ==> forall i :: 0 <= i < |line| ==> Symbol(r.value[i])[0] == line[i]
    ensures r.None? ==> exists i :: 0 <= i < |line| && ParseSymbol(line[i]).None?
  {
    if forall i :: 0 <= i < |line| ==> ParseSymbol(line[i]).Some? then
      Some(seq(|line|, i requires 0 <= i < |line| => ParseSymbol(line[i]).value))
    else None
  }

  /** What `progress` returns: the bar and the percentage it was drawn for. */
  datatype Report = Report(bar: seq<Glyph>, percent: int)

  /** `progress()` for the date `today`. */
  function Progress(today: Date): (r: Report)
    requires today.Valid()
    ensures |r.bar| == LineLen
    ensures r.percent == Percent(today)
    ensures forall n :: 0 <= n < LineLen ==> (r.bar[n] == Select <==> n <= Till(today))
  {
    Report(Render(Till(today), LineLen), Percent(today))
  }

  /** One more loop step appends the symbol of the next cell to the text. */
  lemma LineStep(till: int, n: nat)
    ensures Line(Render(till, n + 1)) == Line(Render(till, n)) + (if n > till then BackSymbol else SelectSymbol)
  {
    var bar := Render(till, n + 1);
    assert bar[..n] == Render(till, n);
  }

  /** The `for n in 0..line_len` loop of `progress`, pushing one symbol per cell. */
  method BuildLine(till: int) returns (line: string)
    ensures |line| == LineLen
    ensures line == Line(Render(till, LineLen))
  {
    line := "";
    for n := 0 to LineLen
      invariant line == Line(Render(till, n))
    {
      LineStep(till, n);
      if n > till {
        line := line + BackSymbol;
      } else {
        line := line + SelectSymbol;
      }
    }
  }

  /**
   `progress()` as written: the text its loop builds is the text of the
   bar, and the percentage is the one `count_percent` computed.
   */
  method ProgressLine(today: Date) returns (line: string, percent: int)
    requires today.Valid()
    ensures |line| == LineLen
    ensures line == Line(Progress(today).bar)
    ensures percent == Progress(today).percent
  {
    var fill := CountPercent(LineLen, today);
    var till := fill.value.position;
    percent := fill.value.percent;
    assert till == Till(today) && percent == Percent(today);
    line := BuildLine(till);
  }

  /** Number of selected cells in a bar. */
  function CountSelected(bar: seq<Glyph>): nat {
    if |bar| == 0 then 0
    else CountSelected(bar[..|bar| - 1]) + (if bar[|bar| - 1] == Select then 1 else 0)
  }
}
