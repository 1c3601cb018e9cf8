/**
 * The row store built by `loadCSV` in app.js: the year columns of the header,
 * and per CSV record a row with its yearly GDP series and its latest value.
 */
module Rows {
  import opened Wrappers
  import opened Text
  import opened Format

  /** A year column name, such as "1990". */
  type Year = string

  /** A cell as the CSV parser hands it over: empty, or text together with what `Number(text)` makes of it. */
  datatype RawCell = Blank | Filled(number: JsNumber)

  /** A parsed CSV record: the two name columns and the other cells keyed by column name. */
  datatype RawRow = RawRow(country: string, code: string, cells: map<string, RawCell>)

  /** A country's row: a value (or `null`) per year column, and the latest year with a value. */
  datatype Row = Row(
    country: string,
    code: string,
    series: map<Year, Option<real>>,
    latestYear: Option<Year>,
    latestGDP: Option<real>)

  /** `/^\d{4}$/.test(h)`. */
  predicate IsYearColumn(h: string) {
    |h| == 4 && IsDigit(h[0]) && IsDigit(h[1]) && IsDigit(h[2]) && IsDigit(h[3])
  }

  /** `header.filter(h => /^\d{4}$/.test(h))`: the year columns, in header order. */
  function YearColumns(header: seq<string>): (years: seq<Year>)
    ensures |years| <= |header|
    ensures forall y :: y in years <==> y in header && IsYearColumn(y)
  {
    if header == [] then []
    else
      var init := YearColumns(header[..|header| - 1]);
      var h := header[|header| - 1];
      assert forall y :: y in header <==> y in header[..|header| - 1] || y == h;
      if IsYearColumn(h) then init + [h] else init
  }

  /**
   * `filter` keeps header order and multiplicity: the year columns of two
   * header stretches are those of the first followed by those of the second.
   */
  lemma {:induction false} YearColumnsAppend(a: seq<string>, b: seq<string>)
    ensures YearColumns(a + b) == YearColumns(a) + YearColumns(b)
    decreases |b|
  {
    if b == [] {
      assert a + b == a;
    } else {
      var b' := b[..|b| - 1];
      assert (a + b)[..|a + b| - 1] == a + b';
      YearColumnsAppend(a, b');
    }
  }

  /** A single header is kept exactly when it is a four-digit name. */
  lemma YearColumnsSingle(h: string)
    ensures YearColumns([h]) == if IsYearColumn(h) then [h] else []
  {
    assert [h][..0] == [];
  }

  /** `series[y]` read as JavaScript does: a missing key is `undefined`, which compares equal to `null`. */
  function At(series: map<Year, Option<real>>, y: string): Option<real> {
    if y in series then series[y] else None
  }

  /**
   * The value stored for column `y`: an empty cell is `null` (and never the
   * zero that `Number('')` would give), so is a cell whose number is NaN, and
   * so is a column the record lacks (`Number(undefined)` is NaN).
   */
  function CellValue(cells: map<string, RawCell>, y: Year): (v: Option<real>)
    ensures v.None? <==> y !in cells || cells[y] == Blank || cells[y] == Filled(NaN)
    ensures v.Some? ==> cells[y] == Filled(Num(v.value))
  {
    if y !in cells then None
    else match cells[y]
      case Blank => None
      case Filled(NaN) => None
      case Filled(Num(x)) => Some(x)
  }

  function SeriesOf(years: seq<Year>, cells: map<string, RawCell>): map<Year, Option<real>> {
    map y | y in years :: CellValue(cells, y)
  }

  /** The `YEARS.forEach` loop of `loadCSV`: one entry per year column, none for any other key. */
  method BuildSeries(years: seq<Year>, cells: map<string, RawCell>) returns (series: map<Year, Option<real>>)
    ensures series == SeriesOf(years, cells)
    ensures forall y :: y in series <==> y in years
    ensures forall y :: y in years && y in cells && cells[y] == Blank ==> series[y] == None
  {
    series := map[];
    for i := 0 to |years|
      invariant series == map y | y in years[..i] :: CellValue(cells, y)
    {
      var y := years[i];
      var v := if y !in cells then None else match cells[y]
        case Blank => None
        case Filled(NaN) => None
        case Filled(Num(x)) => Some(x);
      series := series[y := v];
      assert forall z :: z in years[..i + 1] <==> z in years[..i] || z == y;
    }
    assert years[..|years|] == years;
  }

  /** Position of the last year (in header order) that has a value. */
  function LastPresent(years: seq<Year>, series: map<Year, Option<real>>): (r: Option<nat>)
    ensures r.Some? ==> r.value < |years| && At(series, years[r.value]).Some?
    ensures r.Some? ==> forall j :: r.value < j < |years| ==> At(series, years[j]).None?
    ensures r.None? <==> forall j :: 0 <= j < |years| ==> At(series, years[j]).None?
  {
    if years == [] then None
    else if At(series, years[|years| - 1]).Some? then Some(|years| - 1)
    else LastPresent(years[..|years| - 1], series)
  }

  /**
   * The row `loadCSV` derives from one CSV record: its names, the parsed
   * cell of every year column, and the latest year with a value.
   */
  function RowOf(years: seq<Year>, raw: RawRow): (r: Row)
    ensures r.country == raw.country && r.code == raw.code
    ensures forall y :: y in years ==> At(r.series, y) == CellValue(raw.cells, y)
    ensures WellFormedRow(years, r)
  {
    var series := SeriesOf(years, raw.cells);
    match LastPresent(years, series)
    case None => Row(raw.country, raw.code, series, None, None)
    case Some(i) =>
      assert years[i] in years;
      Row(raw.country, raw.code, series, Some(years[i]), At(series, years[i]))
  }

  /**
   * What a loaded row promises: an entry for every year column and no other,
   * and `latestYear`/`latestGDP` naming the last year column, by header
   * position, that has a value; both `null` exactly when no column has one.
   */
  ghost predicate WellFormedRow(years: seq<Year>, r: Row) {
    && (forall y :: y in r.series <==> y in years)
    && (r.latestYear.None? <==> r.latestGDP.None?)
    && (r.latestYear.None? <==> forall j :: 0 <= j < |years| ==> At(r.series, years[j]).None?)
    && (r.latestYear.Some? ==>
          exists k :: 0 <= k < |years| && years[k] == r.latestYear.value
            && At(r.series, years[k]) == r.latestGDP
            && forall j :: k < j < |years| ==> At(r.series, years[j]).None?)
  }

  /** The backward scan with `break` of `loadCSV`. */
  method LatestOf(years: seq<Year>, series: map<Year, Option<real>>) returns (latestYear: Option<Year>, latestGDP: Option<real>)
    ensures LastPresent(years, series).None? ==> latestYear.None? && latestGDP.None?
    ensures LastPresent(years, series).Some? ==>
      var k := LastPresent(years, series).value;
      latestYear == Some(years[k]) && latestGDP == At(series, years[k])
  {
    latestYear, latestGDP := None, None;
    var i: int := |years| - 1;
    while i >= 0
      invariant -1 <= i < |years|
      invariant latestYear.None? && latestGDP.None?
      invariant forall j :: i < j < |years| ==> At(series, years[j]).None?
    {
      var y := years[i];
      if At(series, y).Some? {
        latestYear := Some(y);
        latestGDP := At(series, y);
        break;
      }
      i := i - 1;
    }
  }

  /** One record of `parsed.data.map(...)` in `loadCSV`. */
  method LoadRow(years: seq<Year>, raw: RawRow) returns (r: Row)
    ensures r == RowOf(years, raw)
    ensures WellFormedRow(years, r)
  {
    var series := BuildSeries(years, raw.cells);
    var latestYear, latestGDP := LatestOf(years, series);
    r := Row(raw.country, raw.code, series, latestYear, latestGDP);
  }
}
