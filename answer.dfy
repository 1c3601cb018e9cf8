/**
 * The computed answer of app.js: how a lower-cased query is classified by
 * its regular expressions, which year a ranking falls back to, how rows are
 * ranked for a year, and the text each branch renders.
 */
module Answer {
  import opened Wrappers
  import opened Text
  import opened Sorting
  import opened Format
  import opened Rows
  import opened Retrieval

  /** A year counts as common once this many rows report it. */
  const CoverageThreshold: nat := 50
  /** Entries listed by a "highest" query and by the fallback answer. */
  const ShortList: nat := 5
  /** Bounds of the requested `top N`. */
  const MinTopN: nat := 1
  const MaxTopN: nat := 50

  // ---------------------------------------------------------------------
  // Regular-expression matching, written as explicit scans
  // ---------------------------------------------------------------------

  /** `(19|20)\d{2}` at position `i`. */
  predicate YearAt(s: string, i: nat) {
    && i + 4 <= |s|
    && ((s[i] == '1' && s[i + 1] == '9') || (s[i] == '2' && s[i + 1] == '0'))
    && IsDigit(s[i + 2]) && IsDigit(s[i + 3])
  }

  /** `lc.match(/(19|20)\d{2}/)[0]`, or `None` for `null`. */
  function FindYear(s: string): (y: Option<string>)
    ensures y.Some? <==> exists i :: 0 <= i < |s| && YearAt(s, i)
    ensures y.Some? ==> |y.value| == 4 && (y.value[0] == '1' || y.value[0] == '2')
    ensures y.Some? ==> exists i :: 0 <= i < |s| && YearAt(s, i) && y.value == s[i..i + 4]
                                   && forall j :: 0 <= j < i ==> !YearAt(s, j)
  {
    match FirstYearAt(s, 0)
    case Some(i) => Some(s[i..i + 4])
    case None => None
  }

  /** The leftmost position at or after `from` where a year starts. */
  function FirstYearAt(s: string, from: nat): (r: Option<nat>)
    ensures r.Some? ==> from <= r.value < |s| && YearAt(s, r.value)
    ensures forall i :: from <= i < |s| && (r.None? || i < r.value) ==> !YearAt(s, i)
    decreases |s| - from
  {
    if from >= |s| then None
    else if YearAt(s, from) then Some(from)
    else FirstYearAt(s, from + 1)
  }

  /** `top\s+(\d{1,3})` at position `p`. */
  predicate TopAt(s: string, p: nat) {
    && LitAt(s, p, "top")
    && SpaceRun(s, p + 3) >= 1
    && DigitRun(s, p + 3 + SpaceRun(s, p + 3)) >= 1
  }

  /** The captured count: the greedy `\d{1,3}`, at most three digits. */
  function TopDigits(s: string, p: nat): (ds: string)
    requires TopAt(s, p)
    ensures 1 <= |ds| <= 3 && forall i :: 0 <= i < |ds| ==> IsDigit(ds[i])
  {
    var q := p + 3 + SpaceRun(s, p + 3);
    s[q..q + Min(3, DigitRun(s, q))]
  }

  /** `parseInt(topMatch[1], 10)`, or `None` when `topMatch` is `null`. */
  function TopMatch(s: string): (n: Option<nat>)
    ensures n.Some? ==> n.value < 1000
    ensures n.Some? <==> exists p :: 0 <= p < |s| && TopAt(s, p)
    ensures n.Some? ==> exists p :: 0 <= p < |s| && TopAt(s, p) && n.value == DecimalValue(TopDigits(s, p))
                                   && forall q :: 0 <= q < p ==> !TopAt(s, q)
  {
    match FirstTopAt(s, 0)
    case Some(p) => Some(ThreeDigitsBound(TopDigits(s, p)))
    case None => None
  }

  /** The leftmost position at or after `from` where `top\s+\d` starts. */
  function FirstTopAt(s: string, from: nat): (r: Option<nat>)
    ensures r.Some? ==> from <= r.value < |s| && TopAt(s, r.value)
    ensures forall p :: from <= p < |s| && (r.None? || p < r.value) ==> !TopAt(s, p)
    decreases |s| - from
  {
    if from >= |s| then None
    else if TopAt(s, from) then Some(from)
    else FirstTopAt(s, from + 1)
  }

  function ThreeDigitsBound(ds: string): (n: nat)
    requires 1 <= |ds| <= 3 && forall i :: 0 <= i < |ds| ==> IsDigit(ds[i])
    ensures n == DecimalValue(ds) && n < 1000
  {
    DecimalValueBound(ds);
    DecimalValue(ds)
  }

  lemma {:induction false} DecimalValueBound(ds: string)
    requires forall i :: 0 <= i < |ds| ==> IsDigit(ds[i])
    ensures |ds| <= 3 ==> DecimalValue(ds) < 1000
    ensures |ds| <= 2 ==> DecimalValue(ds) < 100
    ensures |ds| <= 1 ==> DecimalValue(ds) < 10
  {
    if ds != [] {
      DecimalValueBound(ds[..|ds| - 1]);
    }
  }

  /** `topN`: the requested count clamped to `1 .. 50`, five when the query asks for none. */
  function TopN(s: string): (n: nat)
    ensures MinTopN <= n <= MaxTopN
    ensures TopMatch(s).None? ==> n == ShortList
    ensures TopMatch(s).Some? && MinTopN <= TopMatch(s).value <= MaxTopN ==> n == TopMatch(s).value
    ensures TopMatch(s).Some? && TopMatch(s).value == 0 ==> n == MinTopN
    ensures TopMatch(s).Some? && TopMatch(s).value > MaxTopN ==> n == MaxTopN
  {
    match TopMatch(s)
    case None => ShortList
    case Some(v) => Max(MinTopN, Min(MaxTopN, v))
  }

  /** `\s+in\s+(19|20)\d{2}` at position `q`. */
  predicate InYearAt(s: string, q: nat) {
    var w1 := SpaceRun(s, q);
    w1 >= 1 && LitAt(s, q + w1, "in") &&
    var w2 := SpaceRun(s, q + w1 + 2);
    w2 >= 1 && YearAt(s, q + w1 + 2 + w2)
  }

  /** What may follow the country name: the `in <year>` clause, or the end of the input. */
  predicate CaptureEndsAt(s: string, q: nat) {
    q == |s| || InYearAt(s, q)
  }

  /** Bounds `start .. end` of a captured group. */
  datatype Span = Span(start: nat, end: nat)

  /** The capture `s[start..q]` has been matched by `.` so far: no line terminator in it. */
  ghost predicate DotRun(s: string, start: nat, q: nat) {
    start <= q <= |s| && forall j :: start <= j < q ==> !IsLineTerminator(s[j])
  }

  /**
   * The lazy `(.+?)`: the shortest extension of the capture, from `q` on, at
   * which the rest of the pattern matches.
   */
  function LazyEnd(s: string, start: nat, q: nat): (r: Option<nat>)
    requires start < q && DotRun(s, start, q)
    ensures r.Some? ==> q <= r.value && DotRun(s, start, r.value) && CaptureEndsAt(s, r.value)
    ensures forall e :: q <= e && (r.None? || e < r.value) && DotRun(s, start, e) ==> !CaptureEndsAt(s, e)
    decreases |s| - q
  {
    if CaptureEndsAt(s, q) then Some(q)
    else if q < |s| && !IsLineTerminator(s[q]) then LazyEnd(s, start, q + 1)
    else None
  }

  /**
   * The greedy `\s+` in front of the capture gives back characters one at a
   * time, from width `w` down to one, until the capture can complete.
   */
  function TryWidths(s: string, a: nat, w: nat): (r: Option<Span>)
    ensures r.Some? ==> a < r.value.start < r.value.end && DotRun(s, r.value.start, r.value.end)
    ensures r.Some? ==> CaptureEndsAt(s, r.value.end)
    decreases w
  {
    if w == 0 then None
    else if a + w < |s| && !IsLineTerminator(s[a + w]) then
      match LazyEnd(s, a + w, a + w + 1)
      case Some(e) => Some(Span(a + w, e))
      case None => TryWidths(s, a, w - 1)
    else TryWidths(s, a, w - 1)
  }

  /** `gdp\s+of\s+(.+?)(?:\s+in\s+(19|20)\d{2}|$)` anchored at `p`: the span of group 1. */
  function OfMatchAt(s: string, p: nat): (r: Option<Span>)
    ensures r.Some? ==> LitAt(s, p, "gdp") && p + 3 < r.value.start < r.value.end <= |s|
    ensures r.Some? ==> DotRun(s, r.value.start, r.value.end) && CaptureEndsAt(s, r.value.end)
  {
    if !LitAt(s, p, "gdp") then None
    else
      var w1 := SpaceRun(s, p + 3);
      if w1 == 0 || !LitAt(s, p + 3 + w1, "of") then None
      else
        var a := p + 3 + w1 + 2;
        TryWidths(s, a, SpaceRun(s, a))
  }

  lemma DotRunSlice(s: string, a: nat, b: nat)
    requires DotRun(s, a, b)
    ensures forall j :: 0 <= j < b - a ==> !IsLineTerminator(s[a..b][j])
  {
  }

  /** The leftmost position at or after `from` where the `gdp of` pattern matches. */
  function FirstOfMatch(s: string, from: nat): (r: Option<nat>)
    ensures r.Some? ==> from <= r.value < |s| && OfMatchAt(s, r.value).Some?
    ensures forall p :: from <= p < |s| && (r.None? || p < r.value) ==> OfMatchAt(s, p).None?
    decreases |s| - from
  {
    if from >= |s| then None
    else if OfMatchAt(s, from).Some? then Some(from)
    else FirstOfMatch(s, from + 1)
  }

  /** `ofMatch[1]`: the captured text of the leftmost match, or `None` for `null`. */
  function OfMatch(s: string): (name: Option<string>)
    ensures name.Some? ==> 1 <= |name.value| && forall j :: 0 <= j < |name.value| ==> !IsLineTerminator(name.value[j])
    ensures name.None? ==> forall p :: 0 <= p < |s| ==> OfMatchAt(s, p).None?
    ensures name.Some? ==> exists p :: 0 <= p < |s| && OfMatchAt(s, p).Some?
                                      && name.value == s[OfMatchAt(s, p).value.start..OfMatchAt(s, p).value.end]
                                      && forall q :: 0 <= q < p ==> OfMatchAt(s, q).None?
  {
    match FirstOfMatch(s, 0)
    case Some(p) =>
      var sp := OfMatchAt(s, p).value;
      DotRunSlice(s, sp.start, sp.end);
      Some(s[sp.start..sp.end])
    case None => None
  }

  /** Which branch of `computeAnswer` a lower-cased query takes, in the order they are tried. */
  datatype Intent = GdpOf(name: string) | Highest | TopRanking | Fallback

  function IntentOf(lc: string): (i: Intent)
    ensures i.GdpOf? <==> OfMatch(lc).Some?
    ensures i.Highest? <==> OfMatch(lc).None? && (Contains(lc, "highest gdp") || Contains(lc, "largest gdp"))
    ensures i.TopRanking? <==>
      OfMatch(lc).None? && !Contains(lc, "highest gdp") && !Contains(lc, "largest gdp") && TopMatch(lc).Some?
  {
    match OfMatch(lc)
    case Some(capture) => GdpOf(Trim(capture))
    case None =>
      if Contains(lc, "highest gdp") || Contains(lc, "largest gdp") then Highest
      else if TopMatch(lc).Some? then TopRanking
      else Fallback
  }

  // ---------------------------------------------------------------------
  // latestCommonYear
  // ---------------------------------------------------------------------

  /** How many rows have a value for year `y`. */
  function Coverage(rows: seq<Row>, y: string): (n: nat)
    ensures n <= |rows|
  {
    if rows == [] then 0
    else Coverage(rows[..|rows| - 1], y) + (if At(rows[|rows| - 1].series, y).Some? then 1 else 0)
  }

  /** The position of the last year column that at least fifty rows report. */
  function LastCovered(rows: seq<Row>, years: seq<Year>): (r: Option<nat>)
    ensures r.Some? ==> r.value < |years| && Coverage(rows, years[r.value]) >= CoverageThreshold
    ensures forall j :: 0 <= j < |years| && (r.None? || r.value < j) ==> Coverage(rows, years[j]) < CoverageThreshold
  {
    if years == [] then None
    else if Coverage(rows, years[|years| - 1]) >= CoverageThreshold then Some(|years| - 1)
    else LastCovered(rows, years[..|years| - 1])
  }

  /** `latestCommonYear()`; `None` is the `undefined` of `YEARS[-1]` when there is no year column. */
  function CommonYear(rows: seq<Row>, years: seq<Year>): (y: Option<Year>)
    ensures y.None? <==> years == []
    ensures y.Some? ==> y.value in years
    ensures forall i :: 0 <= i < |years| && Coverage(rows, years[i]) >= CoverageThreshold ==>
      exists k :: i <= k < |years| && y == Some(years[k]) && Coverage(rows, years[k]) >= CoverageThreshold
    ensures (forall i :: 0 <= i < |years| ==> Coverage(rows, years[i]) < CoverageThreshold) && years != [] ==>
      y == Some(years[|years| - 1])
  {
    match LastCovered(rows, years)
    case Some(i) => Some(years[i])
    case None => if years == [] then None else Some(years[|years| - 1])
  }

  /** The loops of `latestCommonYear`, from the last year column backwards. */
  method LatestCommonYear(rows: seq<Row>, years: seq<Year>) returns (y: Option<Year>)
    ensures y == CommonYear(rows, years)
    ensures y.None? <==> years == []
    ensures y.Some? ==> y.value in years
    ensures forall i :: 0 <= i < |years| && Coverage(rows, years[i]) >= CoverageThreshold ==>
      exists k :: i <= k < |years| && y == Some(years[k]) && Coverage(rows, years[k]) >= CoverageThreshold
    ensures (forall i :: 0 <= i < |years| ==> Coverage(rows, years[i]) < CoverageThreshold) && years != [] ==>
      y == Some(years[|years| - 1])
  {
    var i := |years| - 1;
    while i >= 0
      invariant -1 <= i < |years|
      invariant forall j :: i < j < |years| ==> Coverage(rows, years[j]) < CoverageThreshold
      invariant LastCovered(rows, years) == LastCovered(rows, years[..i + 1])
    {
      var yr := years[i];
      var count := 0;
      for r := 0 to |rows|
        invariant count == Coverage(rows[..r], yr)
      {
        assert rows[..r + 1][..r] == rows[..r];
        if At(rows[r].series, yr).Some? {
          count := count + 1;
        }
      }
      assert rows[..|rows|] == rows;
      assert years[..i + 1][i] == yr;
      if count >= CoverageThreshold {
        assert LastCovered(rows, years[..i + 1]) == Some(i);
        return Some(yr);
      }
      assert years[..i + 1][..i] == years[..i];
      i := i - 1;
    }
    if years == [] {
      return None;
    }
    return Some(years[|years| - 1]);
  }

  // ---------------------------------------------------------------------
  // rankByYear
  // ---------------------------------------------------------------------

  /** One entry of a ranking; `idx` is the row's position (`ROWS.indexOf(r)`). */
  datatype Ranked = Ranked(country: string, code: string, value: real, idx: nat)

  function RankValue(e: Ranked): real { e.value }

  /** `e` copies row `e.idx`, whose value for `y` is `e.value`. */
  ghost predicate Describes(rows: seq<Row>, y: string, e: Ranked) {
    && e.idx < |rows|
    && e.country == rows[e.idx].country
    && e.code == rows[e.idx].code
    && At(rows[e.idx].series, y) == Some(e.value)
  }

  /** The entries pushed by the `forEach` of `rankByYear`, in row order. */
  function Candidates(rows: seq<Row>, y: string): (c: seq<Ranked>)
    ensures |c| == Coverage(rows, y)
    ensures forall j :: 0 <= j < |c| ==> Describes(rows, y, c[j])
    ensures forall i, j :: 0 <= i < j < |c| ==> c[i].idx < c[j].idx
  {
    if rows == [] then []
    else
      var n := |rows| - 1;
      var prefix := Candidates(rows[..n], y);
      assert forall j :: 0 <= j < |prefix| ==> Describes(rows, y, prefix[j]);
      match At(rows[n].series, y)
      case Some(v) => prefix + [Ranked(rows[n].country, rows[n].code, v, n)]
      case None => prefix
  }

  /** `rankByYear(y)`: the candidates sorted by value, largest first, ties in row order. */
  function RankedAt(rows: seq<Row>, y: string): seq<Ranked> {
    SortDesc(Candidates(rows, y), RankValue)
  }

  method RankByYear(rows: seq<Row>, y: string) returns (out: seq<Ranked>)
    ensures out == RankedAt(rows, y)
    ensures SortedDesc(out, RankValue)
    ensures multiset(out) == multiset(Candidates(rows, y))
  {
    out := [];
    for i := 0 to |rows|
      invariant out == Candidates(rows[..i], y)
    {
      assert rows[..i + 1][..i] == rows[..i];
      var r := rows[i];
      var v := At(r.series, y);
      if v.Some? {
        out := out + [Ranked(r.country, r.code, v.value, i)];
      }
    }
    assert rows[..|rows|] == rows;
    out := SortDesc(out, RankValue);
  }

  /** Every row with a value for `y` is among the candidates. */
  lemma {:induction false} CandidatesComplete(rows: seq<Row>, y: string, i: nat)
    requires i < |rows| && At(rows[i].series, y).Some?
    ensures exists j :: 0 <= j < |Candidates(rows, y)| && Candidates(rows, y)[j].idx == i
  {
    var n := |rows| - 1;
    var c := Candidates(rows, y);
    if i == n {
      assert c[|c| - 1].idx == i;
    } else {
      assert rows[..n][i] == rows[i];
      CandidatesComplete(rows[..n], y, i);
      var j :| 0 <= j < |Candidates(rows[..n], y)| && Candidates(rows[..n], y)[j].idx == i;
      assert c[j] == Candidates(rows[..n], y)[j];
    }
  }

  /**
   * The ranking for `y` lists exactly the rows that have a value for `y`,
   * each once, with its own name, code and value, largest value first.
   */
  lemma RankedExactly(rows: seq<Row>, y: string)
    ensures |RankedAt(rows, y)| == Coverage(rows, y)
    ensures SortedDesc(RankedAt(rows, y), RankValue)
    ensures forall j :: 0 <= j < |RankedAt(rows, y)| ==> Describes(rows, y, RankedAt(rows, y)[j])
    ensures forall i, j :: 0 <= i < j < |RankedAt(rows, y)| ==> RankedAt(rows, y)[i].idx != RankedAt(rows, y)[j].idx
    ensures forall i :: 0 <= i < |rows| && At(rows[i].series, y).Some? ==>
      exists j :: 0 <= j < |RankedAt(rows, y)| && RankedAt(rows, y)[j].idx == i
  {
    var c := Candidates(rows, y);
    var out := RankedAt(rows, y);
    assert |out| == |multiset(out)| == |multiset(c)| == |c|;
    forall j | 0 <= j < |out|
      ensures Describes(rows, y, out[j])
    {
      assert out[j] in multiset(c);
      var k :| 0 <= k < |c| && c[k] == out[j];
    }
    assert Distinct(c);
    PermutationKeepsDistinct(c, out);
    forall i, j | 0 <= i < j < |out|
      ensures out[i].idx != out[j].idx
    {
      assert out[i] != out[j];
      assert Describes(rows, y, out[i]) && Describes(rows, y, out[j]);
    }
    forall i | 0 <= i < |rows| && At(rows[i].series, y).Some?
      ensures exists j :: 0 <= j < |out| && out[j].idx == i
    {
      CandidatesComplete(rows, y, i);
      var k :| 0 <= k < |c| && c[k].idx == i;
      assert c[k] in multiset(out);
      var j :| 0 <= j < |out| && out[j] == c[k];
    }
  }

  // ---------------------------------------------------------------------
  // computeAnswer
  // ---------------------------------------------------------------------

  /** What an answer says, before it is rendered as text. */
  datatype Reply =
    | NoMatch(name: string)
    | NoValue(country: string, year: string)
    | Value(country: string, year: string, amount: real)
    | Ranking(heading: string, year: string, entries: seq<Ranked>)

  /** `s.slice(0, n)`. */
  function Take<T>(s: seq<T>, n: nat): (r: seq<T>)
    ensures |r| == Min(n, |s|) && r == s[..|r|]
  {
    s[..Min(n, |s|)]
  }

  /** The year of a ranking: the one in the query, else `latestCommonYear()` (`undefined` when there is none). */
  function RankingYear(c: Catalog, year: Option<string>): string {
    if year.Some? then year.value else CommonYear(c.rows, c.years).GetOr("undefined")
  }

  /** The branches of `computeAnswer` on the lower-cased query `lc`. */
  function ReplyFor(c: Catalog, lc: string): (r: Reply)
    requires ValidCatalog(c)
    ensures r.Ranking? <==> OfMatch(lc).None?
    ensures r.Ranking? ==> r.entries == Take(RankedAt(c.rows, r.year), |r.entries|) && |r.entries| <= MaxTopN
    ensures (r.NoValue? || r.Value?) && FindYear(lc).Some? ==> r.year == FindYear(lc).value
  {
    var year := FindYear(lc);
    match IntentOf(lc)
    case GdpOf(name) =>
      var idxs := KeywordSearch(c, name, 1);
      if idxs == [] then NoMatch(name)
      else
        var row := c.rows[idxs[0]];
        var y := if year.Some? then year.value else row.latestYear.GetOr("null");
        (match At(row.series, y)
         case None => NoValue(row.country, y)
         case Some(v) => Value(row.country, y, v))
    case Highest =>
      var y := RankingYear(c, year);
      Ranking("Highest GDP", y, Take(RankedAt(c.rows, y), ShortList))
    case TopRanking =>
      var y := RankingYear(c, year);
      Ranking("Top " + NatToString(TopN(lc)) + " GDP", y, Take(RankedAt(c.rows, y), TopN(lc)))
    case Fallback =>
      var y := CommonYear(c.rows, c.years).GetOr("undefined");
      Ranking("Top 5 GDP", y, Take(RankedAt(c.rows, y), ShortList))
  }

  function Money(v: real): string {
    FormatUSD(Some(Num(v)))
  }

  /** `${i + 1}. ${r.country}: ${formatUSD(r.value)}`. */
  function RankLine(i: nat, e: Ranked): string {
    NatToString(i + 1) + ". " + e.country + ": " + Money(e.value)
  }

  function RankLines(entries: seq<Ranked>): (lines: seq<string>)
    ensures |lines| == |entries|
    ensures forall i :: 0 <= i < |entries| ==> lines[i] == RankLine(i, entries[i])
  {
    seq(|entries|, i requires 0 <= i < |entries| => RankLine(i, entries[i]))
  }

  function Headline(heading: string, year: string): string {
    heading + " in " + year + ":"
  }

  function Render(r: Reply): (a: string)
    ensures r.Ranking? ==> var h := Headline(r.heading, r.year);
      |a| > |h| && a[..|h|] == h && a[|h|] == '\n'
    ensures !r.Ranking? ==> |a| > 0 && a[|a| - 1] == '.'
  {
    match r
    case NoMatch(name) => "No match found for \"" + name + "\"."
    case NoValue(country, y) => "No GDP value for " + country + " in " + y + "."
    case Value(country, y, v) => "GDP of " + country + " in " + y + ": " + Money(v) + "."
    case Ranking(heading, y, entries) => Headline(heading, y) + "\n" + Join(RankLines(entries))
  }

  /** `computeAnswer(query)`. */
  function ComputeAnswer(c: Catalog, query: string): (a: string)
    requires ValidCatalog(c)
    ensures OfMatch(Lower(query)).Some? ==> |a| > 0 && a[|a| - 1] == '.'
    ensures OfMatch(Lower(query)).None? ==>
      var r := ReplyFor(c, Lower(query));
      var h := Headline(r.heading, r.year);
      |a| > |h| && a[..|h| + 1] == h + "\n"
  {
    Render(ReplyFor(c, Lower(query)))
  }

  /**
   * A query that matches the `gdp of` pattern is answered about one country,
   * whatever ranking words it also holds: the best keyword hit for the trimmed
   * name, in the query's year if it names one and the row's latest year if not.
   */
  lemma GdpOfTakesPrecedence(c: Catalog, lc: string)
    requires ValidCatalog(c) && OfMatch(lc).Some?
    ensures var r := ReplyFor(c, lc);
      var name := Trim(OfMatch(lc).value);
      var hits := KeywordSearch(c, name, 1);
      && !r.Ranking?
      && (r.NoMatch? <==> c.index.search(name) == [])
      && (r.NoMatch? ==> r.name == name)
      && (!r.NoMatch? ==>
        var row := c.rows[c.index.search(name)[0]];
        && r.country == row.country
        && (FindYear(lc).Some? ==> r.year == FindYear(lc).value)
        && (FindYear(lc).None? ==> r.year == row.latestYear.GetOr("null"))
        && (r.Value? <==> At(row.series, r.year).Some?)
        && (r.Value? ==> At(row.series, r.year) == Some(r.amount)))
  {
    var name := Trim(OfMatch(lc).value);
    assert IntentOf(lc) == GdpOf(name);
    var hits := KeywordSearch(c, name, 1);
    if hits != [] {
      assert hits[0] == c.index.search(name)[0];
    }
  }

  /**
   * Without a `gdp of` match, every query gets a ranking for one year: the
   * first entries of `rankByYear` of that year, five for "highest"/"largest"
   * and the fallback, `topN` for a `top N` query.
   */
  lemma RankingReplies(c: Catalog, lc: string)
    requires ValidCatalog(c) && OfMatch(lc).None?
    ensures var r := ReplyFor(c, lc);
      && r.Ranking?
      && r.entries == Take(RankedAt(c.rows, r.year), |r.entries|)
      && (IntentOf(lc).Highest? ==>
            r.heading == "Highest GDP" && |r.entries| == Min(ShortList, Coverage(c.rows, r.year))
            && r.year == RankingYear(c, FindYear(lc)))
      && (IntentOf(lc).TopRanking? ==>
            r.heading == "Top " + NatToString(TopN(lc)) + " GDP"
            && |r.entries| == Min(TopN(lc), Coverage(c.rows, r.year)) && |r.entries| <= MaxTopN
            && r.year == RankingYear(c, FindYear(lc)))
      && (IntentOf(lc).Fallback? ==>
            r.heading == "Top 5 GDP" && |r.entries| == Min(ShortList, Coverage(c.rows, r.year))
            && r.year == CommonYear(c.rows, c.years).GetOr("undefined"))
  {
    var r := ReplyFor(c, lc);
    RankedExactly(c.rows, r.year);
  }

  /**
   * A ranking is rendered as its headline followed by one line per entry,
   * numbered from one: splitting the text on newlines gives them back.
   */
  lemma {:induction false} RankingLayout(heading: string, year: string, entries: seq<Ranked>)
    requires NoNewline(heading) && NoNewline(year)
    requires forall i :: 0 <= i < |entries| ==> NoNewline(entries[i].country)
    ensures Split(Render(Ranking(heading, year, entries))) ==
      [Headline(heading, year)] + (if entries == [] then [""] else RankLines(entries))
  {
    var lines := RankLines(entries);
    forall i | 0 <= i < |entries|
      ensures NoNewline(lines[i])
    {
      var e := entries[i];
      NoNewlineConcat(NatToString(i + 1), ". ");
      NoNewlineConcat(NatToString(i + 1) + ". ", e.country);
      NoNewlineConcat(NatToString(i + 1) + ". " + e.country, ": ");
      NoNewlineConcat(NatToString(i + 1) + ". " + e.country + ": ", Money(e.value));
    }
    NoNewlineConcat(heading, " in ");
    NoNewlineConcat(heading + " in ", year);
    NoNewlineConcat(heading + " in " + year, ":");
    SplitAround(Headline(heading, year), Join(lines));
    if entries == [] {
      assert Join(lines) == "";
    } else {
      SplitJoin(lines);
    }
  }
}
