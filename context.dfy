/**
 * `buildContext` of app.js: one two-line text block per retrieved row,
 * the blocks joined by newlines.
 */
module Context {
  import opened Wrappers
  import opened Text
  import opened Format
  import opened Rows
  import opened Retrieval

  /** The fixed years every description reports, whatever the table holds. */
  const AnchorYears: seq<Year> := ["2000", "2010", "2020"]

  const SiteUrl: string := "https://data.worldbank.org"
  const IndicatorPath: string := "/indicator/NY.GDP.MKTP.CD"
  const IndicatorUrl: string := SiteUrl + IndicatorPath + "?locations="

  /** `formatUSD` of a series entry, where a missing entry is `null`/`undefined`. */
  function Amount(v: Option<real>): string {
    FormatUSD(match v case Some(x) => Some(Num(x)) case None => None)
  }

  /** `${latest}` of a row: its latest year, or `null` when it has none. */
  function LatestText(r: Row): string {
    r.latestYear.GetOr("null")
  }

  /** `${y}: ${formatUSD(r.series[y])}`. */
  function YearEntry(r: Row, y: Year): string {
    y + ": " + Amount(At(r.series, y))
  }

  function Description(r: Row): string {
    "GDP snapshot \U{2014} " + YearEntry(r, AnchorYears[0]) + ", " + YearEntry(r, AnchorYears[1]) + ", "
      + YearEntry(r, AnchorYears[2]) + " (latest " + LatestText(r) + ": " + Amount(r.latestGDP) + ")"
  }

  /** The first line of a block. */
  function TitleLine(r: Row): string {
    "Title: " + r.country + ", Description: " + Description(r) + ", Published at: " + LatestText(r)
  }

  /** The second line of a block: the indicator page filtered on the row's code. */
  function UrlLine(r: Row): (line: string)
    ensures |line| == 5 + |IndicatorUrl| + |r.code|
    ensures line[..5 + |IndicatorUrl|] == "URL: " + IndicatorUrl
    ensures line[5 + |IndicatorUrl|..] == r.code
  {
    "URL: " + IndicatorUrl + r.code
  }

  function Block(r: Row): string {
    TitleLine(r) + "\n" + UrlLine(r)
  }

  ghost predicate ValidIds(c: Catalog, ids: seq<nat>) {
    forall j :: 0 <= j < |ids| ==> ids[j] < |c.rows|
  }

  /** `buildContext(indices)`. */
  function BuildContext(c: Catalog, ids: seq<nat>): (s: string)
    requires ValidIds(c, ids)
    ensures ids == [] ==> s == ""
    ensures |ids| >= 1 ==> s == Join(Interleave(Titles(c, ids), Urls(c, ids)))
  {
    var blocks := seq(|ids|, j requires 0 <= j < |ids| => Block(c.rows[ids[j]]));
    if ids == [] then Join(blocks)
    else
      var ts, us := Titles(c, ids), Urls(c, ids);
      assert blocks == PairUp(ts, us);
      JoinPairs(ts, us);
      Join(blocks)
  }

  function Titles(c: Catalog, ids: seq<nat>): (ts: seq<string>)
    requires ValidIds(c, ids)
    ensures |ts| == |ids| && forall j :: 0 <= j < |ids| ==> ts[j] == TitleLine(c.rows[ids[j]])
  {
    seq(|ids|, j requires 0 <= j < |ids| => TitleLine(c.rows[ids[j]]))
  }

  function Urls(c: Catalog, ids: seq<nat>): (us: seq<string>)
    requires ValidIds(c, ids)
    ensures |us| == |ids| && forall j :: 0 <= j < |ids| ==> us[j] == UrlLine(c.rows[ids[j]])
  {
    seq(|ids|, j requires 0 <= j < |ids| => UrlLine(c.rows[ids[j]]))
  }

  /** Row fields that end up in the text hold no newline of their own. */
  ghost predicate SingleLineFields(r: Row) {
    NoNewline(r.country) && NoNewline(r.code) && NoNewline(LatestText(r))
  }

  lemma YearEntrySingleLine(r: Row, y: Year)
    requires NoNewline(y)
    ensures NoNewline(YearEntry(r, y))
  {
    NoNewlineConcat(y, ": ");
    NoNewlineConcat(y + ": ", Amount(At(r.series, y)));
  }

  lemma DescriptionSingleLine(r: Row)
    requires NoNewline(LatestText(r))
    ensures NoNewline(Description(r))
  {
    var s0, s1, s2 := YearEntry(r, AnchorYears[0]), YearEntry(r, AnchorYears[1]), YearEntry(r, AnchorYears[2]);
    YearEntrySingleLine(r, AnchorYears[0]);
    YearEntrySingleLine(r, AnchorYears[1]);
    YearEntrySingleLine(r, AnchorYears[2]);
    var p := "GDP snapshot \U{2014} ";
    NoNewlineConcat(p, s0);
    NoNewlineConcat(p + s0, ", ");
    NoNewlineConcat(p + s0 + ", ", s1);
    NoNewlineConcat(p + s0 + ", " + s1, ", ");
    NoNewlineConcat(p + s0 + ", " + s1 + ", ", s2);
    var q := p + s0 + ", " + s1 + ", " + s2;
    NoNewlineConcat(q, " (latest ");
    NoNewlineConcat(q + " (latest ", LatestText(r));
    NoNewlineConcat(q + " (latest " + LatestText(r), ": ");
    NoNewlineConcat(q + " (latest " + LatestText(r) + ": ", Amount(r.latestGDP));
    NoNewlineConcat(q + " (latest " + LatestText(r) + ": " + Amount(r.latestGDP), ")");
  }

  lemma TitleSingleLine(r: Row)
    requires SingleLineFields(r)
    ensures NoNewline(TitleLine(r)) && NoNewline(UrlLine(r))
  {
    DescriptionSingleLine(r);
    NoNewlineConcat("Title: ", r.country);
    NoNewlineConcat("Title: " + r.country, ", Description: ");
    NoNewlineConcat("Title: " + r.country + ", Description: ", Description(r));
    NoNewlineConcat("Title: " + r.country + ", Description: " + Description(r), ", Published at: ");
    NoNewlineConcat("Title: " + r.country + ", Description: " + Description(r) + ", Published at: ", LatestText(r));
    assert NoNewline(SiteUrl) && NoNewline(IndicatorPath) && NoNewline("?locations=");
    NoNewlineConcat(SiteUrl, IndicatorPath);
    NoNewlineConcat(SiteUrl + IndicatorPath, "?locations=");
    NoNewlineConcat("URL: ", IndicatorUrl);
    NoNewlineConcat("URL: " + IndicatorUrl, r.code);
  }

  /**
   * The context holds one two-line block per requested row, in the order
   * requested: line `2j` is the title line of row `ids[j]` (with the three
   * anchor years and its latest year) and line `2j + 1` its URL.
   */
  lemma ContextLayout(c: Catalog, ids: seq<nat>)
    requires ValidIds(c, ids) && |ids| >= 1
    requires forall j :: 0 <= j < |ids| ==> SingleLineFields(c.rows[ids[j]])
    ensures var lines := Split(BuildContext(c, ids));
      && |lines| == 2 * |ids|
      && forall j :: 0 <= j < |ids| ==>
        lines[2 * j] == TitleLine(c.rows[ids[j]]) && lines[2 * j + 1] == UrlLine(c.rows[ids[j]])
  {
    var ts, us := Titles(c, ids), Urls(c, ids);
    var lines := Interleave(ts, us);
    forall j | 0 <= j < |ids|
      ensures NoNewline(ts[j]) && NoNewline(us[j])
    {
      TitleSingleLine(c.rows[ids[j]]);
    }
    InterleaveNoNewline(ts, us);
    assert BuildContext(c, ids) == Join(lines);
    SplitJoin(lines);
  }
}
