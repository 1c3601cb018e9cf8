/**
 * `formatUSD` of utils.js: a missing value becomes a fixed token, any other
 * number is shown in dollars with a magnitude suffix chosen from its absolute
 * value, checked from the largest tier down.
 */
module Format {
  import opened Wrappers
  import opened Text

  /** What JavaScript's `Number(...)` yields: not-a-number, or a number (kept exact as a real). */
  datatype JsNumber = NaN | Num(v: real)

  datatype Tier = Trillions | Billions | Millions | Plain

  /**
   * The missing-value token exactly as the source file spells it: the UTF-8
   * bytes of an em dash read back as Windows-1252 characters.
   */
  const MissingToken: string := "\U{00E2}\U{20AC}\U{201D}"

  function Abs(x: real): (a: real)
    ensures a >= 0.0 && (a == x || a == -x)
  {
    if x < 0.0 then -x else x
  }

  function Scale(t: Tier): (f: real)
    ensures f >= 1.0
  {
    match t
    case Trillions => 1_000_000_000_000.0
    case Billions => 1_000_000_000.0
    case Millions => 1_000_000.0
    case Plain => 1.0
  }

  function Suffix(t: Tier): (s: string)
    ensures t != Plain <==> |s| == 1
  {
    match t
    case Trillions => "T"
    case Billions => "B"
    case Millions => "M"
    case Plain => ""
  }

  /** Position of a tier in the cascade, largest first. */
  function Rank(t: Tier): nat {
    match t
    case Trillions => 3
    case Billions => 2
    case Millions => 1
    case Plain => 0
  }

  /**
   * The tier picked for `x`: the first of 1e12, 1e9, 1e6 that `|x|` reaches.
   * A suffixed tier leaves a mantissa of at least one, and below a thousand
   * unless it is the top tier.
   */
  function TierOf(x: real): (t: Tier)
    ensures t == Plain <==> Abs(x) < 1_000_000.0
    ensures t != Plain ==> Abs(x) >= Scale(t)
    ensures t != Trillions ==> Abs(x) < 1000.0 * Scale(t) || (t == Plain && Abs(x) < 1_000_000.0)
  {
    var a := Abs(x);
    if a >= 1_000_000_000_000.0 then Trillions
    else if a >= 1_000_000_000.0 then Billions
    else if a >= 1_000_000.0 then Millions
    else Plain
  }

  /** Values are tiered by magnitude: a negative amount gets the tier of its absolute value. */
  lemma TierOfNegation(x: real)
    ensures TierOf(-x) == TierOf(x)
  {
  }

  /** A larger magnitude never gets a smaller tier. */
  lemma TierMonotone(x: real, y: real)
    requires Abs(x) <= Abs(y)
    ensures Rank(TierOf(x)) <= Rank(TierOf(y))
  {
  }

  /** Two ASCII digits for `f < 100`, with a leading zero. */
  function TwoDigits(f: nat): (s: string)
    requires f < 100
    ensures |s| == 2 && IsDigit(s[0]) && IsDigit(s[1])
  {
    [DigitChar(f / 10), DigitChar(f % 10)]
  }

  /**
   * `x.toFixed(2)` on an exact value: the sign, then the magnitude rounded to
   * hundredths (a tie goes up), integer part and exactly two decimals.
   */
  function ToFixed2(x: real): (s: string)
    ensures |s| >= 4 && s[|s| - 3] == '.' && IsDigit(s[|s| - 2]) && IsDigit(s[|s| - 1])
    ensures s[0] == '-' <==> x < 0.0
    ensures IsDigit(s[|s| - 4]) && (x < 0.0 ==> |s| >= 5)
    ensures forall i :: 0 <= i < |s| && i != |s| - 3 && !(i == 0 && x < 0.0) ==> IsDigit(s[i])
    ensures NoNewline(s)
  {
    var n := (Abs(x) * 100.0 + 0.5).Floor;
    assert n >= 0;
    var sign := if x < 0.0 then "-" else "";
    sign + NatToString(n / 100) + "." + TwoDigits(n % 100)
  }

  /** The integer part with a comma between groups of three digits. */
  function Grouped(n: nat): (s: string)
    ensures |s| >= 1 && IsDigit(s[|s| - 1]) && IsDigit(s[0])
    ensures NoNewline(s)
  {
    if n < 1000 then NatToString(n)
    else Grouped(n / 1000) + "," + NatToString(n % 1000 / 100) + TwoDigits(n % 100)
  }

  /** Up to three decimals, trailing zeros dropped, nothing at all for a whole number. */
  function Decimals(f: nat): (s: string)
    requires f < 1000
    ensures s == [] || (|s| >= 2 && s[0] == '.' && IsDigit(s[|s| - 1]))
    ensures NoNewline(s)
  {
    if f == 0 then ""
    else if f % 100 == 0 then "." + [DigitChar(f / 100)]
    else if f % 10 == 0 then "." + TwoDigits(f / 10)
    else "." + [DigitChar(f / 100)] + TwoDigits(f % 100)
  }

  /**
   * `x.toLocaleString()` in the en-US locale: sign, digit grouping, at most
   * three decimals (rounded, a tie goes up).
   */
  function LocaleText(x: real): (s: string)
    ensures |s| >= 1 && IsDigit(s[|s| - 1])
    ensures IsDigit(s[0]) || s[0] == '-'
    ensures NoNewline(s)
  {
    var n := (Abs(x) * 1000.0 + 0.5).Floor;
    assert n >= 0;
    var sign := if x < 0.0 then "-" else "";
    sign + Grouped(n / 1000) + Decimals(n % 1000)
  }

  /** The source's `formatUSD`; `None` stands for `null` and `undefined`. */
  function FormatUSD(x: Option<JsNumber>): (s: string)
    ensures s == MissingToken <==> (x.None? || x.value.NaN?)
    ensures NoNewline(s)
    ensures x.Some? && x.value.Num? ==>
      var t := TierOf(x.value.v);
      && |s| >= 2 && s[0] == '$'
      && (t == Plain ==> IsDigit(s[|s| - 1]))
      && (t != Plain ==>
            && |s| >= 6 && s[|s| - 1] == Suffix(t)[0] && s[|s| - 4] == '.'
            && IsDigit(s[|s| - 5]) && IsDigit(s[|s| - 3]) && IsDigit(s[|s| - 2]))
  {
    match x
    case None => MissingToken
    case Some(NaN) => MissingToken
    case Some(Num(v)) =>
      var t := TierOf(v);
      var s := if t == Plain then "$" + LocaleText(v) else "$" + ToFixed2(v / Scale(t)) + Suffix(t);
      assert s[0] == '$' && MissingToken[0] != '$';
      s
  }

  lemma ToFixedOne()
    ensures ToFixed2(1.0) == "1.00"
  {
    assert (100.0 + 0.5).Floor == 100;
    assert NatToString(1) == "1";
    assert TwoDigits(0) == "00";
  }

  lemma GroupedSixNines()
    ensures Grouped(999_999) == "999,999"
  {
    assert NatToString(9) == "9";
    assert NatToString(99) == NatToString(9) + "9" == "99";
    assert NatToString(999) == NatToString(99) + "9" == "999";
    assert TwoDigits(99) == "99";
    assert Grouped(999_999) == Grouped(999) + "," + NatToString(9) + TwoDigits(99);
  }

  lemma LocaleSixNines()
    ensures LocaleText(999_999.0) == "999,999"
  {
    assert (Abs(999_999.0) * 1000.0 + 0.5).Floor == 999_999_000;
    GroupedSixNines();
    assert Decimals(0) == "";
  }

  lemma FormatBelowMillion()
    ensures FormatUSD(Some(Num(999_999.0))) == "$999,999"
  {
    assert TierOf(999_999.0) == Plain;
    LocaleSixNines();
  }

  lemma FormatTierBoundaries()
    ensures FormatUSD(Some(Num(1_000_000.0))) == "$1.00M"
    ensures FormatUSD(Some(Num(1_000_000_000.0))) == "$1.00B"
    ensures FormatUSD(Some(Num(1_000_000_000_000.0))) == "$1.00T"
  {
    ToFixedOne();
    assert TierOf(1_000_000.0) == Millions && 1_000_000.0 / Scale(Millions) == 1.0;
    assert TierOf(1_000_000_000.0) == Billions && 1_000_000_000.0 / Scale(Billions) == 1.0;
    assert TierOf(1_000_000_000_000.0) == Trillions
      && 1_000_000_000_000.0 / Scale(Trillions) == 1.0;
  }

  lemma FormatNegative()
    ensures FormatUSD(Some(Num(-2_500_000_000.0))) == "$-2.50B"
  {
    assert TierOf(-2_500_000_000.0) == Billions;
    assert -2_500_000_000.0 / Scale(Billions) == -2.5;
    assert Abs(-2.5) == 2.5 && (2.5 * 100.0 + 0.5).Floor == 250;
    assert NatToString(2) == "2" && TwoDigits(50) == "50";
    assert ToFixed2(-2.5) == "-2.50";
  }
}
