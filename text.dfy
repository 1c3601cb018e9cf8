/**
 * Character classes and string helpers shared by the answer synthesiser,
 * the context formatter and the number formatter.
 */
module Text {

  /** `\d` of a JavaScript regular expression: ASCII digits only. */
  predicate IsDigit(c: char) { '0' <= c <= '9' }

  /** Line terminators: the characters `.` does not match and `\s` does. */
  predicate IsLineTerminator(c: char) {
    c == '\n' || c == '\r' || c as int == 0x2028 || c as int == 0x2029
  }

  /** `\s` of a JavaScript regular expression, which is also what `String.prototype.trim` strips. */
  predicate IsSpace(c: char) {
    || c == ' ' || c == '\t' || c as int == 0x0B || c as int == 0x0C
    || IsLineTerminator(c)
    || c as int == 0xA0 || c as int == 0x1680
    || (0x2000 <= c as int <= 0x200A)
    || c as int == 0x202F || c as int == 0x205F || c as int == 0x3000 || c as int == 0xFEFF
  }

  function LowerChar(c: char): char {
    if 'A' <= c <= 'Z' then (c as int + 32) as char else c
  }

  /** `toLowerCase`, restricted to the ASCII letters. */
  function Lower(s: string): (r: string)
    ensures |r| == |s|
    ensures forall i :: 0 <= i < |s| ==> r[i] == LowerChar(s[i])
  {
    if s == [] then [] else [LowerChar(s[0])] + Lower(s[1..])
  }

  /** `s` holds `t` starting at position `i`. */
  predicate LitAt(s: string, i: nat, t: string) {
    i + |t| <= |s| && s[i..i + |t|] == t
  }

  /** `s.includes(t)`. */
  predicate Contains(s: string, t: string)
    decreases |s|
  {
    LitAt(s, 0, t) || (|s| > 0 && Contains(s[1..], t))
  }

  /** Number of consecutive `\s` characters from position `i`. */
  function SpaceRun(s: string, i: nat): (n: nat)
    ensures i + n <= |s| || n == 0
    ensures forall j :: i <= j < i + n ==> IsSpace(s[j])
    ensures i + n < |s| ==> !IsSpace(s[i + n])
    decreases |s| - i
  {
    if i < |s| && IsSpace(s[i]) then 1 + SpaceRun(s, i + 1) else 0
  }

  /** Number of consecutive ASCII digits from position `i`. */
  function DigitRun(s: string, i: nat): (n: nat)
    ensures i + n <= |s| || n == 0
    ensures forall j :: i <= j < i + n ==> IsDigit(s[j])
    ensures i + n < |s| ==> !IsDigit(s[i + n])
    decreases |s| - i
  {
    if i < |s| && IsDigit(s[i]) then 1 + DigitRun(s, i + 1) else 0
  }

  function TrimStart(s: string): (r: string)
    ensures |r| <= |s| && r == s[|s| - |r|..]
    ensures r != [] ==> !IsSpace(r[0])
  {
    if s != [] && IsSpace(s[0]) then TrimStart(s[1..]) else s
  }

  function TrimEnd(s: string): (r: string)
    ensures |r| <= |s| && r == s[..|r|]
    ensures r != [] ==> !IsSpace(r[|r| - 1])
  {
    if s != [] && IsSpace(s[|s| - 1]) then TrimEnd(s[..|s| - 1]) else s
  }

  /** `String.prototype.trim`. */
  function Trim(s: string): string {
    TrimEnd(TrimStart(s))
  }

  /** Decimal value of a string of ASCII digits (`parseInt(ds, 10)`). */
  function DecimalValue(ds: string): nat
    requires forall i :: 0 <= i < |ds| ==> IsDigit(ds[i])
  {
    if ds == [] then 0
    else
      var last := ds[|ds| - 1];
      assert IsDigit(last);
      10 * DecimalValue(ds[..|ds| - 1]) + (last as int - '0' as int)
  }

  function DigitChar(d: nat): (c: char)
    requires d < 10
    ensures IsDigit(c)
  {
    ('0' as int + d) as char
  }

  /** Decimal rendering of a natural number, without leading zeros. */
  function NatToString(n: nat): (s: string)
    ensures |s| >= 1
    ensures forall i :: 0 <= i < |s| ==> IsDigit(s[i])
  {
    if n < 10 then [DigitChar(n)] else NatToString(n / 10) + [DigitChar(n % 10)]
  }

  lemma {:induction false} NatToStringValue(n: nat)
    ensures DecimalValue(NatToString(n)) == n
  {
    if n >= 10 {
      var s := NatToString(n);
      assert s[..|s| - 1] == NatToString(n / 10);
      NatToStringValue(n / 10);
    }
  }

  predicate NoNewline(s: string) {
    forall i :: 0 <= i < |s| ==> s[i] != '\n'
  }

  lemma NoNewlineConcat(a: string, b: string)
    requires NoNewline(a) && NoNewline(b)
    ensures NoNewline(a + b)
  {
  }

  /** `lines.join('\n')`. */
  function Join(lines: seq<string>): string {
    if |lines| == 0 then ""
    else if |lines| == 1 then lines[0]
    else lines[0] + "\n" + Join(lines[1..])
  }

  /** `s.split('\n')`: the pieces between newlines; one piece more than there are newlines. */
  function Split(s: string): (r: seq<string>)
    ensures |r| >= 1
  {
    if s == [] then [""]
    else
      var rest := Split(s[1..]);
      if s[0] == '\n' then [""] + rest else [[s[0]] + rest[0]] + rest[1..]
  }

  lemma {:induction false} SplitNoNewline(a: string, b: string)
    requires NoNewline(a)
    ensures Split(a + b) == [a + Split(b)[0]] + Split(b)[1..]
  {
    if a != [] {
      assert (a + b)[0] == a[0] && a[0] != '\n';
      assert (a + b)[1..] == a[1..] + b;
      SplitNoNewline(a[1..], b);
      var rest := Split(a[1..] + b);
      assert rest[0] == a[1..] + Split(b)[0] && rest[1..] == Split(b)[1..];
      assert [a[0]] + (a[1..] + Split(b)[0]) == a + Split(b)[0];
    } else {
      assert a + b == b && a + Split(b)[0] == Split(b)[0];
      assert Split(b) == [Split(b)[0]] + Split(b)[1..];
    }
  }

  lemma SplitAround(a: string, b: string)
    requires NoNewline(a)
    ensures Split(a + "\n" + b) == [a] + Split(b)
  {
    assert a + "\n" + b == a + ("\n" + b);
    SplitNoNewline(a, "\n" + b);
    assert ("\n" + b)[0] == '\n' && ("\n" + b)[1..] == b;
    assert Split("\n" + b) == [""] + Split(b);
    assert a + "" == a && ([""] + Split(b))[1..] == Split(b);
  }

  /** Splitting the joined lines on newlines gives the lines back. */
  lemma {:induction false} SplitJoin(lines: seq<string>)
    requires |lines| >= 1
    requires forall i :: 0 <= i < |lines| ==> NoNewline(lines[i])
    ensures Split(Join(lines)) == lines
  {
    if |lines| == 1 {
      SplitNoNewline(lines[0], "");
      assert lines[0] + "" == lines[0];
    } else {
      SplitJoin(lines[1..]);
      SplitAround(lines[0], Join(lines[1..]));
      assert lines == [lines[0]] + lines[1..];
    }
  }

  /** `ts[0], us[0], ts[1], us[1], ...`. */
  function Interleave(ts: seq<string>, us: seq<string>): (r: seq<string>)
    requires |ts| == |us|
    ensures |r| == 2 * |ts|
    ensures forall j :: 0 <= j < |ts| ==> r[2 * j] == ts[j] && r[2 * j + 1] == us[j]
  {
    if ts == [] then [] else [ts[0], us[0]] + Interleave(ts[1..], us[1..])
  }

  /** Interleaving single lines gives single lines. */
  lemma {:induction false} InterleaveNoNewline(ts: seq<string>, us: seq<string>)
    requires |ts| == |us|
    requires forall j :: 0 <= j < |ts| ==> NoNewline(ts[j]) && NoNewline(us[j])
    ensures forall i :: 0 <= i < 2 * |ts| ==> NoNewline(Interleave(ts, us)[i])
  {
    if ts != [] {
      var r, rest := Interleave(ts, us), Interleave(ts[1..], us[1..]);
      InterleaveNoNewline(ts[1..], us[1..]);
      assert r == [ts[0], us[0]] + rest;
      forall i | 2 <= i < |r|
        ensures NoNewline(r[i])
      {
        assert r[i] == rest[i - 2];
      }
    }
  }

  /** Pairs of lines `t + "\n" + u`. */
  function PairUp(ts: seq<string>, us: seq<string>): (r: seq<string>)
    requires |ts| == |us|
    ensures |r| == |ts| && forall j :: 0 <= j < |ts| ==> r[j] == ts[j] + "\n" + us[j]
  {
    seq(|ts|, j requires 0 <= j < |ts| => ts[j] + "\n" + us[j])
  }

  /** Joining two-line blocks is joining all their lines. */
  lemma {:induction false} JoinPairs(ts: seq<string>, us: seq<string>)
    requires |ts| == |us| >= 1
    ensures Join(PairUp(ts, us)) == Join(Interleave(ts, us))
    decreases |ts|
  {
    var lines := Interleave(ts, us);
    var blocks := PairUp(ts, us);
    if |ts| == 1 {
      assert lines == [ts[0], us[0]];
      assert lines[1..] == [us[0]];
    } else {
      JoinPairs(ts[1..], us[1..]);
      var rest := Interleave(ts[1..], us[1..]);
      assert lines[1..] == [us[0]] + rest && lines[1..][1..] == rest;
      assert blocks[1..] == PairUp(ts[1..], us[1..]);
      assert Join(lines) == ts[0] + "\n" + (us[0] + "\n" + Join(rest));
      assert Join(blocks) == (ts[0] + "\n" + us[0]) + "\n" + Join(PairUp(ts[1..], us[1..]));
    }
  }
}
