/** The line-level passes of the markdown subset in js/shared.js, each a global
    regular-expression replacement written out as a scanner over the suffix of
    the text: bold, footnote lines, list items and their `<ul>` wrapping, CRLF
    normalisation and the cleanup of the paragraph markup. None of these
    expressions is anchored other than at line starts, so whether a match starts
    at some position depends only on the text from that position on. */
module Inline {
  import opened Text
  import Escape

  // ---------------------------------------------------------------- CRLF

  /** `text.replace(/\r\n/g, '\n')` */
  function NormalizeCrlf(s: string): string {
    ReplaceAll(s, "\r\n", "\n")
  }

  /** Text without a carriage return is left as it is. */
  lemma NormalizeCrlfNoCr(s: string)
    requires '\r' !in s
    ensures NormalizeCrlf(s) == s
  {
    NoPatternWithoutItsFirst(s, "\r\n");
    ReplaceAllAbsent(s, "\r\n", "\n");
  }

  /** A pattern cannot occur in a text that lacks its first character. */
  lemma NoPatternWithoutItsFirst(s: string, p: string)
    requires |p| > 0 && p[0] !in s
    ensures !Contains(s, p)
  {
  }

  /** After normalisation no carriage return is followed by a newline unless the
      source held `\r\r\n`: every `\r\n` pair is consumed, left to right. */
  lemma {:induction false} CrlfGone(s: string)
    requires forall k :: 0 <= k && k + 1 < |s| ==> !(s[k] == '\r' && s[k + 1] == '\r')
    ensures !Contains(NormalizeCrlf(s), "\r\n")
  {
    CrlfGoneScan(s);
  }

  lemma {:induction false} CrlfGoneScan(s: string)
    requires forall k :: 0 <= k && k + 1 < |s| ==> !(s[k] == '\r' && s[k + 1] == '\r')
    ensures !Contains(ReplaceAll(s, "\r\n", "\n"), "\r\n")
    ensures s != [] && s[0] != '\r' ==> ReplaceAll(s, "\r\n", "\n")[0] == s[0]
    ensures s != [] && s[0] == '\r' ==> ReplaceAll(s, "\r\n", "\n")[0] != '\r' || |s| == 1 || s[1] != '\n'
    ensures s == [] ==> ReplaceAll(s, "\r\n", "\n") == []
    ensures s != [] ==> ReplaceAll(s, "\r\n", "\n") != []
    decreases |s|
  {
    if s != [] {
      var r := ReplaceAll(s, "\r\n", "\n");
      var d := if StartsWith(s, "\r\n") then 2 else 1;
      var t := s[d..];
      forall k | 0 <= k && k + 1 < |t| ensures !(t[k] == '\r' && t[k + 1] == '\r') {
        assert t[k] == s[k + d] && t[k + 1] == s[k + 1 + d];
      }
      CrlfGoneScan(t);
      var rt := ReplaceAll(t, "\r\n", "\n");
      if d == 2 {
        assert r == ['\n'] + rt;
        NoCrlfCons('\n', rt);
      } else {
        assert r == [s[0]] + rt;
        assert s[0] != '\r' || rt == [] || rt[0] != '\n' by {
          if s[0] == '\r' && t != [] {
            assert t[0] == s[1] && s[1] != '\r';
            assert s[1] != '\n' by {
              assert !StartsWith(s, "\r\n");
              assert s[..2] == [s[0], s[1]];
            }
          }
        }
        NoCrlfCons(s[0], rt);
      }
    }
  }

  /** A character put in front of a text without `\r\n` makes none, unless it is a
      carriage return and the text starts with a newline. */
  lemma NoCrlfCons(c: char, rt: string)
    requires !Contains(rt, "\r\n")
    requires c != '\r' || rt == [] || rt[0] != '\n'
    ensures !Contains([c] + rt, "\r\n")
  {
    var r := [c] + rt;
    forall i: nat | i <= |r| ensures !OccursAt(r, "\r\n", i) {
      if i == 0 && 2 <= |r| {
        assert r[0..2] == [c, rt[0]];
      } else if i > 0 && i + 2 <= |r| {
        assert r[i..i + 2] == rt[i - 1..i + 1];
        assert !OccursAt(rt, "\r\n", i - 1);
      }
    }
  }

  // ---------------------------------------------------------------- bold

  /** The closing `**` of the bold expression: the first position `q >= p` where `**`
      starts, provided no line terminator lies before it (`.` stops at one). */
  function CloseFrom(s: string, p: nat): (r: Option<nat>)
    ensures r.Some? ==> p <= r.value && r.value + 2 <= |s|
                        && s[r.value] == '*' && s[r.value + 1] == '*'
    ensures r.Some? ==> forall k :: p <= k < r.value ==> !IsLineTerminator(s[k])
    decreases |s| - p
  {
    if p + 1 < |s| && s[p] == '*' && s[p + 1] == '*' then Some(p)
    else if p < |s| && !IsLineTerminator(s[p]) then CloseFrom(s, p + 1)
    else None
  }

  /** Where the bold match that starts at the beginning of `s` ends its inner text:
      `**`, at least one character that is not a line terminator, then the first
      `**` after it on the same line. */
  function BoldAt(s: string): (r: Option<nat>)
    ensures r.Some? ==> 3 <= r.value && r.value + 2 <= |s|
  {
    if |s| >= 3 && s[0] == '*' && s[1] == '*' && !IsLineTerminator(s[2]) then CloseFrom(s, 3)
    else None
  }

  // text.replace(/\*\*(.+?)\*\*/g, '<strong>$1</strong>')
  function Bold(s: string): string
    decreases |s|
  {
    if s == [] then []
    else match BoldAt(s)
      case Some(p) => "<strong>" + s[2..p] + "</strong>" + Bold(s[p + 2..])
      case None => [s[0]] + Bold(s[1..])
  }

  /** Text without an asterisk is left as it is. */
  lemma {:induction false} BoldNoMarker(s: string)
    requires '*' !in s
    ensures Bold(s) == s
    decreases |s|
  {
    if s != [] {
      assert s[0] != '*';
      BoldNoMarker(s[1..]);
    }
  }

  lemma {:induction false} CloseFromRun(x: string, rest: string, p: nat)
    requires '*' !in x && forall k :: 0 <= k < |x| ==> !IsLineTerminator(x[k])
    requires 2 <= p <= 2 + |x|
    ensures CloseFrom("**" + x + "**" + rest, p) == Some(2 + |x|)
    decreases 2 + |x| - p
  {
    var s := "**" + x + "**" + rest;
    if p < 2 + |x| {
      assert s[p] == x[p - 2];
      CloseFromRun(x, rest, p + 1);
    } else {
      assert s[p] == '*' && s[p + 1] == '*';
    }
  }

  /** `**x**` becomes `<strong>x</strong>` when `x` is one line without asterisks,
      whatever follows; the rest is converted on its own, so several runs on one
      line are each converted. */
  lemma BoldRun(x: string, rest: string)
    requires |x| > 0 && '*' !in x
    requires forall k :: 0 <= k < |x| ==> !IsLineTerminator(x[k])
    ensures Bold("**" + x + "**" + rest) == "<strong>" + x + "</strong>" + Bold(rest)
  {
    var s := "**" + x + "**" + rest;
    assert s[2] == x[0];
    CloseFromRun(x, rest, 3);
    assert s[2..2 + |x|] == x;
    assert s[2 + |x| + 2..] == rest;
  }

  lemma {:induction false} CloseFromBreak(a: string, t: char, b: string, p: nat)
    requires IsLineTerminator(t) && p <= |a|
    ensures CloseFrom(a + [t] + b, p) == CloseFrom(a, p)
    decreases |a| - p
  {
    var s := a + [t] + b;
    if p + 1 < |a| {
      assert s[p] == a[p] && s[p + 1] == a[p + 1];
      CloseFromBreak(a, t, b, p + 1);
    } else if p + 1 == |a| {
      assert s[p] == a[p] && s[p + 1] == t;
      CloseFromBreak(a, t, b, p + 1);
    } else {
      assert s[p] == t;
    }
  }

  lemma BreakAssoc(x: string, y: string, t: char, z: string)
    ensures x + (y + [t] + z) == (x + y) + [t] + z
  {
  }

  /** A bold run never spans a line break: converting the text equals converting
      each side of a line terminator on its own. */
  lemma {:induction false} BoldLineBreak(a: string, t: char, b: string)
    requires IsLineTerminator(t)
    ensures Bold(a + [t] + b) == Bold(a) + [t] + Bold(b)
    decreases |a|
  {
    var s := a + [t] + b;
    if a == [] {
      assert s == [t] + b;
      assert s[1..] == b;
    } else {
      assert s[0] == a[0];
      if |a| >= 3 {
        assert s[1] == a[1] && s[2] == a[2];
        CloseFromBreak(a, t, b, 3);
      } else if |a| == 2 {
        assert s[2] == t;
      } else {
        assert s[1] == t;
      }
      assert BoldAt(s) == BoldAt(a);
      match BoldAt(a)
      case Some(p) => {
        var rest := a[p + 2..];
        var strong := "<strong>" + a[2..p] + "</strong>";
        assert Bold(s) == strong + Bold(rest + [t] + b) by {
          assert s[2..p] == a[2..p];
          assert s[p + 2..] == rest + [t] + b;
        }
        assert Bold(rest + [t] + b) == Bold(rest) + [t] + Bold(b) by {
          BoldLineBreak(rest, t, b);
        }
        assert Bold(a) == strong + Bold(rest);
        BreakAssoc(strong, Bold(rest), t, Bold(b));
      }
      case None => {
        var rest := a[1..];
        assert Bold(s) == [a[0]] + Bold(rest + [t] + b) by {
          assert s[1..] == rest + [t] + b;
        }
        assert Bold(rest + [t] + b) == Bold(rest) + [t] + Bold(b) by {
          BoldLineBreak(rest, t, b);
        }
        assert Bold(a) == [a[0]] + Bold(rest);
        BreakAssoc([a[0]], Bold(rest), t, Bold(b));
      }
    }
  }

  /** A character that cannot open a bold run is copied. */
  lemma BoldSkip(c: char, r: string)
    requires c != '*' || r == [] || r[0] != '*'
    ensures Bold([c] + r) == [c] + Bold(r)
  {
    var s := [c] + r;
    assert s[0] == c && s[1..] == r;
    assert |s| >= 2 ==> s[1] == r[0];
  }

  // ---------------------------------------------------------------- line rules

  /** The three multiline replacements that rewrite a whole line. */
  datatype LineRule =
    | Footnote     // /^\* (.+)$/gm, body escaped
    | ListItem     // /^- (.+)$/gm
    | BotListItem  // /^[-•] (.+)$/gm, in the chat formatter

  /** Whether a line starting with `c` can be rewritten by `rule`. */
  predicate Marker(rule: LineRule, c: char) {
    match rule
    case Footnote => c == '*'
    case ListItem => c == '-'
    case BotListItem => c == '-' || c == '•'
  }

  /** Whether the rule rewrites a line (a text without line terminators): the
      marker, a space and a non-empty rest. */
  predicate Fires(rule: LineRule, line: string) {
    |line| >= 3 && Marker(rule, line[0]) && line[1] == ' '
  }

  /** What a line the rule fires on becomes. */
  function Rewrite(rule: LineRule, line: string): string
    requires Fires(rule, line)
  {
    match rule
    case Footnote => "<div class=\"footnote\">" + Escape.EscapeHtml(line[2..]) + "</div>"
    case _ => "<li>" + line[2..] + "</li>"
  }

  function ApplyRule(rule: LineRule, line: string): string {
    if Fires(rule, line) then Rewrite(rule, line) else line
  }

  /** The end of the line that starts at `i`: the first line terminator at or
      after `i`, or the end of the text. */
  function LineEnd(s: string, i: nat): (e: nat)
    requires i <= |s|
    ensures i <= e <= |s|
    ensures e < |s| ==> IsLineTerminator(s[e])
    ensures forall k :: i <= k < e ==> !IsLineTerminator(s[k])
    decreases |s| - i
  {
    if i == |s| || IsLineTerminator(s[i]) then i else LineEnd(s, i + 1)
  }

  /** A `/^…$/gm` replacement: `^` holds at the start and after every line
      terminator, `$` before every line terminator and at the end, and `.` never
      crosses one, so the rule applies to each line separately. */
  function MapLines(s: string, rule: LineRule): string
    decreases |s|
  {
    var e := LineEnd(s, 0);
    ApplyRule(rule, s[..e]) + (if e < |s| then [s[e]] + MapLines(s[e + 1..], rule) else [])
  }

  lemma LineEndWhole(line: string, rest: string, i: nat)
    requires i <= |line| && forall k :: 0 <= k < |line| ==> !IsLineTerminator(line[k])
    requires rest == [] || IsLineTerminator(rest[0])
    ensures LineEnd(line + rest, i) == |line|
    decreases |line| - i
  {
    var s := line + rest;
    if i < |line| {
      assert s[i] == line[i];
      LineEndWhole(line, rest, i + 1);
    }
  }

  /** A line-based rule rewrites the first line and leaves the line break. */
  lemma MapLinesFirst(line: string, t: char, rest: string, rule: LineRule)
    requires forall k :: 0 <= k < |line| ==> !IsLineTerminator(line[k])
    requires IsLineTerminator(t)
    ensures MapLines(line + [t] + rest, rule) == ApplyRule(rule, line) + [t] + MapLines(rest, rule)
  {
    var s := line + [t] + rest;
    assert LineEnd(s, 0) == |line| by {
      assert s == line + ([t] + rest);
      LineEndWhole(line, [t] + rest, 0);
    }
    assert s[..|line|] == line && s[|line|] == t && s[|line| + 1..] == rest;
    MapLinesAt(s, rule, |line|);
  }

  /** One step of `MapLines` at a line end that is followed by a terminator. */
  lemma MapLinesAt(s: string, rule: LineRule, e: nat)
    requires e < |s| && LineEnd(s, 0) == e
    ensures MapLines(s, rule) == ApplyRule(rule, s[..e]) + [s[e]] + MapLines(s[e + 1..], rule)
  {
  }

  /** A text of one line is rewritten as that line. */
  lemma MapLinesSingle(line: string, rule: LineRule)
    requires OneLine(line)
    ensures MapLines(line, rule) == ApplyRule(rule, line)
  {
    LineEndWhole(line, [], 0);
    assert line + [] == line;
    assert line[..|line|] == line;
  }

  /** A text where no character is the rule's marker is left unchanged. */
  lemma {:induction false} MapLinesNoMarker(s: string, rule: LineRule)
    requires forall k :: 0 <= k < |s| ==> !Marker(rule, s[k])
    ensures MapLines(s, rule) == s
    decreases |s|
  {
    var e := LineEnd(s, 0);
    var line := s[..e];
    assert OneLine(line) by {
      forall k | 0 <= k < |line| ensures !IsLineTerminator(line[k]) {
        assert line[k] == s[k];
      }
    }
    assert ApplyRule(rule, line) == line by {
      if |line| > 0 {
        assert line[0] == s[0];
      }
    }
    if e < |s| {
      var t, rest := s[e], s[e + 1..];
      assert s == line + [t] + rest;
      assert MapLines(rest, rule) == rest by {
        forall k | 0 <= k < |rest| ensures !Marker(rule, rest[k]) {
          assert rest[k] == s[k + e + 1];
        }
        MapLinesNoMarker(rest, rule);
      }
      MapLinesFirst(line, t, rest, rule);
    } else {
      assert line == s;
      MapLinesSingle(line, rule);
    }
  }

  /** A text without line terminators. */
  predicate OneLine(s: string) {
    forall k :: 0 <= k < |s| ==> !IsLineTerminator(s[k])
  }

  lemma OneLineConcat(a: string, b: string)
    requires OneLine(a) && OneLine(b)
    ensures OneLine(a + b)
  {
    forall k | 0 <= k < |a + b| ensures !IsLineTerminator((a + b)[k]) {
      if k < |a| { assert (a + b)[k] == a[k]; } else { assert (a + b)[k] == b[k - |a|]; }
    }
  }

  /** Bold conversion adds no line break and keeps a non-empty line non-empty. */
  lemma {:induction false} BoldOneLine(s: string)
    requires OneLine(s)
    ensures OneLine(Bold(s)) && |Bold(s)| >= |s|
    decreases |s|
  {
    if s != [] {
      match BoldAt(s)
      case Some(p) => {
        var inner, rest := s[2..p], s[p + 2..];
        assert OneLine(inner) by { forall k | 0 <= k < |inner| ensures !IsLineTerminator(inner[k]) { assert inner[k] == s[k + 2]; } }
        assert OneLine(rest) by { forall k | 0 <= k < |rest| ensures !IsLineTerminator(rest[k]) { assert rest[k] == s[k + p + 2]; } }
        BoldOneLine(rest);
        assert OneLine("<strong>") && OneLine("</strong>");
        OneLineConcat("<strong>", inner);
        OneLineConcat("<strong>" + inner, "</strong>");
        OneLineConcat("<strong>" + inner + "</strong>", Bold(rest));
      }
      case None => {
        var rest := s[1..];
        assert OneLine(rest) by { forall k | 0 <= k < |rest| ensures !IsLineTerminator(rest[k]) { assert rest[k] == s[k + 1]; } }
        BoldOneLine(rest);
        assert OneLine([s[0]]);
        OneLineConcat([s[0]], Bold(rest));
      }
    }
  }

  /** Bold runs before the footnote pass, so the body of a footnote line is the
      bold-converted text, escaped: a `<strong>` tag the bold pass inserted there
      reaches the page as the text `&lt;strong&gt;`. */
  lemma FootnoteOfBold(y: string)
    requires |y| > 0 && OneLine(y)
    ensures MapLines(Bold("* " + y), Footnote)
            == "<div class=\"footnote\">" + Escape.EscapeHtml(Bold(y)) + "</div>"
  {
    BoldStar(y);
    BoldOneLine(y);
    FootnoteLine(Bold(y));
  }

  lemma BoldStar(y: string)
    ensures Bold("* " + y) == "* " + Bold(y)
  {
    var t := [' '] + y;
    assert Bold(t) == [' '] + Bold(y) by { BoldSkip(' ', y); }
    assert Bold(['*'] + t) == ['*'] + Bold(t) by { BoldSkip('*', t); }
    assert "* " + y == ['*'] + t;
    assert "* " + Bold(y) == ['*'] + ([' '] + Bold(y));
  }

  /** A footnote line: its body is escaped and wrapped. */
  lemma FootnoteLine(z: string)
    requires |z| > 0 && OneLine(z)
    ensures MapLines("* " + z, Footnote) == "<div class=\"footnote\">" + Escape.EscapeHtml(z) + "</div>"
  {
    var b := "* " + z;
    assert OneLine(b) by {
      assert OneLine("* ");
      OneLineConcat("* ", z);
    }
    MapLinesSingle(b, Footnote);
    assert b[0] == '*' && b[1] == ' ' && b[2..] == z;
  }

  // ---------------------------------------------------------------- list wrapping

  /** The `</li>` that closes `<li>.*?<\/li>`: the first one at or after `p`, with
      no line terminator before it. */
  function LiClose(t: string, p: nat): (r: Option<nat>)
    ensures r.Some? ==> p <= r.value && r.value + 5 <= |t|
    decreases |t| - p
  {
    if p + 5 <= |t| && t[p..p + 5] == "</li>" then Some(p)
    else if p < |t| && !IsLineTerminator(t[p]) then LiClose(t, p + 1)
    else None
  }

  /** Length of one `<li>.*?<\/li>\n?` unit at the start of `t`, if there is one. */
  function LiUnit(t: string): (r: Option<nat>)
    ensures r.Some? ==> 0 < r.value <= |t|
  {
    if StartsWith(t, "<li>") then
      match LiClose(t, 4)
      case Some(q) => Some(if q + 5 < |t| && t[q + 5] == '\n' then q + 6 else q + 5)
      case None => None
    else None
  }

  /** Length of the longest run of units `(?:<li>.*?<\/li>\n?)+` at the start of `t`
      (0 when none starts there). */
  function LiRun(t: string): (n: nat)
    ensures n <= |t|
    decreases |t|
  {
    match LiUnit(t)
    case Some(e) => e + LiRun(t[e..])
    case None => 0
  }

  /** `text.replace(/((?:<li>.*?<\/li>\n?)+)/g, '<ul>$1</ul>')` */
  function WrapLists(s: string): string
    decreases |s|
  {
    if s == [] then []
    else
      var n := LiRun(s);
      if n > 0 then "<ul>" + s[..n] + "</ul>" + WrapLists(s[n..])
      else [s[0]] + WrapLists(s[1..])
  }

  /** Consecutive items, each on its own line. */
  function Items(xs: seq<string>): string {
    if xs == [] then [] else "<li>" + xs[0] + "</li>\n" + Items(xs[1..])
  }

  /** What an item's text may hold for the lemmas below: one line, no tag. */
  predicate PlainItem(x: string) {
    '<' !in x && forall k :: 0 <= k < |x| ==> !IsLineTerminator(x[k])
  }

  lemma {:induction false} LiCloseItem(x: string, rest: string, p: nat)
    requires PlainItem(x) && 4 <= p <= 4 + |x|
    ensures LiClose("<li>" + x + "</li>\n" + rest, p) == Some(4 + |x|)
    decreases 4 + |x| - p
  {
    var t := "<li>" + x + "</li>\n" + rest;
    if p < 4 + |x| {
      assert t[p] == x[p - 4];
      assert t[p..p + 5][0] == t[p];
      LiCloseItem(x, rest, p + 1);
    } else {
      assert t[p..p + 5] == "</li>";
    }
  }

  lemma {:induction false} LiRunItems(xs: seq<string>, rest: string)
    requires forall i :: 0 <= i < |xs| ==> PlainItem(xs[i])
    requires !StartsWith(rest, "<li>")
    ensures LiRun(Items(xs) + rest) == |Items(xs)|
    decreases |xs|
  {
    var t := Items(xs) + rest;
    if xs == [] {
      assert t == rest;
    } else {
      var x := xs[0];
      var tail := Items(xs[1..]) + rest;
      assert t == "<li>" + x + "</li>\n" + tail;
      assert t[..4] == "<li>";
      LiCloseItem(x, tail, 4);
      assert t[4 + |x| + 5] == '\n';
      assert LiUnit(t) == Some(|x| + 10);
      assert t[|x| + 10..] == tail;
      LiRunItems(xs[1..], rest);
    }
  }

  /** A run of consecutive items is wrapped in one `<ul>` that takes in the newline
      after the last item; what follows the run is wrapped on its own. */
  lemma WrapListsRun(xs: seq<string>, rest: string)
    requires |xs| > 0 && forall i :: 0 <= i < |xs| ==> PlainItem(xs[i])
    requires !StartsWith(rest, "<li>")
    ensures WrapLists(Items(xs) + rest) == "<ul>" + Items(xs) + "</ul>" + WrapLists(rest)
  {
    var t := Items(xs) + rest;
    LiRunItems(xs, rest);
    assert t[..|Items(xs)|] == Items(xs);
    assert t[|Items(xs)|..] == rest;
  }

  /** Text without `<` holds no item and is left unchanged. */
  lemma {:induction false} WrapListsNoTag(s: string)
    requires '<' !in s
    ensures WrapLists(s) == s
    decreases |s|
  {
    if s != [] {
      assert !StartsWith(s, "<li>") by { assert s[0] != '<'; }
      WrapListsNoTag(s[1..]);
    }
  }

  // ---------------------------------------------------------------- cleanup

  /** The first position at or after `i` that does not hold whitespace. */
  function SkipWs(t: string, i: nat): (j: nat)
    requires i <= |t|
    ensures i <= j <= |t| && (j < |t| ==> !IsWhitespace(t[j]))
    ensures forall k :: i <= k < j ==> IsWhitespace(t[k])
    decreases |t| - i
  {
    if i < |t| && IsWhitespace(t[i]) then SkipWs(t, i + 1) else i
  }

  /** Length of a match of `A\s*B` at the start of `t`. `\s*` is greedy and, since
      every `B` used starts with `<`, giving back whitespace cannot help `B` match. */
  function GapMatch(t: string, a: string, b: string): (r: Option<nat>)
    ensures r.Some? ==> |a| <= r.value <= |t|
  {
    if StartsWith(t, a) then
      var j := SkipWs(t, |a|);
      if StartsWith(t[j..], b) then Some(j + |b|) else None
    else None
  }

  /** `text.replace(/A\s*B/g, keep)` */
  function ReplaceGap(s: string, a: string, b: string, keep: string): string
    requires |a| > 0
    decreases |s|
  {
    if s == [] then []
    else match GapMatch(s, a, b)
      case Some(e) => keep + ReplaceGap(s[e..], a, b, keep)
      case None => [s[0]] + ReplaceGap(s[1..], a, b, keep)
  }

  /** A replacement with no match anywhere changes nothing. */
  lemma {:induction false} ReplaceGapNoMatch(s: string, a: string, b: string, keep: string)
    requires |a| > 0
    requires forall i :: 0 <= i < |s| ==> GapMatch(s[i..], a, b) == None
    ensures ReplaceGap(s, a, b, keep) == s
    decreases |s|
  {
    if s != [] {
      assert GapMatch(s[0..], a, b) == None && s[0..] == s;
      forall i | 0 <= i < |s[1..]| ensures GapMatch(s[1..][i..], a, b) == None {
        assert s[1..][i..] == s[i + 1..];
      }
      ReplaceGapNoMatch(s[1..], a, b, keep);
    }
  }

  /** The seven cleanup replacements, in order: empty paragraphs go, and a `<p>`
      or `</p>` directly around a table, a list or a footnote is dropped. */
  function Cleanup(r: string): string {
    var r1 := ReplaceGap(r, "<p>", "</p>", "");
    var r2 := ReplaceGap(r1, "<p>", "<table", "<table");
    var r3 := ReplaceGap(r2, "</table>", "</p>", "</table>");
    var r4 := ReplaceGap(r3, "<p>", "<ul", "<ul");
    var r5 := ReplaceGap(r4, "</ul>", "</p>", "</ul>");
    var r6 := ReplaceGap(r5, "<p>", "<div class=\"footnote", "<div class=\"footnote");
    ReplaceGap(r6, "</div>", "</p>", "</div>")
  }

  /** An empty paragraph, even one holding only whitespace, disappears. */
  lemma EmptyParagraphRemoved(w: string)
    requires IsBlank(w) && '<' !in w
    ensures Cleanup("<p>" + w + "</p>") == ""
  {
    var s := "<p>" + w + "</p>";
    var j := SkipWs(s, 3);
    assert forall k :: 3 <= k < 3 + |w| ==> s[k] == w[k - 3];
    assert s[3 + |w|] == '<';
    assert j == 3 + |w|;
    assert s[j..] == "</p>";
    assert GapMatch(s, "<p>", "</p>") == Some(|s|);
    assert s[|s|..] == [];
    assert ReplaceGap(s, "<p>", "</p>", "") == "";
  }
}
