/** `parseMarkdown` of js/shared.js: the passes in their order, the paragraph
    builder driven by the `inBlock` flag, and the cleanup of the paragraph
    markup. */
module Markdown {
  import opened Text
  import Inline
  import Tables

  // ---------------------------------------------------------------- table guard

  /** `/<table[\s>]/.test(text)`: the text already holds a table tag. */
  predicate HasTableTag(s: string) {
    exists i: nat | i + 6 < |s| :: OccursAt(s, "<table", i) && (IsWhitespace(s[i + 6]) || s[i + 6] == '>')
  }

  // ---------------------------------------------------------------- paragraphs

  /** A line that starts a block kept out of the paragraphs. */
  predicate Opens(line: string) {
    StartsWith(line, "<table") || StartsWith(line, "<ul") || StartsWith(line, "<div class=\"footnote")
  }

  /** A line that ends such a block. */
  predicate Closes(line: string) {
    StartsWith(line, "</table>") || StartsWith(line, "</ul>")
  }

  /** The paragraph builder's variables: the `result` built so far and `inBlock`. */
  datatype ParaState = ParaState(out: string, inBlock: bool)

  /** One turn of the paragraph loop. */
  function ParaStep(st: ParaState, line: string): ParaState {
    if Opens(line) then ParaState(st.out + line + "\n", true)
    else if Closes(line) then ParaState(st.out + line + "\n", false)
    else if Trim(line) == [] then (if st.inBlock then st else ParaState(st.out + "</p><p>", false))
    else if st.inBlock then ParaState(st.out + line + "\n", true)
    else ParaState(st.out + line + "<br>", false)
  }

  /** The variables after the first `k` lines. */
  function ParaAfter(lines: seq<string>, k: nat): ParaState
    requires k <= |lines|
  {
    if k == 0 then ParaState([], false) else ParaStep(ParaAfter(lines, k - 1), lines[k - 1])
  }

  /** The paragraph loop over `text.split('\n')`. */
  method Paragraphs(lines: seq<string>) returns (result: string)
    ensures result == ParaAfter(lines, |lines|).out
  {
    result := "";
    var inBlock := false;
    for i := 0 to |lines|
      invariant ParaState(result, inBlock) == ParaAfter(lines, i)
    {
      var line := lines[i];
      if StartsWith(line, "<table") || StartsWith(line, "<ul") || StartsWith(line, "<div class=\"footnote") {
        result := result + line + "\n";
        inBlock := true;
      } else if StartsWith(line, "</table>") || StartsWith(line, "</ul>") {
        result := result + line + "\n";
        inBlock := false;
      } else if Trim(line) == [] {
        if !inBlock {
          result := result + "</p><p>";
        }
      } else {
        if inBlock {
          result := result + line + "\n";
        } else {
          result := result + line + "<br>";
        }
      }
    }
  }

  /** Reference for the flag: the last opening or closing line among the first
      `k`, `Some(true)` for an opening one. */
  function LastMark(lines: seq<string>, k: nat): Option<bool>
    requires k <= |lines|
  {
    if k == 0 then None
    else if Opens(lines[k - 1]) then Some(true)
    else if Closes(lines[k - 1]) then Some(false)
    else LastMark(lines, k - 1)
  }

  /** `inBlock` holds exactly when the last line that opened or closed a block
      opened one; blank and ordinary lines never change it. */
  lemma {:induction false} InBlockIsLastMark(lines: seq<string>, k: nat)
    requires k <= |lines|
    ensures ParaAfter(lines, k).inBlock <==> LastMark(lines, k) == Some(true)
  {
    if k > 0 {
      InBlockIsLastMark(lines, k - 1);
    }
  }

  /** Each line followed by `<br>`: how ordinary lines outside a block end up. */
  function BrLines(lines: seq<string>, k: nat): string
    requires k <= |lines|
  {
    if k == 0 then [] else BrLines(lines, k - 1) + lines[k - 1] + "<br>"
  }

  /** Lines that all hold text and neither open nor close a block form a single
      paragraph: each line is kept and gets `<br>`, and no `</p><p>` is emitted. */
  lemma {:induction false} OrdinaryLines(lines: seq<string>, k: nat)
    requires k <= |lines|
    requires forall j :: 0 <= j < |lines| ==> HasText(lines[j]) && !Opens(lines[j]) && !Closes(lines[j])
    ensures ParaAfter(lines, k) == ParaState(BrLines(lines, k), false)
  {
    if k > 0 {
      OrdinaryLines(lines, k - 1);
    }
  }

  /** A blank line outside a block closes the paragraph and opens the next one;
      inside a block it is dropped. */
  lemma {:induction false} BlankLine(lines: seq<string>, k: nat)
    requires k < |lines| && !HasText(lines[k])
    ensures ParaAfter(lines, k + 1).out
            == ParaAfter(lines, k).out + (if LastMark(lines, k) == Some(true) then "" else "</p><p>")
  {
    InBlockIsLastMark(lines, k);
    var line := lines[k];
    assert !Opens(line) && !Closes(line) by {
      if |line| > 0 {
        assert IsWhitespace(line[0]) by { TrimEmptyIffBlank(line); }
        NoTagLine(line);
      }
    }
  }

  // ---------------------------------------------------------------- whole conversion

  /** The passes before the paragraph builder: CRLF, tables unless a table tag is
      already present, bold, footnotes, list items and their wrapping. */
  function Prepare(text: string): string {
    var t0 := Inline.NormalizeCrlf(text);
    var t1 := if HasTableTag(t0) then t0 else Tables.TablePass(t0);
    var t2 := Inline.Bold(t1);
    var t3 := Inline.MapLines(t2, Inline.Footnote);
    var t4 := Inline.MapLines(t3, Inline.ListItem);
    Inline.WrapLists(t4)
  }

  /** The paragraph builder's result wrapped once in `<p>…</p>`. */
  function Paragraphed(lines: seq<string>): string {
    "<p>" + ParaAfter(lines, |lines|).out + "</p>"
  }

  /** `parseMarkdown(text)`, pass by pass. */
  function Markdown(text: string): string {
    if text == [] then [] else Inline.Cleanup(Paragraphed(Split(Prepare(text), '\n')))
  }

  /** `parseMarkdown`: the table pass runs its loop, the paragraph builder its own. */
  method ParseMarkdown(text: string) returns (html: string)
    ensures html == Markdown(text)
  {
    if text == [] {
      return [];
    }
    var t := Inline.NormalizeCrlf(text);
    if !HasTableTag(t) {
      t := Tables.ParseMarkdownTables(t);
    }
    t := Inline.Bold(t);
    t := Inline.MapLines(t, Inline.Footnote);
    t := Inline.MapLines(t, Inline.ListItem);
    t := Inline.WrapLists(t);
    var lines := Split(t, '\n');
    var result := Paragraphs(lines);
    html := Inline.Cleanup("<p>" + result + "</p>");
  }

  /** An empty text converts to nothing, and so does a text of blanks alone:
      each of its lines is blank and emits `</p><p>`, and the cleanup removes
      every empty paragraph this leaves. */
  lemma BlankText(w: string)
    requires IsBlank(w)
    ensures Markdown(w) == ""
  {
    if w != [] {
      var t := Prepare(w);
      BlankPasses(w);
      var lines := Split(t, '\n');
      BlankSplit(t, '\n');
      BlankLines(lines, |lines|);
      assert Paragraphed(lines) == Pairs(|lines| + 1) by { PairsOfBreaks(|lines|); }
      PairsRemoved(|lines| + 1);
    }
  }

  /** The passes before the paragraph builder turn a blank text into a blank
      text: only `\r\n` becomes `\n`, and no other pass finds its marker. */
  lemma BlankPasses(w: string)
    requires IsBlank(w)
    ensures IsBlank(Prepare(w))
  {
    var t := Inline.NormalizeCrlf(w);
    BlankReplaceAll(w, "\r\n", "\n");
    assert '<' !in t && '|' !in t && '*' !in t && '-' !in t by {
      forall c | c in t ensures IsWhitespace(c) { }
    }
    Tables.TablePassNoBar(t);
    Inline.BoldNoMarker(t);
    Inline.MapLinesNoMarker(t, Inline.Footnote);
    Inline.MapLinesNoMarker(t, Inline.ListItem);
    Inline.WrapListsNoTag(t);
  }

  lemma {:induction false} BlankReplaceAll(s: string, pat: string, rep: string)
    requires |pat| > 0 && IsBlank(s) && IsBlank(rep)
    ensures IsBlank(ReplaceAll(s, pat, rep))
    decreases |s|
  {
    if s != [] {
      if StartsWith(s, pat) {
        BlankReplaceAll(s[|pat|..], pat, rep);
      } else {
        BlankReplaceAll(s[1..], pat, rep);
      }
    }
  }

  /** Every line of a blank text is blank. */
  lemma {:induction false} BlankSplit(s: string, c: char)
    requires IsBlank(s)
    ensures forall k :: 0 <= k < |Split(s, c)| ==> IsBlank(Split(s, c)[k])
  {
    if s != [] {
      BlankSplit(s[1..], c);
      var rest := Split(s[1..], c);
      if s[0] != c {
        var r := Split(s, c);
        assert r[0] == [s[0]] + rest[0];
        forall k | 0 <= k < |r| ensures IsBlank(r[k]) {
          if k > 0 {
            assert r[k] == rest[k];
          }
        }
      }
    }
  }

  /** `</p><p>`, `n` times. */
  function Breaks(n: nat): string {
    if n == 0 then [] else Breaks(n - 1) + "</p><p>"
  }

  /** `<p></p>`, `n` times. */
  function Pairs(n: nat): string {
    if n == 0 then [] else "<p></p>" + Pairs(n - 1)
  }

  /** Blank lines, outside any block, each emit `</p><p>` and leave the flag clear. */
  lemma {:induction false} BlankLines(lines: seq<string>, k: nat)
    requires k <= |lines|
    requires forall j :: 0 <= j < |lines| ==> IsBlank(lines[j])
    ensures ParaAfter(lines, k) == ParaState(Breaks(k), false)
  {
    if k > 0 {
      BlankLines(lines, k - 1);
      var line := lines[k - 1];
      TrimEmptyIffBlank(line);
      if |line| > 0 {
        NoTagLine(line);
      }
    }
  }

  lemma {:induction false} PairsOfBreaks(n: nat)
    ensures "<p>" + Breaks(n) + "</p>" == Pairs(n + 1)
  {
    OpenBreaks(n);
    PairsCommute(n);
  }

  lemma {:induction false} OpenBreaks(n: nat)
    ensures "<p>" + Breaks(n) == Pairs(n) + "<p>"
  {
    if n > 0 {
      OpenBreaks(n - 1);
      PairsCommute(n - 1);
      calc {
        "<p>" + Breaks(n);
        ("<p>" + Breaks(n - 1)) + "</p><p>";
        (Pairs(n - 1) + "<p>") + "</p><p>";
        (Pairs(n - 1) + "<p></p>") + "<p>";
        Pairs(n) + "<p>";
      }
    }
  }

  lemma {:induction false} PairsCommute(n: nat)
    ensures Pairs(n) + "<p></p>" == "<p></p>" + Pairs(n)
  {
    if n > 0 {
      PairsCommute(n - 1);
      assert Pairs(n) + "<p></p>" == "<p></p>" + (Pairs(n - 1) + "<p></p>");
    }
  }

  /** The cleanup removes any number of empty paragraphs entirely. */
  lemma PairsRemoved(n: nat)
    ensures Inline.Cleanup(Pairs(n)) == ""
  {
    PairsGone(n);
  }

  lemma {:induction false} PairsGone(n: nat)
    ensures Inline.ReplaceGap(Pairs(n), "<p>", "</p>", "") == ""
  {
    if n > 0 {
      PairsGone(n - 1);
      var s := Pairs(n);
      EmptyHalfMatches(s);
      assert s[7..] == Pairs(n - 1);
    }
  }

  /** `<p></p>` at the start of a text is a match of `<p>\s*</p>`. */
  lemma EmptyHalfMatches(s: string)
    requires |s| >= 7 && s[..7] == "<p></p>"
    ensures Inline.GapMatch(s, "<p>", "</p>") == Some(7)
  {
    assert s[..3] == "<p>" && s[3] == '<';
    assert Inline.SkipWs(s, 3) == 3;
    assert s[3..][..4] == "</p>";
  }

  /** A single line of ordinary text (no markup characters, not blank) becomes one
      paragraph holding the line verbatim with its `<br>`: the text is not escaped. */
  lemma PlainLine(x: string)
    requires HasText(x) && Inline.OneLine(x)
    requires '<' !in x && '|' !in x && '*' !in x && '-' !in x
    ensures Markdown(x) == "<p>" + x + "<br></p>"
  {
    assert x != [];
    assert '\r' !in x && '\n' !in x by {
      forall c | c in x ensures !IsLineTerminator(c) { }
    }
    PlainPasses(x);
    assert Split(Prepare(x), '\n') == [x] by { SplitNoSeparator(x, '\n'); }
    assert x[0] != '<';
    PlainParagraph(x);
    PlainCleanup(x);
  }

  lemma PlainParagraph(x: string)
    requires HasText(x) && |x| > 0 && x[0] != '<'
    ensures Paragraphed([x]) == "<p>" + x + "<br></p>"
  {
    NoTagLine(x);
    assert ParaAfter([x], 1).out == [] + x + "<br>";
    assert [] + x + "<br>" == x + "<br>";
  }

  /** A line that does not start with `<` neither opens nor closes a block. */
  lemma NoTagLine(line: string)
    requires |line| > 0 && line[0] != '<'
    ensures !Opens(line) && !Closes(line)
  {
  }

  /** The passes before the paragraph builder leave text without markup
      characters alone. */
  lemma PlainPasses(x: string)
    requires '<' !in x && '|' !in x && '*' !in x && '-' !in x && '\r' !in x
    ensures Prepare(x) == x
  {
    Inline.NormalizeCrlfNoCr(x);
    Tables.TablePassNoBar(x);
    Inline.BoldNoMarker(x);
    Inline.MapLinesNoMarker(x, Inline.Footnote);
    Inline.MapLinesNoMarker(x, Inline.ListItem);
    Inline.WrapListsNoTag(x);
  }

  /** No cleanup rule matches around one line of text without `<`. */
  lemma PlainCleanup(x: string)
    requires HasText(x) && '<' !in x
    ensures Inline.Cleanup("<p>" + x + "<br></p>") == "<p>" + x + "<br></p>"
  {
    var s := "<p>" + x + "<br></p>";
    NoGap(x, "<p>", "</p>");
    Inline.ReplaceGapNoMatch(s, "<p>", "</p>", "");
    NoGap(x, "<p>", "<table");
    Inline.ReplaceGapNoMatch(s, "<p>", "<table", "<table");
    NoGap(x, "</table>", "</p>");
    Inline.ReplaceGapNoMatch(s, "</table>", "</p>", "</table>");
    NoGap(x, "<p>", "<ul");
    Inline.ReplaceGapNoMatch(s, "<p>", "<ul", "<ul");
    NoGap(x, "</ul>", "</p>");
    Inline.ReplaceGapNoMatch(s, "</ul>", "</p>", "</ul>");
    NoGap(x, "<p>", "<div class=\"footnote");
    Inline.ReplaceGapNoMatch(s, "<p>", "<div class=\"footnote", "<div class=\"footnote");
    NoGap(x, "</div>", "</p>");
    Inline.ReplaceGapNoMatch(s, "</div>", "</p>", "</div>");
  }

  lemma NoGap(x: string, a: string, b: string)
    requires HasText(x) && '<' !in x
    requires a in {"<p>", "</table>", "</ul>", "</div>"} && |b| > 0 && b[0] == '<'
    ensures forall i :: 0 <= i < |"<p>" + x + "<br></p>"| ==>
              Inline.GapMatch(("<p>" + x + "<br></p>")[i..], a, b) == None
  {
    var s := "<p>" + x + "<br></p>";
    forall i | 0 <= i < |s| ensures Inline.GapMatch(s[i..], a, b) == None {
      NoGapAt(x, a, b, i);
    }
  }

  lemma NoGapAt(x: string, a: string, b: string, i: nat)
    requires HasText(x) && '<' !in x
    requires a in {"<p>", "</table>", "</ul>", "</div>"} && |b| > 0 && b[0] == '<'
    requires i < |"<p>" + x + "<br></p>"|
    ensures Inline.GapMatch(("<p>" + x + "<br></p>")[i..], a, b) == None
  {
    var s := "<p>" + x + "<br></p>";
    var n := |x|;
    var t := s[i..];
    assert a[0] == '<' && (a == "<p>" || a[1] == '/');
    if i == 0 && a == "<p>" {
      NoGapFirst(x, b);
    } else if i == 0 {
      assert t[1] == 'p';
      NotAt(t, a, 1);
    } else if i < 3 {
      assert t[0] == s[i] != '<';
      NotAt(t, a, 0);
    } else if i < 3 + n {
      assert t[0] == x[i - 3];
      NotAt(t, a, 0);
    } else {
      var tail := "<br></p>";
      var m := i - 3 - n;
      assert t == tail[m..] by {
        assert s == ("<p>" + x) + tail;
      }
      if m == 0 {
        assert t[1] == 'b';
        NotAt(t, a, 1);
      } else if m == 4 {
        assert t == "</p>";
        if a == "<p>" {
          NotAt(t, a, 1);
        }
      } else {
        assert t[0] != '<';
        NotAt(t, a, 0);
      }
    }
  }

  /** A text that differs from the pattern at some position does not start with it. */
  lemma NotAt(t: string, a: string, k: nat)
    requires k < |a| && (k < |t| ==> t[k] != a[k])
    ensures !StartsWith(t, a)
  {
  }

  /** After the opening `<p>` the whitespace skip stops inside the line, at a
      character other than `<`. */
  lemma NoGapFirst(x: string, b: string)
    requires HasText(x) && '<' !in x && |b| > 0 && b[0] == '<'
    ensures Inline.GapMatch("<p>" + x + "<br></p>", "<p>", b) == None
  {
    var s := "<p>" + x + "<br></p>";
    var n := |x|;
    assert StartsWith(s, "<p>");
    var j := Inline.SkipWs(s, 3);
    assert j < 3 + n by {
      TrimEmptyIffBlank(x);
      var k :| 0 <= k < n && !IsWhitespace(x[k]);
      assert s[3 + k] == x[k];
    }
    assert s[j] == x[j - 3];
  }
}
