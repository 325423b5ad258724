/** The full-text search of the convention page (js/chatbot.js): a text node of
    the sections is split around the case-insensitive occurrences of the query,
    each occurrence wrapped in a mark; the marks are then visited one at a time,
    and clearing puts the text back. The walk over the nodes as written ends
    after the first node it splits (`ViewsAsWritten`); the page uses the
    intended walk, which splits every node holding the query (`Views`). The
    page's text nodes are a sequence of strings, and each node's current
    rendering a sequence of parts. */
module Search {
  import opened Text

  /** `{ text, highlight }`: a piece of a text node, shown in a mark or as text. */
  datatype Part = Part(text: string, highlight: bool)

  // ---------------------------------------------------------------- matching

  /** From its `k`-th character on, the query equals the text at `i` once every
      character is folded: the `i` flag of the search expression, with `fold` the
      case folding it applies. */
  predicate FoldedFrom(text: string, q: string, fold: char -> char, i: nat, k: nat)
    requires i + |q| <= |text| && k <= |q|
    decreases |q| - k
  {
    k == |q| || (fold(text[i + k]) == fold(q[k]) && FoldedFrom(text, q, fold, i, k + 1))
  }

  /** The query, escaped so that it matches literally, matches at `i`. */
  predicate MatchAt(text: string, q: string, fold: char -> char, i: nat) {
    i + |q| <= |text| && FoldedFrom(text, q, fold, i, 0)
  }

  /** Comparing inside a slice is comparing in the text. */
  lemma {:induction false} FoldedShift(text: string, q: string, fold: char -> char, a: nat, b: nat, i: nat, k: nat)
    requires a <= b <= |text| && i + |q| <= b - a && k <= |q|
    ensures FoldedFrom(text[a..b], q, fold, i, k) <==> FoldedFrom(text, q, fold, a + i, k)
    decreases |q| - k
  {
    if k < |q| {
      assert text[a..b][i + k] == text[a + i + k];
      FoldedShift(text, q, fold, a, b, i, k + 1);
    }
  }

  /** Where `regex.exec` finds the next occurrence from `i` on (`lastIndex`), or
      `|text|` when there is none. */
  function NextMatch(text: string, q: string, fold: char -> char, i: nat): (j: nat)
    requires i <= |text|
    ensures i <= j <= |text| && (j < |text| ==> j + |q| <= |text|)
    decreases |text| - i
  {
    if i == |text| || MatchAt(text, q, fold, i) then i else NextMatch(text, q, fold, i + 1)
  }

  /** The occurrence found is the first one from `i` on. */
  lemma {:induction false} NextMatchSpec(text: string, q: string, fold: char -> char, i: nat)
    requires i <= |text|
    ensures var j := NextMatch(text, q, fold, i);
      && (j < |text| ==> MatchAt(text, q, fold, j))
      && (forall k :: i <= k < j ==> !MatchAt(text, q, fold, k))
    decreases |text| - i
  {
    if i < |text| && !MatchAt(text, q, fold, i) {
      NextMatchSpec(text, q, fold, i + 1);
    }
  }

  /** The parts of `text` from `last` on: the text before each occurrence, if
      any, then the occurrence as it is written in the text, and what follows
      the last occurrence, if anything. */
  function PartsFrom(text: string, q: string, fold: char -> char, last: nat): seq<Part>
    requires |q| > 0 && last <= |text|
    decreases |text| - last
  {
    var j := NextMatch(text, q, fold, last);
    if j == |text| then
      (if last < |text| then [Part(text[last..], false)] else [])
    else Segment(text, last, j, j + |q|) + PartsFrom(text, q, fold, j + |q|)
  }

  /** The text from `last` to the occurrence `[j, e)`, if any, then the
      occurrence. */
  function Segment(text: string, last: nat, j: nat, e: nat): seq<Part>
    requires last <= j <= e <= |text|
  {
    (if j > last then [Part(text[last..j], false)] else []) + [Part(text[j..e], true)]
  }

  function Parts(text: string, q: string, fold: char -> char): seq<Part>
    requires |q| > 0
  {
    PartsFrom(text, q, fold, 0)
  }

  /** The split loop of `performFullTextSearch` for one text node. */
  method SplitParts(text: string, q: string, fold: char -> char) returns (parts: seq<Part>)
    requires |q| > 0
    ensures parts == Parts(text, q, fold)
  {
    parts := [];
    var last := 0;
    ghost var whole := Parts(text, q, fold);
    var found := true;
    while found
      invariant last <= |text|
      invariant found ==> SplitSoFar(parts, text, q, fold, last, whole)
      invariant !found ==> parts == whole
      decreases |text| - last, found
    {
      var j := NextMatch(text, q, fold, last);
      if j < |text| {
        var next := parts + Segment(text, last, j, j + |q|);
        SplitStep(parts, next, text, q, fold, last, j, whole);
        parts, last := next, j + |q|;
      } else {
        var next := if last < |text| then parts + [Part(text[last..], false)] else parts;
        SplitEnd(parts, next, text, q, fold, last, whole);
        parts, found := next, false;
      }
    }
  }

  /** The parts found before `last`, followed by those from `last` on, make the
      whole split. */
  predicate SplitSoFar(done: seq<Part>, text: string, q: string, fold: char -> char, last: nat, whole: seq<Part>)
    requires |q| > 0 && last <= |text|
  {
    done + PartsFrom(text, q, fold, last) == whole
  }

  lemma SplitStep(done: seq<Part>, next: seq<Part>, text: string, q: string, fold: char -> char, last: nat, j: nat, whole: seq<Part>)
    requires |q| > 0 && last <= |text| && j == NextMatch(text, q, fold, last) < |text|
    requires SplitSoFar(done, text, q, fold, last, whole)
    requires next == done + Segment(text, last, j, j + |q|)
    ensures SplitSoFar(next, text, q, fold, j + |q|, whole)
  {
  }

  lemma SplitEnd(done: seq<Part>, next: seq<Part>, text: string, q: string, fold: char -> char, last: nat, whole: seq<Part>)
    requires |q| > 0 && last <= |text| && NextMatch(text, q, fold, last) == |text|
    requires SplitSoFar(done, text, q, fold, last, whole)
    requires next == if last < |text| then done + [Part(text[last..], false)] else done
    ensures next == whole
  {
  }

  /** The text the parts show, in order. */
  function Texts(parts: seq<Part>): string {
    if parts == [] then [] else parts[0].text + Texts(parts[1..])
  }

  /** The number of marks the parts make. */
  function Highlights(parts: seq<Part>): nat {
    if parts == [] then 0 else (if parts[0].highlight then 1 else 0) + Highlights(parts[1..])
  }

  // ---------------------------------------------------------------- split facts

  lemma {:induction false} TextsConcat(a: seq<Part>, b: seq<Part>)
    ensures Texts(a + b) == Texts(a) + Texts(b)
  {
    if a != [] {
      TextsConcat(a[1..], b);
      assert (a + b)[0] == a[0] && (a + b)[1..] == a[1..] + b;
      assert Texts(a + b) == a[0].text + Texts(a[1..] + b);
    } else {
      assert a + b == b;
    }
  }

  /** Splitting never changes the text: the parts put together give it back. */
  lemma {:induction false} PartsKeepText(text: string, q: string, fold: char -> char, last: nat)
    requires |q| > 0 && last <= |text|
    ensures Texts(PartsFrom(text, q, fold, last)) == text[last..]
    decreases |text| - last
  {
    var j := NextMatch(text, q, fold, last);
    if j < |text| {
      PartsKeepText(text, q, fold, j + |q|);
      KeepTextStep(text, q, fold, last, j);
    } else if last < |text| {
      assert Texts([Part(text[last..], false)]) == text[last..];
    }
  }

  lemma KeepTextStep(text: string, q: string, fold: char -> char, last: nat, j: nat)
    requires |q| > 0 && last <= |text| && j == NextMatch(text, q, fold, last) < |text|
    requires Texts(PartsFrom(text, q, fold, j + |q|)) == text[j + |q|..]
    ensures Texts(PartsFrom(text, q, fold, last)) == text[last..]
  {
    var e := j + |q|;
    var seg, rest := Segment(text, last, j, e), PartsFrom(text, q, fold, e);
    assert PartsFrom(text, q, fold, last) == seg + rest;
    SegmentText(text, last, j, e);
    TextsConcat(seg, rest);
    SliceSplit(text, last, e);
  }

  lemma SliceSplit(s: string, a: nat, b: nat)
    requires a <= b <= |s|
    ensures s[a..] == s[a..b] + s[b..]
  {
  }

  lemma SegmentText(text: string, last: nat, j: nat, e: nat)
    requires last <= j <= e <= |text|
    ensures Texts(Segment(text, last, j, e)) == text[last..e]
    ensures Highlights(Segment(text, last, j, e)) == 1
  {
    var before := if j > last then [Part(text[last..j], false)] else [];
    TextsConcat(before, [Part(text[j..e], true)]);
    HighlightsConcat(before, [Part(text[j..e], true)]);
    assert Texts([Part(text[j..e], true)]) == text[j..e];
    assert Texts(before) == text[last..j];
    assert text[last..e] == text[last..j] + text[j..e];
  }

  /** A match inside a slice of the text is a match in the text. */
  lemma MatchInSlice(text: string, q: string, fold: char -> char, a: nat, b: nat, i: nat)
    requires a <= b <= |text| && MatchAt(text[a..b], q, fold, i)
    ensures MatchAt(text, q, fold, a + i)
  {
    FoldedShift(text, q, fold, a, b, i, 0);
  }

  /** No occurrence of the query lies inside `s`. */
  predicate NoMatch(s: string, q: string, fold: char -> char) {
    forall i :: 0 <= i <= |s| ==> !MatchAt(s, q, fold, i)
  }

  /** Every marked part is an occurrence of the query; every other part is
      non-empty and holds no occurrence. */
  lemma {:induction false} PartsShape(text: string, q: string, fold: char -> char, last: nat)
    requires |q| > 0 && last <= |text|
    ensures forall p :: p in PartsFrom(text, q, fold, last) ==> GoodPart(p, q, fold)
    decreases |text| - last
  {
    var j := NextMatch(text, q, fold, last);
    assert j > last ==> NoMatch(text[last..j], q, fold) by {
      if j > last {
        GapNoMatch(text, q, fold, last, j);
      }
    }
    if j < |text| {
      assert MatchAt(text, q, fold, j) by {
        NextMatchSpec(text, q, fold, last);
      }
      PartsShape(text, q, fold, j + |q|);
      var seg, rest := Segment(text, last, j, j + |q|), PartsFrom(text, q, fold, j + |q|);
      SegmentGood(text, q, fold, last, j);
      assert PartsFrom(text, q, fold, last) == seg + rest;
    } else if last < |text| {
      assert text[last..] == text[last..j];
    }
  }

  /** The text before an occurrence holds none, and the occurrence is one. */
  lemma SegmentGood(text: string, q: string, fold: char -> char, last: nat, j: nat)
    requires last <= j && MatchAt(text, q, fold, j)
    requires j > last ==> NoMatch(text[last..j], q, fold)
    ensures forall p :: p in Segment(text, last, j, j + |q|) ==> GoodPart(p, q, fold)
  {
    FoldedShift(text, q, fold, j, j + |q|, 0, 0);
  }

  /** A marked part is an occurrence of the query; a part shown as text is
      non-empty and holds none. */
  predicate GoodPart(p: Part, q: string, fold: char -> char) {
    && (p.highlight ==> |p.text| == |q| && MatchAt(p.text, q, fold, 0))
    && (!p.highlight ==> p.text != [] && NoMatch(p.text, q, fold))
  }

  /** The text between two occurrences holds none. */
  lemma GapNoMatch(text: string, q: string, fold: char -> char, last: nat, j: nat)
    requires |q| > 0 && last <= j <= |text| && j == NextMatch(text, q, fold, last)
    ensures NoMatch(text[last..j], q, fold)
  {
    NextMatchSpec(text, q, fold, last);
    forall i | 0 <= i <= |text[last..j]|
      ensures !MatchAt(text[last..j], q, fold, i)
    {
      if MatchAt(text[last..j], q, fold, i) {
        MatchInSlice(text, q, fold, last, j, i);
      }
    }
  }

  /** A node gets marks exactly when the query occurs in it (`regex.test`). */
  lemma {:induction false} HighlightIffMatch(text: string, q: string, fold: char -> char, last: nat)
    requires |q| > 0 && last <= |text|
    ensures Highlights(PartsFrom(text, q, fold, last)) > 0 <==> exists i :: last <= i && MatchAt(text, q, fold, i)
    decreases |text| - last
  {
    var j := NextMatch(text, q, fold, last);
    NextMatchSpec(text, q, fold, last);
    if j < |text| {
      SegmentText(text, last, j, j + |q|);
      HighlightsConcat(Segment(text, last, j, j + |q|), PartsFrom(text, q, fold, j + |q|));
    } else {
      assert Highlights(PartsFrom(text, q, fold, last)) == 0 by {
        if last < |text| {
          assert Highlights([Part(text[last..], false)]) == 0;
        }
      }
      forall i | last <= i
        ensures !MatchAt(text, q, fold, i)
      {
      }
    }
  }

  lemma {:induction false} HighlightsConcat(a: seq<Part>, b: seq<Part>)
    ensures Highlights(a + b) == Highlights(a) + Highlights(b)
  {
    if a != [] {
      HighlightsConcat(a[1..], b);
      assert (a + b)[0] == a[0] && (a + b)[1..] == a[1..] + b;
      assert Highlights(a + b) == (if a[0].highlight then 1 else 0) + Highlights(a[1..] + b);
    } else {
      assert a + b == b;
    }
  }

  // ---------------------------------------------------------------- the page

  /** A node is replaced by its parts only when it holds a mark. */
  function NodeView(text: string, q: string, fold: char -> char): seq<Part>
    requires |q| > 0
  {
    var parts := Parts(text, q, fold);
    if Highlights(parts) > 0 then parts else [Part(text, false)]
  }

  function Views(texts: seq<string>, q: string, fold: char -> char): seq<seq<Part>>
    requires |q| > 0
  {
    if texts == [] then [] else [NodeView(texts[0], q, fold)] + Views(texts[1..], q, fold)
  }

  /** Every node shown as plain text. */
  function PlainViews(texts: seq<string>): seq<seq<Part>> {
    if texts == [] then [] else [[Part(texts[0], false)]] + PlainViews(texts[1..])
  }

  /** `searchHighlights.length`: the marks of all nodes. */
  function TotalMarks(views: seq<seq<Part>>): nat {
    if views == [] then 0 else TotalMarks(views[..|views| - 1]) + Highlights(views[|views| - 1])
  }

  /** The result count shown right after a search. */
  function CountText(n: nat): string {
    if n > 0 then NatStr(n) + " r\U{00E9}sultat" + (if n > 1 then "s" else "") else "Aucun r\U{00E9}sultat"
  }

  /** `${searchCurrentIdx + 1}/${searchHighlights.length}` */
  function RankText(current: nat, n: nat): string {
    NatStr(current + 1) + "/" + NatStr(n)
  }

  /** `searchCurrentIdx += direction`, wrapping at both ends. */
  function Advance(current: int, direction: int, n: nat): int
    requires n > 0
  {
    var c := current + direction;
    if c >= n then 0 else if c < 0 then n - 1 else c
  }

  /** Searching never changes the page's text: each node's parts give it back. */
  lemma {:induction false} ViewsKeepText(texts: seq<string>, q: string, fold: char -> char)
    requires |q| > 0
    ensures |Views(texts, q, fold)| == |texts|
    ensures forall i :: 0 <= i < |texts| ==> Texts(Views(texts, q, fold)[i]) == texts[i]
  {
    if texts != [] {
      ViewsKeepText(texts[1..], q, fold);
      PartsKeepText(texts[0], q, fold, 0);
      assert Texts([Part(texts[0], false)]) == texts[0];
      var v := Views(texts, q, fold);
      forall i | 0 <= i < |texts|
        ensures Texts(v[i]) == texts[i]
      {
        if i > 0 {
          assert v[i] == Views(texts[1..], q, fold)[i - 1];
        }
      }
    }
  }

  lemma {:induction false} PlainViewsKeepText(texts: seq<string>)
    ensures |PlainViews(texts)| == |texts| && TotalMarks(PlainViews(texts)) == 0
    ensures forall i :: 0 <= i < |texts| ==> PlainViews(texts)[i] == [Part(texts[i], false)]
    ensures forall i :: 0 <= i < |texts| ==> Texts(PlainViews(texts)[i]) == texts[i]
    ensures forall i :: 0 <= i < |texts| ==> Highlights(PlainViews(texts)[i]) == 0
  {
    if texts != [] {
      PlainViewsKeepText(texts[1..]);
      var v := PlainViews(texts);
      assert Texts([Part(texts[0], false)]) == texts[0];
      forall i | 0 <= i < |texts|
        ensures v[i] == [Part(texts[i], false)] && Texts(v[i]) == texts[i] && Highlights(v[i]) == 0
      {
        if i > 0 {
          assert v[i] == PlainViews(texts[1..])[i - 1];
        }
        assert Texts([Part(texts[i], false)]) == texts[i];
      }
      NoMarks(v);
    }
  }

  lemma {:induction false} NoMarks(views: seq<seq<Part>>)
    requires forall i :: 0 <= i < |views| ==> Highlights(views[i]) == 0
    ensures TotalMarks(views) == 0
    decreases |views|
  {
    if views != [] {
      NoMarks(views[..|views| - 1]);
    }
  }

  /** For the single steps the buttons and keys take, the cursor moves cyclically
      through the marks, and a step back undoes a step forward. */
  lemma AdvanceCycles(current: int, n: nat)
    requires 0 <= current < n
    ensures Advance(current, 1, n) == (current + 1) % n
    ensures Advance(current, -1, n) == (current - 1) % n
    ensures Advance(Advance(current, 1, n), -1, n) == current
    ensures Advance(Advance(current, -1, n), 1, n) == current
  {
  }

  /** The walk loop as intended: every node holding the query is split. */
  method RenderViews(texts: seq<string>, q: string, fold: char -> char) returns (views: seq<seq<Part>>, count: nat)
    requires |q| > 0
    ensures views == Views(texts, q, fold) && count == TotalMarks(views)
  {
    views := [];
    count := 0;
    for i := 0 to |texts|
      invariant views + Views(texts[i..], q, fold) == Views(texts, q, fold)
      invariant count == TotalMarks(views)
    {
      var parts := SplitParts(texts[i], q, fold);
      var v := if Highlights(parts) > 0 then parts else [Part(texts[i], false)];
      ViewsStep(views, texts, q, fold, i);
      MarksAppend(views, v);
      views := views + [v];
      count := count + Highlights(v);
    }
    assert texts[|texts|..] == [];
  }

  lemma ViewsStep(done: seq<seq<Part>>, texts: seq<string>, q: string, fold: char -> char, i: nat)
    requires |q| > 0 && i < |texts|
    ensures (done + [NodeView(texts[i], q, fold)]) + Views(texts[i + 1..], q, fold) == done + Views(texts[i..], q, fold)
  {
    var t := texts[i..];
    assert t[0] == texts[i] && t[1..] == texts[i + 1..];
    ViewsCons(t, q, fold);
    AppendOne(done, NodeView(texts[i], q, fold), Views(texts[i + 1..], q, fold));
  }

  lemma ViewsCons(t: seq<string>, q: string, fold: char -> char)
    requires |q| > 0 && t != []
    ensures Views(t, q, fold) == [NodeView(t[0], q, fold)] + Views(t[1..], q, fold)
  {
  }

  lemma AppendOne<T>(a: seq<T>, x: T, b: seq<T>)
    ensures (a + [x]) + b == a + ([x] + b)
  {
  }

  lemma MarksAppend(views: seq<seq<Part>>, v: seq<Part>)
    ensures TotalMarks(views + [v]) == TotalMarks(views) + Highlights(v)
  {
    assert (views + [v])[..|views|] == views;
  }

  // ---------------------------------------------------------------- the walk as written

  /** The walk of `performFullTextSearch` as written: `replaceChild` detaches the
      walker's current node, which then has neither sibling nor parent, so the
      next `treeWalker.nextNode()` returns null and the walk ends after the first
      node it splits. The nodes after that one stay as they were. */
  function ViewsAsWritten(texts: seq<string>, q: string, fold: char -> char): seq<seq<Part>>
    requires |q| > 0
  {
    if texts == [] then []
    else if Highlights(Parts(texts[0], q, fold)) > 0 then [Parts(texts[0], q, fold)] + PlainViews(texts[1..])
    else [[Part(texts[0], false)]] + ViewsAsWritten(texts[1..], q, fold)
  }

  /** The first node whose text holds the query, or `|texts|` when none does. */
  function FirstHit(texts: seq<string>, q: string, fold: char -> char): (h: nat)
    requires |q| > 0
    ensures h <= |texts|
  {
    if texts == [] then 0
    else if Highlights(Parts(texts[0], q, fold)) > 0 then 0
    else 1 + FirstHit(texts[1..], q, fold)
  }

  /** The walk loop as written, with its early end. */
  method RenderViewsAsWritten(texts: seq<string>, q: string, fold: char -> char) returns (views: seq<seq<Part>>, count: nat)
    requires |q| > 0
    ensures views == ViewsAsWritten(texts, q, fold) && count == TotalMarks(views)
  {
    views := [];
    count := 0;
    var i := 0;
    while i < |texts|
      invariant i <= |texts|
      invariant views + ViewsAsWritten(texts[i..], q, fold) == ViewsAsWritten(texts, q, fold)
      invariant count == TotalMarks(views)
    {
      var parts := SplitParts(texts[i], q, fold);
      var t := texts[i..];
      assert t[0] == texts[i] && t[1..] == texts[i + 1..];
      if Highlights(parts) > 0 {
        var rest := PlainViews(texts[i + 1..]);
        assert ViewsAsWritten(t, q, fold) == [parts] + rest;
        MarksAppend(views, parts);
        PlainViewsKeepText(texts[i + 1..]);
        MarksZeroTail(views + [parts], rest);
        AppendOne(views, parts, rest);
        views := views + [parts] + rest;
        count := count + Highlights(parts);
        return;
      }
      assert ViewsAsWritten(t, q, fold) == [[Part(texts[i], false)]] + ViewsAsWritten(texts[i + 1..], q, fold);
      AppendOne(views, [Part(texts[i], false)], ViewsAsWritten(texts[i + 1..], q, fold));
      MarksAppend(views, [Part(texts[i], false)]);
      views := views + [[Part(texts[i], false)]];
      i := i + 1;
    }
    assert texts[|texts|..] == [];
  }

  /** Views without marks added at the end add no mark. */
  lemma {:induction false} MarksZeroTail(a: seq<seq<Part>>, b: seq<seq<Part>>)
    requires forall i :: 0 <= i < |b| ==> Highlights(b[i]) == 0
    ensures TotalMarks(a + b) == TotalMarks(a)
    decreases |b|
  {
    if b != [] {
      var b' := b[..|b| - 1];
      MarksZeroTail(a, b');
      assert (a + b)[..|a + b| - 1] == a + b';
      assert (a + b)[|a + b| - 1] == b[|b| - 1];
      assert TotalMarks(a + b) == TotalMarks(a + b') + Highlights(b[|b| - 1]);
    } else {
      assert a + b == a;
    }
  }

  /** As written, only the first node holding the query is split, every other
      node stays plain, and the marks counted are that node's alone. */
  lemma {:induction false} WalkStopsAtFirstHit(texts: seq<string>, q: string, fold: char -> char)
    requires |q| > 0
    ensures var v, h := ViewsAsWritten(texts, q, fold), FirstHit(texts, q, fold);
      && |v| == |texts|
      && (forall i :: 0 <= i < h ==> Highlights(Parts(texts[i], q, fold)) == 0)
      && (h < |texts| ==> Highlights(Parts(texts[h], q, fold)) > 0 && v[h] == Parts(texts[h], q, fold))
      && (forall i :: 0 <= i < |texts| && i != h ==> v[i] == [Part(texts[i], false)])
  {
    if texts != [] {
      WalkStopsAtFirstHit(texts[1..], q, fold);
      PlainViewsKeepText(texts[1..]);
      var v, h := ViewsAsWritten(texts, q, fold), FirstHit(texts, q, fold);
      forall i | 0 <= i < |texts| && i != h
        ensures v[i] == [Part(texts[i], false)]
      {
        if i > 0 {
          assert texts[1..][i - 1] == texts[i];
        }
      }
      forall i | 0 <= i < h
        ensures Highlights(Parts(texts[i], q, fold)) == 0
      {
        if i > 0 {
          assert texts[1..][i - 1] == texts[i];
        }
      }
      if 0 < h < |texts| {
        assert texts[1..][h - 1] == texts[h];
      }
    }
  }

  /** The marks counted as written are those of the first node holding the query. */
  lemma WalkMarks(texts: seq<string>, q: string, fold: char -> char)
    requires |q| > 0
    ensures var h := FirstHit(texts, q, fold);
      TotalMarks(ViewsAsWritten(texts, q, fold)) == if h < |texts| then Highlights(Parts(texts[h], q, fold)) else 0
  {
    var v, h := ViewsAsWritten(texts, q, fold), FirstHit(texts, q, fold);
    WalkStopsAtFirstHit(texts, q, fold);
    forall i | 0 <= i < |v| && i != h ensures Highlights(v[i]) == 0 {
      assert v[i] == [Part(texts[i], false)];
    }
    OnlyOneMarked(v, h);
  }

  lemma {:induction false} OnlyOneMarked(views: seq<seq<Part>>, h: nat)
    requires forall i :: 0 <= i < |views| && i != h ==> Highlights(views[i]) == 0
    ensures TotalMarks(views) == if h < |views| then Highlights(views[h]) else 0
    decreases |views|
  {
    if views != [] {
      var init := views[..|views| - 1];
      OnlyOneMarked(init, h);
      if h < |init| {
        assert init[h] == views[h];
      }
    }
  }

  /** Node `i` of the corrected walk is that node's own view. */
  lemma {:induction false} ViewsAt(texts: seq<string>, q: string, fold: char -> char)
    requires |q| > 0
    ensures |Views(texts, q, fold)| == |texts|
    ensures forall i :: 0 <= i < |texts| ==> Views(texts, q, fold)[i] == NodeView(texts[i], q, fold)
  {
    if texts != [] {
      ViewsAt(texts[1..], q, fold);
      var v := Views(texts, q, fold);
      forall i | 0 <= i < |texts|
        ensures v[i] == NodeView(texts[i], q, fold)
      {
        if i > 0 {
          assert texts[1..][i - 1] == texts[i];
        }
      }
    }
  }

  /** As intended, a node shows marks exactly when its text holds the query. */
  lemma EveryNodeMarked(texts: seq<string>, q: string, fold: char -> char)
    requires |q| > 0
    ensures |Views(texts, q, fold)| == |texts|
    ensures forall i :: 0 <= i < |texts| ==>
              (Highlights(Views(texts, q, fold)[i]) > 0 <==> exists k: nat :: MatchAt(texts[i], q, fold, k))
  {
    ViewsAt(texts, q, fold);
    forall i | 0 <= i < |texts|
      ensures Highlights(Views(texts, q, fold)[i]) > 0 <==> exists k: nat :: MatchAt(texts[i], q, fold, k)
    {
      HighlightIffMatch(texts[i], q, fold, 0);
      assert Highlights([Part(texts[i], false)]) == 0;
    }
  }

  /** The walk as written and the corrected one agree exactly when no node after
      the first one holding the query holds it too. */
  lemma AsWrittenAgrees(texts: seq<string>, q: string, fold: char -> char)
    requires |q| > 0
    ensures ViewsAsWritten(texts, q, fold) == Views(texts, q, fold)
            <==> forall i :: FirstHit(texts, q, fold) < i < |texts| ==> Highlights(Parts(texts[i], q, fold)) == 0
  {
    var v, w, h := ViewsAsWritten(texts, q, fold), Views(texts, q, fold), FirstHit(texts, q, fold);
    WalkStopsAtFirstHit(texts, q, fold);
    ViewsAt(texts, q, fold);
    if forall i :: h < i < |texts| ==> Highlights(Parts(texts[i], q, fold)) == 0 {
      forall i | 0 <= i < |texts| ensures v[i] == w[i] { }
    } else {
      var i :| h < i < |texts| && Highlights(Parts(texts[i], q, fold)) != 0;
      assert v[i] == [Part(texts[i], false)];
      assert Highlights(w[i]) > 0;
      assert Highlights(v[i]) == 0;
    }
  }

  /** Two paragraphs "ab" and a search for "ab": as written one mark is counted
      and the counter reads "1/1", where both paragraphs hold the query. */
  lemma WalkStopsEarly()
    ensures TotalMarks(ViewsAsWritten(["ab", "ab"], "ab", c => c)) == 1
    ensures TotalMarks(Views(["ab", "ab"], "ab", c => c)) == 2
  {
    var f: char -> char := c => c;
    var t: string := "ab";
    assert MatchAt(t, "ab", f, 0) by {
      assert FoldedFrom(t, "ab", f, 0, 2);
      assert FoldedFrom(t, "ab", f, 0, 1);
    }
    assert NextMatch(t, "ab", f, 0) == 0;
    assert NextMatch(t, "ab", f, 2) == 2;
    assert Parts(t, "ab", f) == [Part(t, true)] by {
      assert t[0..2] == t;
    }
    assert Highlights([Part(t, true)]) == 1;
    var texts := [t, t];
    assert texts[1..] == [t];
    assert ViewsAsWritten(texts, "ab", f) == [[Part(t, true)], [Part(t, false)]] by {
      assert PlainViews([t]) == [[Part(t, false)]];
    }
    assert NodeView(t, "ab", f) == [Part(t, true)];
    assert Views([t], "ab", f) == [[Part(t, true)]];
    assert Views(texts, "ab", f) == [[Part(t, true)], [Part(t, true)]];
    var w := [[Part(t, true)], [Part(t, true)]];
    assert w[..1] == [[Part(t, true)]] && w[..1][..0] == [];
    assert TotalMarks(w[..1]) == 1;
    assert TotalMarks(w) == 2;
    var v := [[Part(t, true)], [Part(t, false)]];
    assert v[..1] == [[Part(t, true)]] && v[..1][..0] == [];
    assert TotalMarks(v[..1]) == 1;
    assert Highlights([Part(t, false)]) == 0;
  }

  class Page {
    /** The text nodes of `#sections-container`. */
    var texts: seq<string>
    /** How each node is currently shown. */
    var view: seq<seq<Part>>
    /** `searchHighlights.length` */
    var marks: nat
    /** Which marks carry the strong background of the current result. */
    var strong: seq<bool>
    /** `searchCurrentIdx` */
    var current: int
    /** `#search-results-info` is displayed. */
    var infoShown: bool
    /** `#search-count-text` */
    var countText: string

    /** The page shows its own text whatever is marked, the marks are counted,
        and only the current one, if any, stands out. */
    predicate Valid()
      reads this
    {
      && |view| == |texts|
      && (forall i :: 0 <= i < |view| ==> Texts(view[i]) == texts[i])
      && marks == TotalMarks(view)
      && |strong| == marks
      && -1 <= current < marks
      && (forall k :: 0 <= k < marks ==> (strong[k] <==> k == current))
    }

    constructor(nodes: seq<string>)
      ensures Valid() && texts == nodes && view == PlainViews(nodes)
      ensures marks == 0 && current == -1 && !infoShown && countText == []
    {
      texts := nodes;
      view := PlainViews(nodes);
      marks := 0;
      strong := [];
      current := -1;
      infoShown := false;
      countText := [];
      PlainViewsKeepText(nodes);
    }

    /** `clearSearchHighlights()`: every node shown as its text again, no mark. */
    method Clear()
      requires Valid()
      modifies this
      ensures Valid() && view == PlainViews(texts) && marks == 0 && current == -1
      ensures texts == old(texts) && infoShown == old(infoShown) && countText == old(countText)
    {
      view := PlainViews(texts);
      marks := 0;
      strong := [];
      current := -1;
      PlainViewsKeepText(texts);
    }

    /** `navigateSearchResult(direction)`: nothing without marks; otherwise the
        current mark loses its emphasis, the cursor moves with wrap-around, the
        new current mark stands out and the counter shows its rank. */
    method Navigate(direction: int)
      requires Valid()
      modifies this
      ensures Valid() && texts == old(texts) && view == old(view) && infoShown == old(infoShown)
      ensures old(marks) == 0 ==> unchanged(this)
      ensures old(marks) > 0 ==>
                && current == Advance(old(current), direction, marks)
                && 0 <= current
                && countText == RankText(current, marks)
    {
      if marks == 0 {
        return;
      }
      if current >= 0 {
        strong := strong[current := false];
      }
      current := Advance(current, direction, marks);
      strong := strong[current := true];
      countText := RankText(current, marks);
    }

    /** `performFullTextSearch(query)`: the previous marks are cleared; a query
        shorter than two characters once trimmed hides the result line; otherwise
        the nodes holding the trimmed query are split around it by the intended
        walk, the line shows, and the first mark, if any, becomes current. */
    method Perform(query: string, fold: char -> char)
      requires Valid()
      modifies this
      ensures Valid() && texts == old(texts)
      ensures |Trim(query)| < 2 ==>
                view == PlainViews(texts) && marks == 0 && current == -1 && !infoShown && countText == old(countText)
      ensures |Trim(query)| >= 2 ==>
                && view == Views(texts, Trim(query), fold)
                && infoShown
                && (marks > 0 ==> current == 0 && countText == RankText(0, marks))
                && (marks == 0 ==> current == -1 && countText == CountText(0))
    {
      Clear();
      var q := Trim(query);
      if |q| < 2 {
        infoShown := false;
        return;
      }
      Mark(q, fold);
      if marks > 0 {
        Navigate(1);
      }
    }

    /** The marking part of `performFullTextSearch`, on a clean page: the nodes
        holding the query are split by the intended walk, no mark is current
        yet, and the line shows the count. */
    method Mark(q: string, fold: char -> char)
      requires Valid() && |q| > 0
      modifies this
      ensures Valid() && texts == old(texts)
      ensures view == Views(texts, q, fold) && current == -1 && infoShown && countText == CountText(marks)
    {
      var views, count := RenderViews(texts, q, fold);
      ViewsKeepText(texts, q, fold);
      view := views;
      marks := count;
      strong := seq(count, k => false);
      current := -1;
      infoShown := true;
      countText := CountText(count);
    }
  }
}
