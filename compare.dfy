/** The comparison panel of a convention section: the gate deciding whether a
    section can be compared with the legal default, the convention column, the
    legal column, and the open/closed state of the panels. The reference data (`codeTravailData`) is a parameter, `Null` when it failed
    to load. Markup that only decorates (icons, buttons, the panel frame) is
    reduced to the data it carries. */
module Compare {
  import opened Text
  import opened JsValues
  import opened Escape
  import opened Plain
  import opened Sections
  import Markdown

  // ---------------------------------------------------------------- gate

  /** Reference data is loaded, holds an entry for `key`, and that entry is not
      marked `comparable: false`. */
  predicate Available(reference: Json, key: string) {
    && Truthy(reference)
    && Truthy(Get(reference, key))
    && Get(Get(reference, key), "comparable") != Bool(false)
  }

  /** `renderCompareButton(key)`: nothing, or a button toggling the panel of `key`. */
  function CompareButton(reference: Json, key: string): Option<string> {
    if Available(reference, key) then Some(key) else None
  }

  /** Each of the three conditions of the gate suppresses the comparison alone;
      a loaded, comparable entry always gets one. */
  lemma GateCases(reference: Json, key: string, section: Json)
    ensures !Truthy(reference) ==> CompareButton(reference, key) == None && PanelOf(reference, key, section) == None
    ensures !Truthy(Get(reference, key)) ==> CompareButton(reference, key) == None && PanelOf(reference, key, section) == None
    ensures Get(Get(reference, key), "comparable") == Bool(false) ==> CompareButton(reference, key) == None && PanelOf(reference, key, section) == None
    ensures Available(reference, key) ==> CompareButton(reference, key) == Some(key) && PanelOf(reference, key, section).Some?
  {
  }

  /** The button is drawn exactly when the panel it opens is drawn. */
  lemma ButtonIffPanel(reference: Json, key: string, section: Json)
    ensures CompareButton(reference, key).Some? <==> PanelOf(reference, key, section).Some?
    ensures PanelOf(reference, key, section).Some? ==> PanelOf(reference, key, section).value.key == CompareButton(reference, key).value
  {
  }

  // ---------------------------------------------------------------- convention column

  /** The plain version of a long text: tags replaced, whitespace collapsed and
      trimmed, cut at 1500 characters with `...`. */
  function Brief(texte: string): string {
    Truncate(Trim(CollapseWs(StripTags(texte))), 1500, "...")
  }

  /** The body of a `compare-text` block: markdown for a text of at most 1500
      characters, the escaped plain version in one paragraph otherwise. */
  function TextBody(texte: string): string {
    if |texte| > 1500 then "<p>" + EscapeHtml(Brief(texte)) + "</p>" else Markdown.Markdown(texte)
  }

  const ThemeOpen: string := "<div class=\"compare-theme\">"
  const TextOpen: string := "<div class=\"compare-text\">"

  function ThemeDiv(theme: string): string {
    ThemeOpen + (EscapeHtml(theme) + "</div>")
  }

  function TextDiv(texte: string): string {
    TextOpen + (TextBody(texte) + "</div>")
  }

  /** What one item adds to the convention column: its theme, then its text. */
  function CardSummary(c: Card): string {
    (if c.theme != [] then ThemeDiv(c.theme) else []) + (if c.texte != [] then TextDiv(c.texte) else [])
  }

  /** `conventionSummary` after the loop over `items`. */
  function SummaryOf(cards: seq<Card>): string {
    if cards == [] then [] else CardSummary(cards[0]) + SummaryOf(cards[1..])
  }

  const EmptyOpen: string := "<div class=\"compare-empty\">"
  const Placeholder: string := EmptyOpen + "Aucune disposition conventionnelle sp\U{00E9}cifique</div>"

  /** The left column: the summary, or the placeholder when it is empty. */
  function ConventionColumn(cards: seq<Card>): string {
    var s := SummaryOf(cards);
    if s == [] then Placeholder else s
  }

  /** The body of the item loop of `renderComparePanel`. */
  method RenderCard(c: Card) returns (html: string)
    ensures html == CardSummary(c)
  {
    html := "";
    if c.theme != [] {
      html := ThemeDiv(c.theme);
    }
    if c.texte != [] {
      var body: string;
      if |c.texte| > 1500 {
        body := "<p>" + EscapeHtml(Brief(c.texte)) + "</p>";
      } else {
        body := Markdown.ParseMarkdown(c.texte);
      }
      html := html + (TextOpen + (body + "</div>"));
    }
  }

  /** The item loop of `renderComparePanel`, followed by the placeholder test. */
  method RenderConventionColumn(cards: seq<Card>) returns (html: string)
    ensures html == ConventionColumn(cards)
  {
    var summary := "";
    for i := 0 to |cards|
      invariant summary + SummaryOf(cards[i..]) == SummaryOf(cards)
    {
      var piece := RenderCard(cards[i]);
      SummaryStep(summary, cards, i);
      summary := summary + piece;
    }
    assert cards[|cards|..] == [];
    html := summary;
    if html == [] {
      html := Placeholder;
    }
  }

  lemma SummaryStep(done: string, cards: seq<Card>, i: nat)
    requires i < |cards|
    ensures (done + CardSummary(cards[i])) + SummaryOf(cards[i + 1..]) == done + SummaryOf(cards[i..])
  {
    assert cards[i..][1..] == cards[i + 1..];
  }

  /** A text of at most 1500 characters is rendered as markdown. A longer one is
      shown as one paragraph holding its escaped plain version: no markup can
      come from the text, unescaping gives the plain version back, and that is at
      most 1500 characters plus `...`. */
  lemma LongText(texte: string)
    ensures |texte| <= 1500 ==> TextBody(texte) == Markdown.Markdown(texte)
    ensures |texte| > 1500 ==>
      var b := TextBody(texte);
      && |b| >= 7 && b[..3] == "<p>" && b[|b| - 4..] == "</p>"
      && '<' !in b[3..|b| - 4] && '>' !in b[3..|b| - 4]
      && Unescape(b[3..|b| - 4]) == Brief(texte)
      && |Brief(texte)| <= 1503
  {
    if |texte| > 1500 {
      var e := EscapeHtml(Brief(texte));
      var b := TextBody(texte);
      assert b == "<p>" + e + "</p>";
      assert b[3..|b| - 4] == e;
      EscapeHtmlSafe(Brief(texte));
      EscapeRoundTrip(Brief(texte));
      TruncateSpec(Trim(CollapseWs(StripTags(texte))), 1500, "...");
    }
  }

  /** Every item of the panel has a text, so a panel with items never shows the
      placeholder; the placeholder appears exactly when the section yields no
      item (a `contenu` of blank items included). */
  lemma PlaceholderIffNoItems(section: Json)
    ensures ConventionColumn(PanelCards(section)) == Placeholder <==> PanelCards(section) == []
  {
    var cards := PanelCards(section);
    if cards != [] {
      PromptVersusPanel(section);
      KeepTextedHasText(PromptCards(section));
      assert HasText(cards[0].texte);
      SummaryStart(cards);
      OpeningTags();
    }
  }

  lemma {:induction false} KeepTextedHasText(cards: seq<Card>)
    ensures forall k :: 0 <= k < |KeepTexted(cards)| ==> HasText(KeepTexted(cards)[k].texte)
  {
    if cards != [] {
      KeepTextedHasText(cards[1..]);
      var rest := KeepTexted(cards[1..]);
      if HasText(cards[0].texte) {
        assert KeepTexted(cards) == [cards[0]] + rest;
      } else {
        assert KeepTexted(cards) == rest;
      }
    }
  }

  /** The summary of items whose first one has a text opens with a `compare-t…`
      block. */
  lemma SummaryStart(cards: seq<Card>)
    requires cards != [] && HasText(cards[0].texte)
    ensures |SummaryOf(cards)| > 20 && SummaryOf(cards)[20] == 't'
  {
    var c := cards[0];
    assert c.texte != [];
    var head := CardSummary(c);
    assert SummaryOf(cards) == head + SummaryOf(cards[1..]);
    OpeningTags();
    if c.theme != [] {
      assert head == ThemeDiv(c.theme) + TextDiv(c.texte);
      PrefixIndex(ThemeOpen, EscapeHtml(c.theme) + "</div>", 20);
      PrefixIndex(ThemeDiv(c.theme), TextDiv(c.texte), 20);
    } else {
      assert head == TextDiv(c.texte);
      PrefixIndex(TextOpen, TextBody(c.texte) + "</div>", 20);
    }
    PrefixIndex(head, SummaryOf(cards[1..]), 20);
  }

  /** The three blocks of the column differ at their 21st character. */
  lemma OpeningTags()
    ensures |ThemeOpen| > 20 && ThemeOpen[20] == 't'
    ensures |TextOpen| > 20 && TextOpen[20] == 't'
    ensures |Placeholder| > 20 && Placeholder[20] == 'e'
  {
    assert EmptyOpen[20] == 'e';
  }

  lemma PrefixIndex(a: string, b: string, k: nat)
    requires k < |a|
    ensures (a + b)[k] == a[k]
  {
  }

  /** The summary is empty exactly when no item has a theme or a text. */
  lemma {:induction false} SummaryEmpty(cards: seq<Card>)
    ensures SummaryOf(cards) == [] <==> forall k :: 0 <= k < |cards| ==> cards[k].theme == [] && cards[k].texte == []
  {
    if cards != [] {
      SummaryEmpty(cards[1..]);
      var c := cards[0];
      if c.theme != [] {
        assert |ThemeDiv(c.theme)| > 0;
      }
      if c.texte != [] {
        assert |TextDiv(c.texte)| > 0;
      }
      assert forall k :: 1 <= k < |cards| ==> cards[k] == cards[1..][k - 1];
    }
  }

  // ---------------------------------------------------------------- legal column

  /** One row of the legal table: criterion, provision and reference, escaped. */
  datatype Row = Row(critere: string, valeur: string, reference: string)

  /** `escapeHtml(v)`: a value that is not a string counts as no text. */
  function EscapeValue(v: Json): string {
    EscapeHtml(TextOf(v))
  }

  function RowOf(d: Json): Row {
    Row(EscapeValue(Get(d, "critere")), EscapeValue(Get(d, "valeur")), EscapeValue(Get(d, "reference")))
  }

  /** The right column: the escaped summary of the law, and the rows of the table
      (none: the table is left out). */
  datatype Legal = Legal(resume: string, rows: seq<Row>)

  /** The detail loop of `renderComparePanel`: one row per entry, in order. */
  method LegalRows(entries: seq<Json>) returns (rows: seq<Row>)
    ensures |rows| == |entries|
    ensures forall k :: 0 <= k < |rows| ==> rows[k] == RowOf(entries[k])
  {
    rows := [];
    for i := 0 to |entries|
      invariant |rows| == i
      invariant forall k :: 0 <= k < i ==> rows[k] == RowOf(entries[k])
    {
      rows := rows + [RowOf(entries[i])];
    }
  }

  /** No field of a row carries markup, and each unescapes to the text of the
      entry. */
  lemma RowSafe(d: Json)
    ensures var r := RowOf(d);
      && '<' !in r.critere && '<' !in r.valeur && '<' !in r.reference
      && Unescape(r.critere) == TextOf(Get(d, "critere"))
      && Unescape(r.valeur) == TextOf(Get(d, "valeur"))
      && Unescape(r.reference) == TextOf(Get(d, "reference"))
  {
    EscapeHtmlSafe(TextOf(Get(d, "critere")));
    EscapeHtmlSafe(TextOf(Get(d, "valeur")));
    EscapeHtmlSafe(TextOf(Get(d, "reference")));
    EscapeRoundTrip(TextOf(Get(d, "critere")));
    EscapeRoundTrip(TextOf(Get(d, "valeur")));
    EscapeRoundTrip(TextOf(Get(d, "reference")));
  }

  // ---------------------------------------------------------------- panel

  /** The panel of one section: its key, the two columns, and whether the
      analysis button is drawn. */
  datatype Panel = Panel(key: string, convention: string, legal: Legal, calcButton: bool)

  /** The rows of the legal table: one per entry of `details`, none when it is
      missing or empty (the table is then left out). */
  function TableRows(details: Json): (rows: seq<Row>)
    ensures |rows| == Length(details)
    ensures forall k :: 0 <= k < |rows| ==> rows[k] == RowOf(Entries(details)[k])
  {
    var entries := Entries(details);
    seq(|entries|, k requires 0 <= k < |entries| => RowOf(entries[k]))
  }

  /** What `renderComparePanel(key, section)` draws. */
  function PanelOf(reference: Json, key: string, section: Json): Option<Panel>
  {
    if !Available(reference, key) then None
    else
      var entry := Get(reference, key);
      Some(Panel(key,
                 ConventionColumn(PanelCards(section)),
                 Legal(EscapeValue(Get(entry, "resume")), TableRows(Get(entry, "details"))),
                 Truthy(Get(entry, "needs_calculation"))))
  }

  method RenderComparePanel(reference: Json, key: string, section: Json) returns (p: Option<Panel>)
    ensures p == PanelOf(reference, key, section)
  {
    if !Available(reference, key) {
      return None;
    }
    var entry := Get(reference, key);
    var convention := RenderConventionColumn(PanelCards(section));
    var details := Get(entry, "details");
    var rows := [];
    if Length(details) > 0 {
      rows := LegalRows(Entries(details));
    }
    assert rows == TableRows(details);
    p := Some(Panel(key, convention, Legal(EscapeValue(Get(entry, "resume")), rows), Truthy(Get(entry, "needs_calculation"))));
  }

  /** A drawn panel: the placeholder exactly when the section yields no item, a
      summary of the law free of markup that reads back as the entry's `resume`,
      one row per entry of `details` (none, and no table, when it is missing or
      empty), each reading back as its entry, and the analysis button exactly
      when `needs_calculation` is truthy. */
  lemma PanelShape(reference: Json, key: string, section: Json)
    requires Available(reference, key)
    ensures var p, entry := PanelOf(reference, key, section).value, Get(reference, key);
      var details := Get(entry, "details");
      && p.key == key
      && (p.convention == Placeholder <==> PanelCards(section) == [])
      && '<' !in p.legal.resume && Unescape(p.legal.resume) == TextOf(Get(entry, "resume"))
      && |p.legal.rows| == Length(details)
      && (forall k :: 0 <= k < |p.legal.rows| ==>
            && '<' !in p.legal.rows[k].valeur
            && Unescape(p.legal.rows[k].critere) == TextOf(Get(Entries(details)[k], "critere"))
            && Unescape(p.legal.rows[k].valeur) == TextOf(Get(Entries(details)[k], "valeur"))
            && Unescape(p.legal.rows[k].reference) == TextOf(Get(Entries(details)[k], "reference")))
      && (p.calcButton <==> Truthy(Get(entry, "needs_calculation")))
  {
    PlaceholderIffNoItems(section);
    var entry := Get(reference, key);
    EscapeHtmlSafe(TextOf(Get(entry, "resume")));
    EscapeRoundTrip(TextOf(Get(entry, "resume")));
    var details := Get(entry, "details");
    forall k | 0 <= k < Length(details)
      ensures var r := TableRows(details)[k];
        && '<' !in r.valeur
        && Unescape(r.critere) == TextOf(Get(Entries(details)[k], "critere"))
        && Unescape(r.valeur) == TextOf(Get(Entries(details)[k], "valeur"))
        && Unescape(r.reference) == TextOf(Get(Entries(details)[k], "reference"))
    {
      RowSafe(Entries(details)[k]);
    }
  }

  // ---------------------------------------------------------------- open panels

  /** The panels on the page and `compareStates`. */
  class Panels {
    /** The sections with a comparison panel on the page. */
    var keys: set<string>
    /** The panels carrying `compare-panel--hidden`. */
    var hidden: set<string>
    /** `compareStates` */
    var states: map<string, bool>

    /** A recorded state says whether the panel is open; a panel never toggled
        is closed. */
    predicate Valid()
      reads this
    {
      && hidden <= keys
      && (forall k :: k in states ==> k in keys && (states[k] <==> k !in hidden))
      && (forall k :: k in keys && k !in states ==> k in hidden)
    }

    predicate IsOpen(key: string)
      reads this
    {
      key in keys && key !in hidden
    }

    /** Panels are rendered hidden and nothing is recorded yet. */
    constructor(rendered: set<string>)
      ensures Valid() && keys == rendered && hidden == rendered && states == map[]
    {
      keys := rendered;
      hidden := rendered;
      states := map[];
    }

    /** `toggleComparePanel(key)`: a missing panel is ignored; otherwise the panel
        flips between open and closed and `compareStates[key]` records the new
        state, every other key keeping its entry. */
    method Toggle(key: string)
      requires Valid()
      modifies this
      ensures Valid() && keys == old(keys)
      ensures key !in keys ==> unchanged(this)
      ensures key in keys ==> IsOpen(key) == !old(IsOpen(key)) && states == old(states)[key := IsOpen(key)]
      ensures key in keys ==> hidden == (if old(IsOpen(key)) then old(hidden) + {key} else old(hidden) - {key})
      ensures forall k :: k != key ==> (k in states <==> k in old(states)) && (k in states ==> states[k] == old(states)[k])
    {
      if key !in keys {
        return;
      }
      if key in hidden {
        hidden := hidden - {key};
        states := states[key := true];
      } else {
        hidden := hidden + {key};
        states := states[key := false];
      }
    }

    /** Opening and closing a panel leaves every panel as it was. */
    method ToggleTwice(key: string)
      requires Valid()
      modifies this
      ensures Valid() && keys == old(keys) && hidden == old(hidden)
      ensures forall k :: k in keys ==> (IsOpen(k) <==> old(IsOpen(k)))
    {
      Toggle(key);
      Toggle(key);
    }
  }
}
