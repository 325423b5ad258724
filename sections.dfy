/** The two shapes a section of a convention takes and the four places that read
    them. A section either lists its texts in `contenu` (items with `theme` and
    `texte`), or keeps them in sub-objects under keys of their own, next to four
    reserved keys. js/convention.js decides visibility (`sectionHasContent`) and
    renders cards from the blank-filtered `contenu`; js/comparateur.js collects
    the items of the comparison panel and of the prompt with slightly different
    fallbacks. */
module Sections {
  import opened Text
  import opened JsValues

  /** The keys the subkey scans skip. */
  predicate Reserved(key: string) {
    key == "traite" || key == "contenu" || key == "articles" || key == "specificites_regionales"
  }

  /** `x.texte && x.texte.trim().length > 0` */
  predicate HasTexte(x: Json) {
    HasText(TextOf(Get(x, "texte")))
  }

  /** `(x.articles || []).length` */
  function ArticleCount(x: Json): nat {
    Length(Get(x, "articles"))
  }

  /** The items of `section.contenu`; a missing or non-array `contenu` holds none. */
  function Contenu(section: Json): seq<Json> {
    var c := Get(section, "contenu");
    if c.Arr? then c.elems else []
  }

  /** A property the subkey scans look into: a key that is not reserved, holding
      an object that is not an array. */
  predicate IsSub(f: (string, Json)) {
    !Reserved(f.0) && f.1.Obj?
  }

  /** `sectionHasContent(section)`: a present, treated section with a `contenu`
      item holding text, or section-level articles, or a subkey holding text or
      articles. */
  predicate HasContent(section: Json) {
    && Truthy(section)
    && Truthy(Get(section, "traite"))
    && (SomeTexte(Contenu(section)) || ArticleCount(section) > 0 || SubHasContent(Fields(section)))
  }

  /** `contenu.some(item => item.texte && item.texte.trim().length > 0)` */
  predicate SomeTexte(items: seq<Json>) {
    items != [] && (HasTexte(items[0]) || SomeTexte(items[1..]))
  }

  /** The subkey loop of `sectionHasContent`: some subkey holds text or articles. */
  predicate SubHasContent(fields: seq<(string, Json)>) {
    fields != [] && ((IsSub(fields[0]) && (HasTexte(fields[0].1) || ArticleCount(fields[0].1) > 0)) || SubHasContent(fields[1..]))
  }

  /** Some subkey holds articles. */
  predicate SubArticles(fields: seq<(string, Json)>) {
    fields != [] && ((IsSub(fields[0]) && ArticleCount(fields[0].1) > 0) || SubArticles(fields[1..]))
  }

  // ---------------------------------------------------------------- items

  /** An item as the pages show it: its theme (empty when there is none) and its
      text. */
  datatype Card = Card(theme: string, texte: string)

  function ItemCard(item: Json): Card {
    Card(TextOf(Get(item, "theme")), TextOf(Get(item, "texte")))
  }

  function ItemCards(items: seq<Json>): (r: seq<Card>)
    ensures |r| == |items|
  {
    if items == [] then [] else [ItemCard(items[0])] + ItemCards(items[1..])
  }

  /** `items.filter(item => item.texte && item.texte.trim().length > 0)` */
  function WithText(items: seq<Json>): seq<Json> {
    if items == [] then []
    else (if HasTexte(items[0]) then [items[0]] else []) + WithText(items[1..])
  }

  /** The subkey items, in key order: one per non-reserved object property whose
      `texte` is not blank, themed by the key with every `_` turned into a space. */
  function SubCards(fields: seq<(string, Json)>): seq<Card> {
    if fields == [] then []
    else
      var f := fields[0];
      (if IsSub(f) && HasTexte(f.1) then [Card(ReplaceChar(f.0, '_', " "), TextOf(Get(f.1, "texte")))] else [])
      + SubCards(fields[1..])
  }

  /** The cards `renderSections` draws: the blank-filtered `contenu`, or the
      subkey items when that filtered list is empty. */
  function SectionCards(section: Json): seq<Card> {
    var kept := WithText(Contenu(section));
    if kept != [] then ItemCards(kept) else SubCards(Fields(section))
  }

  /** The subkey loop: `for (const subKey of Object.keys(section))`, pushing one
      item per non-reserved object property whose `texte` is not blank. */
  method CollectSubCards(fields: seq<(string, Json)>) returns (items: seq<Card>)
    ensures items == SubCards(fields)
  {
    items := [];
    for i := 0 to |fields|
      invariant items + SubCards(fields[i..]) == SubCards(fields)
    {
      var f := fields[i];
      assert fields[i..][1..] == fields[i + 1..];
      if IsSub(f) && HasTexte(f.1) {
        items := items + [Card(ReplaceChar(f.0, '_', " "), TextOf(Get(f.1, "texte")))];
      }
    }
    assert fields[|fields|..] == [];
  }

  /** The card loops of `renderSections`: one card per item of the blank-filtered
      `contenu`, and the subkey items when that list is empty. */
  method RenderSectionCards(section: Json) returns (cards: seq<Card>)
    ensures cards == SectionCards(section)
  {
    var kept := WithText(Contenu(section));
    cards := [];
    for i := 0 to |kept|
      invariant cards + ItemCards(kept[i..]) == ItemCards(kept)
    {
      assert kept[i..][1..] == kept[i + 1..];
      cards := cards + [ItemCard(kept[i])];
    }
    assert kept[|kept|..] == [];
    if |kept| == 0 {
      cards := CollectSubCards(Fields(section));
    }
  }

  /** The items of the comparison panel: the blank-filtered `contenu` when the raw
      `contenu` is non-empty, the subkey items otherwise. */
  function PanelCards(section: Json): seq<Card> {
    if |Contenu(section)| > 0 then ItemCards(WithText(Contenu(section))) else SubCards(Fields(section))
  }

  /** The items of the comparison prompt: the raw `contenu`, blank items included,
      when it is non-empty, the subkey items otherwise. */
  function PromptCards(section: Json): seq<Card> {
    if |Contenu(section)| > 0 then ItemCards(Contenu(section)) else SubCards(Fields(section))
  }

  /** The cards whose text is not blank. */
  function KeepTexted(cards: seq<Card>): seq<Card> {
    if cards == [] then []
    else (if HasText(cards[0].texte) then [cards[0]] else []) + KeepTexted(cards[1..])
  }

  // ---------------------------------------------------------------- filter facts

  /** The filter keeps exactly the items with text, in their order. */
  lemma {:induction false} WithTextSpec(items: seq<Json>)
    ensures forall x :: x in WithText(items) <==> x in items && HasTexte(x)
    ensures Subsequence(WithText(items), items)
  {
    if items != [] {
      WithTextSpec(items[1..]);
      var r, rest := WithText(items), WithText(items[1..]);
      assert items == [items[0]] + items[1..];
      if HasTexte(items[0]) {
        assert r == [items[0]] + rest;
        assert r[1..] == rest;
      } else {
        assert r == rest;
        SubsequenceDrop(rest, items);
      }
    }
  }

  /** The filter leaves something exactly when `some` finds an item with text. */
  lemma {:induction false} WithTextEmpty(items: seq<Json>)
    ensures WithText(items) == [] <==> !SomeTexte(items)
  {
    if items != [] {
      WithTextEmpty(items[1..]);
    }
  }

  /** The subkey loop succeeds exactly when there is a subkey item to draw or a
      subkey with articles. */
  lemma {:induction false} SubCardsEmpty(fields: seq<(string, Json)>)
    ensures SubHasContent(fields) <==> SubCards(fields) != [] || SubArticles(fields)
  {
    if fields != [] {
      SubCardsEmpty(fields[1..]);
    }
  }

  // ---------------------------------------------------------------- the variants

  /** `sectionHasContent` holds exactly when the page has a card to draw for the
      section, or articles to list, or a subkey holds articles (a section can be
      visible with no card at all). */
  lemma HasContentIffCards(section: Json)
    ensures HasContent(section) <==>
      && Truthy(section) && Truthy(Get(section, "traite"))
      && (SectionCards(section) != [] || ArticleCount(section) > 0 || SubArticles(Fields(section)))
  {
    WithTextEmpty(Contenu(section));
    SubCardsEmpty(Fields(section));
  }

  /** The panel and the page draw the same items except when `contenu` is
      non-empty but all blank: the page then falls back to the subkeys, the panel
      shows nothing. */
  lemma PanelVersusPage(section: Json)
    ensures PanelCards(section) == SectionCards(section) <==>
      (|Contenu(section)| == 0 || WithText(Contenu(section)) != [] || SubCards(Fields(section)) == [])
    ensures |Contenu(section)| > 0 && WithText(Contenu(section)) == [] ==> PanelCards(section) == []
  {
    if |Contenu(section)| == 0 {
      assert WithText(Contenu(section)) == [];
    }
  }

  /** The prompt reads the same items as the panel, plus the blank ones: dropping
      the blank items of the prompt's list gives the panel's list. */
  lemma PromptVersusPanel(section: Json)
    ensures KeepTexted(PromptCards(section)) == PanelCards(section)
  {
    if |Contenu(section)| > 0 {
      KeepTextedItems(Contenu(section));
    } else {
      KeepTextedSub(Fields(section));
    }
  }

  lemma {:induction false} KeepTextedItems(items: seq<Json>)
    ensures KeepTexted(ItemCards(items)) == ItemCards(WithText(items))
  {
    if items != [] {
      var x, rest := items[0], items[1..];
      KeepTextedItems(rest);
      var cards := ItemCards(items);
      assert cards[0] == ItemCard(x) && cards[1..] == ItemCards(rest);
      var kept := WithText(rest);
      if HasTexte(x) {
        assert WithText(items) == [x] + kept;
        ItemCardsCons(x, kept);
      } else {
        assert WithText(items) == kept;
      }
    }
  }

  lemma ItemCardsCons(x: Json, rest: seq<Json>)
    ensures ItemCards([x] + rest) == [ItemCard(x)] + ItemCards(rest)
  {
    assert ([x] + rest)[1..] == rest;
  }

  lemma {:induction false} KeepTextedSub(fields: seq<(string, Json)>)
    ensures KeepTexted(SubCards(fields)) == SubCards(fields)
  {
    if fields != [] {
      KeepTextedSub(fields[1..]);
      var f := fields[0];
      var rest := SubCards(fields[1..]);
      if IsSub(f) && HasTexte(f.1) {
        var c := Card(ReplaceChar(f.0, '_', " "), TextOf(Get(f.1, "texte")));
        assert SubCards(fields) == [c] + rest;
        assert ([c] + rest)[1..] == rest;
      } else {
        assert SubCards(fields) == rest;
      }
    }
  }

  // ---------------------------------------------------------------- visibility

  /** The test `getVisibleSections` applies to a key of the group. */
  predicate Shown(data: Json, key: string) {
    var s := Get(data, key);
    Truthy(s) && Truthy(Get(s, "traite")) && HasContent(s)
  }

  /** `getVisibleSections(group, data)` */
  function VisibleSections(children: seq<string>, data: Json): seq<string> {
    if children == [] then []
    else (if Shown(data, children[0]) then [children[0]] else []) + VisibleSections(children[1..], data)
  }

  /** The visible sections are the group's keys whose section is present, treated
      and has content, in the group's order. */
  lemma {:induction false} VisibleSectionsSpec(children: seq<string>, data: Json)
    ensures forall k :: k in VisibleSections(children, data) <==> k in children && Shown(data, k)
    ensures Subsequence(VisibleSections(children, data), children)
  {
    if children != [] {
      VisibleSectionsSpec(children[1..], data);
      var r, rest := VisibleSections(children, data), VisibleSections(children[1..], data);
      assert children == [children[0]] + children[1..];
      if Shown(data, children[0]) {
        assert r == [children[0]] + rest;
        assert r[1..] == rest;
      } else {
        assert r == rest;
        SubsequenceDrop(rest, children);
      }
    }
  }
}
