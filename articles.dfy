/** The list of reference articles js/convention.js draws at the end of a
    section: a block titled with the number of articles, then one item per entry
    of `section.articles`, each holding the escaped entry. */
module Articles {
  import opened Text
  import opened JsValues
  import Escape
  import Sections

  /** The opening tag of an item, after its `<`. */
  const ItemTag := "div class=\"article-item\">"
  /** The closing tag, after its `<`. */
  const EndTag := "/div>"

  /** `escapeHtml(art)`: a string entry escaped; anything else shows nothing. */
  function ArticleText(art: Json): string {
    Escape.EscapeHtml(TextOf(art))
  }

  /** An item between the tags `<open` and `<close`;
      `<div class="article-item">${escapeHtml(art)}</div>` with the tags above. */
  function Item(art: Json, open: string, close: string): string {
    ['<'] + open + ArticleText(art) + ['<'] + close
  }

  /** The items, in the order of the entries. */
  function Items(arts: seq<Json>, open: string, close: string): string {
    if arts == [] then [] else Item(arts[0], open, close) + Items(arts[1..], open, close)
  }

  /** The items of the list. */
  function ItemsHtml(arts: seq<Json>): string {
    Items(arts, ItemTag, EndTag)
  }

  /** The title: `Articles de référence (n)`. */
  function Title(n: nat): string {
    "Articles de r\U{00E9}f\U{00E9}rence (" + NatStr(n) + ")"
  }

  /** The block, its clickable title with the chevron, and the list's opening. */
  function BlockHead(n: nat): string {
    ['<'] + BlockTags + Title(n) + ChevronTags
  }

  /** The rest of the block's and of the title's opening tags. */
  const BlockTags := "div class=\"articles-block\"><div class=\"articles-title\" onclick=\"toggleArticles(this)\">"
  /** The chevron, the end of the title, and the opening of the list. */
  const ChevronTags := "<span class=\"chevron\">\U{25BC}</span></div><div class=\"articles-list\">"

  /** Closes the list and the block. */
  const BlockEnd := "</div></div>"

  /** What the articles add to a section: nothing without articles, otherwise
      the block with one item per entry. */
  function Block(section: Json): string {
    var arts := Entries(Get(section, "articles"));
    if |arts| == 0 then [] else BlockHead(|arts|) + ItemsHtml(arts) + BlockEnd
  }

  /** The loop of `renderSections` that appends the articles to the section's
      markup. */
  method RenderArticles(section: Json) returns (html: string)
    ensures html == Block(section)
  {
    html := [];
    var arts := Entries(Get(section, "articles"));
    if |arts| > 0 {
      html := BlockHead(|arts|);
      ghost var whole := BlockHead(|arts|) + ItemsHtml(arts);
      assert ItemsSoFar(html, arts, 0, ItemTag, EndTag, whole);
      for i := 0 to |arts|
        invariant ItemsSoFar(html, arts, i, ItemTag, EndTag, whole)
      {
        var item := Item(arts[i], ItemTag, EndTag);
        ItemsStep(arts, i, html, ItemTag, EndTag, whole);
        html := html + item;
      }
      ItemsDone(arts, html, ItemTag, EndTag, whole);
      html := html + BlockEnd;
    }
  }

  /** The items written so far, followed by those of the entries from `i` on,
      make the whole list. */
  predicate ItemsSoFar(done: string, arts: seq<Json>, i: nat, open: string, close: string, whole: string)
    requires i <= |arts|
  {
    done + Items(arts[i..], open, close) == whole
  }

  lemma ItemsStep(arts: seq<Json>, i: nat, done: string, open: string, close: string, whole: string)
    requires i < |arts| && ItemsSoFar(done, arts, i, open, close, whole)
    ensures ItemsSoFar(done + Item(arts[i], open, close), arts, i + 1, open, close, whole)
  {
    assert arts[i..][1..] == arts[i + 1..];
  }

  lemma ItemsDone(arts: seq<Json>, done: string, open: string, close: string, whole: string)
    requires ItemsSoFar(done, arts, |arts|, open, close, whole)
    ensures done == whole
  {
    assert arts[|arts|..] == [];
  }

  // ---------------------------------------------------------------- one item per entry

  /** The pieces the items fall into when cut at every `<`: for each entry, its
      opening tag with its escaped text, then its closing tag. */
  function Pieces(arts: seq<Json>, open: string, close: string): (r: seq<string>)
    ensures |r| == 2 * |arts|
  {
    if arts == [] then [] else [open + ArticleText(arts[0]), close] + Pieces(arts[1..], open, close)
  }

  /** Cutting the items at every `<` gives an empty lead, then the two pieces of
      each entry in order: no text of an entry opens or closes a tag. */
  lemma {:induction false} ItemsSplit(arts: seq<Json>, open: string, close: string)
    requires '<' !in open && '<' !in close
    ensures Split(Items(arts, open, close), '<') == [[]] + Pieces(arts, open, close)
  {
    if arts != [] {
      var y := Items(arts[1..], open, close);
      var head := open + ArticleText(arts[0]);
      assert '<' !in head by {
        Escape.EscapeHtmlSafe(TextOf(arts[0]));
      }
      var w := head + ['<'] + (close + y);
      assert Items(arts, open, close) == ['<'] + w by {
        assert Item(arts[0], open, close) + y == ['<'] + w;
      }
      assert Split(['<'] + w, '<') == [[]] + Split(w, '<') by {
        SplitFirst([], '<', w);
        assert [] + ['<'] + w == ['<'] + w;
      }
      assert Split(w, '<') == [head] + Split(close + y, '<') by {
        SplitFirst(head, '<', close + y);
      }
      assert Split(close + y, '<') == [close] + Pieces(arts[1..], open, close) by {
        ItemsSplit(arts[1..], open, close);
        SplitPrefix(close, '<', y);
        assert close + [] == close;
      }
    }
  }

  lemma TagsOpenNothing()
    ensures '<' !in ItemTag && '<' !in EndTag
  {
  }

  lemma {:induction false} PiecesAt(arts: seq<Json>, open: string, close: string, k: nat)
    requires k < |arts|
    ensures Pieces(arts, open, close)[2 * k] == open + ArticleText(arts[k])
    ensures Pieces(arts, open, close)[2 * k + 1] == close
  {
    var p, rest := Pieces(arts, open, close), Pieces(arts[1..], open, close);
    assert p == [open + ArticleText(arts[0]), close] + rest;
    if k > 0 {
      PiecesAt(arts[1..], open, close, k - 1);
      assert p[2 * k] == rest[2 * (k - 1)] && p[2 * k + 1] == rest[2 * (k - 1) + 1];
    }
  }

  /** Reading the items back: two tags per entry, and the `k`-th item holds
      the `k`-th entry's text between its tags. */
  lemma ItemsRead(arts: seq<Json>, open: string, close: string, k: nat)
    requires '<' !in open && '<' !in close && k < |arts|
    ensures Count(Items(arts, open, close), '<') == 2 * |arts|
    ensures var parts := Split(Items(arts, open, close), '<');
      && |parts| == 2 * |arts| + 1
      && parts[2 * k + 1] == open + ArticleText(arts[k])
      && parts[2 * k + 2] == close
      && Escape.Unescape(parts[2 * k + 1][|open|..]) == TextOf(arts[k])
  {
    ItemsSplit(arts, open, close);
    SplitSpec(Items(arts, open, close), '<');
    PiecesAt(arts, open, close, k);
    var piece := open + ArticleText(arts[k]);
    assert piece[|open|..] == ArticleText(arts[k]);
    Escape.EscapeRoundTrip(TextOf(arts[k]));
  }

  /** There is exactly one item per entry: the list holds two tags per entry, and
      the `k`-th item opens with the item tag, holds the `k`-th entry's text
      (decoding its entities gives the entry back) and closes at once. */
  lemma OneItemPerEntry(arts: seq<Json>, k: nat)
    requires k < |arts|
    ensures Count(ItemsHtml(arts), '<') == 2 * |arts|
    ensures var parts := Split(ItemsHtml(arts), '<');
      && |parts| == 2 * |arts| + 1
      && parts[2 * k + 1] == ItemTag + ArticleText(arts[k])
      && parts[2 * k + 2] == EndTag
      && Escape.Unescape(parts[2 * k + 1][|ItemTag|..]) == TextOf(arts[k])
  {
    TagsOpenNothing();
    ItemsRead(arts, ItemTag, EndTag, k);
  }

  /** The block is left out exactly when the section lists no article, the count
      `sectionHasContent` reads; otherwise it opens with the title naming that
      count. */
  lemma BlockShown(section: Json)
    ensures Block(section) == [] <==> Sections.ArticleCount(section) == 0
    ensures Sections.ArticleCount(section) > 0 ==>
      StartsWith(Block(section), BlockHead(Sections.ArticleCount(section)))
  {
    var arts := Entries(Get(section, "articles"));
    if |arts| > 0 {
      var head := BlockHead(|arts|);
      var tail := ItemsHtml(arts) + BlockEnd;
      assert Block(section) == head + tail;
      assert |head| > 0 by {
        HeadOpens(|arts|);
      }
      assert (head + tail)[..|head|] == head;
    }
  }

  lemma HeadOpens(n: nat)
    ensures BlockHead(n)[0] == '<'
  {
  }
}
