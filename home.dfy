/** The home page (js/home.js): the index of conventions ordered by IDCC then
    name, the search box that keeps the conventions matching every term of the
    query, and the counter of shown conventions. The index is given as loaded;
    case folding, diacritic stripping and the locale comparison of names are
    parameters. */
module Home {
  import opened Text
  import opened JsValues
  import Inline
  import Escape
  import Plain

  /** An entry of the conventions index. */
  datatype Summary = Summary(key: string, nom: string, idcc: Json, brochure: Json)

  // ---------------------------------------------------------------- order

  /** The end of the run of decimal digits starting at `i`. */
  function DigitsEnd(s: string, i: nat): (j: nat)
    requires i <= |s|
    ensures i <= j <= |s|
    ensures forall k :: i <= k < j ==> '0' <= s[k] <= '9'
    decreases |s| - i
  {
    if i < |s| && '0' <= s[i] <= '9' then DigitsEnd(s, i + 1) else i
  }

  /** `parseInt(s)` in base ten: leading whitespace, an optional sign, then the
      longest run of digits; `None` stands for `NaN`. */
  function ParseIntStr(s: string): Option<int> {
    SignedAt(s, Inline.SkipWs(s, 0))
  }

  /** An optional sign at `i`, then the digits after it. */
  function SignedAt(s: string, i: nat): Option<int>
    requires i <= |s|
  {
    if i < |s| && s[i] == '-' then Negate(DigitsAt(s, i + 1))
    else if i < |s| && s[i] == '+' then DigitsAt(s, i + 1)
    else DigitsAt(s, i)
  }

  function Negate(n: Option<int>): Option<int> {
    if n.None? then None else Some(-n.value)
  }

  /** The value of the run of digits starting at `start`, if it is not empty. */
  function DigitsAt(s: string, start: nat): Option<int>
    requires start <= |s|
  {
    var end := DigitsEnd(s, start);
    if end == start then None else Some(DigitsValue(s[start..end]))
  }

  /** `parseInt(v)`: the value is read through its string form. */
  function ParseInt(v: Json): Option<int> {
    ParseIntStr(Interp(v))
  }

  /** `parseInt(c.idcc) || 99999`: no number and `0` both give 99999. */
  function SortKey(c: Summary): int {
    var n := ParseInt(c.idcc);
    if n.None? || n.value == 0 then 99999 else n.value
  }

  /** The comparator `init` sorts the index with: by key, then by name. */
  function Compare(a: Summary, b: Summary, localeCompare: (string, string) -> int): int {
    if SortKey(a) != SortKey(b) then SortKey(a) - SortKey(b) else localeCompare(a.nom, b.nom)
  }

  /** The order a sort with `Compare` leaves the index in. */
  predicate Sorted(xs: seq<Summary>, localeCompare: (string, string) -> int) {
    forall i, j :: 0 <= i < j < |xs| ==> Compare(xs[i], xs[j], localeCompare) <= 0
  }

  function Sign(n: int): int {
    if n < 0 then -1 else if n > 0 then 1 else 0
  }

  lemma {:induction false} DigitsEndAll(s: string, i: nat)
    requires i <= |s| && forall k :: i <= k < |s| ==> '0' <= s[k] <= '9'
    ensures DigitsEnd(s, i) == |s|
    decreases |s| - i
  {
    if i < |s| {
      DigitsEndAll(s, i + 1);
    }
  }

  /** A number reads back as itself: `parseInt` undoes `${n}`. */
  lemma ParseIntNumber(n: int)
    ensures ParseInt(Num(n)) == Some(n)
  {
    var m: nat := if n < 0 then -n else n;
    var d := NatStr(m);
    NatStrValue(m);
    if n < 0 {
      var s := "-" + d;
      assert Interp(Num(n)) == s;
      ParseMinus(s);
      DigitsAfterSign(s, d);
    } else {
      ParseDigits(d);
    }
  }

  /** A text made of digits only reads as its value. */
  lemma DigitsAtAll(s: string, start: nat)
    requires start < |s| && forall k :: start <= k < |s| ==> '0' <= s[k] <= '9'
    ensures DigitsAt(s, start) == Some(DigitsValue(s[start..]) as int)
  {
    DigitsEndAll(s, start);
    assert s[start..|s|] == s[start..];
  }

  lemma ParseDigits(d: string)
    requires |d| > 0 && forall k :: 0 <= k < |d| ==> '0' <= d[k] <= '9'
    ensures ParseIntStr(d) == Some(DigitsValue(d) as int)
  {
    assert Inline.SkipWs(d, 0) == 0 by {
      assert !IsWhitespace(d[0]);
    }
    assert SignedAt(d, 0) == DigitsAt(d, 0) by {
      assert d[0] != '-' && d[0] != '+';
    }
    assert d[0..] == d;
    DigitsAtAll(d, 0);
  }

  lemma ParseMinus(s: string)
    requires |s| > 0 && s[0] == '-'
    ensures ParseIntStr(s) == Negate(DigitsAt(s, 1))
  {
    assert Inline.SkipWs(s, 0) == 0;
  }

  lemma DigitsAfterSign(s: string, d: string)
    requires |d| > 0 && forall k :: 0 <= k < |d| ==> '0' <= d[k] <= '9'
    requires s == "-" + d
    ensures DigitsAt(s, 1) == Some(DigitsValue(d) as int)
  {
    assert s[1..] == d;
    DigitsAtAll(s, 1);
  }

  /** A missing IDCC reads as no number, so the entry sorts with key 99999. */
  lemma MissingIdcc(c: Summary)
    requires c.idcc == Undef
    ensures SortKey(c) == 99999
  {
    var s := Interp(Undef);
    assert s[0] == 'u';
    assert Inline.SkipWs(s, 0) == 0;
    assert DigitsEnd(s, 0) == 0;
  }

  /** The comparator is antisymmetric wherever the name comparison is. */
  lemma CompareAntisymmetric(a: Summary, b: Summary, localeCompare: (string, string) -> int)
    requires Sign(localeCompare(a.nom, b.nom)) == -Sign(localeCompare(b.nom, a.nom))
    ensures Sign(Compare(a, b, localeCompare)) == -Sign(Compare(b, a, localeCompare))
  {
  }

  /** The comparator is transitive wherever the name comparison is. */
  lemma CompareTransitive(a: Summary, b: Summary, c: Summary, localeCompare: (string, string) -> int)
    requires localeCompare(a.nom, b.nom) <= 0 && localeCompare(b.nom, c.nom) <= 0 ==> localeCompare(a.nom, c.nom) <= 0
    requires Compare(a, b, localeCompare) <= 0 && Compare(b, c, localeCompare) <= 0
    ensures Compare(a, c, localeCompare) <= 0
  {
  }

  /** In the sorted index the keys never decrease, so every convention with a
      usable IDCC comes before those without one. */
  lemma SortedKeys(xs: seq<Summary>, localeCompare: (string, string) -> int, i: nat, j: nat)
    requires Sorted(xs, localeCompare) && i < j < |xs|
    ensures SortKey(xs[i]) <= SortKey(xs[j])
    ensures SortKey(xs[j]) < 99999 ==> SortKey(xs[i]) < 99999
  {
    assert Compare(xs[i], xs[j], localeCompare) <= 0;
  }

  // ---------------------------------------------------------------- query

  /** The first whitespace at or after `i`, or `|s|`. */
  function NextWs(s: string, i: nat): (k: nat)
    requires i <= |s|
    ensures i <= k <= |s| && (k < |s| ==> IsWhitespace(s[k]))
    ensures forall m :: i <= m < k ==> !IsWhitespace(s[m])
    decreases |s| - i
  {
    if i == |s| || IsWhitespace(s[i]) then i else NextWs(s, i + 1)
  }

  /** `s.split(/\s+/)` from index `i` on. */
  function TermsFrom(s: string, i: nat): (r: seq<string>)
    requires i <= |s|
    ensures |r| > 0
    decreases |s| - i
  {
    var k := NextWs(s, i);
    if k == |s| then [s[i..]] else [s[i..k]] + TermsFrom(s, Inline.SkipWs(s, k))
  }

  function Terms(s: string): seq<string> {
    TermsFrom(s, 0)
  }

  /** Joining the terms with single spaces gives the text with every whitespace
      run made one space: the split loses exactly the runs and nothing else. */
  lemma TermsJoin(s: string)
    ensures Join(Terms(s), ' ') == Plain.CollapseWs(s)
  {
    TermsFromJoin(s, 0);
  }

  lemma {:induction false} TermsFromJoin(s: string, i: nat)
    requires i <= |s|
    ensures Join(TermsFrom(s, i), ' ') == Plain.CollapseFrom(s, i)
    decreases |s| - i
  {
    var k := NextWs(s, i);
    CollapseWord(s, i, k);
    if k < |s| {
      var e := Inline.SkipWs(s, k);
      TermsFromJoin(s, e);
      var rest := TermsFrom(s, e);
      var r := TermsFrom(s, i);
      assert r == [s[i..k]] + rest && r[1..] == rest;
      assert Plain.CollapseFrom(s, k) == " " + Plain.CollapseFrom(s, e);
    } else {
      assert s[i..k] == s[i..];
    }
  }

  /** A word is copied as it is up to the next whitespace. */
  lemma {:induction false} CollapseWord(s: string, i: nat, k: nat)
    requires i <= k <= |s| && forall m :: i <= m < k ==> !IsWhitespace(s[m])
    ensures Plain.CollapseFrom(s, i) == s[i..k] + Plain.CollapseFrom(s, k)
    decreases k - i
  {
    if i < k {
      var rest, word := Plain.CollapseFrom(s, k), s[i + 1..k];
      assert Plain.CollapseFrom(s, i + 1) == word + rest by {
        CollapseWord(s, i + 1, k);
      }
      assert Plain.CollapseFrom(s, i) == [s[i]] + Plain.CollapseFrom(s, i + 1) by {
        CollapseChar(s, i);
      }
      assert s[i..k] + rest == [s[i]] + (word + rest) by {
        WordCons(s, i, k, rest);
      }
    }
  }

  lemma CollapseChar(s: string, i: nat)
    requires i < |s| && !IsWhitespace(s[i])
    ensures Plain.CollapseFrom(s, i) == [s[i]] + Plain.CollapseFrom(s, i + 1)
  {
  }

  lemma WordCons(s: string, i: nat, k: nat, rest: string)
    requires i < k <= |s|
    ensures s[i..k] + rest == [s[i]] + (s[i + 1..k] + rest)
  {
    assert s[i..k] == [s[i]] + s[i + 1..k];
  }

  /** `${c.nom} ${c.idcc || ''} ${c.brochure || ''}` */
  function SearchText(c: Summary): string {
    c.nom + " " + (if Truthy(c.idcc) then Interp(c.idcc) else []) + " " + (if Truthy(c.brochure) then Interp(c.brochure) else [])
  }

  /** The terms of a query: lower-cased, trimmed, stripped of diacritics, then
      split on whitespace runs. */
  function QueryTerms(query: string, lower: string -> string, strip: string -> string): seq<string> {
    Terms(strip(Trim(lower(query))))
  }

  /** `terms.every(term => searchStr.includes(term))` */
  predicate Matches(c: Summary, terms: seq<string>, lower: string -> string, strip: string -> string) {
    forall t :: t in terms ==> Contains(strip(lower(SearchText(c))), t)
  }

  /** `allConventions.filter(…)` */
  function Filter(all: seq<Summary>, terms: seq<string>, lower: string -> string, strip: string -> string): seq<Summary> {
    if all == [] then []
    else (if Matches(all[0], terms, lower, strip) then [all[0]] else []) + Filter(all[1..], terms, lower, strip)
  }

  /** The filter keeps exactly the matching conventions, in index order. */
  lemma {:induction false} FilterSpec(all: seq<Summary>, terms: seq<string>, lower: string -> string, strip: string -> string)
    ensures forall c :: c in Filter(all, terms, lower, strip) <==> c in all && Matches(c, terms, lower, strip)
    ensures Subsequence(Filter(all, terms, lower, strip), all)
  {
    if all != [] {
      FilterSpec(all[1..], terms, lower, strip);
      var r, rest := Filter(all, terms, lower, strip), Filter(all[1..], terms, lower, strip);
      assert all == [all[0]] + all[1..];
      if Matches(all[0], terms, lower, strip) {
        assert r == [all[0]] + rest;
        assert r[1..] == rest;
      } else {
        assert r == rest;
        SubsequenceDrop(rest, all);
      }
    }
  }

  // ---------------------------------------------------------------- cards

  /** A card of the grid: the key its link opens, the escaped IDCC badge when
      there is an IDCC, and the escaped name. */
  datatype Card = Card(key: string, badge: Option<string>, name: string)

  function CardOf(c: Summary): Card {
    Card(c.key, if Truthy(c.idcc) then Some(Escape.EscapeHtml(Interp(c.idcc))) else None, Escape.EscapeHtml(c.nom))
  }

  function CardsOf(cs: seq<Summary>): (r: seq<Card>)
    ensures |r| == |cs| && forall i :: 0 <= i < |cs| ==> r[i] == CardOf(cs[i])
  {
    seq(|cs|, i requires 0 <= i < |cs| => CardOf(cs[i]))
  }

  /** The counter next to the search box. */
  function CounterText(shown: nat, total: nat): string {
    if shown == total then [] else NatStr(shown) + " / " + NatStr(total)
  }

  /** The counter is blank exactly when every convention is shown, and otherwise
      names both numbers. */
  lemma CounterIff(shown: nat, total: nat)
    ensures CounterText(shown, total) == [] <==> shown == total
    ensures shown != total ==> Split(CounterText(shown, total), '/') == [NatStr(shown) + " ", " " + NatStr(total)]
  {
    if shown != total {
      var a, b := NatStr(shown) + " ", " " + NatStr(total);
      assert '/' !in a && '/' !in b by {
        assert forall k :: 0 <= k < |a| ==> a[k] != '/';
        assert forall k :: 0 <= k < |b| ==> b[k] != '/';
      }
      assert CounterText(shown, total) == a + ['/'] + b;
      SplitFirst(a, '/', b);
      SplitNoSeparator(b, '/');
    }
  }

  class Index {
    /** `allConventions`, once sorted. */
    var all: seq<Summary>
    /** The cards of `#cards-grid`. */
    var cards: seq<Card>
    /** `#no-results` is displayed. */
    var noResults: bool
    /** `#search-count` */
    var counter: string
    /** The `localeCompare` the index was sorted with. */
    ghost var order: (string, string) -> int

    /** The index stays in the order `init` sorted it in. */
    ghost predicate Valid()
      reads this
    {
      Sorted(all, order)
    }

    /** The page shows `conventions`, with `previous` the counter before. An
        empty list empties the grid, shows the no-results element and leaves
        the counter as it was. */
    predicate Shows(conventions: seq<Summary>, previous: string)
      reads this
    {
      && (|conventions| == 0 ==> cards == [] && noResults && counter == previous)
      && (|conventions| > 0 ==> cards == CardsOf(conventions) && !noResults && counter == CounterText(|conventions|, |all|))
    }

    /** `init` once the index is sorted: every convention is shown. */
    constructor(sorted: seq<Summary>, localeCompare: (string, string) -> int)
      requires Sorted(sorted, localeCompare)
      ensures Valid() && order == localeCompare
      ensures all == sorted && Shows(sorted, [])
    {
      all := sorted;
      order := localeCompare;
      cards := [];
      noResults := false;
      counter := [];
      new;
      RenderCards(sorted);
    }

    /** `renderCards(conventions)` */
    method RenderCards(conventions: seq<Summary>)
      requires Valid()
      modifies this
      ensures Valid() && order == old(order)
      ensures all == old(all) && Shows(conventions, old(counter))
    {
      if |conventions| == 0 {
        cards := [];
        noResults := true;
        return;
      }
      noResults := false;
      cards := CardsOf(conventions);
      counter := CounterText(|conventions|, |all|);
    }

    /** `onSearch(query)`: a blank query shows the whole index; otherwise the
        conventions matching every term of the query, in index order. */
    method OnSearch(query: string, lower: string -> string, strip: string -> string)
      requires Valid()
      modifies this
      ensures Valid() && order == old(order) && all == old(all)
      ensures Trim(query) == [] ==> Shows(all, old(counter))
      ensures Trim(query) != [] ==> Shows(Filter(all, QueryTerms(query, lower, strip), lower, strip), old(counter))
    {
      if Trim(query) == [] {
        RenderCards(all);
        return;
      }
      var q := strip(Trim(lower(query)));
      var terms := Terms(q);
      var filtered := Filter(all, terms, lower, strip);
      RenderCards(filtered);
    }
  }
}
