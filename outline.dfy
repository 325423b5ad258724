/** The table of contents of a convention page: the positional numbering that the sidebar, the
    section blocks and the print table of contents of js/convention.js all compute
    the same way. A group is numbered only when it has a visible section, so the
    numbers run from 1 without gaps; section numbers restart at 1 in each group and
    read `g.s`. */
module Outline {
  import opened Text
  import opened JsValues
  import Sections
  import opened Config

  /** A section entry of the outline: its key and its number `g.s`; the entry is
      shown with the label `LabelOf(key)`. */
  datatype NavItem = NavItem(key: string, num: string)

  /** A group entry of the outline: its number, label and sections. */
  datatype NavGroup = NavGroup(num: nat, name: string, items: seq<NavItem>)

  /** `${groupIdx}.${subIdx}` */
  function SecNum(g: nat, s: nat): string {
    NatStr(g) + "." + NatStr(s)
  }

  /** The first `k` visible sections of group number `g`, numbered from 1. */
  function NumberItems(g: nat, keys: seq<string>, k: nat): seq<NavItem>
    requires k <= |keys|
  {
    if k == 0 then []
    else NumberItems(g, keys, k - 1) + [NavItem(keys[k - 1], SecNum(g, k))]
  }

  /** The outline of the groups in `menu`: a group without visible sections is
      skipped and does not take a number. */
  function OutlineOf(menu: seq<Group>, data: Json): seq<NavGroup> {
    if menu == [] then []
    else
      var prev := OutlineOf(menu[..|menu| - 1], data);
      var last := menu[|menu| - 1];
      var keys := Sections.VisibleSections(last.children, data);
      if keys == [] then prev
      else prev + [Entry(|prev| + 1, last, data)]
  }

  /** The inner loop of `buildSidebar`/`renderSections`/`renderPrintToc`: `subIdx`
      counts the sections of the group. */
  method NumberSections(g: nat, keys: seq<string>) returns (items: seq<NavItem>)
    ensures items == NumberItems(g, keys, |keys|)
  {
    items := [];
    var subIdx := 0;
    for i := 0 to |keys|
      invariant subIdx == i && items == NumberItems(g, keys, i)
    {
      subIdx := subIdx + 1;
      items := items + [NavItem(keys[i], SecNum(g, subIdx))];
    }
  }

  /** The outer loop: `groupIdx` counts the groups that have a visible section. */
  method BuildOutline(menu: seq<Group>, data: Json) returns (groups: seq<NavGroup>)
    ensures groups == OutlineOf(menu, data)
  {
    groups := [];
    var groupIdx := 0;
    for i := 0 to |menu|
      invariant groupIdx == |groups| && groups == OutlineOf(menu[..i], data)
    {
      assert menu[..i + 1][..i] == menu[..i];
      var groupSections := Sections.VisibleSections(menu[i].children, data);
      if groupSections != [] {
        groupIdx := groupIdx + 1;
        var items := NumberSections(groupIdx, groupSections);
        groups := groups + [NavGroup(groupIdx, menu[i].name, items)];
      }
    }
    assert menu[..|menu|] == menu;
  }

  // ---------------------------------------------------------------- numbering facts

  /** The groups of `menu` that have a visible section, in menu order. */
  function NonEmptyGroups(menu: seq<Group>, data: Json): seq<Group> {
    if menu == [] then []
    else
      var prev := NonEmptyGroups(menu[..|menu| - 1], data);
      var last := menu[|menu| - 1];
      if Sections.VisibleSections(last.children, data) == [] then prev else prev + [last]
  }

  /** Section `j` of a group is the group's `j`-th visible key, numbered `g.(j+1)`. */
  lemma {:induction false} NumberItemsSpec(g: nat, keys: seq<string>, k: nat)
    requires k <= |keys|
    ensures |NumberItems(g, keys, k)| == k
    ensures forall j :: 0 <= j < k ==>
              NumberItems(g, keys, k)[j] == NavItem(keys[j], SecNum(g, j + 1))
  {
    if k > 0 {
      NumberItemsSpec(g, keys, k - 1);
    }
  }

  /** Groups numbered by position, each with its visible sections. */
  function Numbered(groups: seq<Group>, data: Json): seq<NavGroup> {
    if groups == [] then [] else Numbered(groups[..|groups| - 1], data) + [Entry(|groups|, groups[|groups| - 1], data)]
  }

  /** The outline entry of a group numbered `n`. */
  function Entry(n: nat, grp: Group, data: Json): NavGroup {
    var keys := Sections.VisibleSections(grp.children, data);
    NavGroup(n, grp.name, NumberItems(n, keys, |keys|))
  }

  /** The outline numbers the groups that have a visible section by their
      position among those groups. */
  lemma {:induction false} OutlineIsNumbered(menu: seq<Group>, data: Json)
    ensures OutlineOf(menu, data) == Numbered(NonEmptyGroups(menu, data), data)
    ensures |OutlineOf(menu, data)| == |NonEmptyGroups(menu, data)|
  {
    if menu != [] {
      var init := menu[..|menu| - 1];
      OutlineIsNumbered(init, data);
      var ne := NonEmptyGroups(menu, data);
      if ne != NonEmptyGroups(init, data) {
        assert ne[..|ne| - 1] == NonEmptyGroups(init, data);
      }
    }
  }

  /** Entry `i` of the numbered list is numbered `i + 1`, carries the label of
      group `i` and lists exactly its visible sections. */
  lemma NumberedSpec(groups: seq<Group>, data: Json)
    ensures |Numbered(groups, data)| == |groups|
    ensures forall i :: 0 <= i < |groups| ==> Numbered(groups, data)[i] == Entry(i + 1, groups[i], data)
  {
    NumberedLength(groups, data);
    forall i | 0 <= i < |groups| ensures Numbered(groups, data)[i] == Entry(i + 1, groups[i], data) {
      NumberedAt(groups, data, i);
    }
  }

  lemma {:induction false} NumberedLength(groups: seq<Group>, data: Json)
    ensures |Numbered(groups, data)| == |groups|
  {
    if groups != [] {
      NumberedLength(groups[..|groups| - 1], data);
    }
  }

  lemma {:induction false} NumberedAt(groups: seq<Group>, data: Json, i: nat)
    requires i < |groups|
    ensures |Numbered(groups, data)| == |groups|
    ensures Numbered(groups, data)[i] == Entry(i + 1, groups[i], data)
  {
    var init := groups[..|groups| - 1];
    NumberedLength(init, data);
    if i < |init| {
      NumberedAt(init, data, i);
      assert groups[i] == init[i];
    }
  }

  /** Every group kept has a visible section. */
  lemma {:induction false} NonEmptyGroupsShown(menu: seq<Group>, data: Json)
    ensures forall i :: 0 <= i < |NonEmptyGroups(menu, data)| ==>
              Sections.VisibleSections(NonEmptyGroups(menu, data)[i].children, data) != []
  {
    if menu != [] {
      NonEmptyGroupsShown(menu[..|menu| - 1], data);
    }
  }

  /** Every group kept is a group of the menu, in the menu's order. */
  lemma {:induction false} NonEmptyGroupsSubsequence(menu: seq<Group>, data: Json)
    ensures Subsequence(NonEmptyGroups(menu, data), menu)
  {
    if menu != [] {
      var init, last := menu[..|menu| - 1], menu[|menu| - 1];
      NonEmptyGroupsSubsequence(init, data);
      assert menu == init + [last];
      var prev := NonEmptyGroups(init, data);
      if Sections.VisibleSections(last.children, data) == [] {
        SubsequenceAppend(prev, init, [], [last]);
        assert prev + [] == prev;
      } else {
        SubsequenceAppend(NonEmptyGroups(init, data), init, [last], [last]);
      }
    }
  }

  lemma {:induction false} SubsequenceAppend<T>(a: seq<T>, b: seq<T>, c: seq<T>, d: seq<T>)
    requires Subsequence(a, b) && Subsequence(c, d)
    ensures Subsequence(a + c, b + d)
    decreases |b|
  {
    if a == [] {
      SubsequenceSuffix(c, b, d);
      assert a + c == c;
    } else if (a[0] == b[0] && Subsequence(a[1..], b[1..])) {
      SubsequenceAppend(a[1..], b[1..], c, d);
      assert (a + c)[1..] == a[1..] + c && (b + d)[1..] == b[1..] + d;
    } else {
      SubsequenceAppend(a, b[1..], c, d);
      assert (b + d)[1..] == b[1..] + d;
    }
  }

  lemma {:induction false} SubsequenceSuffix<T>(c: seq<T>, b: seq<T>, d: seq<T>)
    requires Subsequence(c, d)
    ensures Subsequence(c, b + d)
    decreases |b|
  {
    if b == [] {
      assert b + d == d;
    } else {
      SubsequenceSuffix(c, b[1..], d);
      assert (b + d)[1..] == b[1..] + d;
    }
  }

  /** Two sections get the same number only when both their group and their
      position agree: a number `g.s` determines `g` and `s`. */
  lemma SecNumInjective(g1: nat, s1: nat, g2: nat, s2: nat)
    requires SecNum(g1, s1) == SecNum(g2, s2)
    ensures g1 == g2 && s1 == s2
  {
    var p1, p2 := [NatStr(g1), NatStr(s1)], [NatStr(g2), NatStr(s2)];
    assert Join(p1, '.') == SecNum(g1, s1) by { assert p1[1..] == [NatStr(s1)]; }
    assert Join(p2, '.') == SecNum(g2, s2) by { assert p2[1..] == [NatStr(s2)]; }
    SplitJoin(p1, '.');
    SplitJoin(p2, '.');
    NatStrInjective(g1, g2);
    NatStrInjective(s1, s2);
  }

}
