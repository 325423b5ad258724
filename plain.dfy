/** The plain-text passes applied to a long convention text before it is shown
    in the comparison panel or sent in a prompt: every tag replaced by a space
    (`/<[^>]+>/g`), every whitespace run collapsed to one space (`/\s+/g`), and a
    cut at a fixed length with a marker appended. */
module Plain {
  import opened Text
  import Inline

  /** The first index at or after `i` holding `c`, or `|s|`. */
  function NextIndex(s: string, c: char, i: nat): (j: nat)
    requires i <= |s|
    ensures i <= j <= |s| && (j < |s| ==> s[j] == c)
    ensures forall k :: i <= k < j ==> s[k] != c
    decreases |s| - i
  {
    if i == |s| || s[i] == c then i else NextIndex(s, c, i + 1)
  }

  /** `<[^>]+>` matches at `i`: a `<`, then a character that is not `>`, and a `>`
      somewhere after it. The match ends at the first such `>`. */
  predicate TagAt(s: string, i: nat) {
    i + 1 < |s| && s[i] == '<' && s[i + 1] != '>' && '>' in s[i + 1..]
  }

  // ---------------------------------------------------------------- tags

  /** The global replacement of `<[^>]+>` by a space, from index `i` on. */
  function StripFrom(s: string, i: nat): string
    requires i <= |s|
    decreases |s| - i
  {
    if i == |s| then []
    else if TagAt(s, i) then " " + StripFrom(s, NextIndex(s, '>', i + 1) + 1)
    else [s[i]] + StripFrom(s, i + 1)
  }

  /** `text.replace(/<[^>]+>/g, ' ')` */
  function StripTags(s: string): string {
    StripFrom(s, 0)
  }

  /** No match of `<[^>]+>` starts anywhere in `r`. */
  predicate TagFree(r: string) {
    r == [] || (!TagAt(r, 0) && TagFree(r[1..]))
  }

  /** The replacement leaves no tag behind: a `<` that survives is the last
      character, or is followed by `>`, or has no `>` after it. */
  lemma StripTagsTagFree(s: string)
    ensures TagFree(StripTags(s))
  {
    StripFromTagFree(s, 0);
  }

  lemma {:induction false} StripFromTagFree(s: string, i: nat)
    requires i <= |s|
    ensures TagFree(StripFrom(s, i))
    ensures '>' !in s[i..] ==> '>' !in StripFrom(s, i)
    ensures i < |s| ==> StripFrom(s, i) != [] && StripFrom(s, i)[0] == if TagAt(s, i) then ' ' else s[i]
    decreases |s| - i
  {
    if i < |s| {
      var r := StripFrom(s, i);
      if TagAt(s, i) {
        var e := NextIndex(s, '>', i + 1) + 1;
        StripFromTagFree(s, e);
        var rest := StripFrom(s, e);
        assert r == " " + rest && r[1..] == rest;
        assert '>' in s[i..] by {
          assert s[i..][1..] == s[i + 1..];
        }
      } else {
        StripFromTagFree(s, i + 1);
        var rest := StripFrom(s, i + 1);
        assert r == [s[i]] + rest && r[1..] == rest;
        assert s[i..] == [s[i]] + s[i + 1..];
        if s[i] == '<' && i + 1 < |s| {
          StripFromTagFree(s, i + 1);
          assert s[i + 1] == '>' || '>' !in s[i + 1..];
        }
        assert !TagAt(r, 0);
      }
    }
  }

  /** A text without a tag is left as it is. */
  lemma {:induction false} StripTagFree(r: string, i: nat)
    requires i <= |r| && TagFree(r[i..])
    ensures StripFrom(r, i) == r[i..]
    decreases |r| - i
  {
    if i < |r| {
      var t := r[i..];
      assert t[1..] == r[i + 1..];
      assert TagAt(r, i) == TagAt(t, 0) by {
        assert t[0] == r[i];
        if i + 1 < |r| {
          assert t[1] == r[i + 1];
        }
      }
      StripTagFree(r, i + 1);
    }
  }

  /** Replacing the tags a second time changes nothing. */
  lemma StripTagsIdempotent(s: string)
    ensures StripTags(StripTags(s)) == StripTags(s)
  {
    var r := StripTags(s);
    StripTagsTagFree(s);
    assert r[0..] == r;
    StripTagFree(r, 0);
  }

  // ---------------------------------------------------------------- whitespace

  /** The global replacement of `\s+` by one space, from index `i` on. */
  function CollapseFrom(s: string, i: nat): string
    requires i <= |s|
    decreases |s| - i
  {
    if i == |s| then []
    else if IsWhitespace(s[i]) then " " + CollapseFrom(s, Inline.SkipWs(s, i))
    else [s[i]] + CollapseFrom(s, i + 1)
  }

  /** `text.replace(/\s+/g, ' ')` */
  function CollapseWs(s: string): string {
    CollapseFrom(s, 0)
  }

  /** Every whitespace character is a plain space and no two are adjacent. */
  predicate Collapsed(r: string) {
    r == [] || ((!IsWhitespace(r[0]) || (r[0] == ' ' && (|r| == 1 || !IsWhitespace(r[1])))) && Collapsed(r[1..]))
  }

  /** After the replacement every whitespace run is one space. */
  lemma CollapseWsCollapsed(s: string)
    ensures Collapsed(CollapseWs(s))
  {
    CollapseFromCollapsed(s, 0);
  }

  lemma {:induction false} CollapseFromCollapsed(s: string, i: nat)
    requires i <= |s|
    ensures Collapsed(CollapseFrom(s, i))
    ensures i < |s| ==> CollapseFrom(s, i) != [] && CollapseFrom(s, i)[0] == if IsWhitespace(s[i]) then ' ' else s[i]
    decreases |s| - i
  {
    if i < |s| {
      var r := CollapseFrom(s, i);
      if IsWhitespace(s[i]) {
        var j := Inline.SkipWs(s, i);
        CollapseFromCollapsed(s, j);
        assert r == " " + CollapseFrom(s, j) && r[1..] == CollapseFrom(s, j);
      } else {
        CollapseFromCollapsed(s, i + 1);
        assert r == [s[i]] + CollapseFrom(s, i + 1) && r[1..] == CollapseFrom(s, i + 1);
      }
    }
  }

  /** A collapsed text is left as it is. */
  lemma {:induction false} CollapseCollapsed(r: string, i: nat)
    requires i <= |r| && Collapsed(r[i..])
    ensures CollapseFrom(r, i) == r[i..]
    decreases |r| - i
  {
    if i < |r| {
      var t := r[i..];
      assert t[0] == r[i] && t[1..] == r[i + 1..];
      if i + 1 < |r| {
        assert t[1] == r[i + 1];
      }
      CollapseCollapsed(r, i + 1);
      if IsWhitespace(r[i]) {
        assert Inline.SkipWs(r, i) == i + 1 by {
          if i + 1 < |r| {
            assert Inline.SkipWs(r, i + 1) == i + 1;
          }
        }
      }
    }
  }

  /** Collapsing a second time changes nothing. */
  lemma CollapseWsIdempotent(s: string)
    ensures CollapseWs(CollapseWs(s)) == CollapseWs(s)
  {
    var r := CollapseWs(s);
    CollapseWsCollapsed(s);
    assert r[0..] == r;
    CollapseCollapsed(r, 0);
  }

  // ---------------------------------------------------------------- cut

  /** `s.length > n ? s.substring(0, n) + marker : s` */
  function Truncate(s: string, n: nat, marker: string): string {
    if |s| > n then s[..n] + marker else s
  }

  /** A text within the limit is kept whole; a longer one keeps exactly its first
      `n` characters and ends with the marker. Either way the result is at most
      `n` plus the marker long. */
  lemma TruncateSpec(s: string, n: nat, marker: string)
    ensures |Truncate(s, n, marker)| <= n + |marker|
    ensures |s| <= n ==> Truncate(s, n, marker) == s
    ensures |s| > n ==> |Truncate(s, n, marker)| == n + |marker|
                        && Truncate(s, n, marker)[..n] == s[..n]
                        && Truncate(s, n, marker)[n..] == marker
  {
  }
}
