/** `escapeHtml` of js/shared.js: four global replacements applied in a fixed
    order, `&` first. */
module Escape {
  import opened Text

  /** `escapeHtml(text)`: empty for an empty (falsy) text, otherwise the chain
      `&` -> `&amp;`, `<` -> `&lt;`, `>` -> `&gt;`, `"` -> `&quot;`. */
  function EscapeHtml(text: string): string {
    if text == [] then []
    else
      var amp := ReplaceChar(text, '&', "&amp;");
      var lt := ReplaceChar(amp, '<', "&lt;");
      var gt := ReplaceChar(lt, '>', "&gt;");
      ReplaceChar(gt, '"', "&quot;")
  }

  /** The entity one character turns into; the reference definition of the chain. */
  function EscapeChar(c: char): string {
    if c == '&' then "&amp;"
    else if c == '<' then "&lt;"
    else if c == '>' then "&gt;"
    else if c == '"' then "&quot;"
    else [c]
  }

  /** Character-by-character escaping. */
  function EscapeEach(s: string): string {
    if s == [] then [] else EscapeChar(s[0]) + EscapeEach(s[1..])
  }

  /** Because `&` is replaced first, the chain equals escaping each character on
      its own: no entity produced by one step is touched by a later step, so `<`
      becomes exactly `&lt;` and never `&amp;lt;`. */
  lemma {:induction false} EscapeHtmlIsPerCharacter(s: string)
    ensures EscapeHtml(s) == EscapeEach(s)
  {
    if s != [] {
      var c, rest := s[0], s[1..];
      assert s == [c] + rest;
      ReplaceCharConcat([c], rest, '&', "&amp;");
      var a1, a2 := ReplaceChar([c], '&', "&amp;"), ReplaceChar(rest, '&', "&amp;");
      ReplaceCharConcat(a1, a2, '<', "&lt;");
      var b1, b2 := ReplaceChar(a1, '<', "&lt;"), ReplaceChar(a2, '<', "&lt;");
      ReplaceCharConcat(b1, b2, '>', "&gt;");
      var c1, c2 := ReplaceChar(b1, '>', "&gt;"), ReplaceChar(b2, '>', "&gt;");
      ReplaceCharConcat(c1, c2, '"', "&quot;");
      var d1 := ReplaceChar(c1, '"', "&quot;");
      assert d1 == EscapeChar(c) by { SingleCharChain(c); }
      if rest == [] {
        assert a2 == [] && EscapeEach(rest) == [];
      } else {
        EscapeHtmlIsPerCharacter(rest);
      }
    }
  }

  /** The escaped text holds no `<`, `>` or `"`, and an `&` only where an entity
      starts: every character of the output is either an ordinary character of the
      input or part of one of the four entities. */
  lemma EscapeHtmlSafe(s: string)
    ensures '<' !in EscapeHtml(s) && '>' !in EscapeHtml(s) && '"' !in EscapeHtml(s)
    ensures s == [] ==> EscapeHtml(s) == []
  {
    EscapeHtmlIsPerCharacter(s);
    EscapeEachSafe(s);
  }

  lemma {:induction false} EscapeEachSafe(s: string)
    ensures '<' !in EscapeEach(s) && '>' !in EscapeEach(s) && '"' !in EscapeEach(s)
  {
    if s != [] {
      EscapeEachSafe(s[1..]);
      var e := EscapeChar(s[0]);
      assert '<' !in e && '>' !in e && '"' !in e;
    }
  }

  /** No entity holds a character a later step of the chain replaces. */
  lemma EntitiesClean()
    ensures '<' !in "&amp;" && '>' !in "&amp;" && '"' !in "&amp;"
    ensures '>' !in "&lt;" && '"' !in "&lt;" && '"' !in "&gt;"
  {
  }

  lemma SingleCharChain(c: char)
    ensures ReplaceChar(ReplaceChar(ReplaceChar(ReplaceChar([c], '&', "&amp;"), '<', "&lt;"), '>', "&gt;"), '"', "&quot;")
            == EscapeChar(c)
  {
    EntitiesClean();
    var a1 := ReplaceChar([c], '&', "&amp;");
    var a2 := ReplaceChar(a1, '<', "&lt;");
    var a3 := ReplaceChar(a2, '>', "&gt;");
    var a4 := ReplaceChar(a3, '"', "&quot;");
    assert a1 == (if c == '&' then "&amp;" else [c]) by {
      ReplaceCharSingle(c, '&', "&amp;");
    }
    if c == '&' {
      assert a2 == a1 by { ReplaceCharAbsent("&amp;", '<', "&lt;"); }
      assert a3 == a2 by { ReplaceCharAbsent("&amp;", '>', "&gt;"); }
      assert a4 == a3 by { ReplaceCharAbsent("&amp;", '"', "&quot;"); }
    } else {
      assert a2 == (if c == '<' then "&lt;" else [c]) by {
        ReplaceCharSingle(c, '<', "&lt;");
      }
      if c == '<' {
        assert a3 == a2 by { ReplaceCharAbsent("&lt;", '>', "&gt;"); }
        assert a4 == a3 by { ReplaceCharAbsent("&lt;", '"', "&quot;"); }
      } else {
        assert a3 == (if c == '>' then "&gt;" else [c]) by {
          ReplaceCharSingle(c, '>', "&gt;");
        }
        if c == '>' {
          assert a4 == a3 by { ReplaceCharAbsent("&gt;", '"', "&quot;"); }
        } else {
          assert a4 == (if c == '"' then "&quot;" else [c]) by {
            ReplaceCharSingle(c, '"', "&quot;");
          }
        }
      }
    }
  }


  /** Decodes the four entities `escapeHtml` produces; the inverse of escaping.
      Any other `&` is kept as it is. */
  function Unescape(s: string): string
    decreases |s|
  {
    if s == [] then []
    else if s[0] != '&' then [s[0]] + Unescape(s[1..])
    else if |s| >= 5 && s[1] == 'a' && s[2] == 'm' && s[3] == 'p' && s[4] == ';' then "&" + Unescape(s[5..])
    else if |s| >= 4 && s[1] == 'l' && s[2] == 't' && s[3] == ';' then "<" + Unescape(s[4..])
    else if |s| >= 4 && s[1] == 'g' && s[2] == 't' && s[3] == ';' then ">" + Unescape(s[4..])
    else if |s| >= 6 && s[1] == 'q' && s[2] == 'u' && s[3] == 'o' && s[4] == 't' && s[5] == ';' then "\"" + Unescape(s[6..])
    else "&" + Unescape(s[1..])
  }

  /** Decoding the entity of one character gives back that character. */
  lemma UnescapeStep(c: char, t: string)
    ensures Unescape(EscapeChar(c) + t) == [c] + Unescape(t)
  {
    var e := EscapeChar(c);
    var u := e + t;
    assert u[|e|..] == t;
    assert forall k :: 0 <= k < |e| ==> u[k] == e[k];
  }

  lemma {:induction false} UnescapeEscapeEach(s: string)
    ensures Unescape(EscapeEach(s)) == s
  {
    if s != [] {
      UnescapeStep(s[0], EscapeEach(s[1..]));
      UnescapeEscapeEach(s[1..]);
      assert s == [s[0]] + s[1..];
    }
  }

  /** Escaping loses nothing: decoding the entities gives the text back, so two
      different texts never render the same. */
  lemma EscapeRoundTrip(s: string)
    ensures Unescape(EscapeHtml(s)) == s
  {
    EscapeHtmlIsPerCharacter(s);
    UnescapeEscapeEach(s);
  }
}
