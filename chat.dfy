/** The chat assistant: the conversation history and the busy flag that
    `sendMessage` maintains around the request, the `contents` that `callGemini`
    builds from the history, and `formatBotMessage`. The request itself is left
    out: its answer, or its failure, is a parameter. */
module Chat {
  import opened Text
  import Inline

  datatype Role = User | Model

  /** `{ role, parts: [{ text }] }` */
  datatype Entry = Entry(role: Role, text: string)

  class Conversation {
    /** `chatHistory` */
    var history: seq<Entry>
    /** `chatIsTyping` */
    var typing: bool

    /** Every entry holds text, an answer always follows a question, and while a
        request is pending the last entry is its question. */
    predicate Valid()
      reads this
    {
      && (forall k :: 0 <= k < |history| ==> history[k].text != [])
      && (forall k :: 0 <= k < |history| && history[k].role == Model ==> k > 0 && history[k - 1].role == User)
      && (typing ==> |history| > 0 && history[|history| - 1].role == User)
    }

    constructor()
      ensures Valid() && history == [] && !typing
    {
      history := [];
      typing := false;
    }

    /** The part of `sendMessage` before the request: an empty question, a
        pending request, or a key the user does not provide stops it; otherwise
        the trimmed question is appended and the busy flag set. */
    method StartSend(input: string, keyReady: bool) returns (question: Option<string>)
      requires Valid()
      modifies this
      ensures Valid()
      ensures Trim(input) == [] || old(typing) || !keyReady ==> question == None && unchanged(this)
      ensures Trim(input) != [] && !old(typing) && keyReady ==>
                && question == Some(Trim(input))
                && history == old(history) + [Entry(User, Trim(input))]
                && typing
    {
      var q := Trim(input);
      if q == [] || typing {
        return None;
      }
      if !keyReady {
        return None;
      }
      history := history + [Entry(User, q)];
      typing := true;
      question := Some(q);
    }

    /** The part after the request: an answer (`callGemini` fails on an empty
        one) is appended as the model's entry, a failure appends nothing, and the
        busy flag is cleared either way. */
    method FinishSend(answer: Option<string>)
      requires Valid() && typing
      modifies this
      ensures Valid() && !typing
      ensures answer.Some? && answer.value != [] ==> history == old(history) + [Entry(Model, answer.value)]
      ensures !(answer.Some? && answer.value != []) ==> history == old(history)
    {
      if answer.Some? && answer.value != [] {
        history := history + [Entry(Model, answer.value)];
      }
      typing := false;
    }

    /** A whole exchange: the history grows by the question and its answer, or by
        the question alone when the request fails, and the flag ends cleared. */
    method Send(input: string, keyReady: bool, answer: Option<string>)
      requires Valid() && !typing
      modifies this
      ensures Valid() && !typing
      ensures Trim(input) == [] || !keyReady ==> history == old(history)
      ensures Trim(input) != [] && keyReady && answer.Some? && answer.value != [] ==>
                history == old(history) + [Entry(User, Trim(input)), Entry(Model, answer.value)]
      ensures Trim(input) != [] && keyReady && !(answer.Some? && answer.value != []) ==>
                history == old(history) + [Entry(User, Trim(input))]
    {
      var q := StartSend(input, keyReady);
      if q.Some? {
        FinishSend(answer);
      }
    }
  }

  /** After a first request that fails, the next question is sent with the
      history holding two questions in a row (see `SecondQuestionMislabelled`). */
  method FailedFirstRequest() returns (c: Conversation)
    ensures c.Valid() && c.typing
    ensures c.history == [Entry(User, "a"), Entry(User, "b")]
  {
    c := new Conversation();
    TrimWord("a");
    TrimWord("b");
    var q := c.StartSend("a", true);
    c.FinishSend(None);
    q := c.StartSend("b", true);
  }

  lemma TrimWord(w: string)
    requires |w| == 1 && !IsWhitespace(w[0])
    ensures Trim(w) == w
  {
  }

  // ---------------------------------------------------------------- request contents

  /** The first entry of `contents`: the system prompt followed by a question. */
  function Opening(system: string, question: string): Entry {
    Entry(User, system + "\n\nQuestion : " + question)
  }

  /** `contents` as `callGemini(question)` builds it: the opening with the first
      question, then, from the second entry on, an entry labelled as the model's
      holding the second entry's text (`Ok` if empty), then the rest of the
      history as it is. */
  function ContentsAsWritten(history: seq<Entry>, question: string, system: string): (r: seq<Entry>)
    requires |history| > 0
  {
    var first := Opening(system, if |history| <= 1 then question else history[0].text);
    if |history| > 1 then
      [first, Entry(Model, if history[1].text != [] then history[1].text else "Ok")] + history[2..]
    else [first]
  }

  method BuildContents(history: seq<Entry>, question: string, system: string) returns (contents: seq<Entry>)
    requires |history| > 0
    ensures contents == ContentsAsWritten(history, question, system)
  {
    contents := [Opening(system, if |history| <= 1 then question else history[0].text)];
    if |history| > 1 {
      contents := contents + [Entry(Model, if history[1].text != [] then history[1].text else "Ok")];
      for i := 2 to |history|
        invariant |contents| == i
        invariant contents == ContentsAsWritten(history, question, system)[..i]
      {
        contents := contents + [history[i]];
      }
    }
  }

  /** One entry per history entry (at least one); the opening is the user's with
      the first question; the second is always labelled as the model's; the rest
      is the history unchanged. */
  lemma ContentsShape(history: seq<Entry>, question: string, system: string)
    requires |history| > 0
    ensures var r := ContentsAsWritten(history, question, system);
      && |r| == |history|
      && r[0].role == User
      && (|history| > 1 ==> r[1].role == Model)
      && (forall k :: 2 <= k < |history| ==> r[k] == history[k])
  {
  }

  /** The evidently intended `contents`: the opening carries the first question,
      and every later entry keeps its own role and text. */
  function Contents(history: seq<Entry>, system: string): (r: seq<Entry>)
    requires |history| > 0
  {
    [Opening(system, history[0].text)] + history[1..]
  }

  /** The roles of the request follow the history, so while a question is pending
      the request ends with it, as the user's. */
  lemma ContentsRoles(history: seq<Entry>, system: string)
    requires |history| > 0 && history[0].role == User
    ensures var r := Contents(history, system);
      && |r| == |history|
      && (forall k :: 0 <= k < |r| ==> r[k].role == history[k].role)
      && (forall k :: 1 <= k < |r| ==> r[k] == history[k])
      && (history[|history| - 1].role == User ==> r[|r| - 1].role == User)
  {
  }

  /** With the question `a` unanswered and `b` pending, the request as written
      ends with `b` labelled as the model's, and holds no user turn after the
      opening. */
  lemma SecondQuestionMislabelled(system: string)
    ensures var h := [Entry(User, "a"), Entry(User, "b")];
      && ContentsAsWritten(h, "b", system) == [Opening(system, "a"), Entry(Model, "b")]
      && Contents(h, system) == [Opening(system, "a"), Entry(User, "b")]
  {
  }

  /** While every question got its answer the two agree. */
  lemma AsWrittenAgrees(history: seq<Entry>, system: string)
    requires |history| > 0
    requires forall k :: 0 <= k < |history| ==> history[k].role == (if k % 2 == 0 then User else Model)
    requires forall k :: 0 <= k < |history| ==> history[k].text != []
    ensures ContentsAsWritten(history, history[|history| - 1].text, system) == Contents(history, system)
  {
  }

  // ---------------------------------------------------------------- bot messages

  /** `formatBotMessage(text)`: bold, `-`/`•` items, item runs wrapped in `<ul>`,
      then every line break turned into `<br>` (blank lines giving two). */
  function FormatBotMessage(text: string): string {
    if text == [] then []
    else
      var items := Inline.WrapLists(Inline.MapLines(Inline.Bold(text), Inline.BotListItem));
      ReplaceChar(ReplaceAll(items, "\n\n", "<br><br>"), '\n', "<br>")
  }

  /** The message holds no `\n`; a `\r`, U+2028 or U+2029 is not touched by
      the two passes. */
  lemma FormatNoLineBreak(text: string)
    ensures '\n' !in FormatBotMessage(text)
  {
    if text != [] {
      var items := Inline.WrapLists(Inline.MapLines(Inline.Bold(text), Inline.BotListItem));
      ReplaceCharRemoves(ReplaceAll(items, "\n\n", "<br><br>"), '\n', "<br>");
    }
  }

  lemma {:induction false} ReplaceCharRemoves(s: string, c: char, rep: string)
    requires c !in rep
    ensures c !in ReplaceChar(s, c, rep)
  {
    if s != [] {
      ReplaceCharRemoves(s[1..], c, rep);
    }
  }

  /** The blank-line pass is subsumed by the line-break pass: each line break
      becomes exactly one `<br>`. */
  lemma {:induction false} LineBreaks(s: string)
    ensures ReplaceChar(ReplaceAll(s, "\n\n", "<br><br>"), '\n', "<br>") == ReplaceChar(s, '\n', "<br>")
    decreases |s|
  {
    if s != [] {
      if StartsWith(s, "\n\n") {
        LineBreaks(s[2..]);
        BreakPair(ReplaceAll(s[2..], "\n\n", "<br><br>"));
        assert s == "\n\n" + s[2..];
        BreakPairSource(s[2..]);
      } else {
        LineBreaks(s[1..]);
        ReplaceCharConcat([s[0]], ReplaceAll(s[1..], "\n\n", "<br><br>"), '\n', "<br>");
        assert s == [s[0]] + s[1..];
        ReplaceCharConcat([s[0]], s[1..], '\n', "<br>");
      }
    }
  }

  lemma BreakPair(t: string)
    ensures ReplaceChar("<br><br>" + t, '\n', "<br>") == "<br><br>" + ReplaceChar(t, '\n', "<br>")
  {
    ReplaceCharConcat("<br><br>", t, '\n', "<br>");
    ReplaceCharAbsent("<br><br>", '\n', "<br>");
  }

  lemma BreakPairSource(t: string)
    ensures ReplaceChar("\n\n" + t, '\n', "<br>") == "<br><br>" + ReplaceChar(t, '\n', "<br>")
  {
    ReplaceCharConcat("\n\n", t, '\n', "<br>");
    assert "\n\n" == "\n" + "\n";
    ReplaceCharConcat("\n", "\n", '\n', "<br>");
    ReplaceCharSingle('\n', '\n', "<br>");
  }

  /** A text with no markup character and no line break is shown as it is. */
  lemma FormatPlain(text: string)
    requires '*' !in text && '-' !in text && '•' !in text && '<' !in text && '\n' !in text
    ensures FormatBotMessage(text) == text
  {
    if text != [] {
      Inline.BoldNoMarker(text);
      Inline.MapLinesNoMarker(text, Inline.BotListItem);
      Inline.WrapListsNoTag(text);
      Inline.NoPatternWithoutItsFirst(text, "\n\n");
      ReplaceAllAbsent(text, "\n\n", "<br><br>");
      ReplaceCharAbsent(text, '\n', "<br>");
    }
  }
}
