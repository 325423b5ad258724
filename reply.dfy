/** What happens to the reply of the automatic comparison: the `{…}` part is
    extracted and parsed, and the verdict it names is shown as a badge. */
module Reply {
  import opened Text
  import opened JsValues
  import opened Escape
  import opened Plain

  /** The last index before `j` holding `c`, or -1. */
  function LastIndex(s: string, c: char, j: nat): (r: int)
    requires j <= |s|
    ensures -1 <= r < j && (r >= 0 ==> s[r] == c)
    ensures forall k :: r < k < j ==> s[k] != c
    decreases j
  {
    if j == 0 then -1 else if s[j - 1] == c then j - 1 else LastIndex(s, c, j - 1)
  }

  /** `text.match(/\{[\s\S]*\}/)`: from the first `{` to the last `}`, when that
      `}` comes after the `{`. */
  function ExtractJson(reply: string): Option<string> {
    var i := NextIndex(reply, '{', 0);
    var j := LastIndex(reply, '}', |reply|);
    if i < j then Some(reply[i..j + 1]) else None
  }

  /** The match is the longest one starting at the first `{`: it opens with `{`,
      closes with `}`, and the reply has no `{` before it and no `}` after it.
      There is no match exactly when no `{` comes before a `}`. */
  lemma ExtractJsonSpec(reply: string)
    ensures ExtractJson(reply).Some? ==>
      var m := ExtractJson(reply).value;
      && |m| >= 2 && m[0] == '{' && m[|m| - 1] == '}'
      && exists i :: 0 <= i && i + |m| <= |reply| && reply[i..i + |m|] == m && '{' !in reply[..i] && '}' !in reply[i + |m|..]
    ensures ExtractJson(reply).None? <==> forall p, q :: 0 <= p < q < |reply| && reply[p] == '{' ==> reply[q] != '}'
  {
    var i := NextIndex(reply, '{', 0);
    var j := LastIndex(reply, '}', |reply|);
    if i < j {
      var m := reply[i..j + 1];
      assert reply[i..i + |m|] == m;
      var before, after := reply[..i], reply[j + 1..];
      forall k | 0 <= k < |before|
        ensures before[k] != '{'
      {
        assert before[k] == reply[k];
      }
      forall k | 0 <= k < |after|
        ensures after[k] != '}'
      {
        assert after[k] == reply[j + 1 + k];
      }
      assert reply[i] == '{' && reply[j] == '}';
    }
  }

  /** What the reply leads to: a verdict and its explanation, or the error badge
      (no match, or `JSON.parse`, given as `parse`, throws). */
  datatype Outcome = Failed | Verdict(verdict: Json, explication: Json)

  function Analyse(reply: string, parse: string -> Option<Json>): Outcome {
    match ExtractJson(reply)
    case None => Failed
    case Some(m) =>
      match parse(m)
      case None => Failed
      case Some(result) =>
        // reading a property of `null` throws, and the error badge is shown
        if result.Null? || result.Undef? then Failed
        else Verdict(Get(result, "verdict"), Get(result, "explication"))
  }

  /** A reply without `{…}` never reaches the parser and shows the error badge;
      otherwise the parser sees exactly the extracted text, and an object it
      returns gives its `verdict` and `explication`. */
  lemma AnalyseSpec(reply: string, parse: string -> Option<Json>)
    ensures ExtractJson(reply).None? ==> Analyse(reply, parse) == Failed
    ensures Analyse(reply, parse).Verdict? ==> ExtractJson(reply).Some? && parse(ExtractJson(reply).value).Some?
    ensures ExtractJson(reply).Some? && parse(ExtractJson(reply).value).Some? ==>
              var result := parse(ExtractJson(reply).value).value;
              Analyse(reply, parse) == if result.Null? || result.Undef? then Failed
                                       else Verdict(Get(result, "verdict"), Get(result, "explication"))
  {
  }

  // ---------------------------------------------------------------- verdict badge

  /** The badge: label, CSS class, and the escaped explanation if any. */
  datatype Badge = Badge(name: string, css: string, detail: Option<string>) | ErrorBadge

  /** The own entries of `VERDICTS`. */
  function KnownVerdict(key: string): Option<(string, string)> {
    if key == "plus_favorable" then Some(("Plus favorable", "verdict--plus"))
    else if key == "identique" then Some(("Identique", "verdict--identique"))
    else if key == "moins_favorable" then Some(("Moins favorable", "verdict--moins"))
    else None
  }

  const Unknown: string := "Non d\U{00E9}termin\U{00E9}"

  /** `explication ? <escaped> : ''`; escaping a value that is neither falsy nor
      a string throws (it has no `replace`), which the caller turns into the
      error badge. */
  function Detail(explication: Json): Option<Option<string>> {
    if !Truthy(explication) then Some(None)
    else if explication.Str? then Some(Some(EscapeHtml(explication.s)))
    else None
  }

  /** The properties every object literal inherits from `Object.prototype`. */
  predicate PrototypeKey(key: string) {
    key in {"constructor", "hasOwnProperty", "isPrototypeOf", "propertyIsEnumerable", "toString",
            "valueOf", "toLocaleString", "__proto__", "__defineGetter__", "__defineSetter__",
            "__lookupGetter__", "__lookupSetter__"}
  }

  /** `displayVerdict` as written: `VERDICTS[verdict]` also finds the inherited
      properties, whose `label` and `css` read as `undefined`. */
  function DisplayVerdictAsWritten(verdict: Json, explication: Json): Badge {
    var key := Interp(verdict);
    match Detail(explication)
    case None => ErrorBadge
    case Some(detail) =>
      match KnownVerdict(key)
      case Some(v) => Badge(v.0, v.1, detail)
      case None =>
        if PrototypeKey(key) then Badge("undefined", "undefined", detail)
        else Badge(Unknown, "verdict--unknown", detail)
  }

  /** `displayVerdict` with the lookup restricted to the table's own entries. */
  function DisplayVerdict(verdict: Json, explication: Json): Badge {
    match Detail(explication)
    case None => ErrorBadge
    case Some(detail) =>
      match KnownVerdict(Interp(verdict))
      case Some(v) => Badge(v.0, v.1, detail)
      case None => Badge(Unknown, "verdict--unknown", detail)
  }

  /** A reply naming an inherited property, such as `{"verdict": "toString"}`, is
      labelled `undefined` instead of `Non déterminé`. */
  lemma PrototypeVerdict()
    ensures DisplayVerdictAsWritten(Str("toString"), Undef) == Badge("undefined", "undefined", None)
    ensures DisplayVerdict(Str("toString"), Undef) == Badge(Unknown, "verdict--unknown", None)
  {
    assert PrototypeKey("toString");
  }

  /** The two agree on every value that is not the name of an inherited
      property. */
  lemma AsWrittenAgrees(verdict: Json, explication: Json)
    requires !PrototypeKey(Interp(verdict))
    ensures DisplayVerdictAsWritten(verdict, explication) == DisplayVerdict(verdict, explication)
  {
  }

  /** A truthy explanation that is not a string cannot be escaped (it has no
      `replace`); the throw is caught and the error badge shown, whatever the
      verdict. */
  lemma VerdictError(verdict: Json, explication: Json)
    requires Truthy(explication) && !explication.Str?
    ensures DisplayVerdict(verdict, explication) == ErrorBadge
    ensures DisplayVerdictAsWritten(verdict, explication) == ErrorBadge
  {
  }

  /** Each of the three verdicts gets its own label, anything else `Non
      déterminé`; the explanation is shown, escaped, exactly when it is truthy. */
  lemma VerdictLabels(verdict: Json, explication: Json)
    requires Truthy(explication) ==> explication.Str?
    ensures DisplayVerdict(verdict, explication).Badge?
    ensures var b := DisplayVerdict(verdict, explication);
      && (b.name == "Plus favorable" <==> Interp(verdict) == "plus_favorable")
      && (b.name == "Identique" <==> Interp(verdict) == "identique")
      && (b.name == "Moins favorable" <==> Interp(verdict) == "moins_favorable")
      && (b.name == Unknown <==> KnownVerdict(Interp(verdict)).None?)
      && (b.detail.Some? <==> Truthy(explication))
      && (b.detail.Some? ==> '<' !in b.detail.value && Unescape(b.detail.value) == explication.s)
  {
    if explication.Str? {
      EscapeHtmlSafe(explication.s);
      EscapeRoundTrip(explication.s);
    }
  }

  /** The verdict area after an analysis: the badge, or the error badge. */
  function VerdictArea(reply: string, parse: string -> Option<Json>): Badge {
    match Analyse(reply, parse)
    case Failed => ErrorBadge
    case Verdict(v, e) => DisplayVerdict(v, e)
  }
}