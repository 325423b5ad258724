/** The prompt of the automatic comparison of a section with the legal default
    (`requestGeminiComparison`): the items of the section as plain text, then the
    summary and details of the law, then fixed instructions. */
module Prompt {
  import opened Text
  import opened JsValues
  import opened Plain
  import opened Sections

  /** The text of an item as the prompt gives it: tags replaced, whitespace
      collapsed (not trimmed), cut at 3000 characters with `...`. */
  function PromptText(texte: string): string {
    Truncate(CollapseWs(StripTags(texte)), 3000, "...")
  }

  /** What one item adds to `conventionText`. */
  function PromptItem(c: Card): string {
    (if c.theme != [] then "[" + c.theme + "] " else []) + (if c.texte != [] then PromptText(c.texte) + "\n" else [])
  }

  /** `conventionText` after the loop over `srcItems`. */
  function ConventionText(cards: seq<Card>): string {
    if cards == [] then [] else PromptItem(cards[0]) + ConventionText(cards[1..])
  }

  method BuildConventionText(cards: seq<Card>) returns (text: string)
    ensures text == ConventionText(cards)
  {
    text := "";
    for i := 0 to |cards|
      invariant text + ConventionText(cards[i..]) == ConventionText(cards)
    {
      var c := cards[i];
      var piece := "";
      if c.theme != [] {
        piece := "[" + c.theme + "] ";
      }
      if c.texte != [] {
        var t := CollapseWs(StripTags(c.texte));
        if |t| > 3000 {
          t := t[..3000] + "...";
        }
        piece := piece + (t + "\n");
      }
      ConventionStep(text, cards, i);
      text := text + piece;
    }
    assert cards[|cards|..] == [];
  }

  lemma ConventionStep(done: string, cards: seq<Card>, i: nat)
    requires i < |cards|
    ensures (done + PromptItem(cards[i])) + ConventionText(cards[i + 1..]) == done + ConventionText(cards[i..])
  {
    assert cards[i..][1..] == cards[i + 1..];
  }

  /** An item's text in the prompt never exceeds 3003 characters, and one that
      was not cut has single spaces for whitespace. */
  lemma PromptTextCapped(texte: string)
    ensures |PromptText(texte)| <= 3003
    ensures |CollapseWs(StripTags(texte))| <= 3000 ==> Collapsed(PromptText(texte))
  {
    TruncateSpec(CollapseWs(StripTags(texte)), 3000, "...");
    CollapseWsCollapsed(StripTags(texte));
  }

  /** The convention part of the prompt is empty, and the fallback sentence used,
      exactly when no item has a theme or a text. */
  lemma {:induction false} ConventionTextEmpty(cards: seq<Card>)
    ensures ConventionText(cards) == [] <==> forall k :: 0 <= k < |cards| ==> cards[k].theme == [] && cards[k].texte == []
  {
    if cards != [] {
      ConventionTextEmpty(cards[1..]);
      var c := cards[0];
      if c.texte != [] {
        assert |PromptText(c.texte) + "\n"| > 0;
      }
      assert forall k :: 1 <= k < |cards| ==> cards[k] == cards[1..][k - 1];
    }
  }

  /** `parts.join('\n')`, the empty list giving the empty string. */
  function JoinLines(lines: seq<string>): string {
    if lines == [] then [] else if |lines| == 1 then lines[0] else lines[0] + "\n" + JoinLines(lines[1..])
  }

  /** `- ${d.critere} : ${d.valeur} (${d.reference})` */
  function DetailLine(d: Json): string {
    "- " + Interp(Get(d, "critere")) + " : " + Interp(Get(d, "valeur")) + " (" + Interp(Get(d, "reference")) + ")"
  }

  /** The detail lines of the prompt; only an array has them. */
  function DetailLines(details: Json): string {
    if details.Arr? then JoinLines(seq(|details.elems|, k requires 0 <= k < |details.elems| => DetailLine(details.elems[k]))) else []
  }

  const Fallback: string := "Absence de disposition conventionnelle specifique."

  /** The prompt of `requestGeminiComparison` for a section labelled `sectionLabel`. */
  function Prompt(sectionLabel: string, conventionText: string, entry: Json): string {
    "Tu es un expert en droit du travail francais. Compare la disposition conventionnelle suivante avec le droit legal (Code du travail).\n\n## Section : "
    + sectionLabel
    + "\n\n### Convention collective :\n"
    + (if conventionText != [] then conventionText else Fallback)
    + "\n\n### Code du travail (defaut legal) :\n"
    + Interp(Get(entry, "resume"))
    + "\n"
    + DetailLines(Get(entry, "details"))
    + "\n\n## Consigne :\n"
    + "1. Determine si la convention est PLUS FAVORABLE, IDENTIQUE, ou MOINS FAVORABLE que le minimum legal pour le salarie.\n"
    + "2. Prends en compte les montants, durees, conditions et exceptions.\n"
    + "3. Si la convention est plus favorable sur certains points et moins sur d'autres, donne un verdict global et explique les nuances.\n"
    + "4. Reponds avec un JSON strict :\n{\n  \"verdict\": \"plus_favorable\" | \"identique\" | \"moins_favorable\",\n  \"explication\": \"Explication courte (2-4 phrases max)\"\n}\n\n"
    + "IMPORTANT : Ne reponds QUE avec le JSON, sans aucun texte avant ou apres, sans bloc markdown."
  }

  /** With values free of line breaks, the detail part of the prompt holds one
      line per entry of `details`, in order. */
  lemma DetailLinesSplit(details: Json)
    requires details.Arr? && details.elems != []
    requires forall k :: 0 <= k < |details.elems| ==> '\n' !in DetailLine(details.elems[k])
    ensures |Split(DetailLines(details), '\n')| == |details.elems|
    ensures forall k :: 0 <= k < |details.elems| ==> Split(DetailLines(details), '\n')[k] == DetailLine(details.elems[k])
  {
    var lines := seq(|details.elems|, k requires 0 <= k < |details.elems| => DetailLine(details.elems[k]));
    JoinLinesSplit(lines);
  }

  /** The detail lines are one line per entry, in order: joined with line
      breaks, each holding its entry's three values. */
  lemma {:induction false} JoinLinesSplit(lines: seq<string>)
    requires forall k :: 0 <= k < |lines| ==> '\n' !in lines[k]
    ensures lines != [] ==> Split(JoinLines(lines), '\n') == lines
  {
    if |lines| > 1 {
      JoinLinesSplit(lines[1..]);
      SplitFirst(lines[0], '\n', JoinLines(lines[1..]));
    } else if |lines| == 1 {
      SplitNoSeparator(lines[0], '\n');
    }
  }
}
