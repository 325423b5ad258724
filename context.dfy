/** The text the chat assistant sends about the open convention
    (`buildConventionContext` in js/chatbot.js) and the instructions around it.
    The convention's raw extraction is preferred to the cleaned data; for each
    group of the menu, every treated section contributes a heading and its
    `contenu` items, each text cut at 2000 characters. */
module Context {
  import opened Text
  import opened JsValues
  import opened Config
  import opened Plain
  import Sections

  /** What replaces the end of a text longer than 2000 characters. */
  const Marker := "... [tronqu\U{00E9}]"

  /** `if (item.theme) groupContent += `**${item.theme}**\n`` */
  function ThemeLine(item: Json): string {
    var theme := Get(item, "theme");
    if Truthy(theme) then "**" + Interp(theme) + "**\n" else []
  }

  /** `if (item.texte) …`: a string is cut at 2000 characters, anything else is
      inserted as a template literal shows it. */
  function TexteLine(item: Json): string {
    var texte := Get(item, "texte");
    if !Truthy(texte) then []
    else if texte.Str? then Truncate(texte.s, 2000, Marker) + "\n"
    else Interp(texte) + "\n"
  }

  function ItemText(item: Json): string {
    ThemeLine(item) + TexteLine(item)
  }

  /** The items of one section, in order. */
  function ItemsText(items: seq<Json>): string {
    if items == [] then [] else ItemText(items[0]) + ItemsText(items[1..])
  }

  /** `section && section.traite` */
  predicate Treated(data: Json, key: string) {
    var section := Get(data, key);
    Truthy(section) && Truthy(Get(section, "traite"))
  }

  function Heading(labels: map<string, string>, key: string): string {
    "\n### " + LabelOf(labels, key) + "\n"
  }

  /** What a treated section adds: its heading, then the items of `contenu`. */
  function SectionText(labels: map<string, string>, key: string, section: Json): string {
    Heading(labels, key) + ItemsText(Entries(Get(section, "contenu")))
  }

  /** `groupContent`: the treated sections among `children`, in order. */
  function GroupContent(labels: map<string, string>, children: seq<string>, data: Json): string {
    if children == [] then []
    else
      (if Treated(data, children[0]) then SectionText(labels, children[0], Get(data, children[0])) else [])
      + GroupContent(labels, children[1..], data)
  }

  /** A group is listed under its name only when it has content. */
  function GroupBlock(labels: map<string, string>, group: Group, data: Json): string {
    var content := GroupContent(labels, group.children, data);
    if content != [] then "## " + group.name + "\n" + content + "\n" else []
  }

  function Body(labels: map<string, string>, groups: seq<Group>, data: Json): string {
    if groups == [] then [] else GroupBlock(labels, groups[0], data) + Body(labels, groups[1..], data)
  }

  /** The name (`Convention` when missing), the IDCC when there is one, and which
      version of the data follows. */
  function Header(meta: Json, raw: bool): string {
    var nom := Get(meta, "nom");
    var idcc := Get(meta, "idcc");
    "Convention Collective : " + (if Truthy(nom) then Interp(nom) else "Convention")
    + (if Truthy(idcc) then " (IDCC " + Interp(idcc) + ")" else [])
    + "\nSource : version " + (if raw then "brute (extraction originale)" else "nettoy\U{00E9}e") + "\n\n"
  }

  /** `buildConventionContext()` over the raw data `brut`, the cleaned data
      `clean` and the metadata `meta`. */
  function ConventionContext(brut: Json, clean: Json, meta: Json): string {
    var source := if Truthy(brut) then brut else clean;
    if Truthy(source) then Header(meta, Truthy(brut)) + Body(Labels, Menu, source) else []
  }

  // ---------------------------------------------------------------- the loops

  method RenderItems(items: seq<Json>) returns (text: string)
    ensures text == ItemsText(items)
  {
    text := [];
    for i := 0 to |items|
      invariant text + ItemsText(items[i..]) == ItemsText(items)
    {
      var piece := ThemeLine(items[i]);
      piece := piece + TexteLine(items[i]);
      ItemsStep(text, items, i);
      text := text + piece;
    }
    assert items[|items|..] == [];
  }

  lemma ItemsStep(done: string, items: seq<Json>, i: nat)
    requires i < |items|
    ensures (done + ItemText(items[i])) + ItemsText(items[i + 1..]) == done + ItemsText(items[i..])
  {
    assert items[i..][1..] == items[i + 1..];
  }

  method RenderGroup(labels: map<string, string>, group: Group, data: Json) returns (block: string)
    ensures block == GroupBlock(labels, group, data)
  {
    var content := [];
    var children := group.children;
    for i := 0 to |children|
      invariant content + GroupContent(labels, children[i..], data) == GroupContent(labels, children, data)
    {
      var piece := [];
      if Treated(data, children[i]) {
        var section := Get(data, children[i]);
        piece := RenderItems(Entries(Get(section, "contenu")));
        piece := Heading(labels, children[i]) + piece;
      }
      GroupStep(labels, content, children, data, i);
      content := content + piece;
    }
    assert children[|children|..] == [];
    block := [];
    if content != [] {
      block := "## " + group.name + "\n" + content + "\n";
    }
  }

  lemma GroupStep(labels: map<string, string>, done: string, children: seq<string>, data: Json, i: nat)
    requires i < |children|
    ensures (done + (if Treated(data, children[i]) then SectionText(labels, children[i], Get(data, children[i])) else []))
            + GroupContent(labels, children[i + 1..], data) == done + GroupContent(labels, children[i..], data)
  {
    assert children[i..][1..] == children[i + 1..];
  }

  method RenderBody(labels: map<string, string>, groups: seq<Group>, data: Json) returns (body: string)
    ensures body == Body(labels, groups, data)
  {
    body := [];
    for i := 0 to |groups|
      invariant body + Body(labels, groups[i..], data) == Body(labels, groups, data)
    {
      var piece := RenderGroup(labels, groups[i], data);
      BodyStep(labels, body, groups, data, i);
      body := body + piece;
    }
    assert groups[|groups|..] == [];
  }

  lemma BodyStep(labels: map<string, string>, done: string, groups: seq<Group>, data: Json, i: nat)
    requires i < |groups|
    ensures (done + GroupBlock(labels, groups[i], data)) + Body(labels, groups[i + 1..], data) == done + Body(labels, groups[i..], data)
  {
    assert groups[i..][1..] == groups[i + 1..];
  }

  method BuildConventionContext(brut: Json, clean: Json, meta: Json) returns (context: string)
    ensures context == ConventionContext(brut, clean, meta)
  {
    var source := if Truthy(brut) then brut else clean;
    if !Truthy(source) {
      return [];
    }
    context := Header(meta, Truthy(brut));
    var body := RenderBody(Labels, Menu, source);
    context := context + body;
  }

  // ---------------------------------------------------------------- properties

  /** There is a context exactly when one of the two versions of the data is
      present, and it then opens with the convention's name. */
  lemma ContextEmpty(brut: Json, clean: Json, meta: Json)
    ensures ConventionContext(brut, clean, meta) == [] <==> !Truthy(brut) && !Truthy(clean)
    ensures Truthy(brut) || Truthy(clean) ==> StartsWith(ConventionContext(brut, clean, meta), "Convention Collective : ")
  {
    if Truthy(brut) || Truthy(clean) {
      var source := if Truthy(brut) then brut else clean;
      HeaderOpens(meta, Truthy(brut), Body(Labels, Menu, source));
    }
  }

  lemma HeaderOpens(meta: Json, raw: bool, body: string)
    ensures StartsWith(Header(meta, raw) + body, "Convention Collective : ")
  {
    var h := Header(meta, raw);
    assert (h + body)[..|"Convention Collective : "|] == h[..|"Convention Collective : "|];
  }

  /** With the raw data present the cleaned data is never read. */
  lemma PrefersRaw(brut: Json, clean1: Json, clean2: Json, meta: Json)
    requires Truthy(brut)
    ensures ConventionContext(brut, clean1, meta) == ConventionContext(brut, clean2, meta)
  {
  }

  /** A group has content exactly when one of its sections is present and
      treated: a treated section always adds its heading, even with no item. */
  lemma {:induction false} GroupContentEmpty(labels: map<string, string>, children: seq<string>, data: Json)
    ensures GroupContent(labels, children, data) == [] <==> forall k :: k in children ==> !Treated(data, k)
  {
    if children != [] {
      GroupContentEmpty(labels, children[1..], data);
      assert forall k :: k in children <==> k == children[0] || k in children[1..];
    }
  }

  /** So a group's name appears exactly when one of its sections is treated. */
  lemma GroupShown(labels: map<string, string>, group: Group, data: Json)
    ensures GroupBlock(labels, group, data) != [] <==> exists k :: k in group.children && Treated(data, k)
  {
    GroupContentEmpty(labels, group.children, data);
  }

  /** The heading of every treated section of a group is in the group's content. */
  lemma {:induction false} GroupListsTreated(labels: map<string, string>, children: seq<string>, data: Json, k: string)
    requires k in children && Treated(data, k)
    ensures Contains(GroupContent(labels, children, data), Heading(labels, k))
  {
    var first := if Treated(data, children[0]) then SectionText(labels, children[0], Get(data, children[0])) else [];
    var rest := GroupContent(labels, children[1..], data);
    if children[0] == k {
      var s := SectionText(labels, k, Get(data, k));
      assert OccursAt(s, Heading(labels, k), 0);
      ContainsLeft(s, rest, Heading(labels, k));
    } else {
      GroupListsTreated(labels, children[1..], data, k);
      ContainsRight(first, rest, Heading(labels, k));
    }
  }

  lemma {:induction false} BodyListsTreated(labels: map<string, string>, groups: seq<Group>, data: Json, g: nat, k: string)
    requires g < |groups| && k in groups[g].children && Treated(data, k)
    ensures Contains(Body(labels, groups, data), Heading(labels, k))
  {
    var rest := Body(labels, groups[1..], data);
    if g == 0 {
      var content := GroupContent(labels, groups[0].children, data);
      GroupListsTreated(labels, groups[0].children, data, k);
      ContainsRight("## " + groups[0].name + "\n", content, Heading(labels, k));
      ContainsLeft("## " + groups[0].name + "\n" + content, "\n", Heading(labels, k));
      ContainsLeft(GroupBlock(labels, groups[0], data), rest, Heading(labels, k));
    } else {
      BodyListsTreated(labels, groups[1..], data, g - 1, k);
      ContainsRight(GroupBlock(labels, groups[0], data), rest, Heading(labels, k));
    }
  }

  /** Every treated section of the menu is listed in the context under its
      label. */
  lemma ContextListsTreated(brut: Json, clean: Json, meta: Json, g: nat, k: string)
    requires g < |Menu| && k in Menu[g].children
    requires Treated(if Truthy(brut) then brut else clean, k)
    ensures Contains(ConventionContext(brut, clean, meta), Heading(Labels, k))
  {
    var source := if Truthy(brut) then brut else clean;
    BodyListsTreated(Labels, Menu, source, g, k);
    ContainsRight(Header(meta, Truthy(brut)), Body(Labels, Menu, source), Heading(Labels, k));
  }

  /** A string text reaches the context whole up to 2000 characters; a longer one
      keeps exactly its first 2000 characters, followed by the marker. */
  lemma TexteLineCut(item: Json)
    requires Get(item, "texte").Str? && Get(item, "texte").s != []
    ensures var s, line := Get(item, "texte").s, TexteLine(item);
      && (|s| <= 2000 ==> line == s + "\n")
      && (|s| > 2000 ==> line == s[..2000] + Marker + "\n")
      && |line| <= 2000 + |Marker| + 1
  {
    TruncateSpec(Get(item, "texte").s, 2000, Marker);
  }

  /** Only `contenu` is read: a treated section that keeps its texts in subkeys,
      which the convention page shows as cards, appears in the context as a bare
      heading. */
  lemma SubkeyTextsOmitted(labels: map<string, string>, key: string)
    ensures Sections.SectionCards(SubkeySection()) == [Sections.Card("prime", "x")]
    ensures SectionText(labels, key, SubkeySection()) == Heading(labels, key)
  {
    SubkeyCards();
  }

  /** A treated section holding its one text under the subkey `prime`. */
  function SubkeySection(): Json {
    Obj([("traite", Bool(true)), ("prime", Obj([("texte", Str("x"))]))])
  }

  lemma SubkeyCards()
    ensures Sections.SectionCards(SubkeySection()) == [Sections.Card("prime", "x")]
  {
    var fields := Fields(SubkeySection());
    var prime := fields[1];
    assert Sections.WithText(Sections.Contenu(SubkeySection())) == [];
    assert Sections.SubCards(fields[1..]) == [Sections.Card("prime", "x")] by {
      assert Sections.IsSub(prime) && Sections.HasTexte(prime.1) by {
        assert Trim("x") == "x";
      }
      ReplaceCharAbsent("prime", '_', " ");
      assert Sections.SubCards(fields[2..]) == [];
    }
    assert Sections.SubCards(fields) == Sections.SubCards(fields[1..]) by {
      assert !Sections.IsSub(fields[0]);
    }
  }

  // ---------------------------------------------------------------- instructions

  /** The instructions of `callGemini`, ending with the convention's data. */
  const Instructions :=
    "Tu es un assistant expert en droit du travail fran\U{00E7}ais, sp\U{00E9}cialis\U{00E9} dans les conventions collectives.\n" +
    "\n" +
    "Tu r\U{00E9}ponds aux questions des utilisateurs en te basant UNIQUEMENT sur les donn\U{00E9}es de la convention collective fournie ci-dessous.\n" +
    "Ces donn\U{00E9}es proviennent de l'extraction brute de la convention collective (version non nettoy\U{00E9}e, la plus compl\U{00E8}te possible).\n" +
    "\n" +
    "## R\U{00E8}gles :\n" +
    "1. R\U{00E9}ponds toujours en fran\U{00E7}ais, de mani\U{00E8}re claire et p\U{00E9}dagogique\n" +
    "2. Cite les \U{00E9}l\U{00E9}ments pr\U{00E9}cis de la convention (montants, dur\U{00E9}es, conditions)\n" +
    "3. Si l'information n'est pas dans la convention, dis-le clairement\n" +
    "4. Structure ta r\U{00E9}ponse avec des listes \U{00E0} puces quand c'est pertinent\n" +
    "5. Sois concis mais complet (3-8 phrases max)\n" +
    "6. Ne donne jamais de conseil juridique, pr\U{00E9}cise que les informations proviennent de la convention\n" +
    "7. Utilise le gras (**texte**) pour les \U{00E9}l\U{00E9}ments importants\n" +
    "\n" +
    "## Donn\U{00E9}es de la convention :\n"

  function SystemPrompt(context: string): string {
    Instructions + context
  }
}
