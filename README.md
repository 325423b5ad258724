# Conventions collectives: a verified model of the page logic

The repository is a static site presenting French collective labour agreements
(*conventions collectives*). Each agreement is a JSON document of sections. The
browser scripts turn it into pages: a table of contents numbered `g.s`, section
cards rendered from a small markdown dialect, a side-by-side comparison with the
statutory default (*Code du travail*), an assistant that sends the agreement's
text to a language model, a full-text search, and a home page listing the
agreements.

This Dafny project models the logic behind those pages. Markdown conversion,
section selection and numbering, the comparison panel, prompts and replies, the
chat history and search state, and the home index are modelled. It then proves
what that logic promises.

JSON data is the `JsValues.Json` datatype. It includes `Undef` for a missing
property, and JavaScript truthiness and template-literal rendering are spelled
out. Strings are `seq<char>`. Every regular expression of the source is written
out as an explicit scanning function over the text. Behaviour the scripts borrow
from the platform is a function parameter:

- case folding,
- `localeCompare`,
- `toLowerCase`,
- diacritic stripping,
- `JSON.parse`,
- the answer of the remote model.

Where the scripts mutate state, the model does too:

- the page state of the convention page (`Convention.Page`),
- the open panels (`Compare.Panels`),
- the chat history (`Chat.Conversation`),
- the search marks and cursor (`Search.Page`),
- the home grid (`Home.Index`).

The loops that build a string or a list are methods, each proved equal to a
function that specifies it; properties of that function are then proved as
lemmas. This covers the markdown table and paragraph loops, the outline, the
article list, the section cards and their subkey items, the comparison columns,
the prompt, the assistant's context, the chat request and the search.

Some loops are modelled by their function alone:

- The section-block loop of `renderSections` (js/convention.js:377-395) and
  the printed table of contents (js/convention.js:503-524) repeat the
  numbering of the sidebar loop (js/convention.js:308-329). Their markup is
  reduced to `Outline.OutlineOf`, and the cards inside each block are
  `Sections.RenderSectionCards`.
- The subkey scan of `sectionHasContent` (js/convention.js:273-280) returns a
  boolean, given by `Sections.HasContent`.

Modules, one per file:

- `Text` (`text.dfy`) and `JsValues` (`json.dfy`) hold the string primitives and JSON values.
- `Escape` (`escape.dfy`) is `escapeHtml`.
- `Inline`, `Tables` and `Markdown` (`inline.dfy`, `tables.dfy`, `markdown.dfy`) are the markdown dialect of js/shared.js.
- `Config` (`config.dfy`) holds `MENU` and `LABELS`.
- `Sections` (`sections.dfy`) covers the two shapes of a section and the places that read them.
- `Outline` (`outline.dfy`) is the `g.s` numbering.
- `Articles` (`articles.dfy`) is the article list.
- `Convention` (`convention.dfy`) is the state of the convention page.
- `Plain` (`plain.dfy`) holds the tag, whitespace and length passes.
- `Compare` (`compare.dfy`) is the comparison panel.
- `Prompt` and `Reply` (`prompt.dfy`, `reply.dfy`) are the automatic comparison.
- `Context` (`context.dfy`) is the assistant's context text.
- `Chat` (`chat.dfy`) is the assistant's conversation.
- `Search` (`search.dfy`) is the full-text search.
- `Home` (`home.dfy`) is the home page.

Two behaviours of the code are worth stating plainly:

- The reply of the automatic comparison is cut greedily, from the first `{` to the last `}`. It is not found by matching braces.
- Ordinary markdown text is not escaped; only footnote bodies are.

## Model

| member | source | states |
|---|---|---|
| Escape.EscapeHtmlIsPerCharacter | js/shared.js:164-171 | The chain of four replacements equals escaping each character on its own. Because `&` goes first, no entity is escaped twice (`<` gives `&lt;`, never `&amp;lt;`). |
| Escape.EscapeHtmlSafe | js/shared.js:164-171 | The escaped text holds no `<`, `>` or `"`. An empty (falsy) text gives the empty string. |
| Escape.EscapeRoundTrip | js/shared.js:164-171 | Decoding the four entities gives the original text back, so escaping loses nothing. |
| Inline.NormalizeCrlfNoCr | js/shared.js:222 | A text without a carriage return passes the CRLF step unchanged. |
| Inline.CrlfGone | js/shared.js:222 | After the CRLF step no `\r\n` is left, as long as the text has no `\r\r` that a replacement could close up. |
| Inline.BoldRun | js/shared.js:230 | `**x**` becomes `<strong>x</strong>` when `x` is a non-empty single line without asterisks. The rest of the text is converted independently, so several runs per line are converted. |
| Inline.BoldNoMarker | js/shared.js:230 | A text without `*` is left unchanged by the bold pass. |
| Inline.BoldLineBreak | js/shared.js:230 | A bold run never spans a line terminator: converting `a⏎b` is converting `a` and `b` separately. |
| Inline.BoldOneLine | js/shared.js:230 | The bold pass adds no line break and never shortens a line. |
| Inline.MapLinesFirst | js/shared.js:233-238 | A multiline `^…$` rule rewrites the first line on its own and keeps the terminator after it. |
| Inline.MapLinesSingle | js/shared.js:233-238 | On a one-line text a line rule is applied to that line exactly. |
| Inline.MapLinesNoMarker | js/shared.js:233-238 | A text with no character that can start the rule's pattern is unchanged. |
| Inline.FootnoteLine | js/shared.js:233-235 | A line `* z` becomes `<div class="footnote">`, then `escapeHtml(z)`, then `</div>`. |
| Inline.FootnoteOfBold | js/shared.js:230-235 | Bold runs before footnotes, so the footnote body is the bold-converted text escaped. A `<strong>` inside it reaches the page as text. |
| Inline.WrapListsRun | js/shared.js:239 | A run of consecutive one-line `<li>` items is wrapped in a single `<ul>…</ul>`. The `<ul>` takes in the newline after each item. |
| Inline.WrapListsNoTag | js/shared.js:239 | A text without `<` holds no item and is unchanged. |
| Inline.ReplaceGapNoMatch | js/shared.js:269-275 | A cleanup replacement `A\s*B` with no match anywhere leaves the text unchanged. |
| Inline.EmptyParagraphRemoved | js/shared.js:269 | `<p>`, whitespace, `</p>` disappears entirely in the cleanup. |
| Tables.ParseMarkdownTables | js/shared.js:180-217 | The scanning loop with its callback produces exactly `TablePass(text)`. That is every maximal run of pipe lines replaced by its conversion, and every other character kept. |
| Tables.PiecesCover | js/shared.js:181-183 | The runs and characters the global replacement visits cover the text exactly, in order. The regex is not anchored, so a run may start mid-line. |
| Tables.TablePassNoBar | js/shared.js:181-183 | A text without `\|` is unchanged by the table pass. |
| Tables.NotATable | js/shared.js:184-190 | A block with fewer than two non-blank lines, or whose second line is not `\|`, whitespace or colons, then a dash, is returned unchanged. |
| Tables.ConvertTable | js/shared.js:184-215 | A block that passes both checks converts to the table whose header is the parsed first line. Its body is the lines from the third on, so the separator is skipped. |
| Tables.ConvertBlockLoop | js/shared.js:184-215 | The callback's checks and loops produce exactly `ConvertBlock(m)`: the table markup, or the match itself. |
| Tables.AppendCells | js/shared.js:197-202 | The cell loop gives one `<th>`/`<td>` per cell, in order, each with its bold runs converted. |
| Tables.AppendRows | js/shared.js:204-212 | The row loop gives one `<tr>` per body line, in order, holding that line's cells. |
| Tables.ParseCellsRoundTrip | js/shared.js:192-194 | A row written as `\|c1\|c2\|…\|` is read back into exactly its cells, when these are trimmed and contain no `\|`. |
| Markdown.Paragraphs | js/shared.js:242-264 | The paragraph loop ends with `result` equal to the specification `ParaAfter` after the last line. |
| Markdown.InBlockIsLastMark | js/shared.js:246-264 | `inBlock` holds exactly when the last line that opened or closed a block opened one (`<table`, `<ul`, `<div class="footnote`). |
| Markdown.OrdinaryLines | js/shared.js:257-262 | Non-blank lines that neither open nor close a block, outside a block, each end with `<br>`, and the flag stays false. |
| Markdown.BlankLine | js/shared.js:253-256 | A blank line emits `</p><p>` outside a block and nothing inside one. |
| Markdown.ParseMarkdown | js/shared.js:219-278 | `parseMarkdown` gives `Markdown(text)`: CRLF, the table pass unless a table tag is present, bold, footnotes, items, lists, paragraphs wrapped once in `<p>…</p>`, then cleanup. |
| Markdown.BlankText | js/shared.js:219-278 | An empty text converts to the empty string, and so does any text of blanks alone, over any number of lines. Each blank line emits `</p><p>`, and the cleanup removes every empty paragraph this leaves. |
| Markdown.PlainLine | js/shared.js:219-278 | One ordinary line becomes `<p>` + the line verbatim + `<br></p>`: plain text is not escaped. |
| Markdown.PlainPasses | js/shared.js:222-239 | The passes before the paragraph builder leave a line without markup characters unchanged. |
| Markdown.PlainCleanup | js/shared.js:269-275 | No cleanup rule fires on one paragraph of plain text. |
| Config.MenuLabelled | js/shared.js:7-62 | Every section key of `MENU` has its own entry in `LABELS`, so `LABELS[key] \|\| key` is that label. |
| Sections.CollectSubCards | js/comparateur.js:60-66 | The subkey loop gives `SubCards(fields)`: one item per non-reserved object property whose `texte` is not blank, in key order, themed by the key with `_` turned into spaces. The same loop appears at js/comparateur.js:231-237 and js/convention.js:421-430. |
| Sections.RenderSectionCards | js/convention.js:409-431 | The card loops of `renderSections` give `SectionCards(section)`: the blank-filtered `contenu`, or the subkey items when that list is empty. |
| Sections.WithTextSpec | js/convention.js:409 | The blank filter keeps exactly the items whose `texte` is non-blank, in their order. |
| Sections.WithTextEmpty | js/convention.js:265-269 | The filter leaves nothing exactly when `contenu.some(...)` finds no item with text. |
| Sections.SubCardsEmpty | js/convention.js:273-282 | The subkey loop of `sectionHasContent` succeeds exactly when there is a subkey item to draw or a subkey with articles. |
| Sections.HasContentIffCards | js/convention.js:261-283 | `sectionHasContent` holds exactly when the section is present and treated and the page has a card to draw, section articles, or subkey articles. |
| Sections.PanelVersusPage | js/comparateur.js:55-67 | The panel and the page draw the same items except when `contenu` is non-empty and all blank. The page then falls back to the subkeys and the panel shows nothing. |
| Sections.PromptVersusPanel | js/comparateur.js:226-238 | The prompt reads the panel's items plus the blank ones: dropping blank items from the prompt's list gives the panel's list. |
| Sections.VisibleSectionsSpec | js/convention.js:288-290 | The visible sections are exactly the group's keys whose section is present, treated and has content, as a subsequence in the group's order. |
| Outline.NumberSections | js/convention.js:325-329 | The inner loop numbers the visible keys `g.1`, `g.2`, … in order. |
| Outline.BuildOutline | js/convention.js:308-329 | The outer loop produces `OutlineOf(menu, data)`: groups without a visible section are skipped and do not advance `groupIdx`. |
| Outline.OutlineIsNumbered | js/convention.js:377-395 | The outline is the groups with a visible section, numbered by position from 1 without gaps. |
| Outline.NumberedSpec | js/convention.js:502-518 | Entry `i` is numbered `i + 1` and carries the label and visible sections of the `i`-th kept group. |
| Outline.NumberItemsSpec | js/convention.js:325-329 | Section `j` of a group is the group's `j`-th visible key, numbered `g.(j+1)`; section numbers restart in each group. |
| Outline.NonEmptyGroupsShown | js/convention.js:310-312 | Every group kept has at least one visible section. |
| Outline.NonEmptyGroupsSubsequence | js/convention.js:310-312 | The kept groups are groups of `MENU`, in menu order. |
| Outline.SecNumInjective | js/convention.js:329 | Two sections share a number `g.s` only when both the group and the position agree. |
| Articles.RenderArticles | js/convention.js:434-447 | The loop writes exactly `Block(section)`: the titled block, then one item per article, then the closing tags. |
| Articles.ItemsRead | js/convention.js:443-445 | The items hold two tags per entry, and cutting them at `<` gives back each entry's escaped text, in order. |
| Articles.OneItemPerEntry | js/convention.js:443-445 | There is exactly one `article-item` per entry of `articles`, holding that entry escaped. |
| Articles.BlockShown | js/convention.js:435-447 | The block is left out exactly when the section has no articles. Otherwise its title shows the article count. |
| Convention.Page.constructor | js/convention.js:637 | No section is active, no item is marked, and there is no print wrapper. |
| Convention.Page.SetActiveNavItem | js/convention.js:552-571 | The current id changes nothing. Otherwise it becomes active and its item, if it exists, is the only one marked. |
| Convention.Page.PreparePrint | js/convention.js:652-677 | A no-op while a wrapper exists or when `#app`/`#content-scroll` is missing. Otherwise the wrapper exists and `#app` is hidden. |
| Convention.Page.RestorePrint | js/convention.js:679-687 | A no-op without a wrapper. Otherwise the wrapper is gone and `#app` is shown again if present. |
| Convention.Page.PrintCycle | js/convention.js:639-646 | The print button's prepare-then-restore leaves the page as it found it. |
| Plain.StripTagsTagFree | js/comparateur.js:242 | After `replace(/<[^>]+>/g, ' ')` no match of the tag pattern remains. |
| Plain.StripTagsIdempotent | js/comparateur.js:242 | Replacing tags a second time changes nothing. |
| Plain.CollapseWsCollapsed | js/comparateur.js:242 | After `replace(/\s+/g, ' ')` every whitespace run is a single space. |
| Plain.CollapseWsIdempotent | js/comparateur.js:242 | Collapsing a second time changes nothing. |
| Plain.TruncateSpec | js/comparateur.js:243 | A text within the limit is kept. A longer one keeps exactly its first `n` characters and ends with the marker. The length is at most `n` plus the marker. |
| Compare.GateCases | js/comparateur.js:25-48 | No reference data, no entry for the key, or `comparable === false` each suppress both button and panel. A loaded comparable entry gets both. |
| Compare.ButtonIffPanel | js/comparateur.js:25-48 | The button is drawn exactly when the panel it toggles is, and for the same key. |
| Compare.RenderCard | js/comparateur.js:69-86 | One item adds its escaped theme if any, then its text body if any. |
| Compare.RenderConventionColumn | js/comparateur.js:69-89 | The item loop followed by the placeholder test produces `ConventionColumn(cards)`. |
| Compare.LongText | js/comparateur.js:76-84 | At most 1500 characters: markdown. Longer: one paragraph of the escaped plain version (tags replaced, whitespace collapsed, trimmed, cut at 1500 plus `...`). It holds no markup and reads back as that plain version. |
| Compare.SummaryEmpty | js/comparateur.js:69-89 | The summary is empty exactly when no item has a theme or a text. |
| Compare.PlaceholderIffNoItems | js/comparateur.js:54-89 | The placeholder is shown exactly when the section yields no item, including a `contenu` of blank items only. |
| Compare.LegalRows | js/comparateur.js:98-104 | The detail loop gives one row per entry, in order, each of the entry's escaped fields. |
| Compare.RowSafe | js/comparateur.js:98-104 | No field of a row carries `<`, and each reads back as the entry's text. |
| Compare.TableRows | js/comparateur.js:94-106 | There is one row per entry of `details`, and none (no table) when it is missing or empty. |
| Compare.RenderComparePanel | js/comparateur.js:45-150 | The panel drawn is `PanelOf(reference, key, section)`, absent exactly when the gate fails. |
| Compare.PanelShape | js/comparateur.js:45-118 | A drawn panel shows the placeholder exactly when there are no items. Its legal summary is markup-free and reads back as `resume`. It has one row per detail entry. The calc button appears exactly when `needs_calculation` is truthy. |
| Compare.Panels.constructor | js/comparateur.js:7 | Every panel is rendered hidden and `compareStates` is empty. |
| Compare.Panels.Toggle | js/comparateur.js:154-193 | A missing panel is ignored. Otherwise the panel flips: `compareStates[key]` becomes true when opening, false when closing, and every other key keeps its entry. |
| Compare.Panels.ToggleTwice | js/comparateur.js:154-193 | Opening and closing a panel leaves every panel as it was. |
| Prompt.BuildConventionText | js/comparateur.js:239-246 | The item loop produces `ConventionText(cards)`: the theme in brackets, then the plain text cut at 3000 characters plus `...`. |
| Prompt.PromptTextCapped | js/comparateur.js:242-243 | An item's text in the prompt is at most 3003 characters. One that was not cut has no whitespace run. |
| Prompt.ConventionTextEmpty | js/comparateur.js:239-254 | The convention part is empty, and the fallback sentence used, exactly when no item has a theme or a text. |
| Prompt.DetailLinesSplit | js/comparateur.js:258 | With values free of line breaks, the detail part holds one line `- critere : valeur (reference)` per entry, in order. |
| Reply.ExtractJsonSpec | js/comparateur.js:294 | The match opens with `{` and closes with `}`, with no `{` before it and no `}` after it. There is none exactly when no `{` precedes a `}`. |
| Reply.AnalyseSpec | js/comparateur.js:291-304 | A reply without `{…}` never reaches the parser and gives the error badge. A verdict comes only from a match the parser accepts. A parsed object other than `null` gives its `verdict` and `explication`. |
| Reply.PrototypeVerdict | js/comparateur.js:323-329 | As written, a verdict naming an inherited property (`toString`) is labelled `undefined`. The corrected lookup gives `Non déterminé`. |
| Reply.AsWrittenAgrees | js/comparateur.js:323-329 | The code as written and the corrected lookup agree on every verdict that is not an inherited property name. |
| Reply.VerdictError | js/comparateur.js:272-332 | A truthy explanation that is not a string makes the escaping throw. The throw is caught and the error badge is shown, both as written and corrected. |
| Reply.VerdictLabels | js/comparateur.js:319-334 | Each of the three verdicts gets its own label and anything else `Non déterminé`. The explanation is shown exactly when truthy, escaped and reading back as itself. |
| Chat.Conversation.constructor | js/chatbot.js:95-99 | The history is empty and the busy flag is clear. |
| Chat.Conversation.StartSend | js/chatbot.js:530-552 | An empty trimmed question, a pending request or a missing key changes nothing. Otherwise the trimmed question is appended as the user's and the flag set. |
| Chat.Conversation.FinishSend | js/chatbot.js:554-566 | A non-empty answer is appended as the model's. A failure, or an empty answer that `callGemini` rejects, appends nothing. The flag ends clear. |
| Chat.Conversation.Send | js/chatbot.js:530-566 | A whole exchange grows the history by the question and its answer, or by the question alone on failure, and the flag ends clear. |
| Chat.FailedFirstRequest | js/chatbot.js:547-566 | After a failed first request the next question is pending with two user entries in a row. |
| Chat.BuildContents | js/chatbot.js:635-652 | The loop builds `contents` exactly as `callGemini` writes it. |
| Chat.ContentsShape | js/chatbot.js:638-652 | As written: one entry per history entry, the opening is the user's, the second is always labelled the model's, the rest is the history verbatim. |
| Chat.SecondQuestionMislabelled | js/chatbot.js:643-647 | With `a` unanswered and `b` pending, the request as written sends `b` as the model's. The corrected one sends it as the user's. |
| Chat.ContentsRoles | js/chatbot.js:638-652 | Corrected: the roles of the request follow the history, so a pending question is sent as the user's. |
| Chat.AsWrittenAgrees | js/chatbot.js:638-652 | While every question got a non-empty answer, the code as written and the corrected request are the same. |
| Chat.FormatNoLineBreak | js/chatbot.js:515-526 | A formatted bot message holds no `\n`. A `\r`, U+2028 or U+2029 passes through unchanged. |
| Chat.LineBreaks | js/chatbot.js:523-524 | The blank-line pass is subsumed: each line break becomes exactly one `<br>`. |
| Chat.FormatPlain | js/chatbot.js:515-526 | A message with no markup character and no line break is shown as it is. |
| Context.RenderItems | js/chatbot.js:594-603 | The item loop produces `ItemsText(items)`: the bold theme line, then the text line. |
| Context.RenderGroup | js/chatbot.js:585-607 | The section loop produces the group block: nothing, or the group name followed by the treated sections. |
| Context.RenderBody | js/chatbot.js:584-608 | The group loop produces the body over `MENU` in order. |
| Context.BuildConventionContext | js/chatbot.js:570-611 | `buildConventionContext` produces `ConventionContext(brut, clean, meta)`. |
| Context.ContextEmpty | js/chatbot.js:572-581 | The context is empty exactly when neither the raw nor the cleaned data is present. Otherwise it opens with `Convention Collective : `. |
| Context.PrefersRaw | js/chatbot.js:572 | With the raw data present the cleaned data is never read. |
| Context.GroupContentEmpty | js/chatbot.js:585-604 | A group has content exactly when one of its sections is present and treated (even with no item). |
| Context.GroupShown | js/chatbot.js:605-607 | A group heading is emitted exactly when one of its sections is treated. |
| Context.ContextListsTreated | js/chatbot.js:584-608 | Every treated section of `MENU` appears in the context under its label. |
| Context.TexteLineCut | js/chatbot.js:596-602 | A text is kept whole up to 2000 characters. A longer one keeps its first 2000 followed by `... [tronqué]`. |
| Context.SubkeyTextsOmitted | js/chatbot.js:593-603 | Only `contenu` is read: a section whose texts sit in subkeys is shown with cards on the page but appears in the context as a bare heading. |
| Search.SplitParts | js/chatbot.js:202-216 | The split loop for one text node produces `Parts(text, q, fold)`. |
| Search.NextMatchSpec | js/chatbot.js:194-207 | `regex.exec` finds the first occurrence of the escaped query from `lastIndex` on, under the engine's case folding. |
| Search.PartsKeepText | js/chatbot.js:202-216 | The parts put together give back the node's text. |
| Search.PartsShape | js/chatbot.js:202-216 | Every marked part is an occurrence of the query. Every part shown as text is non-empty and holds no occurrence. |
| Search.HighlightIffMatch | js/chatbot.js:199-218 | The split of one node holds marks exactly when the query occurs in that node's text (`regex.test`). |
| Search.ViewsKeepText | js/chatbot.js:196-233 | Searching never changes the page's text: every node's rendering gives it back. |
| Search.PlainViewsKeepText | js/chatbot.js:272-286 | Clearing shows every node as its own text with no mark. |
| Search.AdvanceCycles | js/chatbot.js:258-260 | The cursor moves by ±1 cyclically within `[0, n)`, and a step back undoes a step forward. |
| Search.RenderViews | js/chatbot.js:196-235 | The node loop as intended: every node holding the query is split and all marks are counted. This is the corrected walk (see Findings). |
| Search.RenderViewsAsWritten | js/chatbot.js:196-233 | The node loop as written ends after the first node it splits, because `replaceChild` detaches the walker's current node. Later nodes stay plain, and only that node's marks are counted. |
| Search.WalkStopsAtFirstHit | js/chatbot.js:196-233 | As written, only the first node whose text holds the query is split. No node before it holds the query, and every other node stays plain. |
| Search.WalkMarks | js/chatbot.js:196-239 | As written, `searchHighlights.length` is the mark count of the first node holding the query, or 0 when none does. |
| Search.ViewsAt | js/chatbot.js:196-233 | In the intended walk, node `i` is shown split when its split holds marks and as its own text otherwise. |
| Search.EveryNodeMarked | js/chatbot.js:196-233 | In the intended walk, a node shows marks exactly when its text holds the query. |
| Search.AsWrittenAgrees | js/chatbot.js:196-233 | The walk as written and the intended walk agree exactly when no node after the first hit holds the query. |
| Search.WalkStopsEarly | js/chatbot.js:196-233 | For two paragraphs `ab` and the query `ab`, the walk as written counts 1 mark and the intended walk counts 2. |
| Search.Page.constructor | js/chatbot.js:103-104 | No mark, the cursor at -1, the page shown as its text. |
| Search.Page.Clear | js/chatbot.js:272-286 | Every node is shown as its text again, with no mark and the cursor at -1. |
| Search.Page.Navigate | js/chatbot.js:250-270 | A no-op without marks. Otherwise the cursor moves cyclically, only the new current mark stands out, and the counter shows its rank. |
| Search.Page.Perform | js/chatbot.js:174-248 | Previous marks are cleared. A query shorter than 2 after trimming hides the results line and leaves the counter text as it was. Otherwise every node holding the trimmed query is split, by the intended walk (as written only the first is; see Findings). Then either the first mark becomes current and the counter shows `1/n` (the count written first is overwritten by the navigation), or `Aucun résultat` is shown. |
| Search.Page.Mark | js/chatbot.js:196-247 | On a clean page, the intended walk splits the nodes holding the query, no mark is current yet, and the results line shows the count. |
| Home.ParseIntNumber | js/home.js:19-20 | `parseInt` reads an integer IDCC back as itself. |
| Home.ParseDigits | js/home.js:19-20 | A string IDCC made of digits reads as its decimal value. |
| Home.MissingIdcc | js/home.js:19-20 | A missing IDCC reads as no number (`parseInt(undefined)` is NaN) and gets the sort key 99999. |
| Home.CompareAntisymmetric | js/home.js:18-23 | The comparator is antisymmetric wherever the name comparison is. |
| Home.CompareTransitive | js/home.js:18-23 | The comparator is transitive wherever the name comparison is. |
| Home.SortedKeys | js/home.js:18-23 | In the sorted index keys never decrease, so conventions with a usable IDCC come first. |
| Home.TermsJoin | js/home.js:106 | The query's terms joined by spaces give the query with its whitespace runs collapsed. |
| Home.FilterSpec | js/home.js:108-113 | The filter keeps exactly the conventions in which every term occurs, as a subsequence of the index in its order. |
| Home.CounterIff | js/home.js:69-71 | The counter is empty exactly when every convention is shown. Otherwise it reads `shown / total`. |
| Home.Index.constructor | js/home.js:18-25 | Given the index sorted with the comparator, the page keeps that order (`Valid`), every convention is shown and the counter is empty. |
| Home.Index.RenderCards | js/home.js:40-73 | An empty list empties the grid, shows the no-results element and leaves the counter. Otherwise there is one card per convention, in order, with the counter. The index stays sorted. |
| Home.Index.OnSearch | js/home.js:99-116 | A blank query shows the whole index. Otherwise it shows exactly the filtered conventions. The index stays sorted. |

## Left out

- All DOM mutation is left out. Only the state the scripts keep or guard is modelled: `innerHTML` strings that merely decorate, `classList`, `scrollIntoView`, node replacement in the search, `container.normalize()` and the clone made for printing.
- The markup of the sidebar, of the section blocks and of the printed table of contents is reduced to the outline data (numbers, labels, keys). The markup of a comparison panel is reduced to its two columns, its rows and its button flag.
- Opening a comparison panel hides and shows the section's cards and articles. The model keeps only the panel's own state.
- `setActiveNavItem` opening the item's parent group is left out.
- All `fetch` calls, JSON loading and the remote model's HTTP exchange are left out. The loaded data, the model's answer (or its failure) and the reply text are parameters.
- `JSON.parse` of the reply is the parameter `parse`.
- `ensureApiKey`, `promptApiKey` and the key storage are the boolean `keyReady`.
- Timers, debouncing, async ordering, keyboard shortcuts, `notifyParent`, the iframe machinery and the error path of the home page's `init` are left out.
- `localeCompare(…, 'fr')`, `toLowerCase`, `stripDiacritics` (Unicode NFD) and the `i` flag's case folding are function parameters, as is sorting itself. `Home.Index.constructor` takes the index already sorted, and `Home.Sorted` says what order the comparator leaves.
- Strings are sequences of characters. UTF-16 code units, surrogate pairs and normalisation are not modelled, so the 1500, 2000 and 3000 limits count characters.
- Non-string leaves are left out. A `texte`, `theme`, `critere` or article that is a number or boolean makes the scripts throw (`.trim`, `.replace`) or print it. The model reads such a value as no text where a string is required.
- Home.CardOf: a truthy `idcc` that is not a string (a number) is printed in the badge. In the script, `escapeHtml` throws on it at `text.replace` (js/shared.js:164-171), which aborts `renderCards` (js/home.js:54). The model does not represent that exception or the error state it leads to.
- Sections.WithText: a `null` or `undefined` entry in `contenu` makes the scripts throw where they read `item.texte` (js/comparateur.js:57, js/convention.js:266 and :409). The model skips such an entry as an item without text.
- Sections.ItemCard: a `null` or `undefined` item makes the script throw at `item.theme` (js/comparateur.js:240). The model reads it as an item with no theme and no text.
- Context.ItemText: a `null` or `undefined` item makes the assistant's context builder throw at `item.theme` (js/chatbot.js:595). The model renders it as nothing.
- Compare.RowOf: a `null` or `undefined` entry in `details` makes the panel throw at `d.critere` (js/comparateur.js:100). The model shows it as a row of three empty fields.
- Prompt.DetailLines: a `null` entry in `details` throws at `d.critere`, and a truthy `details` that is not an array throws at `.map` (js/comparateur.js:258). Both happen before the `try` of js/comparateur.js:272, so the request is never sent, the badge stays "Analyse en cours..." and the button stays disabled. The model gives no detail line for a non-array and the line `- undefined : undefined (undefined)` for a null entry, and builds the prompt anyway.
- JsValues.Json: numbers are integers only (`Num(n: int)`). Fractional JSON numbers, and the way JavaScript prints them, are not modelled.
- A `contenu` that is neither an array nor missing is read as no items.
- `parseInt` of hexadecimal or exponent forms is left out; only decimal digits are read.
- `Object.keys` ordering of integer-like keys is not modelled. Objects are key/value sequences in the order given.
- `Tables.AppendRows` states one `<tr>` per body line by construction. A cell text may itself contain `<tr>`, so no count of tags in the output is claimed.
- The prompt's instructions and the assistant's system prompt are fixed texts. The model does not prove anything about their wording.
- `Chat.FormatBotMessage` is modelled with its bold, item and list passes. Only the line-break facts and the plain-text case are proved about it.

## Findings

| source | as written | input that shows it | evidently intended | confidence | as-written member | corrected member |
|---|---|---|---|---|---|---|
| js/comparateur.js:323-329 | `VERDICTS[verdict] \|\| …` also finds properties inherited from `Object.prototype` | a reply `{"verdict": "toString"}` gives a badge labelled `undefined` with class `undefined` | only the three own entries are labels; anything else is `Non déterminé` | not executed | Reply.PrototypeVerdict | Reply.VerdictLabels |
| js/chatbot.js:196-233 | `node.parentNode.replaceChild(frag, node)` detaches the walker's current node, so the next `treeWalker.nextNode()` returns null and the walk ends after the first node it splits | two paragraphs `ab` and `ab`, query `ab`: one mark is counted and the counter reads `1/1` | every text node holding the query is marked, so `1/2` for this input | not executed | Search.WalkStopsEarly | Search.EveryNodeMarked |
| js/chatbot.js:643-647 | the second entry of `contents` is always sent with role `model` | a first request that fails, then a second question: the history is `[user a, user b]` and `b` is sent as the model's turn | every entry keeps its own role, so the pending question is sent as the user's | not executed | Chat.SecondQuestionMislabelled | Chat.ContentsRoles |
