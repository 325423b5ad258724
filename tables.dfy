/** `parseMarkdownTables` of js/shared.js: every run of pipe lines is cut out with
    `/((?:\|[^\n]+\|\n?)+)/gm`, and a run whose second non-blank line is a separator
    becomes an HTML table; any other run is put back unchanged. */
module Tables {
  import opened Text
  import Inline

  // ---------------------------------------------------------------- the block scanner

  /** The first `\n` at or after `p`, or the end of the text. */
  function NewlineFrom(t: string, p: nat): (e: nat)
    requires p <= |t|
    ensures p <= e <= |t| && (e < |t| ==> t[e] == '\n')
    decreases |t| - p
  {
    if p == |t| || t[p] == '\n' then p else NewlineFrom(t, p + 1)
  }

  /** The last `|` in `t[lo..hi]`. */
  function LastBar(t: string, lo: nat, hi: nat): (r: Option<nat>)
    requires hi <= |t|
    ensures r.Some? ==> lo <= r.value < hi && t[r.value] == '|'
    decreases hi
  {
    if hi <= lo then None
    else if t[hi - 1] == '|' then Some(hi - 1)
    else LastBar(t, lo, hi - 1)
  }

  /** Where one `\|[^\n]+\|\n?` unit starting at `i` ends: a `|`, then, since
      `[^\n]+` is greedy, the last `|` of the line that leaves at least one
      character between the two, then the newline if there is one. */
  function UnitEnd(s: string, i: nat): (r: Option<nat>)
    requires i <= |s|
    ensures r.Some? ==> i + 3 <= r.value <= |s|
  {
    if i < |s| && s[i] == '|' then
      var e := NewlineFrom(s, i + 1);
      match LastBar(s, i + 2, e)
      case Some(c) => Some(if c + 1 < |s| && s[c + 1] == '\n' then c + 2 else c + 1)
      case None => None
    else None
  }

  /** Where the run of units `(?:…)+` starting at `i` ends; `i` itself when no
      unit starts there. */
  function RunEnd(s: string, i: nat): (e: nat)
    requires i <= |s|
    ensures i <= e <= |s|
    decreases |s| - i
  {
    match UnitEnd(s, i)
    case Some(u) => RunEnd(s, u)
    case None => i
  }

  /** What the global replacement sees at each position: a matched run of pipe
      lines, or a character outside every match. */
  datatype Piece = Run(m: string) | Other(c: char)

  /** Where the scan resumes after position `i`: past the run that matches
      there, or one character further when nothing does. */
  function Next(s: string, i: nat): (j: nat)
    requires i < |s|
    ensures i < j <= |s|
  {
    if RunEnd(s, i) > i then RunEnd(s, i) else i + 1
  }

  /** The piece the scan takes at `i`. */
  function PieceAt(s: string, i: nat): Piece
    requires i < |s|
  {
    if RunEnd(s, i) > i then Run(s[i..RunEnd(s, i)]) else Other(s[i])
  }

  /** The pieces of `s[i..]`, in order. */
  function Pieces(s: string, i: nat): seq<Piece>
    decreases |s| - i
  {
    if i >= |s| then [] else [PieceAt(s, i)] + Pieces(s, Next(s, i))
  }

  /** The text a piece stands for. */
  function Source(p: Piece): string {
    match p
    case Run(m) => m
    case Other(c) => [c]
  }

  function Sources(ps: seq<Piece>): string {
    if ps == [] then [] else Source(ps[0]) + Sources(ps[1..])
  }

  /** What the replacement puts in place of a piece: the callback's result for a
      run, the character itself otherwise. */
  function Out(p: Piece): string {
    match p
    case Run(m) => ConvertBlock(m)
    case Other(c) => [c]
  }

  function Render(ps: seq<Piece>): string {
    if ps == [] then [] else Out(ps[0]) + Render(ps[1..])
  }

  /** `parseMarkdownTables(text)`: every run replaced by its conversion. */
  function TablePass(s: string): string {
    Render(Pieces(s, 0))
  }

  /** A piece stands for exactly the text it was cut from. */
  lemma SourceAt(s: string, i: nat)
    requires i < |s|
    ensures Source(PieceAt(s, i)) == s[i..Next(s, i)]
  {
  }

  /** The pieces cover the text exactly, in order: the runs and the characters
      between them put back together give `s[i..]`. */
  lemma {:induction false} PiecesCover(s: string, i: nat)
    requires i <= |s|
    ensures Sources(Pieces(s, i)) == s[i..]
    decreases |s| - i
  {
    if i < |s| {
      var j := Next(s, i);
      PiecesCover(s, j);
      SourceAt(s, i);
      CoverStep(s, i, j, PieceAt(s, i), Pieces(s, j));
    }
  }

  lemma CoverStep(s: string, i: nat, j: nat, p: Piece, rest: seq<Piece>)
    requires i <= j <= |s| && Source(p) == s[i..j] && Sources(rest) == s[j..]
    ensures Sources([p] + rest) == s[i..]
  {
    assert ([p] + rest)[1..] == rest;
    assert s[i..] == s[i..j] + s[j..];
  }

  /** Without a `|` nothing matches: the scan takes one character at a time. */
  lemma NoBarPiece(s: string, i: nat)
    requires '|' !in s && i < |s|
    ensures PieceAt(s, i) == Other(s[i]) && Next(s, i) == i + 1
  {
    assert UnitEnd(s, i).None?;
  }

  /** One unfolding of the rendering: the piece at `i`, then the rest. */
  lemma RenderStep(s: string, i: nat)
    requires i < |s|
    ensures Render(Pieces(s, i)) == Out(PieceAt(s, i)) + Render(Pieces(s, Next(s, i)))
  {
    var ps := Pieces(s, i);
    assert ps[1..] == Pieces(s, Next(s, i));
  }

  lemma {:induction false} NoBarFrom(s: string, i: nat)
    requires '|' !in s && i <= |s|
    ensures Render(Pieces(s, i)) == s[i..]
    decreases |s| - i
  {
    if i < |s| {
      NoBarPiece(s, i);
      NoBarFrom(s, i + 1);
      RenderStep(s, i);
      assert s[i..] == [s[i]] + s[i + 1..];
    }
  }

  /** Text without a `|` holds no table and is left unchanged. */
  lemma TablePassNoBar(s: string)
    requires '|' !in s
    ensures TablePass(s) == s
  {
    NoBarFrom(s, 0);
    assert s[0..] == s;
  }

  // ---------------------------------------------------------------- one block

  /** A recognised table: the header cells and the body lines, each of which
      becomes one row. */
  datatype Table = Table(header: seq<string>, body: seq<string>)

  /** `lines.filter(l => l.trim())` */
  function NonBlank(lines: seq<string>): seq<string> {
    if lines == [] then []
    else (if HasText(lines[0]) then [lines[0]] else []) + NonBlank(lines[1..])
  }

  /** The non-blank lines of the trimmed block. */
  function BlockLines(m: string): seq<string> {
    NonBlank(Split(Trim(m), '\n'))
  }

  /** `/^\|[\s:]*-+/`: a `|`, whitespace or colons, then a dash. `[\s:]*` cannot
      swallow the dash, so the greedy run is followed by it or the test fails. */
  predicate IsSeparator(sep: string) {
    |sep| > 0 && sep[0] == '|' && DashAfter(sep, 1)
  }

  predicate DashAfter(s: string, k: nat)
    decreases |s| - k
  {
    k < |s| && (s[k] == '-' || ((IsWhitespace(s[k]) || s[k] == ':') && DashAfter(s, k + 1)))
  }

  /** The inner `parseCells(line)`: trim, drop one leading `|` and one trailing `|`,
      split on `|`, trim every cell. */
  function ParseCells(line: string): seq<string> {
    var t := Trim(line);
    var a := if |t| > 0 && t[0] == '|' then t[1..] else t;
    var b := if |a| > 0 && a[|a| - 1] == '|' then a[..|a| - 1] else a;
    TrimAll(Split(b, '|'))
  }

  function TrimAll(cells: seq<string>): seq<string> {
    if cells == [] then [] else [Trim(cells[0])] + TrimAll(cells[1..])
  }

  /** The table a block describes, if it is one: at least two non-blank lines, the
      second a separator; the header is the first line, the body every line after
      the separator. */
  function ParseTable(m: string): Option<Table> {
    var lines := BlockLines(m);
    if |lines| < 2 || !IsSeparator(Trim(lines[1])) then None
    else Some(Table(ParseCells(lines[0]), lines[2..]))
  }

  /** The callback of the replacement: the table markup, or the match itself. */
  function ConvertBlock(m: string): string {
    match ParseTable(m)
    case Some(t) => TableHtml(t)
    case None => m
  }

  function TableHtml(t: Table): string {
    "<table><thead><tr>" + Cells(true, t.header, |t.header|) + "</tr></thead><tbody>"
      + Rows(t.body, |t.body|) + "</tbody></table>"
  }

  /** One cell: its text with bold runs converted, in a `<th>` element in the
      header and a `<td>` element in the body. */
  function Cell(header: bool, c: string): string {
    if header then "<th>" + Inline.Bold(c) + "</th>" else "<td>" + Inline.Bold(c) + "</td>"
  }

  /** The first `j` cells. */
  function Cells(header: bool, cs: seq<string>, j: nat): string
    requires j <= |cs|
  {
    if j == 0 then [] else Cells(header, cs, j - 1) + Cell(header, cs[j - 1])
  }

  /** One `<tr>` for each of the first `k` body lines. */
  function Rows(body: seq<string>, k: nat): string
    requires k <= |body|
  {
    if k == 0 then [] else Rows(body, k - 1) + Row(ParseCells(body[k - 1]))
  }

  function Row(cells: seq<string>): string {
    "<tr>" + Cells(false, cells, |cells|) + "</tr>"
  }

  /** A block that passes both checks converts to the markup of its table. */
  lemma ConvertTable(m: string)
    requires |BlockLines(m)| >= 2 && IsSeparator(Trim(BlockLines(m)[1]))
    ensures ConvertBlock(m) == TableHtml(Table(ParseCells(BlockLines(m)[0]), BlockLines(m)[2..]))
  {
  }

  /** The callback as the source runs it: the two checks, then the header
      cells, then one row per line after the separator. */
  method ConvertBlockLoop(m: string) returns (html: string)
    ensures html == ConvertBlock(m)
  {
    var lines := BlockLines(m);
    if |lines| < 2 || !IsSeparator(Trim(lines[1])) {
      return m;
    }
    var headers := ParseCells(lines[0]);
    var th := AppendCells(true, headers);
    var trs := AppendRows(lines[2..]);
    html := "<table><thead><tr>" + th + "</tr></thead><tbody>" + trs + "</tbody></table>";
    ConvertTable(m);
  }

  /** `cells.forEach(c => html += '<td>' + bold(c) + '</td>')`, and the same with
      `<th>` for the header. */
  method AppendCells(header: bool, cells: seq<string>) returns (html: string)
    ensures html == Cells(header, cells, |cells|)
  {
    html := [];
    for j := 0 to |cells|
      invariant html == Cells(header, cells, j)
    {
      html := html + Cell(header, cells[j]);
    }
  }

  /** The loop over the body lines: one `<tr>` each, holding its cells. */
  method AppendRows(body: seq<string>) returns (html: string)
    ensures html == Rows(body, |body|)
  {
    html := [];
    for i := 0 to |body|
      invariant html == Rows(body, i)
    {
      var cells := ParseCells(body[i]);
      var tds := AppendCells(false, cells);
      html := html + ("<tr>" + tds + "</tr>");
    }
  }

  /** `text.replace(tableRegex, callback)`: the scan over the text, converting each
      run of pipe lines it meets. */
  method ParseMarkdownTables(text: string) returns (r: string)
    ensures r == TablePass(text)
  {
    r := [];
    var i := 0;
    while i < |text|
      invariant 0 <= i <= |text|
      invariant r + Render(Pieces(text, i)) == TablePass(text)
    {
      var e := RunEnd(text, i);
      var piece;
      if e > i {
        piece := ConvertBlockLoop(text[i..e]);
      } else {
        e := i + 1;
        piece := [text[i]];
      }
      ScanStep(text, i, e, piece, r);
      r := r + piece;
      i := e;
    }
  }

  /** One step of the scan: what the callback made of the piece at `i` joins
      what was produced so far, and the scan resumes after the piece. */
  lemma ScanStep(text: string, i: nat, e: nat, piece: string, done: string)
    requires i < |text|
    requires RunEnd(text, i) > i ==> e == RunEnd(text, i) && piece == ConvertBlock(text[i..e])
    requires RunEnd(text, i) == i ==> e == i + 1 && piece == [text[i]]
    requires done + Render(Pieces(text, i)) == TablePass(text)
    ensures i < e <= |text|
    ensures (done + piece) + Render(Pieces(text, e)) == TablePass(text)
  {
    assert e == Next(text, i) && piece == Out(PieceAt(text, i));
    RenderStep(text, i);
    Assoc(done, piece, Render(Pieces(text, e)));
  }

  lemma Assoc(a: string, b: string, c: string)
    ensures (a + b) + c == a + (b + c)
  {
  }

  // ---------------------------------------------------------------- properties

  /** A block with fewer than two non-blank lines, or whose second line is not a
      separator, is put back exactly as it was matched. */
  lemma NotATable(m: string)
    requires |BlockLines(m)| < 2 || !IsSeparator(Trim(BlockLines(m)[1]))
    ensures ConvertBlock(m) == m
  {
  }

  /** A table row written as `|c1|c2|…|` is read back into its cells, provided the
      cells hold no `|` and carry no surrounding whitespace. */
  lemma ParseCellsRoundTrip(cells: seq<string>)
    requires |cells| > 0
    requires forall k :: 0 <= k < |cells| ==> '|' !in cells[k] && Trim(cells[k]) == cells[k]
    ensures ParseCells("|" + Join(cells, '|') + "|") == cells
  {
    var j := Join(cells, '|');
    var line := "|" + j + "|";
    assert ParseCells(line) == TrimAll(Split(j, '|')) by {
      BarredLine(line, j);
    }
    assert Split(j, '|') == cells by {
      SplitJoin(cells, '|');
    }
    TrimAllIdentity(cells);
  }

  /** The bars around a line are dropped before it is split. */
  lemma BarredLine(line: string, inner: string)
    requires line == "|" + inner + "|"
    ensures ParseCells(line) == TrimAll(Split(inner, '|'))
  {
    assert Trim(line) == line by {
      TrimNoOuterSpace(line);
    }
    assert line[1..][..|line| - 2] == inner;
  }

  /** Trimming cells that are already trimmed changes nothing. */
  lemma {:induction false} TrimAllIdentity(cells: seq<string>)
    requires forall k :: 0 <= k < |cells| ==> Trim(cells[k]) == cells[k]
    ensures TrimAll(cells) == cells
  {
    if cells != [] {
      TrimAllIdentity(cells[1..]);
    }
  }
}
