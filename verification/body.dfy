/**
 * The document body: the block scanner that alternates between the text
 * before the next block (split into paragraphs) and the block itself
 * (heading, figure, list, quotation, verbatim text or table). A page break
 * or bibliography command ends the scan with a failure, because the branch
 * that handles it asks the match for a group the pattern does not have.
 */
module Body {
  import opened Text
  import opened Macros
  import opened Colors
  import opened Inline
  import opened Blocks
  import opened Lists
  import opened Tables

  /** A content block of the document. */
  datatype Block =
    | Paragraph(content: seq<Item>)
    | Quotation(content: seq<Item>)
    | Heading(level: nat, content: seq<Item>)
    | TitleParagraph(content: seq<Item>)
    | Figure(path: string)
    | ItemList(numbered: bool, items: seq<ListItem>)
    | Table(data: TableData)

  /** The formatting of verbatim text. */
  const VerbatimFormat: Formatting := Formatting(false, false, false, Some(Monospace), None)

  /** Paragraph blocks, each with merged, non-empty content. */
  predicate ParsedParagraphs(r: seq<Block>) {
    forall k :: 0 <= k < |r| ==> r[k].Paragraph? && r[k].content != [] && WellMerged(r[k].content)
  }

  /** The paragraphs of the pieces between blank lines; a piece whose parse is empty gives none. */
  function ParagraphsOf(macros: MacroTable, colors: ColorTable, pieces: seq<string>): (r: seq<Block>)
    ensures |r| <= |pieces|
    ensures ParsedParagraphs(r)
  {
    if pieces == [] then []
    else
      var items := if IsBlank(pieces[0]) then [] else ParseInline(macros, colors, Strip(pieces[0]));
      var rest := ParagraphsOf(macros, colors, pieces[1..]);
      if items == [] then rest else ConsParagraph(items, rest)
  }

  /** A parsed paragraph in front of others. */
  function ConsParagraph(items: seq<Item>, rest: seq<Block>): (r: seq<Block>)
    requires items != [] && WellMerged(items) && ParsedParagraphs(rest)
    ensures ParsedParagraphs(r) && |r| == |rest| + 1
  {
    [Paragraph(items)] + rest
  }

  /** The text before a block (or after the last one) as paragraphs. */
  function TextBlocks(macros: MacroTable, colors: ColorTable, text: string): (r: seq<Block>)
    ensures ParsedParagraphs(r)
  {
    if IsBlank(text) then [] else ParagraphsOf(macros, colors, Paragraphs(Strip(text), 0))
  }

  /** `\\includegraphics(?:\[(.*?)\])?\{(.*?)\}` with DOTALL at `i`: the image name and the end. */
  function IncludeGraphicsAt(s: string, i: nat): (r: Option<(string, nat)>)
    ensures r.Some? ==> i < r.value.1 <= |s|
  {
    if At(s, "\\includegraphics", i) then OptBracketArgAt(s, i + 16) else None
  }

  /** A heading block from a section title, when the title parses to something. */
  function SectionBlocks(macros: MacroTable, colors: ColorTable, level: nat, title: string): (r: seq<Block>)
    requires 1 <= level <= 3
    ensures AllWellFormed(r) && |r| <= 1
  {
    var items := ParseInline(macros, colors, Strip(title));
    if items == [] then [] else [Heading(level, items)]
  }

  /** A figure gives the image of its first `\includegraphics`, located by `resolve`, or nothing. */
  function FigureBlocks(resolve: string -> string, content: string): (r: seq<Block>)
    ensures |r| <= 1 && forall k :: 0 <= k < |r| ==> r[k].Figure?
  {
    match FirstFrom(IncludeGraphicsAt, content, 0)
    case None => []
    case Some((_, (path, _))) => [Figure(resolve(path))]
  }

  /** One list block. */
  function ListBlock(numbered: bool, items: seq<ListItem>): (r: seq<Block>)
    requires items != [] && AllHaveText(items)
    ensures AllWellFormed(r) && |r| == 1
  {
    [ItemList(numbered, items)]
  }

  /** A list block with the non-empty items, when there is one. */
  function ListBlocks(macros: MacroTable, colors: ColorTable, name: string, content: string): (r: seq<Block>)
    ensures AllWellFormed(r) && |r| <= 1
  {
    var items := ListItems(macros, colors, RawItems(name, content, 0));
    if items == [] then [] else ListBlock(name == "enumerate", items)
  }

  /** A quotation, indented on both sides, when its content parses to something. */
  function QuotationBlocks(macros: MacroTable, colors: ColorTable, content: string): (r: seq<Block>)
    ensures AllWellFormed(r) && |r| <= 1
  {
    var items := ParseInline(macros, colors, Strip(content));
    if items == [] then [] else [Quotation(items)]
  }

  /** A table block when the table has a row or a caption. */
  function TableBlocks(t: TableData): (r: seq<Block>)
    ensures AllWellFormed(r) && |r| <= 1
    ensures r != [] <==> Emitted(t)
  {
    if Emitted(t) then [Table(t)] else []
  }

  /**
   * The blocks of one environment. `resolve` stands for the image lookup;
   * verbatim text is kept as it is, trimmed, in a monospaced run, even when
   * empty; `subcaption` and `subfigure` give nothing.
   */
  function EnvironmentBlocks(macros: MacroTable, colors: ColorTable, resolve: string -> string,
                             name: string, content: string): (r: seq<Block>)
    ensures AllWellFormed(r) && |r| <= 1
  {
    if name == "figure" then FigureBlocks(resolve, content)
    else if name == "itemize" || name == "enumerate" then ListBlocks(macros, colors, name, content)
    else if name == "quotation" then QuotationBlocks(macros, colors, content)
    else if name == "verbatim" then [Paragraph([TextRun(Strip(content), VerbatimFormat)])]
    else if name == "table" then TableBlocks(FloatTable(macros, colors, content))
    else if name == "longtable" || name == "tabularx" || name == "tabular" then
      TableBlocks(DirectTable(macros, colors, name, content))
    else []
  }

  /** The blocks a section or environment match gives. */
  function MatchBlocks(macros: MacroTable, colors: ColorTable, resolve: string -> string, m: BlockMatch): (r: seq<Block>)
    requires m.SectionMatch? ==> 1 <= m.level <= 3
    ensures AllWellFormed(r)
  {
    match m
    case SectionMatch(level, title) => SectionBlocks(macros, colors, level, title)
    case EnvMatch(name, content) => EnvironmentBlocks(macros, colors, resolve, name, content)
    case _ => []
  }

  /** The blocks found, and the command that stopped the scan, if one did. */
  datatype BodyResult = BodyResult(blocks: seq<Block>, failure: Option<string>)

  /** The scan loop from `pos`. */
  function BodyFrom(macros: MacroTable, colors: ColorTable, resolve: string -> string, s: string, pos: nat): BodyResult
    requires pos <= |s|
    decreases |s| - pos, 1
  {
    if pos == |s| then BodyResult([], None) else BodyAfter(macros, colors, resolve, s, pos)
  }

  /** One turn of the scan loop: the next section or environment from `pos`, or the trailing text. */
  function BodyAfter(macros: MacroTable, colors: ColorTable, resolve: string -> string, s: string, pos: nat): BodyResult
    requires pos < |s|
    decreases |s| - pos, 0
  {
    match FirstFrom(BlockAt, s, pos)
    case None => BodyResult(TextBlocks(macros, colors, s[pos..]), None)
    case Some((i, (m, e))) =>
      var before := TextBlocks(macros, colors, s[pos..i]);
      if m.PageBreak? || m.BibliographyMatch? then BodyResult(before, Some(m.command))
      else
        var rest := BodyFrom(macros, colors, resolve, s, e);
        BodyResult(before + MatchBlocks(macros, colors, resolve, m) + rest.blocks, rest.failure)
  }

  /** `_parse_body`: comments and ignored regions removed, then the scan. */
  function ParseBody(macros: MacroTable, colors: ColorTable, resolve: string -> string, body: string): BodyResult {
    BodyFrom(macros, colors, resolve, Prepare(body), 0)
  }

  /**
   * What the closing schema pass relies on: paragraphs, quotations, headings
   * and title paragraphs have content, lists have items, tables have a row
   * or a caption, and parsed content is merged.
   */
  predicate WellFormed(b: Block) {
    match b
    case Paragraph(c) => c != []
    case Quotation(c) => c != [] && WellMerged(c)
    case Heading(level, c) => 1 <= level <= 3 && c != [] && WellMerged(c)
    case TitleParagraph(c) => c != []
    case Figure(_) => true
    case ItemList(_, items) => items != [] && AllHaveText(items)
    case Table(t) => Emitted(t)
  }

  predicate AllWellFormed(blocks: seq<Block>) {
    forall k :: 0 <= k < |blocks| ==> WellFormed(blocks[k])
  }

  /** The closing schema pass: a paragraph-like block without content gets one empty text run. */
  function Normalize(b: Block): Block {
    match b
    case Paragraph(c) => if c == [] then Paragraph([TextRun("", NoFormat)]) else b
    case Quotation(c) => if c == [] then Quotation([TextRun("", NoFormat)]) else b
    case Heading(level, c) => if c == [] then Heading(level, [TextRun("", NoFormat)]) else b
    case TitleParagraph(c) => if c == [] then TitleParagraph([TextRun("", NoFormat)]) else b
    case _ => b
  }

  function NormalizeAll(blocks: seq<Block>): (r: seq<Block>)
    ensures |r| == |blocks|
  {
    if blocks == [] then [] else [Normalize(blocks[0])] + NormalizeAll(blocks[1..])
  }

  /** On well-formed blocks the schema pass changes nothing. */
  lemma {:induction false} NormalizeWellFormed(blocks: seq<Block>)
    requires AllWellFormed(blocks)
    ensures NormalizeAll(blocks) == blocks
  {
    if blocks != [] {
      assert WellFormed(blocks[0]);
      assert AllWellFormed(blocks[1..]) by {
        forall k | 0 <= k < |blocks[1..]| ensures WellFormed(blocks[1..][k]) {
          assert blocks[1..][k] == blocks[k + 1];
        }
      }
      NormalizeWellFormed(blocks[1..]);
    }
  }

  lemma WellFormedConcat(a: seq<Block>, b: seq<Block>, c: seq<Block>)
    requires AllWellFormed(a) && AllWellFormed(b) && AllWellFormed(c)
    ensures AllWellFormed(a + b + c)
  {
    forall k | 0 <= k < |a + b + c| ensures WellFormed((a + b + c)[k]) {
      if k < |a| { assert (a + b + c)[k] == a[k]; }
      else if k < |a| + |b| { assert (a + b + c)[k] == b[k - |a|]; }
      else { assert (a + b + c)[k] == c[k - |a| - |b|]; }
    }
  }

  lemma TextBlocksWellFormed(macros: MacroTable, colors: ColorTable, text: string)
    ensures AllWellFormed(TextBlocks(macros, colors, text))
  {
    var r := TextBlocks(macros, colors, text);
    forall k | 0 <= k < |r| ensures WellFormed(r[k]) {
      assert r[k].Paragraph? && r[k].content != [];
    }
  }

  /** Every block the scan produces is well formed. */
  lemma {:induction false} BodyWellFormed(macros: MacroTable, colors: ColorTable, resolve: string -> string, s: string, pos: nat)
    requires pos <= |s|
    ensures AllWellFormed(BodyFrom(macros, colors, resolve, s, pos).blocks)
    decreases |s| - pos
  {
    if pos < |s| {
      match FirstFrom(BlockAt, s, pos)
      case None =>
        TextBlocksWellFormed(macros, colors, s[pos..]);
      case Some((i, (m, e))) =>
        TextBlocksWellFormed(macros, colors, s[pos..i]);
        if !(m.PageBreak? || m.BibliographyMatch?) {
          BodyWellFormed(macros, colors, resolve, s, e);
          WellFormedConcat(TextBlocks(macros, colors, s[pos..i]), MatchBlocks(macros, colors, resolve, m),
                           BodyFrom(macros, colors, resolve, s, e).blocks);
        }
    }
  }

  /** Text without commands is only paragraphs, and the scan succeeds. */
  lemma PlainBody(macros: MacroTable, colors: ColorTable, resolve: string -> string, s: string)
    requires '\\' !in s
    ensures BodyFrom(macros, colors, resolve, s, 0) == BodyResult(TextBlocks(macros, colors, s), None)
  {
    NoBlockWithoutBackslash(s, 0);
    assert s[0..] == s;
    if s == [] {
      assert IsBlank(s);
    }
  }

  /** `\newpage` at `i` is the page-break alternative. */
  lemma NewPageMatch(s: string, i: nat)
    requires At(s, "\\newpage", i)
    ensures BlockAt(s, i) == Some((PageBreak("newpage"), i + 8))
  {
    assert s[i + 1] == 'n' by { assert s[i..i + 8][1] == s[i + 1]; }
    NotAt(s, "\\section", i, 1);
    NotAt(s, "\\subsection", i, 1);
    NotAt(s, "\\subsubsection", i, 1);
    forall n | n in Environments ensures !At(s, BeginTag(n), i) {
      NotAt(s, BeginTag(n), i, 1);
    }
    NoBeginName(s, i, Environments);
  }

  lemma {:induction false} NoBeginName(s: string, i: nat, names: seq<string>)
    requires forall n | n in names :: !At(s, BeginTag(n), i)
    ensures BeginName(s, i, names).None?
    decreases |names|
  {
    if names != [] {
      NoBeginName(s, i, names[1..]);
    }
  }

  /**
   * A page break stops the scan: the paragraphs before it are kept and the
   * rest of the body is never reached.
   */
  lemma PageBreakStops(macros: MacroTable, colors: ColorTable, resolve: string -> string, s: string, x: string, y: string)
    requires s == x + "\\newpage" + y && '\\' !in x
    ensures BodyFrom(macros, colors, resolve, s, 0) == BodyResult(TextBlocks(macros, colors, x), Some("newpage"))
  {
    var i := |x|;
    assert s[i..i + 8] == "\\newpage";
    NewPageMatch(s, i);
    forall j | 0 <= j < i ensures BlockAt(s, j).None? {
      assert s[j] == x[j];
      NoBlockAt(s, j);
    }
    FirstIs(BlockAt, s, 0, i, (PageBreak("newpage"), i + 8));
    assert s[0..i] == x;
  }

  /** Where there is no backslash no block starts. */
  lemma NoBlockAt(s: string, j: nat)
    requires j < |s| && s[j] != '\\'
    ensures BlockAt(s, j).None?
  {
    NotAt(s, "\\section", j, 0);
    NotAt(s, "\\subsection", j, 0);
    NotAt(s, "\\subsubsection", j, 0);
    forall n | n in Environments ensures !At(s, BeginTag(n), j) {
      NotAt(s, BeginTag(n), j, 0);
    }
    NoBeginName(s, j, Environments);
    NotAt(s, "\\newpage", j, 0);
    NotAt(s, "\\clearpage", j, 0);
    NotAt(s, "\\printbibliography", j, 0);
    NotAt(s, "\\bibliography{", j, 0);
  }

  /** `\begin{verbatim}` opens no section and names the verbatim environment. */
  lemma VerbatimBegins(s: string, x: string)
    requires s == "\\begin{verbatim}" + x + "\\end{verbatim}"
    ensures SectionAt(s, 0).None? && BeginName(s, 0, Environments) == Some("verbatim")
  {
    assert s[..16] == "\\begin{verbatim}";
    NoSectionAfterB(s);
    VerbatimOpens(s);
  }

  /** A text starting `\b` opens no section. */
  lemma NoSectionAfterB(s: string)
    requires |s| > 1 && s[1] == 'b'
    ensures SectionAt(s, 0).None?
  {
    NotAt(s, "\\section", 0, 1);
    NotAt(s, "\\subsection", 0, 1);
    NotAt(s, "\\subsubsection", 0, 1);
  }

  /** A text starting with `\begin{verbatim}` names the verbatim environment. */
  lemma VerbatimOpens(s: string)
    requires |s| >= 16 && s[..16] == "\\begin{verbatim}"
    ensures BeginName(s, 0, Environments) == Some("verbatim")
  {
    VerbatimListed();
    VerbatimNamed(s, Environments, 5);
  }

  /** `BeginName` finds `verbatim` at its place in `names` when no name before it starts with `v`. */
  lemma VerbatimNamed(s: string, names: seq<string>, k: nat)
    requires |s| >= 16 && s[..16] == "\\begin{verbatim}"
    requires k < |names| && names[k] == "verbatim"
    requires forall j :: 0 <= j < k ==> |names[j]| > 0 && names[j][0] != 'v'
    ensures BeginName(s, 0, names) == Some("verbatim")
  {
    assert s[7] == 'v' by { assert s[..16][7] == s[7]; }
    forall j | 0 <= j < k ensures !At(s, BeginTag(names[j]), 0) {
      NotAt(s, BeginTag(names[j]), 0, 7);
    }
    VerbatimOpener();
    assert s[0..16] == BeginTag("verbatim");
    BeginNameIs(s, 0, names, k);
  }

  /** `verbatim` is the sixth environment, and none before it starts with `v`. */
  lemma VerbatimListed()
    ensures Environments[5] == "verbatim"
    ensures forall j :: 0 <= j < 5 ==> |Environments[j]| > 0 && Environments[j][0] != 'v'
  {
  }

  /** The opening tag of the verbatim environment. */
  lemma VerbatimOpener()
    ensures BeginTag("verbatim") == "\\begin{verbatim}"
  {
  }

  /** Content without a backslash cannot hide the closing `\end{verbatim}`. */
  lemma VerbatimEnds(s: string, x: string)
    requires s == "\\begin{verbatim}" + x + "\\end{verbatim}" && '\\' !in x
    ensures IndexOf(s, "\\end{verbatim}", 16) == Some(16 + |x|)
    ensures s[16..16 + |x|] == x && |s| == 30 + |x|
  {
    var e := 16 + |x|;
    assert s[16..e] == x;
    assert s[e..] == "\\end{verbatim}";
    forall j | 16 <= j < e ensures !At(s, "\\end{verbatim}", j) {
      assert s[j] == x[j - 16];
      NotAt(s, "\\end{verbatim}", j, 0);
    }
    IndexOfFirst(s, "\\end{verbatim}", 16, e);
  }

  /** The environment pattern's match at the start once its name and its first closing tag are known. */
  lemma EnvironmentFound(s: string, name: string, e: nat)
    requires BeginName(s, 0, Environments) == Some(name)
    requires IndexOf(s, EndTag(name), 8 + |name|) == Some(e)
    ensures EnvironmentAt(s, 0).Some?
    ensures EnvironmentAt(s, 0).value.0 == EnvMatch(name, s[8 + |name|..e])
    ensures EnvironmentAt(s, 0).value.1 == e + |name| + 6
  {
  }

  /** Where no section starts, the block pattern is the environment pattern, when that matches. */
  lemma EnvironmentBlock(s: string, i: nat)
    requires SectionAt(s, i).None? && EnvironmentAt(s, i).Some?
    ensures BlockAt(s, i) == EnvironmentAt(s, i)
  {
  }

  /** The closing tag the environment pattern builds for `verbatim`. */
  lemma VerbatimCloser()
    ensures EndTag("verbatim") == "\\end{verbatim}"
  {
  }

  /** The verbatim environment's match, from the facts about its opening and closing tags. */
  lemma VerbatimFound(s: string, x: string)
    requires SectionAt(s, 0).None? && BeginName(s, 0, Environments) == Some("verbatim")
    requires IndexOf(s, "\\end{verbatim}", 16) == Some(16 + |x|)
    requires s[16..16 + |x|] == x && |s| == 30 + |x|
    ensures EnvironmentAt(s, 0).Some?
    ensures EnvironmentAt(s, 0).value.0 == EnvMatch("verbatim", x)
    ensures EnvironmentAt(s, 0).value.1 == |s|
  {
    VerbatimCloser();
    EnvironmentFound(s, "verbatim", 16 + |x|);
  }

  /** A verbatim environment matches as a whole, with its content as written. */
  lemma VerbatimMatch(s: string, x: string)
    requires s == "\\begin{verbatim}" + x + "\\end{verbatim}" && '\\' !in x
    ensures BlockAt(s, 0) == Some((EnvMatch("verbatim", x), |s|))
  {
    VerbatimBegins(s, x);
    VerbatimEnds(s, x);
    VerbatimFound(s, x);
    EnvironmentBlock(s, 0);
  }

  /** One turn of the scan: the text before a section or environment, its blocks, then the rest. */
  lemma BodyStep(macros: MacroTable, colors: ColorTable, resolve: string -> string, s: string, pos: nat, i: nat, m: BlockMatch, e: nat)
    requires pos < |s| && FirstFrom(BlockAt, s, pos) == Some((i, (m, e)))
    requires m.SectionMatch? || m.EnvMatch?
    ensures e <= |s| && (m.SectionMatch? ==> 1 <= m.level <= 3)
    ensures var rest := BodyFrom(macros, colors, resolve, s, e);
      BodyFrom(macros, colors, resolve, s, pos)
      == BodyResult(TextBlocks(macros, colors, s[pos..i]) + MatchBlocks(macros, colors, resolve, m) + rest.blocks, rest.failure)
  {
  }

  /** A body that is one section or environment gives that block's blocks. */
  lemma WholeBlock(macros: MacroTable, colors: ColorTable, resolve: string -> string, s: string, m: BlockMatch)
    requires BlockAt(s, 0) == Some((m, |s|)) && (m.SectionMatch? || m.EnvMatch?)
    ensures BodyFrom(macros, colors, resolve, s, 0) == BodyResult(MatchBlocks(macros, colors, resolve, m), None)
  {
    FirstAt(BlockAt, s, 0, (m, |s|));
    BodyStep(macros, colors, resolve, s, 0, 0, m, |s|);
    assert TextBlocks(macros, colors, s[0..0]) == [] by { assert s[0..0] == []; }
    assert BodyFrom(macros, colors, resolve, s, |s|) == BodyResult([], None);
    EmptyAround(TextBlocks(macros, colors, s[0..0]), MatchBlocks(macros, colors, resolve, m), []);
  }

  /** `\subsection{t}` is a level-2 heading whose content is the parsed, trimmed title. */
  lemma SubsectionHeading(macros: MacroTable, colors: ColorTable, resolve: string -> string, s: string, t: string)
    requires s == "\\subsection{" + t + "}" && '}' !in t
    ensures BodyFrom(macros, colors, resolve, s, 0) == BodyResult(SectionBlocks(macros, colors, 2, t), None)
  {
    SubsectionMatch(s, t);
    WholeBlock(macros, colors, resolve, s, SectionMatch(2, t));
  }

  /** A verbatim environment keeps its trimmed text in one monospaced run, without inline parsing. */
  lemma VerbatimKept(macros: MacroTable, colors: ColorTable, resolve: string -> string, s: string, x: string)
    requires s == "\\begin{verbatim}" + x + "\\end{verbatim}" && '\\' !in x
    ensures BodyFrom(macros, colors, resolve, s, 0).blocks == [Paragraph([TextRun(Strip(x), VerbatimFormat)])]
  {
    VerbatimMatch(s, x);
    WholeBlock(macros, colors, resolve, s, EnvMatch("verbatim", x));
  }
}
