/**
 * The LaTeX-to-JSON converter object: it splits the source at the
 * `document` environment, cleans the preamble, records the macro and colour
 * definitions it finds there, reads the title, author and graphics path,
 * and then scans the body into content blocks.
 */
module LatexToJson {
  import opened Text
  import opened Macros
  import opened Colors
  import opened Inline
  import opened Blocks
  import opened Commands
  import opened Definitions
  import opened Tables
  import opened Body

  const DefaultTitle: string := "Untitled Document"
  const DefaultAuthor: string := "Unknown Author"

  /** What the preamble sets, when it sets it: the title, the author and the image search paths. */
  datatype Preamble = Preamble(title: Option<string>, author: Option<string>, paths: Option<seq<string>>)

  /** The JSON document: its title and author properties and its content blocks. */
  datatype Document = Document(title: string, author: string, content: seq<Block>)

  function Chosen<T>(o: Option<T>, default: T): (r: T)
    ensures o.Some? ==> r == o.value
    ensures o.None? ==> r == default
  {
    if o.Some? then o.value else default
  }

  /**
   * `re.search(r"\\begin\{document\}(.*?)\\end\{document\}", s, re.DOTALL)`:
   * the text before the match and the body inside it; without a match the
   * preamble is empty and the body is everything.
   */
  function SplitDocument(latex: string): (r: (string, string))
    ensures |r.0| + |r.1| <= |latex|
    ensures IndexOf(latex, "\\begin{document}", 0).None? ==> r == ("", latex)
  {
    match IndexOf(latex, "\\begin{document}", 0)
    case None => ("", latex)
    case Some(i) =>
      match IndexOf(latex, "\\end{document}", i + 16)
      case None => ("", latex)
      case Some(e) => (latex[..i], latex[i + 16..e])
  }

  /**
   * The first `}` from `j` on that is followed, after optional spaces, by
   * another `}`: where the lazy group of the graphics-path pattern ends.
   */
  function PathsClose(s: string, j: nat): (r: Option<nat>)
    requires j <= |s|
    ensures r.Some? ==> j <= r.value < |s| && s[r.value] == '}'
    ensures r.Some? ==> SkipSpaces(s, r.value + 1) < |s| && s[SkipSpaces(s, r.value + 1)] == '}'
    decreases |s| - j
  {
    if j == |s| then None
    else if ClosesPaths(s, j) then Some(j)
    else PathsClose(s, j + 1)
  }

  /** A `}` at `j` followed, after optional spaces, by another `}`. */
  predicate ClosesPaths(s: string, j: nat) {
    j < |s| && s[j] == '}' && SkipSpaces(s, j + 1) < |s| && s[SkipSpaces(s, j + 1)] == '}'
  }

  /** A match of `\\graphicspath\{\s*\{(.*?)\}\s*\}` (DOTALL) at `i`: the group and the end. */
  function GraphicsPathAt(s: string, i: nat): (r: Option<(string, nat)>)
    ensures r.Some? ==> i < r.value.1 <= |s|
  {
    if !At(s, "\\graphicspath{", i) then None
    else
      var q := SkipSpaces(s, i + 14);
      if q < |s| && s[q] == '{' then
        match PathsClose(s, q + 1)
        case None => None
        case Some(c) => Some((s[q + 1..c], SkipSpaces(s, c + 1) + 1))
      else None
  }

  /** A path is kept trimmed and only when something is left. */
  predicate Trimmed(p: string) {
    p != "" && Strip(p) == p
  }

  /** `[p.strip() for p in parts if p.strip()]`. */
  function KeptPaths(parts: seq<string>): (r: seq<string>)
    ensures |r| <= |parts|
    ensures forall k :: 0 <= k < |r| ==> Trimmed(r[k])
  {
    if parts == [] then []
    else
      var p := Strip(parts[0]);
      StripTrimmed(p);
      var rest := KeptPaths(parts[1..]);
      if p == "" then rest else [p] + rest
  }

  /** The search paths of a `\graphicspath` group: the trimmed group split at `}{`. */
  function GraphicsPaths(group: string): (r: seq<string>)
    ensures forall k :: 0 <= k < |r| ==> Trimmed(r[k])
  {
    KeptPaths(Split(Strip(group), "}{"))
  }

  /** `_strip_latex_commands(_expand_macros(group.strip()))`. */
  function PreambleText(macros: MacroTable, group: string): (r: string)
    ensures '{' !in r && '}' !in r && '~' !in r
  {
    StrippedClean(Expand(macros, Strip(group), 0));
    Stripped(Expand(macros, Strip(group), 0))
  }

  /** `_parse_preamble` on the expanded preamble: the first `\title{...}`, `\author{...}` and `\graphicspath`. */
  function PreambleOf(macros: MacroTable, s: string): (p: Preamble)
    ensures p.paths.Some? ==> forall k :: 0 <= k < |p.paths.value| ==> Trimmed(p.paths.value[k])
  {
    var t := FirstArgument(s, "\\title{");
    var a := FirstArgument(s, "\\author{");
    var g := FirstFrom(GraphicsPathAt, s, 0);
    Preamble(
      if t.Some? then Some(PreambleText(macros, t.value.0)) else None,
      if a.Some? then Some(PreambleText(macros, a.value.0)) else None,
      if g.Some? then Some(GraphicsPaths(g.value.1.0)) else None)
  }

  /** The title paragraph the preamble adds: only for a title that is not empty. */
  function TitleBlocks(title: Option<string>): (r: seq<Block>)
    ensures AllWellFormed(r)
    ensures r != [] <==> title.Some? && title.value != ""
  {
    if title.Some? && title.value != "" then [TitleParagraph([TextRun(title.value, NoFormat)])] else []
  }

  /**
   * The whole conversion from a converter's state: macros and colours
   * defined so far, the title and author properties and the content.
   * `None` when the body scan fails.
   */
  function Outcome(macros0: MacroTable, colors0: ColorTable, title0: string, author0: string, content0: seq<Block>,
                   latex: string, resolve: string -> string): Option<Document>
    requires UniqueNames(macros0)
  {
    var cleaned := Cleaned(latex);
    var body := SplitDocument(latex).1;
    var macros := DefineAll(macros0, NewCommands(cleaned, 0));
    var colors := ApplyColors(colors0, ColorDefinitions(cleaned, 0));
    var p := PreambleOf(macros, Expand(macros, cleaned, 0));
    var r := Body.ParseBody(macros, colors, resolve, body);
    if r.failure.Some? then None
    else Some(Document(Chosen(p.title, title0), Chosen(p.author, author0), BodyContent(content0 + TitleBlocks(p.title), r)))
  }

  /** The preamble with comments and ignored regions removed. */
  function Cleaned(latex: string): string {
    Prepare(SplitDocument(latex).0)
  }

  /** The content after the body scan: the blocks found appended, and the schema pass when the scan completed. */
  function BodyContent(content0: seq<Block>, r: BodyResult): seq<Block> {
    if r.failure.None? then NormalizeAll(content0 + r.blocks) else content0 + r.blocks
  }

  /** The conversion a freshly constructed converter performs. */
  function ConvertDoc(latex: string, resolve: string -> string): Option<Document> {
    Outcome([], Palette, DefaultTitle, DefaultAuthor, [], latex, resolve)
  }

  class Converter {
    var macros: MacroTable
    var colors: ColorTable
    var graphicspath: seq<string>
    var title: string
    var author: string
    var content: seq<Block>

    /** Macro names stay unique, as dictionary keys are. */
    predicate Valid()
      reads this
    {
      UniqueNames(macros)
    }

    constructor()
      ensures Valid()
      ensures macros == [] && colors == Palette && graphicspath == ["./", ""]
      ensures title == DefaultTitle && author == DefaultAuthor && content == []
    {
      macros := [];
      colors := Palette;
      graphicspath := ["./", ""];
      title := DefaultTitle;
      author := DefaultAuthor;
      content := [];
    }

    /** `_extract_definitions`: every `\newcommand`, then every `\definecolor`, in order. */
    method ExtractDefinitions(preamble: string)
      requires Valid()
      modifies this`macros, this`colors
      ensures Valid()
      ensures macros == DefineAll(old(macros), NewCommands(preamble, 0))
      ensures colors == ApplyColors(old(colors), ColorDefinitions(preamble, 0))
    {
      var t := DefineCommands(macros, preamble);
      var c := DefineColors(colors, preamble);
      macros, colors := t, c;
    }

    /** `_parse_preamble`: title and author properties, the title paragraph, the graphics path. */
    method ParsePreamble(s: string)
      modifies this`title, this`author, this`content, this`graphicspath
      ensures title == Chosen(PreambleOf(old(macros), s).title, old(title))
      ensures author == Chosen(PreambleOf(old(macros), s).author, old(author))
      ensures content == old(content) + TitleBlocks(PreambleOf(old(macros), s).title)
      ensures graphicspath == Chosen(PreambleOf(old(macros), s).paths, old(graphicspath))
    {
      var p := ReadPreamble(macros, s);
      title := Chosen(p.title, title);
      author := Chosen(p.author, author);
      content := content + TitleBlocks(p.title);
      graphicspath := Chosen(p.paths, graphicspath);
    }

    /**
     * `_parse_body`: the scan loop and, when it completes, the schema pass.
     * A page break or bibliography command stops it with that command.
     */
    method ParseBody(body: string, resolve: string -> string) returns (failure: Option<string>)
      modifies this`content
      ensures failure == Body.ParseBody(old(macros), old(colors), resolve, body).failure
      ensures content == BodyContent(old(content), Body.ParseBody(old(macros), old(colors), resolve, body))
    {
      var blocks;
      blocks, failure := ScanBody(macros, colors, resolve, Prepare(body));
      content := content + blocks;
      if failure.None? {
        content := NormalizeBlocks(content);
      }
    }

    /** The preamble half of `convert`: definitions, then the expanded preamble. */
    method ProcessPreamble(cleaned: string)
      requires Valid()
      modifies this`macros, this`colors, this`title, this`author, this`content, this`graphicspath
      ensures Valid()
      ensures macros == DefineAll(old(macros), NewCommands(cleaned, 0))
      ensures colors == ApplyColors(old(colors), ColorDefinitions(cleaned, 0))
      ensures var p := PreambleOf(macros, Expand(macros, cleaned, 0));
        title == Chosen(p.title, old(title)) && author == Chosen(p.author, old(author))
        && graphicspath == Chosen(p.paths, old(graphicspath)) && content == old(content) + TitleBlocks(p.title)
    {
      ExtractDefinitions(cleaned);
      ParsePreamble(Expand(macros, cleaned, 0));
    }

    /** `convert`: the document split, the preamble, then the body. */
    method Convert(latex: string, resolve: string -> string) returns (doc: Option<Document>)
      requires Valid()
      modifies this
      ensures doc == Outcome(old(macros), old(colors), old(title), old(author), old(content), latex, resolve)
      ensures Valid()
      ensures macros == DefineAll(old(macros), NewCommands(Cleaned(latex), 0))
      ensures colors == ApplyColors(old(colors), ColorDefinitions(Cleaned(latex), 0))
      ensures var p := PreambleOf(macros, Expand(macros, Cleaned(latex), 0));
        title == Chosen(p.title, old(title)) && author == Chosen(p.author, old(author))
        && graphicspath == Chosen(p.paths, old(graphicspath))
        && content == BodyContent(old(content) + TitleBlocks(p.title), Body.ParseBody(macros, colors, resolve, SplitDocument(latex).1))
    {
      ProcessPreamble(Cleaned(latex));
      doc := ProcessBody(SplitDocument(latex).1, resolve);
    }

    /** The body half of `convert` and its result: the document, or nothing when the scan stopped. */
    method ProcessBody(body: string, resolve: string -> string) returns (doc: Option<Document>)
      modifies this`content
      ensures var r := Body.ParseBody(macros, colors, resolve, body);
        content == BodyContent(old(content), r)
        && doc == if r.failure.Some? then None else Some(Document(title, author, content))
    {
      var failure := ParseBody(body, resolve);
      doc := if failure.Some? then None else Some(Document(title, author, content));
    }
  }

  /** A converter made for one file and run once. */
  method ConvertLatex(latex: string, resolve: string -> string) returns (doc: Option<Document>)
    ensures doc == ConvertDoc(latex, resolve)
  {
    var c := new Converter();
    doc := c.Convert(latex, resolve);
  }

  /** The `\newcommand` loop: each match, in order, assigned into the table. */
  method DefineCommands(macros: MacroTable, preamble: string) returns (t: MacroTable)
    requires UniqueNames(macros)
    ensures UniqueNames(t)
    ensures t == DefineAll(macros, NewCommands(preamble, 0))
  {
    t := macros;
    var pos := 0;
    var found := FirstFrom(NewCommandAt, preamble, 0);
    while found.Some?
      invariant pos <= |preamble| && found == FirstFrom(NewCommandAt, preamble, pos)
      invariant UniqueNames(t)
      invariant DefineAll(t, NewCommands(preamble, pos)) == DefineAll(macros, NewCommands(preamble, 0))
      decreases |preamble| - pos
    {
      var m := found.value.1;
      DefineStep(t, (m.0, m.1), NewCommands(preamble, m.2));
      t := Define(t, m.0, m.1);
      pos := m.2;
      found := FirstFrom(NewCommandAt, preamble, pos);
    }
  }

  /** The `\definecolor` loop: each match, in order, stored when its model and spec allow. */
  method DefineColors(colors: ColorTable, preamble: string) returns (c: ColorTable)
    ensures c == ApplyColors(colors, ColorDefinitions(preamble, 0))
  {
    c := colors;
    var pos := 0;
    var color := FirstFrom(DefineColorAt, preamble, 0);
    while color.Some?
      invariant pos <= |preamble| && color == FirstFrom(DefineColorAt, preamble, pos)
      invariant ApplyColors(c, ColorDefinitions(preamble, pos)) == ApplyColors(colors, ColorDefinitions(preamble, 0))
      decreases |preamble| - pos
    {
      var d := color.value.1;
      ColorStep(c, d.0, ColorDefinitions(preamble, d.1));
      c := ApplyColor(c, d.0);
      pos := d.1;
      color := FirstFrom(DefineColorAt, preamble, pos);
    }
  }

  /** The title, author and graphics-path searches of `_parse_preamble`. */
  method ReadPreamble(macros: MacroTable, s: string) returns (p: Preamble)
    ensures p == PreambleOf(macros, s)
  {
    var t := FirstArgument(s, "\\title{");
    var titleText: Option<string> := None;
    if t.Some? {
      var x := StripLatexCommands(Expand(macros, Strip(t.value.0), 0));
      titleText := Some(x);
    }
    var a := FirstArgument(s, "\\author{");
    var authorText: Option<string> := None;
    if a.Some? {
      var x := StripLatexCommands(Expand(macros, Strip(a.value.0), 0));
      authorText := Some(x);
    }
    var g := FirstFrom(GraphicsPathAt, s, 0);
    var paths: Option<seq<string>> := None;
    if g.Some? {
      paths := Some(GraphicsPaths(g.value.1.0));
    }
    p := Preamble(titleText, authorText, paths);
  }

  /** The paragraph loop: each piece that parses to something becomes a paragraph. */
  method ParagraphBlocks(macros: MacroTable, colors: ColorTable, pieces: seq<string>) returns (r: seq<Block>)
    ensures r == ParagraphsOf(macros, colors, pieces)
  {
    r := [];
    var k := |pieces|;
    while k > 0
      invariant 0 <= k <= |pieces|
      invariant r == ParagraphsOf(macros, colors, pieces[k..])
    {
      k := k - 1;
      assert pieces[k..][1..] == pieces[k + 1..];
      var piece := pieces[k];
      if !IsBlank(piece) {
        var items := ParseInline(macros, colors, Strip(piece));
        if items != [] {
          r := [Paragraph(items)] + r;
        }
      }
    }
    assert pieces[0..] == pieces;
  }

  /** The text before a block: when not blank, its trimmed paragraphs. */
  method TextParagraphs(macros: MacroTable, colors: ColorTable, text: string) returns (r: seq<Block>)
    ensures r == TextBlocks(macros, colors, text)
  {
    r := [];
    if !IsBlank(text) {
      r := ParagraphBlocks(macros, colors, Paragraphs(Strip(text), 0));
    }
  }

  /** The scan loop of `_parse_body` over the prepared text. */
  method ScanBody(macros: MacroTable, colors: ColorTable, resolve: string -> string, s: string)
    returns (blocks: seq<Block>, failure: Option<string>)
    ensures BodyResult(blocks, failure) == BodyFrom(macros, colors, resolve, s, 0)
  {
    blocks := [];
    var pos := 0;
    while pos < |s|
      invariant pos <= |s|
      invariant blocks + BodyFrom(macros, colors, resolve, s, pos).blocks == BodyFrom(macros, colors, resolve, s, 0).blocks
      invariant BodyFrom(macros, colors, resolve, s, pos).failure == BodyFrom(macros, colors, resolve, s, 0).failure
      decreases |s| - pos
    {
      var found := FirstFrom(BlockAt, s, pos);
      if found.None? {
        var text := TextParagraphs(macros, colors, s[pos..]);
        BodyLast(macros, colors, resolve, s, pos);
        blocks := blocks + text;
        pos := |s|;
      } else {
        var (i, (m, e)) := found.value;
        var text := TextParagraphs(macros, colors, s[pos..i]);
        if m.PageBreak? || m.BibliographyMatch? {
          BodyStops(macros, colors, resolve, s, pos, i, m, e);
          return blocks + text, Some(m.command);
        }
        BodyStep(macros, colors, resolve, s, pos, i, m, e);
        var rest := BodyFrom(macros, colors, resolve, s, e).blocks;
        Regroup(blocks, text, MatchBlocks(macros, colors, resolve, m), rest);
        blocks := blocks + text + MatchBlocks(macros, colors, resolve, m);
        pos := e;
      }
    }
    failure := None;
  }

  /** The last text of the scan, with no block after it. */
  lemma BodyLast(macros: MacroTable, colors: ColorTable, resolve: string -> string, s: string, pos: nat)
    requires pos < |s| && FirstFrom(BlockAt, s, pos).None?
    ensures BodyFrom(macros, colors, resolve, s, pos) == BodyResult(TextBlocks(macros, colors, s[pos..]), None)
    ensures BodyFrom(macros, colors, resolve, s, |s|) == BodyResult([], None)
  {
  }

  /** A page break or bibliography command ends the scan after the text before it. */
  lemma BodyStops(macros: MacroTable, colors: ColorTable, resolve: string -> string, s: string, pos: nat, i: nat, m: BlockMatch, e: nat)
    requires pos < |s| && FirstFrom(BlockAt, s, pos) == Some((i, (m, e)))
    requires m.PageBreak? || m.BibliographyMatch?
    ensures i <= |s|
    ensures BodyFrom(macros, colors, resolve, s, pos) == BodyResult(TextBlocks(macros, colors, s[pos..i]), Some(m.command))
  {
  }

  lemma Regroup<T>(a: seq<T>, b: seq<T>, c: seq<T>, d: seq<T>)
    ensures a + (b + c + d) == a + b + c + d
  {
  }

  /** The closing schema pass over the content. */
  method NormalizeBlocks(blocks: seq<Block>) returns (r: seq<Block>)
    ensures r == NormalizeAll(blocks)
  {
    r := [];
    for k := 0 to |blocks|
      invariant r + NormalizeAll(blocks[k..]) == NormalizeAll(blocks)
    {
      assert blocks[k..][1..] == blocks[k + 1..];
      r := r + [Normalize(blocks[k])];
    }
  }

  /** One turn of the `\newcommand` loop. */
  lemma DefineStep(t: MacroTable, d: (string, string), rest: seq<(string, string)>)
    requires UniqueNames(t)
    ensures UniqueNames(Define(t, d.0, d.1))
    ensures DefineAll(t, [d] + rest) == DefineAll(Define(t, d.0, d.1), rest)
  {
    DefineLookup(t, d.0, d.1, d.0);
    assert ([d] + rest)[1..] == rest;
  }

  /** One turn of the `\definecolor` loop. */
  lemma ColorStep(c: ColorTable, d: ColorDef, rest: seq<ColorDef>)
    ensures ApplyColors(c, [d] + rest) == ApplyColors(ApplyColor(c, d), rest)
  {
    assert ([d] + rest)[1..] == rest;
  }

  /** Every block of a converted document is well formed, so the schema pass has nothing left to fix. */
  lemma ConvertedWellFormed(latex: string, resolve: string -> string, d: Document)
    requires ConvertDoc(latex, resolve) == Some(d)
    ensures AllWellFormed(d.content)
    ensures NormalizeAll(d.content) == d.content
  {
    var (preamble, body) := SplitDocument(latex);
    var cleaned := Prepare(preamble);
    var macros := DefineAll([], NewCommands(cleaned, 0));
    var colors := ApplyColors(Palette, ColorDefinitions(cleaned, 0));
    var p := PreambleOf(macros, Expand(macros, cleaned, 0));
    var r := Body.ParseBody(macros, colors, resolve, body);
    BodyWellFormed(macros, colors, resolve, Prepare(body), 0);
    WellFormedConcat([], TitleBlocks(p.title), r.blocks);
    NormalizeWellFormed([] + TitleBlocks(p.title) + r.blocks);
  }

  /** Nothing to read in an empty preamble: no definitions, no title, author or paths. */
  lemma EmptyPreamble()
    ensures Prepare("") == ""
    ensures NewCommands("", 0) == [] && ColorDefinitions("", 0) == []
    ensures Expand([], "", 0) == ""
    ensures PreambleOf([], "") == Preamble(None, None, None)
  {
    assert FirstFrom(CommentAt, "", 0).None?;
    assert IndexOf("", IgnoreStart, 0).None?;
    assert FirstFrom(NewCommandAt, "", 0).None?;
    assert FirstFrom(DefineColorAt, "", 0).None?;
    assert FirstFrom(GraphicsPathAt, "", 0).None?;
  }

  /**
   * Without `\begin{document}` the whole text is the body: the title and
   * author keep their defaults and the content is what the body scan finds.
   */
  lemma NoDocumentEnvironment(latex: string, resolve: string -> string)
    requires IndexOf(latex, "\\begin{document}", 0).None?
    ensures var r := Body.ParseBody([], Palette, resolve, latex);
      ConvertDoc(latex, resolve) == if r.failure.Some? then None else Some(Document(DefaultTitle, DefaultAuthor, r.blocks))
  {
    EmptyPreamble();
    var r := Body.ParseBody([], Palette, resolve, latex);
    BodyWellFormed([], Palette, resolve, Prepare(latex), 0);
    NormalizeWellFormed(r.blocks);
    var none: seq<Block> := [];
    assert none + TitleBlocks(None) + r.blocks == r.blocks;
  }

  /** A non-default title, when the conversion succeeds, opens the content as the title paragraph. */
  lemma TitleFirst(latex: string, resolve: string -> string, d: Document)
    requires ConvertDoc(latex, resolve) == Some(d)
    requires d.title != DefaultTitle && d.title != ""
    ensures d.content != [] && d.content[0] == TitleParagraph([TextRun(d.title, NoFormat)])
  {
    ConvertedWellFormed(latex, resolve, d);
    var (preamble, body) := SplitDocument(latex);
    var cleaned := Prepare(preamble);
    var macros := DefineAll([], NewCommands(cleaned, 0));
    var colors := ApplyColors(Palette, ColorDefinitions(cleaned, 0));
    var p := PreambleOf(macros, Expand(macros, cleaned, 0));
    var r := Body.ParseBody(macros, colors, resolve, body);
    assert p.title == Some(d.title);
    BodyWellFormed(macros, colors, resolve, Prepare(body), 0);
    WellFormedConcat([], TitleBlocks(p.title), r.blocks);
    NormalizeWellFormed([] + TitleBlocks(p.title) + r.blocks);
    assert ([] + TitleBlocks(p.title) + r.blocks)[0] == TitleBlocks(p.title)[0];
  }

  /** When every part has text, every part is kept, trimmed, in order. */
  lemma {:induction false} KeptPathsAll(parts: seq<string>)
    requires forall k :: 0 <= k < |parts| ==> !IsBlank(parts[k])
    ensures KeptPaths(parts) == StripAll(parts)
  {
    if parts != [] {
      KeptPathsAll(parts[1..]);
      assert StripAll(parts) == [Strip(parts[0])] + StripAll(parts[1..]);
    }
  }

  /** A blank part is dropped. */
  lemma KeptPathsBlank(p: string, parts: seq<string>)
    requires IsBlank(p)
    ensures KeptPaths([p] + parts) == KeptPaths(parts)
  {
    assert ([p] + parts)[1..] == parts;
  }

  /** The lazy group of the graphics-path pattern ends at the first `}` followed by another. */
  lemma {:induction false} PathsCloseAt(s: string, j: nat, c: nat)
    requires j <= c && ClosesPaths(s, c)
    requires forall k :: j <= k < c ==> s[k] != '}'
    ensures PathsClose(s, j) == Some(c)
    decreases c - j
  {
    if j < c {
      assert PathsClose(s, j + 1) == Some(c) by { PathsCloseAt(s, j + 1, c); }
      assert PathsClose(s, j) == PathsClose(s, j + 1) by { PathsCloseSkips(s, j); }
    } else {
      PathsCloseHere(s, j);
    }
  }

  lemma PathsCloseSkips(s: string, j: nat)
    requires j < |s| && s[j] != '}'
    ensures PathsClose(s, j) == PathsClose(s, j + 1)
  {
    assert !ClosesPaths(s, j);
  }

  lemma PathsCloseHere(s: string, c: nat)
    requires ClosesPaths(s, c)
    ensures PathsClose(s, c) == Some(c)
  {
  }

  /** `\graphicspath{{g}}` with no `}` inside `g` gives the group `g` and ends the text. */
  lemma GraphicsPathWhole(s: string, g: string)
    requires s == "\\graphicspath{{" + g + "}}" && '}' !in g
    ensures GraphicsPathAt(s, 0) == Some((g, |s|))
  {
    assert s[..14] == "\\graphicspath{";
    assert s[14] == '{';
    var c := 15 + |g|;
    assert s[c] == '}' && s[c + 1] == '}';
    assert SkipSpaces(s, 14) == 14;
    assert SkipSpaces(s, c + 1) == c + 1;
    forall k | 15 <= k < c ensures s[k] != '}' { assert s[k] == g[k - 15]; }
    PathsCloseAt(s, 15, c);
    assert s[15..c] == g;
  }

  /** A pattern opening with a backslash is first found where the first backslash from `i` starts it. */
  lemma FirstCommand(s: string, pat: string, i: nat, j: nat)
    requires |pat| > 0 && pat[0] == '\\'
    requires i <= j && At(s, pat, j)
    requires forall k :: i <= k < j ==> s[k] != '\\'
    ensures IndexOf(s, pat, i) == Some(j)
  {
    forall k | i <= k < j ensures !At(s, pat, k) {
      NotAt(s, pat, k, 0);
    }
    IndexOfFirst(s, pat, i, j);
  }

  /** The document environment splits the text: the preamble before it and the body inside it. */
  lemma DocumentSplit(latex: string, x: string, y: string, z: string)
    requires latex == x + "\\begin{document}" + y + "\\end{document}" + z
    requires '\\' !in x && '\\' !in y
    ensures SplitDocument(latex) == (x, y)
  {
    var i := |x|;
    var e := i + 16 + |y|;
    assert latex[i..i + 16] == "\\begin{document}";
    assert latex[e..e + 14] == "\\end{document}";
    assert latex[..i] == x;
    assert latex[i + 16..e] == y;
    FirstCommand(latex, "\\begin{document}", 0, i);
    FirstCommand(latex, "\\end{document}", i + 16, e);
  }
}
