/**
 * The line-based converter: `key=value` options of `\includegraphics`, and
 * the scan over the stripped lines of a LaTeX text that tracks two list
 * flags and a pending paragraph and writes titles, headings, images, list
 * items and paragraphs as JSON elements.
 */
module TexLines {
  import opened Text
  import opened TexMarkers
  import opened TexCitations

  /** The rest of the line from `v`: what a greedy `(.*)` takes there, up to a newline. */
  function RestOfLine(s: string, v: nat): (r: string)
    requires v <= |s|
    ensures '\n' !in r
  {
    match IndexOf(s, "\n", v)
    case Some(n) =>
      forall k | v <= k < n ensures s[k] != '\n' { NotNewline(s, k); }
      s[v..n]
    case None =>
      forall k | v <= k < |s| ensures s[k] != '\n' { NotNewline(s, k); }
      s[v..]
  }

  lemma NotNewline(s: string, k: nat)
    requires k < |s| && !At(s, "\n", k)
    ensures s[k] != '\n'
  {
    assert s[k..k + 1] == [s[k]];
  }

  /** `re.match(r'\s*(.*?)\s*=\s*(.*)\s*', part)`: the key and the value it captures, both trimmed. */
  function OptionOf(part: string): (r: Option<(string, string)>)
    ensures r.Some? ==> '=' !in r.value.0 && Strip(r.value.0) == r.value.0 && Strip(r.value.1) == r.value.1
  {
    match IndexOf(part, "=", 0)
    case None => None
    case Some(e) =>
      var key := Strip(part[..e]);
      if '\n' in key then None
      else
        KeyFacts(part, e);
        StripTwice(RestOfLine(part, SkipSpaces(part, e + 1)));
        Some((key, Strip(RestOfLine(part, SkipSpaces(part, e + 1)))))
  }

  /** The text before the first `=`, trimmed, has no `=` and is trimmed already. */
  lemma KeyFacts(part: string, e: nat)
    requires IndexOf(part, "=", 0) == Some(e)
    ensures '=' !in Strip(part[..e]) && Strip(Strip(part[..e])) == Strip(part[..e])
  {
    forall k | 0 <= k < e ensures part[..e][k] != '=' {
      assert !At(part, "=", k);
      assert part[k..k + 1] == [part[k]];
    }
    AbsentFromPart(part[..e], Strip(part[..e]), '=');
    StripTwice(part[..e]);
  }

  /** The options of the comma-separated parts, in order: a later key overwrites an earlier one. */
  function OptionsOf(parts: seq<string>): map<string, string>
  {
    if parts == [] then map[] else With(OptionsOf(parts[..|parts| - 1]), OptionOf(parts[|parts| - 1]))
  }

  /** The options `m` once the pair `o`, if any, is set in them. */
  function With(m: map<string, string>, o: Option<(string, string)>): map<string, string> {
    if o.Some? then m[o.value.0 := o.value.1] else m
  }

  /** `parse_latex_options`: no options for a missing or empty group. */
  function Options(s: Option<string>): (r: map<string, string>)
    ensures s.None? || s.value == "" ==> r == map[]
  {
    if s.None? || s.value == "" then map[] else OptionsOf(Split(s.value, ","))
  }

  /** `parse_latex_options`, filling the dictionary part by part. */
  method ParseLatexOptions(s: Option<string>) returns (options: map<string, string>)
    ensures options == Options(s)
  {
    options := map[];
    if s.None? || s.value == "" {
      return;
    }
    var parts := Split(s.value, ",");
    for i := 0 to |parts|
      invariant options == OptionsOf(parts[..i])
    {
      assert parts[..i + 1][..i] == parts[..i];
      var o := OptionOf(parts[i]);
      if o.Some? {
        options := options[o.value.0 := o.value.1];
      }
    }
    assert parts[..|parts|] == parts;
  }

  /** A key is set exactly when some part defines it. */
  lemma {:induction false} OptionsKeys(parts: seq<string>, key: string)
    ensures key in OptionsOf(parts) <==>
      exists i :: 0 <= i < |parts| && OptionOf(parts[i]).Some? && OptionOf(parts[i]).value.0 == key
  {
    if parts != [] {
      var init := parts[..|parts| - 1];
      OptionsKeys(init, key);
      if key in OptionsOf(parts) && key !in OptionsOf(init) {
        var i := |parts| - 1;
        assert OptionOf(parts[i]).Some? && OptionOf(parts[i]).value.0 == key;
      }
      if exists i :: 0 <= i < |parts| && OptionOf(parts[i]).Some? && OptionOf(parts[i]).value.0 == key {
        var i :| 0 <= i < |parts| && OptionOf(parts[i]).Some? && OptionOf(parts[i]).value.0 == key;
        if i < |parts| - 1 {
          assert init[i] == parts[i];
        }
      }
      if key in OptionsOf(init) {
        var i :| 0 <= i < |init| && OptionOf(init[i]).Some? && OptionOf(init[i]).value.0 == key;
        assert parts[i] == init[i];
      }
    }
  }

  /** The value of a key is the one its last defining part gives. */
  lemma {:induction false} LastKeyWins(parts: seq<string>, i: nat)
    requires i < |parts| && OptionOf(parts[i]).Some?
    requires forall j :: i < j < |parts| ==> OptionOf(parts[j]).None? || OptionOf(parts[j]).value.0 != OptionOf(parts[i]).value.0
    ensures OptionOf(parts[i]).value.0 in OptionsOf(parts)
    ensures OptionsOf(parts)[OptionOf(parts[i]).value.0] == OptionOf(parts[i]).value.1
  {
    var init := parts[..|parts| - 1];
    var o := OptionOf(parts[i]);
    if i < |parts| - 1 {
      assert init[i] == parts[i];
      forall j | i < j < |init| ensures OptionOf(init[j]).None? || OptionOf(init[j]).value.0 != o.value.0 {
        assert init[j] == parts[j];
      }
      LastKeyWins(init, i);
      var last := OptionOf(parts[|parts| - 1]);
      assert last.None? || last.value.0 != o.value.0;
      assert OptionsOf(parts) == With(OptionsOf(init), last);
    }
  }

  /** A part without `=` is skipped. */
  lemma NoEqualsIgnored(parts: seq<string>, p: string)
    requires '=' !in p
    ensures OptionsOf(parts + [p]) == OptionsOf(parts)
  {
    assert (parts + [p])[..|parts|] == parts;
    assert IndexOf(p, "=", 0).None? by {
      AbsentByChar(p, "=", 0);
    }
  }

  /** Every key and every value of the options is trimmed, and no key holds `=`. */
  lemma {:induction false} OptionsTrimmed(parts: seq<string>)
    ensures forall k :: k in OptionsOf(parts) ==> '=' !in k && Strip(k) == k && Strip(OptionsOf(parts)[k]) == OptionsOf(parts)[k]
  {
    if parts != [] {
      OptionsTrimmed(parts[..|parts| - 1]);
    }
  }

  /** `key=value`, both trimmed and without newlines, the key without `=`, is read back as that pair. */
  lemma OptionPair(key: string, value: string)
    requires Strip(key) == key && Strip(value) == value
    requires '=' !in key && '\n' !in key && '\n' !in value
    ensures OptionOf(key + "=" + value) == Some((key, value))
  {
    var part := key + "=" + value;
    var e := |key|;
    forall k | 0 <= k < e ensures part[k] != '=' { assert part[k] == key[k]; }
    IndexOfChar(part, '=', 0, e);
    assert part[..e] == key;
    var v := SkipSpaces(part, e + 1);
    if value == "" {
      assert v == |part|;
    } else {
      assert part[e + 1] == value[0];
      assert v == e + 1;
    }
    assert part[e + 1..] == value;
    forall k | e + 1 <= k < |part| ensures !At(part, "\n", k) {
      assert part[k] == value[k - e - 1];
      NotAt(part, "\n", k, 0);
    }
    assert IndexOf(part, "\n", v).None?;
  }

  /** An element of the JSON the line-based converter builds. */
  datatype Element =
    | Paragraph(content: seq<InlineElement>)
    | BulletItem(content: seq<InlineElement>)
    | OrderedItem(content: seq<InlineElement>)
    | Title(text: string)
    | Heading1(text: string)
    | Heading2(text: string)
    | Image(path: string, options: map<string, string>)

  /**
   * What the scan records for an element before its text is processed: the
   * pending paragraph text, an item's text, a heading's argument, or an
   * image's path and option group.
   */
  datatype Block =
    | Para(text: string)
    | Item(text: string, bullet: bool)
    | TitleArg(arg: string)
    | SectionArg(arg: string)
    | SubsectionArg(arg: string)
    | Picture(path: string, options: Option<string>)

  /** The element a block becomes once its text is processed. */
  function Render(b: Block): Element {
    match b
    case Para(t) => Paragraph(Elements(Strip(t), 0))
    case Item(t, bullet) => if bullet then BulletItem(Elements(t, 0)) else OrderedItem(Elements(t, 0))
    case TitleArg(g) => Title(ApplyBasicFormatting(Strip(g)))
    case SectionArg(g) => Heading1(ApplyBasicFormatting(Strip(g)))
    case SubsectionArg(g) => Heading2(ApplyBasicFormatting(Strip(g)))
    case Picture(p, o) => Image(Strip(p), Options(o))
  }

  /** The elements of the blocks, in order. */
  function RenderAll(bs: seq<Block>): (r: seq<Element>)
    ensures |r| == |bs| && forall k :: 0 <= k < |bs| ==> r[k] == Render(bs[k])
  {
    if bs == [] then [] else [Render(bs[0])] + RenderAll(bs[1..])
  }

  /** Rendering distributes over concatenation. */
  lemma RenderAppend(a: seq<Block>, b: seq<Block>)
    ensures RenderAll(a + b) == RenderAll(a) + RenderAll(b)
  {
    assert RenderAll(a + b) == RenderAll(a) + RenderAll(b) by {
      forall k | 0 <= k < |a| + |b| ensures RenderAll(a + b)[k] == (RenderAll(a) + RenderAll(b))[k] {
        if k < |a| {
          assert (a + b)[k] == a[k];
        } else {
          assert (a + b)[k] == b[k - |a|];
        }
      }
    }
  }

  /** The scan's state: the blocks so far, the pending paragraph text and the two list flags. */
  datatype Scan = Scan(out: seq<Block>, pending: string, inItemize: bool, inEnumerate: bool)

  const Start: Scan := Scan([], "", false, false)

  /** The paragraph the pending text makes, if there is any. */
  function Flushed(pending: string): (r: seq<Block>)
    ensures |r| <= 1
  {
    if pending == "" then [] else [Para(pending)]
  }

  /** The pending paragraph written out, then `more`, with nothing left pending. */
  function Emit(st: Scan, more: seq<Block>): (r: Scan)
    ensures r.pending == "" && r.inItemize == st.inItemize && r.inEnumerate == st.inEnumerate
    ensures r.out == st.out + Flushed(st.pending) + more
  {
    st.(out := st.out + Flushed(st.pending) + more, pending := "")
  }

  /** `re.match(r'\\item\s*(.*)', line)`: the item text, trimmed. */
  function ItemOf(line: string): (r: Option<string>)
    ensures r.Some? ==> At(line, "\\item", 0) && Strip(r.value) == r.value
  {
    if At(line, "\\item", 0) then
      StripTwice(RestOfLine(line, SkipSpaces(line, 5)));
      Some(Strip(RestOfLine(line, SkipSpaces(line, 5))))
    else None
  }

  /** The last `c` in `s[lo..hi]`. */
  function LastIndex(s: string, c: char, lo: nat, hi: nat): (r: Option<nat>)
    requires lo <= hi <= |s|
    ensures r.Some? ==> lo <= r.value < hi && s[r.value] == c
    ensures r.Some? ==> forall k :: r.value < k < hi ==> s[k] != c
    ensures r.None? ==> forall k :: lo <= k < hi ==> s[k] != c
    decreases hi
  {
    if hi == lo then None
    else if s[hi - 1] == c then Some(hi - 1)
    else LastIndex(s, c, lo, hi - 1)
  }

  /**
   * `re.match(opener + r'(.*)\}', line)` where `opener` ends in `{`: the
   * greedy group runs to the last `}` before the first newline.
   */
  function GreedyArgument(line: string, opener: string): (r: Option<string>)
    ensures r.Some? ==> At(line, opener, 0)
  {
    if !At(line, opener, 0) then None
    else
      var a := |opener|;
      var n := match IndexOf(line, "\n", a) case Some(n) => n case None => |line|;
      match LastIndex(line, '}', a, n)
      case Some(c) => Some(line[a..c])
      case None => None
  }

  const TitleOpener: string := "\\title{"
  const SectionOpener: string := "\\section{"
  const SubsectionOpener: string := "\\subsection{"
  const GraphicsCommand: string := "\\includegraphics"

  /** The title, section or subsection argument of a line, tried in that order. */
  function HeadingBlock(line: string): (r: Option<Block>)
    ensures r.Some? ==> r.value.TitleArg? || r.value.SectionArg? || r.value.SubsectionArg?
  {
    if GreedyArgument(line, TitleOpener).Some? then Some(TitleArg(GreedyArgument(line, TitleOpener).value))
    else if GreedyArgument(line, SectionOpener).Some? then Some(SectionArg(GreedyArgument(line, SectionOpener).value))
    else if GreedyArgument(line, SubsectionOpener).Some? then Some(SubsectionArg(GreedyArgument(line, SubsectionOpener).value))
    else None
  }

  /** `re.match(r'\\includegraphics(?:\[(.*?)\])?\{(.*?)\}', line)`: the image path and its option group. */
  function ImageBlock(line: string): (r: Option<Block>)
    ensures r.Some? ==> r.value.Picture?
  {
    match BracketedAt(line, GraphicsCommand, 0)
    case Some(m) => Some(Picture(m.argument, m.option))
    case None => None
  }

  /** The four lines that open or close a list. */
  predicate IsListMarker(line: string) {
    line == "\\end{itemize}" || line == "\\end{enumerate}" || line == "\\begin{itemize}" || line == "\\begin{enumerate}"
  }

  /** One stripped line of `parse_latex_to_json`'s loop: list markers first, then the lines inside a list, then the rest. */
  function Next(st: Scan, line: string): Scan
  {
    if IsListMarker(line) then AtListMarker(st, line)
    else if st.inItemize || st.inEnumerate then InList(st, line)
    else Outside(st, line)
  }

  /** A line that opens or closes a list ends the pending paragraph and sets that list's flag. */
  function AtListMarker(st: Scan, line: string): Scan
  {
    if line == "\\end{itemize}" then Emit(st, []).(inItemize := false)
    else if line == "\\end{enumerate}" then Emit(st, []).(inEnumerate := false)
    else if line == "\\begin{itemize}" then Emit(st, []).(inItemize := true)
    else Emit(st, []).(inEnumerate := true)
  }

  /**
   * Inside a list, an `\item` line ends the pending paragraph and adds an
   * item, a bullet item when the itemize flag is set; any other line, a
   * blank one too, is added to the pending text after a space.
   */
  function InList(st: Scan, line: string): Scan
  {
    match ItemOf(line)
    case Some(x) => Emit(st, [Item(x, st.inItemize)])
    case None => st.(pending := st.pending + " " + line)
  }

  /** Outside a list: a blank line, a heading or an image ends the pending paragraph; other lines are added to it. */
  function Outside(st: Scan, line: string): Scan
  {
    if line == "" then Emit(st, [])
    else if HeadingBlock(line).Some? then Emit(st, [HeadingBlock(line).value])
    else if ImageBlock(line).Some? then Emit(st, [ImageBlock(line).value])
    else st.(pending := if st.pending != "" then st.pending + " " + line else line)
  }

  /** The scan over the remaining raw lines, each stripped first. */
  function Feed(st: Scan, lines: seq<string>): Scan
    decreases |lines|
  {
    if lines == [] then st else Feed(Next(st, Strip(lines[0])), lines[1..])
  }

  /** Where the line starting at `i` ends for `str.splitlines`. */
  function LineEnd(s: string, i: nat): (r: nat)
    requires i <= |s|
    ensures i <= r <= |s| && (r < |s| ==> IsLineBreak(s[r]))
    ensures forall k :: i <= k < r ==> !IsLineBreak(s[k])
    decreases |s| - i
  {
    if i == |s| || IsLineBreak(s[i]) then i else LineEnd(s, i + 1)
  }

  /** `str.splitlines()`: `\r\n` is one break, and a final break opens no empty line. */
  function SplitLines(s: string): (r: seq<string>)
    decreases |s|
  {
    if s == [] then []
    else
      var e := LineEnd(s, 0);
      var next := if e + 1 < |s| && s[e] == '\r' && s[e + 1] == '\n' then e + 2 else if e < |s| then e + 1 else e;
      [s[..e]] + SplitLines(s[next..])
  }

  /** `parse_latex_to_json`: the scan over the lines, then whatever paragraph is still pending, rendered. */
  function Parsed(latex: string): seq<Element> {
    var st := Feed(Start, SplitLines(latex));
    RenderAll(st.out + Flushed(st.pending))
  }

  /** Renders the pending paragraph, if any, after `out`. */
  method Flush(out: seq<Element>, pending: string) returns (r: seq<Element>)
    ensures r == out + RenderAll(Flushed(pending))
  {
    r := out;
    if pending != "" {
      var content := ProcessInlineElements(Strip(pending));
      r := r + [Paragraph(content)];
    }
  }

  /** Renders one block, processing its text as the converter does at that point. */
  method RenderBlock(b: Block) returns (e: Element)
    ensures e == Render(b)
  {
    match b
    case Para(t) =>
      var content := ProcessInlineElements(Strip(t));
      e := Paragraph(content);
    case Item(t, bullet) =>
      var content := ProcessInlineElements(t);
      e := if bullet then BulletItem(content) else OrderedItem(content);
    case TitleArg(g) => e := Title(ApplyBasicFormatting(Strip(g)));
    case SectionArg(g) => e := Heading1(ApplyBasicFormatting(Strip(g)));
    case SubsectionArg(g) => e := Heading2(ApplyBasicFormatting(Strip(g)));
    case Picture(p, o) =>
      var options := ParseLatexOptions(o);
      e := Image(Strip(p), options);
  }

  /** Ends the pending paragraph and adds the block `b`, if any: the next state, and the elements appended to the output. */
  method EmitBlock(st: Scan, b: Option<Block>) returns (next: Scan, added: seq<Element>)
    ensures next == Emit(st, if b.Some? then [b.value] else [])
    ensures RenderAll(next.out) == RenderAll(st.out) + added
  {
    var more: seq<Block> := if b.Some? then [b.value] else [];
    next := Emit(st, more);
    added := Flush([], st.pending);
    if b.Some? {
      var e := RenderBlock(b.value);
      added := added + [e];
    }
    assert next.out == st.out + (Flushed(st.pending) + more);
    RenderAppend(st.out, Flushed(st.pending) + more);
    RenderAppend(Flushed(st.pending), more);
  }

  /**
   * The body of `parse_latex_to_json`'s loop for one stripped line: the next
   * state, and the elements the line appends to the JSON output.
   */
  method ParseLine(st: Scan, line: string) returns (next: Scan, added: seq<Element>)
    ensures next == Next(st, line)
    ensures RenderAll(next.out) == RenderAll(st.out) + added
  {
    if IsListMarker(line) {
      next, added := EmitBlock(st, None);
      if line == "\\end{itemize}" {
        next := next.(inItemize := false);
      } else if line == "\\end{enumerate}" {
        next := next.(inEnumerate := false);
      } else if line == "\\begin{itemize}" {
        next := next.(inItemize := true);
      } else {
        next := next.(inEnumerate := true);
      }
    } else if st.inItemize || st.inEnumerate {
      var item := ItemOf(line);
      if item.Some? {
        next, added := EmitBlock(st, Some(Item(item.value, st.inItemize)));
      } else {
        next, added := st.(pending := st.pending + " " + line), [];
      }
    } else if line == "" {
      next, added := EmitBlock(st, None);
    } else if HeadingBlock(line).Some? {
      next, added := EmitBlock(st, HeadingBlock(line));
    } else if ImageBlock(line).Some? {
      next, added := EmitBlock(st, ImageBlock(line));
    } else {
      next := st.(pending := if st.pending != "" then st.pending + " " + line else line);
      added := [];
    }
  }

  /** `parse_latex_to_json`. */
  method ParseLatexToJson(latex: string) returns (out: seq<Element>)
    ensures out == Parsed(latex)
  {
    var lines := SplitLines(latex);
    var st := Start;
    out := [];
    for i := 0 to |lines|
      invariant Feed(st, lines[i..]) == Feed(Start, lines)
      invariant out == RenderAll(st.out)
    {
      assert lines[i..][1..] == lines[i + 1..];
      var added;
      st, added := ParseLine(st, Strip(lines[i]));
      out := out + added;
    }
    assert lines[|lines|..] == [];
    out := Flush(out, st.pending);
    RenderAppend(st.out, Flushed(st.pending));
  }

  /** The scan over `a + b` is the scan over `a`, continued over `b`. */
  lemma {:induction false} FeedAppend(st: Scan, a: seq<string>, b: seq<string>)
    ensures Feed(st, a + b) == Feed(Feed(st, a), b)
    decreases |a|
  {
    if a != [] {
      assert (a + b)[1..] == a[1..] + b;
      FeedAppend(Next(st, Strip(a[0])), a[1..], b);
    } else {
      assert a + b == b;
    }
  }

  /** A stripped, non-blank line that no branch of the scan recognises. */
  predicate Ordinary(line: string) {
    Strip(line) == line && line != "" && !IsListMarker(line)
    && HeadingBlock(line).None? && ImageBlock(line).None?
  }

  /** The pending text once `lines` are added to it, separated by single spaces. */
  function Joined(pending: string, lines: seq<string>): string {
    if pending == "" then Join(" ", lines) else pending + " " + Join(" ", lines)
  }

  /** Outside a list, consecutive ordinary lines become one pending paragraph, joined by single spaces. */
  lemma {:induction false} OrdinaryLinesJoin(st: Scan, lines: seq<string>)
    requires !st.inItemize && !st.inEnumerate && lines != []
    requires forall k :: 0 <= k < |lines| ==> Ordinary(lines[k])
    ensures Feed(st, lines) == st.(pending := Joined(st.pending, lines))
    decreases |lines|
  {
    var l := lines[0];
    OrdinaryStep(st, l);
    var st1 := Next(st, l);
    assert Feed(st, lines) == Feed(st1, lines[1..]);
    if |lines| > 1 {
      var rest := lines[1..];
      OrdinaryLinesJoin(st1, rest);
      assert Join(" ", lines) == l + " " + Join(" ", rest);
      assert Joined(st1.pending, rest) == st1.pending + " " + Join(" ", rest);
      Regroup(st.pending + " ", l, " ", Join(" ", rest));
      assert Joined(st.pending, lines) == Joined(st1.pending, rest);
      assert Feed(st, lines) == st1.(pending := Joined(st1.pending, rest));
    } else {
      assert lines[1..] == [];
      assert Join(" ", lines) == l;
    }
  }

  /** An ordinary line outside a list is added to the pending text, after a space if there is any. */
  lemma OrdinaryStep(st: Scan, l: string)
    requires !st.inItemize && !st.inEnumerate && Ordinary(l)
    ensures Next(st, l) == st.(pending := if st.pending != "" then st.pending + " " + l else l)
  {
  }

  /** A paragraph-ending line writes the pending paragraph first and at most one block of its own after it. */
  lemma FlushesFirst(st: Scan, line: string)
    requires IsListMarker(line) || (!st.inItemize && !st.inEnumerate
      && (line == "" || HeadingBlock(line).Some? || ImageBlock(line).Some?))
    ensures Next(st, line).pending == ""
    ensures |st.out| + |Flushed(st.pending)| <= |Next(st, line).out| <= |st.out| + |Flushed(st.pending)| + 1
    ensures Next(st, line).out[..|st.out| + |Flushed(st.pending)|] == st.out + Flushed(st.pending)
  {
  }

  /** Inside a list, a blank line adds a lone space to the pending text, which the list's end turns into an empty paragraph. */
  lemma BlankLineInList(st: Scan)
    requires (st.inItemize || st.inEnumerate) && st.pending == ""
    ensures Next(st, "").pending == " "
    ensures Next(Next(st, ""), "\\end{itemize}").out == st.out + [Para(" ")]
    ensures Render(Para(" ")) == Paragraph([])
  {
    assert !At("", "\\item", 0);
    assert IsBlank(" ");
  }

  /** Text an `\item` line can carry so that it comes back unchanged. */
  predicate PlainItem(x: string) {
    x != "" && !IsSpace(x[0]) && !IsSpace(x[|x| - 1]) && '\n' !in x
  }

  /** The `\item` lines of the texts `xs`. */
  function ItemLines(xs: seq<string>): (r: seq<string>)
    ensures |r| == |xs|
  {
    if xs == [] then [] else ["\\item " + xs[0]] + ItemLines(xs[1..])
  }

  /** The item blocks of the texts `xs`, bullet items or numbered ones. */
  function ItemBlocks(xs: seq<string>, bullet: bool): (r: seq<Block>)
    ensures |r| == |xs|
  {
    if xs == [] then [] else [Item(xs[0], bullet)] + ItemBlocks(xs[1..], bullet)
  }

  /** `\item x` is stripped already, opens no list, and carries the text `x`. */
  lemma ItemLine(x: string)
    requires PlainItem(x)
    ensures Strip("\\item " + x) == "\\item " + x
    ensures !IsListMarker("\\item " + x)
    ensures ItemOf("\\item " + x) == Some(x)
  {
    var line := "\\item " + x;
    assert line[|line| - 1] == x[|x| - 1];
    StripTrimmed(line);
    StripTrimmed(x);
    assert line[1] == 'i';
    MarkerSecond(line);
    assert line[..5] == "\\item";
    assert SkipSpaces(line, 5) == 6 by {
      assert line[6] == x[0];
    }
    assert line[6..] == x;
    forall k | 6 <= k < |line| ensures !At(line, "\n", k) {
      assert line[k] == x[k - 6];
      NotAt(line, "\n", k, 0);
    }
    assert IndexOf(line, "\n", 6).None?;
  }

  /** The second character of a list marker line is the `b` of `begin` or the `e` of `end`. */
  lemma MarkerSecond(line: string)
    ensures IsListMarker(line) ==> |line| > 1 && (line[1] == 'b' || line[1] == 'e')
  {
  }

  /** Inside a list with nothing pending, an `\item` line adds one item of that list's kind. */
  lemma ItemStep(st: Scan, x: string)
    requires (st.inItemize || st.inEnumerate) && st.pending == "" && PlainItem(x)
    ensures Next(st, "\\item " + x) == st.(out := st.out + [Item(x, st.inItemize)])
  {
    var line := "\\item " + x;
    ItemLine(x);
    assert Next(st, line) == Emit(st, [Item(x, st.inItemize)]);
    DropEmpty(st.out, Flushed(st.pending), [Item(x, st.inItemize)]);
  }

  /** Inside a list, each `\item` line becomes one item of that list's kind. */
  lemma {:induction false} ListBody(st: Scan, xs: seq<string>)
    requires (st.inItemize || st.inEnumerate) && st.pending == ""
    requires forall k :: 0 <= k < |xs| ==> PlainItem(xs[k])
    ensures Feed(st, ItemLines(xs)) == st.(out := st.out + ItemBlocks(xs, st.inItemize))
    decreases |xs|
  {
    if xs != [] {
      var item := Item(xs[0], st.inItemize);
      var st1 := st.(out := st.out + [item]);
      ItemFed(st, xs);
      ListBody(st1, xs[1..]);
      assert ItemBlocks(xs, st.inItemize) == [item] + ItemBlocks(xs[1..], st.inItemize);
      Reassoc(st.out, [item], ItemBlocks(xs[1..], st.inItemize));
    }
  }

  /** The scan over `\item` lines takes the first one as an item and goes on with the rest. */
  lemma ItemFed(st: Scan, xs: seq<string>)
    requires (st.inItemize || st.inEnumerate) && st.pending == ""
    requires xs != [] && PlainItem(xs[0])
    ensures Feed(st, ItemLines(xs)) == Feed(st.(out := st.out + [Item(xs[0], st.inItemize)]), ItemLines(xs[1..]))
  {
    var line := "\\item " + xs[0];
    ItemLine(xs[0]);
    ItemStep(st, xs[0]);
    assert ItemLines(xs) == [line] + ItemLines(xs[1..]);
  }

  lemma Reassoc<T>(a: seq<T>, b: seq<T>, c: seq<T>)
    ensures a + b + c == a + (b + c)
  {
  }

  lemma DropEmpty<T>(a: seq<T>, e: seq<T>, b: seq<T>)
    requires e == []
    ensures a + e + b == a + b
  {
  }

  /** A whole `itemize` environment of `\item` lines writes the pending paragraph, then one bullet item per line, and leaves the list. */
  lemma ItemizeBlock(st: Scan, xs: seq<string>)
    requires forall k :: 0 <= k < |xs| ==> PlainItem(xs[k])
    ensures Feed(st, ["\\begin{itemize}"] + ItemLines(xs) + ["\\end{itemize}"])
         == st.(out := st.out + Flushed(st.pending) + ItemBlocks(xs, true), pending := "", inItemize := false)
  {
    var open, close := "\\begin{itemize}", "\\end{itemize}";
    OpenItemize(st);
    var st1 := st.(out := st.out + Flushed(st.pending), pending := "", inItemize := true);
    FeedAppend(st, [open], ItemLines(xs) + [close]);
    assert [open] + ItemLines(xs) + [close] == [open] + (ItemLines(xs) + [close]);
    FeedAppend(st1, ItemLines(xs), [close]);
    ListBody(st1, xs);
    CloseItemize(st1.(out := st1.out + ItemBlocks(xs, true)));
  }

  /** `\begin{itemize}` ends the pending paragraph and enters the list. */
  lemma OpenItemize(st: Scan)
    ensures Feed(st, ["\\begin{itemize}"]) == st.(out := st.out + Flushed(st.pending), pending := "", inItemize := true)
  {
    var open := "\\begin{itemize}";
    StripTrimmed(open);
    assert Feed(st, [open]) == Next(st, open);
    DropEmpty(st.out + Flushed(st.pending), [], []);
  }

  /** `\end{itemize}`, with nothing pending, only leaves the list. */
  lemma CloseItemize(st: Scan)
    requires st.pending == ""
    ensures Feed(st, ["\\end{itemize}"]) == st.(inItemize := false)
  {
    var close := "\\end{itemize}";
    StripTrimmed(close);
    assert Feed(st, [close]) == Next(st, close);
    DropEmpty(st.out, Flushed(st.pending), []);
  }

  /** `\section{x}`, for text without braces, backslashes or newlines, is a first-level heading of `x`. */
  lemma SectionHeading(st: Scan, x: string)
    requires !st.inItemize && !st.inEnumerate
    requires Strip(x) == x && '}' !in x && '\\' !in x && '\n' !in x
    ensures Next(st, SectionOpener + x + "}") == Emit(st, [SectionArg(x)])
    ensures Render(SectionArg(x)) == Heading1(x)
  {
    SectionArgument(x);
    NoCommand(x, BoldCommand);
    NoCommand(x, ItalicCommand);
    FormattingUnchanged(x);
  }

  /** `\section{x}` is no list marker and no title, and its greedy group is `x`. */
  lemma SectionArgument(x: string)
    requires '}' !in x && '\n' !in x
    ensures var line := SectionOpener + x + "}";
      !IsListMarker(line) && line != "" && GreedyArgument(line, TitleOpener).None?
      && GreedyArgument(line, SectionOpener) == Some(x)
  {
    var line := SectionOpener + x + "}";
    assert line[1] == 's' && line[|line| - 1] == '}';
    MarkerSecond(line);
    NotAt(line, TitleOpener, 0, 1);
    assert line[..9] == SectionOpener;
    forall k | 9 <= k < |line| ensures !At(line, "\n", k) {
      NotAt(line, "\n", k, 0);
    }
    assert IndexOf(line, "\n", 9).None?;
    assert line[9..|line| - 1] == x;
    assert LastIndex(line, '}', 9, |line|) == Some(|line| - 1);
  }

  /** The text whose lines, each ended by a newline, are `lines`. */
  function Terminated(lines: seq<string>): string {
    if lines == [] then "" else lines[0] + "\n" + Terminated(lines[1..])
  }

  /** Splitting lines that are each ended by a newline gives those lines back. */
  lemma {:induction false} SplitTerminated(lines: seq<string>)
    requires forall k, j :: 0 <= k < |lines| && 0 <= j < |lines[k]| ==> !IsLineBreak(lines[k][j])
    ensures SplitLines(Terminated(lines)) == lines
  {
    if lines != [] {
      var rest := lines[1..];
      forall k, j | 0 <= k < |rest| && 0 <= j < |rest[k]| ensures !IsLineBreak(rest[k][j]) {
        assert rest[k] == lines[k + 1];
      }
      SplitTerminated(rest);
      forall j | 0 <= j < |lines[0]| ensures !IsLineBreak(lines[0][j]) { }
      SplitFirstLine(lines[0], Terminated(rest));
      assert [lines[0]] + rest == lines;
    }
  }

  /** A line without breaks, then a newline: the first line split off is that line. */
  lemma SplitFirstLine(l: string, t: string)
    requires forall j :: 0 <= j < |l| ==> !IsLineBreak(l[j])
    ensures SplitLines(l + "\n" + t) == [l] + SplitLines(t)
  {
    var s := l + "\n" + t;
    assert s[|l|] == '\n';
    forall k | 0 <= k < |l| ensures !IsLineBreak(s[k]) {
      assert s[k] == l[k];
    }
    assert LineEnd(s, 0) == |l|;
    assert s[..|l|] == l && s[|l| + 1..] == t;
  }
}
