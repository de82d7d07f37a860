/**
 * The inline parser: a recursive run generator over the priority-ordered
 * inline alternatives (formatting commands, colour, links, citations and a
 * catch-all command token), followed by a merge pass that joins adjacent
 * text runs of equal formatting and drops blank ones.
 */
module Inline {
  import opened Text
  import opened Cleaner
  import opened Macros
  import opened Colors

  /**
   * The formatting dictionary of a text run. Its keys are only ever set, to
   * `True`, `"Courier New"` or a colour value, so a record with an absent
   * value for every unset key is equal exactly when the dictionaries are.
   */
  datatype Formatting = Formatting(bold: bool, italic: bool, underline: bool, font: Option<string>, color: Option<string>)

  /** The empty formatting dictionary (a run without a `formatting` key). */
  const NoFormat: Formatting := Formatting(false, false, false, None, None)

  const Monospace: string := "Courier New"

  /** A content item: a text run, or a citation with its display text, raw keys and matched command. */
  datatype Item =
    | TextRun(text: string, fmt: Formatting)
    | Citation(display: string, key: string, command: string)

  /** Which alternative of the inline pattern matched. */
  datatype Kind = Bold | Italic | Underline | Typewriter | Colored(name: string) | Link | Cite | Other

  /** A match: its alternative, its captured content (the keys for a citation) and its end. */
  datatype Token = Token(kind: Kind, content: string, end: nat)

  /** `\cmd{(.*?)}` with DOTALL, where `opener` is `\cmd{`: the content runs to the first `}`. */
  function BraceGroupAt(s: string, i: nat, opener: string, kind: Kind): (r: Option<Token>)
    requires |opener| > 0 && opener[0] == '\\'
    ensures r.Some? ==> i < r.value.end <= |s| && |r.value.content| < r.value.end - i
    ensures r.Some? ==> i < |s| && s[i] == '\\' && r.value.kind == kind
  {
    if !At(s, opener, i) then None
    else
      assert s[i] == opener[0] by { assert s[i..i + |opener|][0] == s[i]; }
      match IndexOf(s, "}", i + |opener|)
      case None => None
      case Some(e) => Some(Token(kind, s[i + |opener|..e], e + 1))
  }

  /** `\textcolor\{([a-zA-Z0-9_]+)\}\{(.*?)\}`. */
  function TextColorAt(s: string, i: nat): (r: Option<Token>)
    ensures r.Some? ==> i < r.value.end <= |s| && |r.value.content| < r.value.end - i
    ensures r.Some? ==> i < |s| && s[i] == '\\' && r.value.kind.Colored?
  {
    if !At(s, "\\textcolor{", i) then None
    else
      assert s[i] == '\\' by { assert s[i..i + 11][0] == s[i]; }
      var n := SkipWordChars(s, i + 11);
      if n == i + 11 || !At(s, "}{", n) then None
      else match IndexOf(s, "}", n + 2)
        case None => None
        case Some(e) => Some(Token(Colored(s[i + 11..n]), s[n + 2..e], e + 1))
  }

  /** `\{\s*\\color\{([a-zA-Z0-9_]+)\}(.*?)\}`: a group switched to a colour. */
  function ColorGroupAt(s: string, i: nat): (r: Option<Token>)
    ensures r.Some? ==> i < r.value.end <= |s| && |r.value.content| < r.value.end - i
    ensures r.Some? ==> i < |s| && s[i] == '{' && r.value.kind.Colored?
    ensures r.Some? ==> '\\' in s[i..]
  {
    if i >= |s| || s[i] != '{' then None
    else
      var a := SkipSpaces(s, i + 1);
      if !At(s, "\\color{", a) then None
      else
        assert s[a] == '\\' by { assert s[a..a + 7][0] == s[a]; }
        assert s[i..][a - i] == s[a];
        var n := SkipWordChars(s, a + 7);
        if n == a + 7 || !At(s, "}", n) then None
        else match IndexOf(s, "}", n + 1)
          case None => None
          case Some(e) => Some(Token(Colored(s[a + 7..n]), s[n + 1..e], e + 1))
  }

  /** `\\href\{[^}]*\}\{(.*?)\}`: the target runs to the first `}`, which must open the display text. */
  function HrefAt(s: string, i: nat): (r: Option<Token>)
    ensures r.Some? ==> i < r.value.end <= |s| && |r.value.content| < r.value.end - i
    ensures r.Some? ==> i < |s| && s[i] == '\\' && r.value.kind == Link
  {
    if !At(s, "\\href{", i) then None
    else
      assert s[i] == '\\' by { assert s[i..i + 6][0] == s[i]; }
      match IndexOf(s, "}", i + 6)
      case None => None
      case Some(p) =>
        if !At(s, "{", p + 1) then None
        else match IndexOf(s, "}", p + 2)
          case None => None
          case Some(e) => Some(Token(Link, s[p + 2..e], e + 1))
  }

  /**
   * `\\(?:cite|citep|citet|citeauthor)(?:\[(.*?)\])?\{(.*?)\}`. The character
   * after `\cite` selects the only alternative that can go on; the optional
   * note runs to the first `]{`, and the keys to the next `}`.
   */
  function CiteAt(s: string, i: nat): (r: Option<Token>)
    ensures r.Some? ==> i < r.value.end <= |s| && |r.value.content| < r.value.end - i
    ensures r.Some? ==> i < |s| && s[i] == '\\' && r.value.kind == Cite
  {
    if !At(s, "\\cite", i) then None
    else
      assert s[i] == '\\' by { assert s[i..i + 5][0] == s[i]; }
      var k := i + 5;
      var after: Option<nat> :=
        if At(s, "[", k) || At(s, "{", k) then Some(k)
        else if At(s, "p", k) || At(s, "t", k) then Some(k + 1)
        else if At(s, "author", k) then Some(k + 6)
        else None;
      match after
      case None => None
      case Some(q) =>
        if At(s, "[", q) then
          match IndexOf(s, "]{", q + 1)
          case None => None
          case Some(b) =>
            match IndexOf(s, "}", b + 2)
            case None => None
            case Some(e) => Some(Token(Cite, s[b + 2..e], e + 1))
        else if At(s, "{", q) then
          match IndexOf(s, "}", q + 1)
          case None => None
          case Some(e) => Some(Token(Cite, s[q + 1..e], e + 1))
        else None
  }

  /**
   * The catch-all `\\[a-zA-Z@]+(?!\s*\{)`. When the maximal letter run is
   * followed by optional spaces and `{`, the lookahead fails and the engine
   * backtracks one letter, so `\foo{` yields `\fo`; a one-letter `\x{` does not match.
   */
  function OtherAt(s: string, i: nat): (r: Option<Token>)
    ensures r.Some? ==> i < r.value.end <= |s| && |r.value.content| < r.value.end - i
    ensures r.Some? ==> i < |s| && s[i] == '\\' && r.value == Token(Other, "", r.value.end)
    ensures r.Some? ==> i + 2 <= r.value.end
  {
    if i >= |s| || s[i] != '\\' then None
    else
      var l := SkipCommandLetters(s, i + 1);
      if l == i + 1 then None
      else
        var a := SkipSpaces(s, l);
        if a < |s| && s[a] == '{' then
          if l == i + 2 then None else Some(Token(Other, "", l - 1))
        else Some(Token(Other, "", l))
  }

  /** The inline pattern at `i`: its alternatives in their priority order. */
  function TokenAt(s: string, i: nat): (r: Option<Token>)
    ensures r.Some? ==> i < r.value.end <= |s| && |r.value.content| < r.value.end - i
    ensures r.Some? ==> '\\' in s[i..]
  {
    assert i < |s| ==> s[i..][0] == s[i];
    var b := BraceGroupAt(s, i, "\\textbf{", Bold);
    if b.Some? then b else
    var it := BraceGroupAt(s, i, "\\textit{", Italic);
    if it.Some? then it else
    var em := BraceGroupAt(s, i, "\\emph{", Italic);
    if em.Some? then em else
    var u := BraceGroupAt(s, i, "\\underline{", Underline);
    if u.Some? then u else
    var tt := BraceGroupAt(s, i, "\\texttt{", Typewriter);
    if tt.Some? then tt else
    var tc := TextColorAt(s, i);
    if tc.Some? then tc else
    var cg := ColorGroupAt(s, i);
    if cg.Some? then cg else
    var url := BraceGroupAt(s, i, "\\url{", Link);
    if url.Some? then url else
    var href := HrefAt(s, i);
    if href.Some? then href else
    var cite := CiteAt(s, i);
    if cite.Some? then cite else
    OtherAt(s, i)
  }

  /** The formatting a formatting command gives its content: a copy of the current one with its own key set. */
  function Restyle(kind: Kind, fmt: Formatting, colors: ColorTable): (r: Formatting)
    ensures Extends(fmt, r)
    ensures r.color.Some? ==> r.color == fmt.color || r.color.value in colors.Values
    ensures kind == Bold ==> r.bold && r.(bold := fmt.bold) == fmt
    ensures kind == Italic ==> r.italic && r.(italic := fmt.italic) == fmt
    ensures kind == Underline ==> r.underline && r.(underline := fmt.underline) == fmt
    ensures kind == Typewriter ==> r.font == Some(Monospace) && r.(font := fmt.font) == fmt
    ensures kind.Colored? && kind.name in colors && colors[kind.name] != "" ==>
      r.color == Some(colors[kind.name]) && r.(color := fmt.color) == fmt
    ensures kind.Colored? && !(kind.name in colors && colors[kind.name] != "") ==> r == fmt
    ensures kind.Link? || kind.Cite? || kind.Other? ==> r == fmt
  {
    match kind
    case Bold => fmt.(bold := true)
    case Italic => fmt.(italic := true)
    case Underline => fmt.(underline := true)
    case Typewriter => fmt.(font := Some(Monospace))
    case Colored(name) => if name in colors && colors[name] != "" then fmt.(color := Some(colors[name])) else fmt
    case _ => fmt
  }

  /** Every key the outer formatting sets is still set in the inner one (a colour may be replaced). */
  predicate Extends(outer: Formatting, inner: Formatting) {
    (outer.bold ==> inner.bold) && (outer.italic ==> inner.italic) && (outer.underline ==> inner.underline)
    && (outer.font.Some? ==> inner.font.Some?) && (outer.color.Some? ==> inner.color.Some?)
  }

  /** Plain text between matches: cleaned, and emitted only when non-empty. */
  function Plain(x: string, fmt: Formatting): (r: seq<Item>)
    ensures |r| <= 1 && forall k :: 0 <= k < |r| ==> r[k] == TextRun(Clean(x), fmt) && Clean(x) != ""
    ensures |r| == 1 <==> Clean(x) != ""
  {
    if x == [] then CleanIdentity(x); []
    else
      var c := Clean(x);
      if c == [] then [] else [TextRun(c, fmt)]
  }

  /** What every generated item satisfies, relative to the formatting it was generated under. */
  predicate GoodItem(item: Item, fmt: Formatting, colors: ColorTable) {
    match item
    case TextRun(_, f) => Extends(fmt, f) && (f.color.Some? ==> f.color == fmt.color || f.color.value in colors.Values)
    case Citation(d, key, _) => d == "[" + key + "]"
  }

  predicate Generated(items: seq<Item>, fmt: Formatting, colors: ColorTable) {
    forall k :: 0 <= k < |items| ==> GoodItem(items[k], fmt, colors)
  }

  lemma GeneratedConcat(a: seq<Item>, b: seq<Item>, c: seq<Item>, fmt: Formatting, colors: ColorTable)
    requires Generated(a, fmt, colors) && Generated(b, fmt, colors) && Generated(c, fmt, colors)
    ensures Generated(a + b + c, fmt, colors)
  {
    forall k | 0 <= k < |a + b + c| ensures GoodItem((a + b + c)[k], fmt, colors) {
      if k < |a| { assert (a + b + c)[k] == a[k]; }
      else if k < |a| + |b| { assert (a + b + c)[k] == b[k - |a|]; }
      else { assert (a + b + c)[k] == c[k - |a| - |b|]; }
    }
  }

  /** Items generated under a restyled formatting also satisfy the invariants of the formatting it extends. */
  lemma GeneratedRestyled(items: seq<Item>, kind: Kind, fmt: Formatting, colors: ColorTable)
    requires Generated(items, Restyle(kind, fmt, colors), colors)
    ensures Generated(items, fmt, colors)
  {
    var inner := Restyle(kind, fmt, colors);
    forall k | 0 <= k < |items| ensures GoodItem(items[k], fmt, colors) {
      assert GoodItem(items[k], inner, colors);
    }
  }

  /**
   * `generate_runs(seg, fmt)` from the match search at `pos`: the text before
   * each match, what the match emits, and the text after the last match.
   */
  function Scan(colors: ColorTable, seg: string, fmt: Formatting, pos: nat): seq<Item>
    requires pos <= |seg|
    decreases |seg|, |seg| - pos
  {
    match FirstFrom(TokenAt, seg, pos)
    case None => Plain(seg[pos..], fmt)
    case Some((i, t)) =>
      Plain(seg[pos..i], fmt) + Emit(colors, seg, fmt, i, t) + Scan(colors, seg, fmt, t.end)
  }

  /** One step of the scan: the plain text before the first match, what the match emits and the scan after it. */
  lemma ScanStep(colors: ColorTable, seg: string, fmt: Formatting, pos: nat, i: nat, t: Token)
    requires pos <= |seg| && FirstFrom(TokenAt, seg, pos) == Some((i, t))
    ensures pos <= i < t.end <= |seg| && |t.content| < t.end - i
    ensures Scan(colors, seg, fmt, pos) == Plain(seg[pos..i], fmt) + Emit(colors, seg, fmt, i, t) + Scan(colors, seg, fmt, t.end)
  {
  }

  /** What one match emits: a recursion into a formatting command's trimmed content, a text run, a citation, or nothing. */
  function Emit(colors: ColorTable, seg: string, fmt: Formatting, i: nat, t: Token): seq<Item>
    requires i < t.end <= |seg| && |t.content| < t.end - i
    decreases |seg|, 0
  {
    if t.kind.Link? then [TextRun(Clean(Strip(t.content)), fmt)]
    else if t.kind.Cite? then [Citation("[" + t.content + "]", t.content, seg[i..t.end])]
    else if t.kind.Other? then []
    else
      var c := Strip(t.content);
      if c == [] then [] else Scan(colors, c, Restyle(t.kind, fmt, colors), 0)
  }

  /** A formatting command whose trimmed content is empty emits nothing. */
  lemma EmitEmptyContent(colors: ColorTable, seg: string, fmt: Formatting, i: nat, t: Token)
    requires i < t.end <= |seg| && |t.content| < t.end - i
    requires !t.kind.Link? && !t.kind.Cite? && !t.kind.Other?
    requires Strip(t.content) == []
    ensures Emit(colors, seg, fmt, i, t) == []
  {
  }

  /** `\url` and `\href` give one run of the cleaned, trimmed text under the current formatting, even when it is empty. */
  lemma EmitLink(colors: ColorTable, seg: string, fmt: Formatting, i: nat, t: Token)
    requires i < t.end <= |seg| && |t.content| < t.end - i
    requires t.kind.Link?
    ensures Emit(colors, seg, fmt, i, t) == [TextRun(Clean(Strip(t.content)), fmt)]
  {
  }

  /** Every item `generate_runs` produces satisfies the invariants of the formatting it was called with. */
  lemma {:induction false} ScanGenerated(colors: ColorTable, seg: string, fmt: Formatting, pos: nat)
    requires pos <= |seg|
    ensures Generated(Scan(colors, seg, fmt, pos), fmt, colors)
    decreases |seg|, |seg| - pos
  {
    match FirstFrom(TokenAt, seg, pos)
    case None =>
      PlainGenerated(seg[pos..], fmt, colors);
    case Some((i, t)) =>
      PlainGenerated(seg[pos..i], fmt, colors);
      EmitGenerated(colors, seg, fmt, i, t);
      ScanGenerated(colors, seg, fmt, t.end);
      GeneratedConcat(Plain(seg[pos..i], fmt), Emit(colors, seg, fmt, i, t), Scan(colors, seg, fmt, t.end), fmt, colors);
  }

  lemma {:induction false} EmitGenerated(colors: ColorTable, seg: string, fmt: Formatting, i: nat, t: Token)
    requires i < t.end <= |seg| && |t.content| < t.end - i
    ensures Generated(Emit(colors, seg, fmt, i, t), fmt, colors)
    decreases |seg|, 0
  {
    if !t.kind.Link? && !t.kind.Cite? && !t.kind.Other? {
      var c := Strip(t.content);
      if c != [] {
        ScanGenerated(colors, c, Restyle(t.kind, fmt, colors), 0);
        GeneratedRestyled(Scan(colors, c, Restyle(t.kind, fmt, colors), 0), t.kind, fmt, colors);
      }
    }
  }

  lemma PlainGenerated(x: string, fmt: Formatting, colors: ColorTable)
    ensures Generated(Plain(x, fmt), fmt, colors)
  {
  }

  /** `generate_runs(seg, fmt)`. */
  function Runs(colors: ColorTable, seg: string, fmt: Formatting): (r: seq<Item>)
    ensures Generated(r, fmt, colors)
  {
    ScanGenerated(colors, seg, fmt, 0);
    Scan(colors, seg, fmt, 0)
  }

  /** The merged list has no blank text run and no two adjacent text runs with equal formatting. */
  predicate WellMerged(items: seq<Item>) {
    (forall k :: 0 <= k < |items| && items[k].TextRun? ==> !IsBlank(items[k].text))
    && (forall k :: 0 < k < |items| && items[k - 1].TextRun? && items[k].TextRun? ==> items[k - 1].fmt != items[k].fmt)
  }

  /** One iteration of the merge loop. */
  function MergeStep(merged: seq<Item>, item: Item): (r: seq<Item>)
    ensures WellMerged(merged) ==> WellMerged(r)
    ensures |r| <= |merged| + 1
  {
    var n := |merged|;
    if n > 0 && merged[n - 1].TextRun? && item.TextRun? && merged[n - 1].fmt == item.fmt then
      var last := merged[n - 1];
      var joined := last.text + item.text;
      assert WellMerged(merged) ==> !IsBlank(joined) by {
        if WellMerged(merged) {
          var j :| 0 <= j < |last.text| && !IsSpace(last.text[j]);
          assert joined[j] == last.text[j];
        }
      }
      merged[..n - 1] + [TextRun(joined, item.fmt)]
    else if !item.TextRun? || !IsBlank(item.text) then merged + [item]
    else merged
  }

  /** The merge loop over the raw items, as a left fold. */
  function Merged(items: seq<Item>): (r: seq<Item>)
    ensures WellMerged(r)
    ensures |r| <= |items|
  {
    if items == [] then [] else MergeStep(Merged(items[..|items| - 1]), items[|items| - 1])
  }

  /** The merge loop as the source runs it, appending to or extending the last merged item. */
  method MergeItems(raw: seq<Item>) returns (merged: seq<Item>)
    ensures merged == Merged(raw)
    ensures WellMerged(merged)
  {
    merged := [];
    for k := 0 to |raw|
      invariant merged == Merged(raw[..k])
    {
      assert raw[..k + 1][..k] == raw[..k];
      merged := MergeStep(merged, raw[k]);
    }
    assert raw[..|raw|] == raw;
  }

  /** The final comprehension: text runs that are blank are dropped. */
  function Filter(items: seq<Item>): (r: seq<Item>)
    ensures forall k :: 0 <= k < |r| && r[k].TextRun? ==> !IsBlank(r[k].text)
  {
    if items == [] then []
    else if items[0].TextRun? && IsBlank(items[0].text) then Filter(items[1..])
    else [items[0]] + Filter(items[1..])
  }

  /** After the merge the final comprehension changes nothing. */
  lemma {:induction false} FilterMerged(items: seq<Item>)
    requires WellMerged(items)
    ensures Filter(items) == items
  {
    if items != [] {
      assert WellMerged(items[1..]) by {
        forall k | 0 < k < |items[1..]| ensures items[1..][k - 1] == items[k] && items[1..][k] == items[k + 1] { }
      }
      FilterMerged(items[1..]);
    }
  }

  /** The citations of a list, in order. */
  function Citations(items: seq<Item>): seq<Item> {
    if items == [] then []
    else Citations(items[..|items| - 1]) + (if items[|items| - 1].Citation? then [items[|items| - 1]] else [])
  }

  /** A merge step keeps the citations it had and adds the new item if it is one. */
  lemma MergeStepCitations(merged: seq<Item>, item: Item)
    ensures Citations(MergeStep(merged, item)) == Citations(merged + [item])
  {
    var n := |merged|;
    assert (merged + [item])[..n] == merged;
    if n > 0 && merged[n - 1].TextRun? && item.TextRun? && merged[n - 1].fmt == item.fmt {
      var r := merged[..n - 1] + [TextRun(merged[n - 1].text + item.text, item.fmt)];
      assert r[..n - 1] == merged[..n - 1];
    } else if !(!item.TextRun? || !IsBlank(item.text)) {
    } else {
    }
  }

  /** The merge keeps the citations, in their order. */
  lemma {:induction false} MergedCitations(items: seq<Item>)
    ensures Citations(Merged(items)) == Citations(items)
  {
    if items != [] {
      var init := items[..|items| - 1];
      var last := items[|items| - 1];
      var merged := Merged(init);
      var tail := if last.Citation? then [last] else [];
      assert init + [last] == items;
      calc {
        Citations(Merged(items));
        Citations(MergeStep(merged, last));
        { MergeStepCitations(merged, last); }
        Citations(merged + [last]);
        { CitationsAppend(merged, last); }
        Citations(merged) + tail;
        { MergedCitations(init); }
        Citations(init) + tail;
        { CitationsAppend(init, last); }
        Citations(items);
      }
    }
  }

  lemma CitationsAppend(xs: seq<Item>, x: Item)
    ensures Citations(xs + [x]) == Citations(xs) + (if x.Citation? then [x] else [])
  {
    assert (xs + [x])[..|xs|] == xs;
  }

  /**
   * `_parse_inline_text_to_content_items`: macro expansion, run generation
   * from an empty formatting, the merge and the final comprehension.
   */
  function ParseInline(macros: MacroTable, colors: ColorTable, s: string): (r: seq<Item>)
    ensures WellMerged(r)
  {
    Finish(Runs(colors, Expand(macros, s, 0), NoFormat))
  }

  /** The merge loop and the final comprehension. */
  function Finish(raw: seq<Item>): (r: seq<Item>)
    ensures WellMerged(r)
    ensures Citations(r) == Citations(raw)
  {
    FilterMerged(Merged(raw));
    MergedCitations(raw);
    Filter(Merged(raw))
  }

  /** `merged_items` after the first item. */
  lemma MergedSingle(x: Item)
    ensures Merged([x]) == MergeStep([], x)
  {
    assert [x][..0] == [];
  }

  /** A single item that the merge keeps comes out as it went in. */
  lemma FinishSingle(x: Item)
    requires x.Citation? || !IsBlank(x.text)
    ensures Finish([x]) == [x]
  {
    MergedSingle(x);
    assert Merged([x]) == [x];
    FilterMerged([x]);
  }

  /** Where no backslash remains, nothing matches and the rest is one cleaned text run. */
  lemma ScanPlain(colors: ColorTable, x: string, fmt: Formatting, pos: nat)
    requires pos <= |x| && '\\' !in x[pos..]
    ensures Scan(colors, x, fmt, pos) == Plain(x[pos..], fmt)
  {
    assert FirstFrom(TokenAt, x, pos).None? by {
      forall j | pos <= j <= |x| ensures TokenAt(x, j).None? {
        forall c | c in x[j..] ensures c != '\\' {
          var q :| 0 <= q < |x[j..]| && x[j..][q] == c;
          assert x[pos..][j - pos + q] == c;
        }
      }
    }
  }

  /** Text without commands, braces aside, and without `~` is one text run under the given formatting. */
  lemma ScanText(colors: ColorTable, x: string, fmt: Formatting)
    requires '\\' !in x && '~' !in x
    ensures Scan(colors, x, fmt, 0) == if x == [] then [] else [TextRun(x, fmt)]
  {
    assert x[0..] == x;
    ScanPlain(colors, x, fmt, 0);
    CleanIdentity(x);
  }

  /** A plain string with no commands yields exactly one text item without formatting, or nothing when blank. */
  lemma PlainInline(macros: MacroTable, colors: ColorTable, s: string)
    requires '\\' !in s && '~' !in s
    ensures ParseInline(macros, colors, s) == if IsBlank(s) then [] else [TextRun(s, NoFormat)]
  {
    ExpandNoBackslash(macros, s, 0);
    ScanText(colors, s, NoFormat);
    if IsBlank(s) {
      if s != [] { MergedSingle(TextRun(s, NoFormat)); }
    } else {
      FinishSingle(TextRun(s, NoFormat));
    }
  }

  /** The tail of the segment after a match that ends it emits nothing. */
  lemma ScanAtEnd(colors: ColorTable, seg: string, fmt: Formatting)
    ensures Scan(colors, seg, fmt, |seg|) == []
  {
    assert seg[|seg|..] == [];
  }

  /** With no macros defined, expansion changes nothing. */
  lemma ExpandEmpty(s: string)
    ensures Expand([], s, 0) == s
  {
    assert Pass([], s) == s;
  }

  /** `\textbf{x}` is matched by the bold alternative, whose content runs to the closing brace. */
  lemma BoldToken(x: string)
    requires '}' !in x
    ensures TokenAt("\\textbf{" + x + "}", 0) == Some(Token(Bold, x, |x| + 9))
  {
    var s := "\\textbf{" + x + "}";
    assert s[0..8] == "\\textbf{";
    forall k | 8 <= k < |s| - 1 ensures s[k] != '}' { assert s[k] == x[k - 8]; }
    IndexOfChar(s, '}', 8, |s| - 1);
    assert s[8..|s| - 1] == x;
  }

  /** A formatting command with non-blank content emits the runs of its trimmed content under its formatting. */
  lemma EmitStyled(colors: ColorTable, seg: string, fmt: Formatting, i: nat, t: Token)
    requires i < t.end <= |seg| && |t.content| < t.end - i
    requires !t.kind.Link? && !t.kind.Cite? && !t.kind.Other?
    requires Strip(t.content) != []
    ensures Emit(colors, seg, fmt, i, t) == Scan(colors, Strip(t.content), Restyle(t.kind, fmt, colors), 0)
  {
  }

  /**
   * A formatting command spanning the whole segment, whose trimmed content is
   * plain text, yields that text as one run under the command's formatting.
   */
  lemma StyledWhole(colors: ColorTable, s: string, fmt: Formatting, t: Token)
    requires TokenAt(s, 0) == Some(t) && t.end == |s|
    requires !t.kind.Link? && !t.kind.Cite? && !t.kind.Other?
    requires '\\' !in t.content && '~' !in t.content && !IsBlank(t.content)
    ensures Runs(colors, s, fmt) == [TextRun(Strip(t.content), Restyle(t.kind, fmt, colors))]
  {
    var c := Strip(t.content);
    RunsFirst(colors, s, fmt, t);
    ScanAtEnd(colors, s, fmt);
    EmitStyled(colors, s, fmt, 0, t);
    AbsentFromPart(t.content, c, '\\');
    AbsentFromPart(t.content, c, '~');
    ScanText(colors, c, Restyle(t.kind, fmt, colors));
  }

  /** A match at the very start: the scan is what it emits followed by the scan after it. */
  lemma ScanFirst(colors: ColorTable, s: string, fmt: Formatting, t: Token)
    requires TokenAt(s, 0) == Some(t)
    ensures t.end <= |s| && |t.content| < t.end
    ensures Scan(colors, s, fmt, 0) == Emit(colors, s, fmt, 0, t) + Scan(colors, s, fmt, t.end)
  {
    FirstAt(TokenAt, s, 0, t);
    ScanStep(colors, s, fmt, 0, 0, t);
    assert Plain(s[0..0], fmt) == [] by { assert s[0..0] == []; }
    EmptyPrefix(Plain(s[0..0], fmt), Emit(colors, s, fmt, 0, t), Scan(colors, s, fmt, t.end));
  }

  /** A match at the very start: the runs are what it emits followed by the runs after it. */
  lemma RunsFirst(colors: ColorTable, s: string, fmt: Formatting, t: Token)
    requires TokenAt(s, 0) == Some(t)
    ensures t.end <= |s| && |t.content| < t.end
    ensures Runs(colors, s, fmt) == Emit(colors, s, fmt, 0, t) + Scan(colors, s, fmt, t.end)
  {
    ScanFirst(colors, s, fmt, t);
  }

  /** A styled command spanning the whole text yields its trimmed content as one run in that style. */
  lemma StyledInline(colors: ColorTable, s: string, t: Token)
    requires TokenAt(s, 0) == Some(t) && t.end == |s|
    requires !t.kind.Link? && !t.kind.Cite? && !t.kind.Other?
    requires '\\' !in t.content && '~' !in t.content && !IsBlank(t.content)
    ensures ParseInline([], colors, s) == [TextRun(Strip(t.content), Restyle(t.kind, NoFormat, colors))]
  {
    ExpandEmpty(s);
    StyledWhole(colors, s, NoFormat, t);
    FinishSingle(TextRun(Strip(t.content), Restyle(t.kind, NoFormat, colors)));
  }

  /** `\textbf{x}` yields the trimmed text as a single bold run. */
  lemma BoldInline(colors: ColorTable, x: string)
    requires '\\' !in x && '~' !in x && '}' !in x && !IsBlank(x)
    ensures ParseInline([], colors, "\\textbf{" + x + "}") == [TextRun(Strip(x), NoFormat.(bold := true))]
  {
    var s := "\\textbf{" + x + "}";
    BoldToken(x);
    StyledInline(colors, s, Token(Bold, x, |s|));
  }

  /** The colour alternative reads the maximal word-character name and the content up to the closing brace. */
  lemma TextColorMatch(s: string, n: string, x: string)
    requires s == "\\textcolor{" + n + "}{" + x + "}"
    requires |n| > 0 && forall k :: 0 <= k < |n| ==> IsWordChar(n[k])
    requires '}' !in x
    ensures TextColorAt(s, 0) == Some(Token(Colored(n), x, |s|))
  {
    var m := 11 + |n|;
    assert s[0..11] == "\\textcolor{";
    forall k | 11 <= k < m ensures IsWordChar(s[k]) { assert s[k] == n[k - 11]; }
    SkipWordCharsRun(s, 11, m);
    assert s[m..m + 2] == "}{";
    assert s[m + 2..|s| - 1] == x;
    LastClose(s, m + 2, x);
    assert s[11..m] == n;
  }

  /** `\textcolor{n}{x}` is matched by the colour alternative; the five alternatives before it fail. */
  lemma TextColorToken(s: string, n: string, x: string)
    requires s == "\\textcolor{" + n + "}{" + x + "}"
    requires |n| > 0 && forall k :: 0 <= k < |n| ==> IsWordChar(n[k])
    requires '}' !in x
    ensures TokenAt(s, 0) == Some(Token(Colored(n), x, |s|))
  {
    assert s[1] == 't' && s[5] == 'c';
    NotAt(s, "\\textbf{", 0, 5);
    NotAt(s, "\\textit{", 0, 5);
    NotAt(s, "\\emph{", 0, 1);
    NotAt(s, "\\underline{", 0, 1);
    NotAt(s, "\\texttt{", 0, 5);
    TextColorMatch(s, n, x);
  }

  /**
   * `\textcolor{n}{x}` yields the trimmed text as one run, coloured with the
   * value of `n` when `n` is defined and left without a colour otherwise.
   */
  lemma TextColorInline(colors: ColorTable, s: string, n: string, x: string)
    requires s == "\\textcolor{" + n + "}{" + x + "}"
    requires |n| > 0 && forall k :: 0 <= k < |n| ==> IsWordChar(n[k])
    requires '\\' !in x && '~' !in x && '}' !in x && !IsBlank(x)
    ensures ParseInline([], colors, s)
         == [TextRun(Strip(x), if n in colors && colors[n] != "" then NoFormat.(color := Some(colors[n])) else NoFormat)]
  {
    TextColorToken(s, n, x);
    StyledInline(colors, s, Token(Colored(n), x, |s|));
  }

  /** The note of `\cite[note]{keys}` ends at the first `]{`. */
  lemma CiteNoteEnd(s: string, note: string, keys: string)
    requires s == "\\cite[" + note + "]{" + keys + "}" && ']' !in note
    ensures IndexOf(s, "]{", 6) == Some(6 + |note|)
  {
    var j := 6 + |note|;
    forall k | 6 <= k < j ensures !At(s, "]{", k) {
      assert s[k] == note[k - 6];
      NotAt(s, "]{", k, 0);
    }
    assert s[j..j + 2] == "]{";
    IndexOfFirst(s, "]{", 6, j);
  }

  /** The keys of `\cite[note]{keys}` end at the first `}` after the note. */
  lemma CiteKeysEnd(s: string, note: string, keys: string)
    requires s == "\\cite[" + note + "]{" + keys + "}" && '}' !in keys
    ensures IndexOf(s, "}", 8 + |note|) == Some(|s| - 1)
    ensures s[8 + |note|..|s| - 1] == keys
  {
    assert s[8 + |note|..|s| - 1] == keys;
    LastClose(s, 8 + |note|, keys);
  }

  /** The citation alternative skips the note up to the first `]{` and reads the keys up to the closing brace. */
  lemma CiteMatch(s: string, note: string, keys: string)
    requires s == "\\cite[" + note + "]{" + keys + "}"
    requires ']' !in note && '}' !in keys
    ensures CiteAt(s, 0) == Some(Token(Cite, keys, |s|))
  {
    assert s[0..5] == "\\cite";
    assert s[5..6] == "[";
    CiteNoteEnd(s, note, keys);
    CiteKeysEnd(s, note, keys);
  }

  /** `\cite[note]{keys}` is matched by the citation alternative; the alternatives before it fail at the second character. */
  lemma CiteToken(s: string, note: string, keys: string)
    requires s == "\\cite[" + note + "]{" + keys + "}"
    requires ']' !in note && '}' !in keys
    ensures TokenAt(s, 0) == Some(Token(Cite, keys, |s|))
  {
    assert s[1] == 'c';
    NotAt(s, "\\textbf{", 0, 1);
    NotAt(s, "\\textit{", 0, 1);
    NotAt(s, "\\emph{", 0, 1);
    NotAt(s, "\\underline{", 0, 1);
    NotAt(s, "\\texttt{", 0, 1);
    NotAt(s, "\\textcolor{", 0, 1);
    NotAt(s, "\\url{", 0, 1);
    NotAt(s, "\\href{", 0, 1);
    CiteMatch(s, note, keys);
  }

  /** A citation spanning the whole text is the only item. */
  lemma CitationWhole(colors: ColorTable, s: string, keys: string)
    requires TokenAt(s, 0) == Some(Token(Cite, keys, |s|))
    ensures ParseInline([], colors, s) == [Citation("[" + keys + "]", keys, s)]
  {
    var t := Token(Cite, keys, |s|);
    ExpandEmpty(s);
    RunsFirst(colors, s, NoFormat, t);
    ScanAtEnd(colors, s, NoFormat);
    assert s[0..|s|] == s;
    assert Emit(colors, s, NoFormat, 0, t) == [Citation("[" + keys + "]", keys, s)];
    FinishSingle(Citation("[" + keys + "]", keys, s));
  }

  /** `\cite[note]{keys}` yields one citation displaying `[keys]`; the note is discarded. */
  lemma CiteInline(colors: ColorTable, s: string, note: string, keys: string)
    requires s == "\\cite[" + note + "]{" + keys + "}"
    requires ']' !in note && '}' !in keys
    ensures ParseInline([], colors, s) == [Citation("[" + keys + "]", keys, s)]
  {
    CiteToken(s, note, keys);
    CitationWhole(colors, s, keys);
  }

  /** The catch-all token of `\name{`, for a name no other alternative starts with, stops one letter short. */
  lemma CatchAllToken(name: string, x: string)
    requires |name| >= 2 && forall k :: 0 <= k < |name| ==> IsCommandLetter(name[k])
    requires name[0] !in "tuehc"
    ensures TokenAt("\\" + name + "{" + x + "}", 0) == Some(Token(Other, "", |name|))
  {
    var s := "\\" + name + "{" + x + "}";
    var l := 1 + |name|;
    assert s[1] == name[0];
    NotAt(s, "\\textbf{", 0, 1);
    NotAt(s, "\\textit{", 0, 1);
    NotAt(s, "\\emph{", 0, 1);
    NotAt(s, "\\underline{", 0, 1);
    NotAt(s, "\\texttt{", 0, 1);
    NotAt(s, "\\textcolor{", 0, 1);
    NotAt(s, "\\url{", 0, 1);
    NotAt(s, "\\href{", 0, 1);
    NotAt(s, "\\cite", 0, 1);
    forall k | 1 <= k < l ensures IsCommandLetter(s[k]) { assert s[k] == name[k - 1]; }
    assert s[l] == '{';
    LettersRun(s, 1, l);
  }

  /** A skipped command at the start, followed by plain text, leaves that text as one run. */
  lemma SkippedThenPlain(colors: ColorTable, s: string, n: nat)
    requires TokenAt(s, 0) == Some(Token(Other, "", n))
    requires n <= |s| && '\\' !in s[n..] && '~' !in s[n..] && !IsBlank(s[n..])
    ensures ParseInline([], colors, s) == [TextRun(s[n..], NoFormat)]
  {
    var rest := s[n..];
    ExpandEmpty(s);
    RunsFirst(colors, s, NoFormat, Token(Other, "", n));
    ScanPlain(colors, s, NoFormat, n);
    CleanIdentity(rest);
    calc {
      Runs(colors, s, NoFormat);
      Emit(colors, s, NoFormat, 0, Token(Other, "", n)) + Scan(colors, s, NoFormat, n);
      [] + Plain(rest, NoFormat);
      [TextRun(rest, NoFormat)];
    }
    FinishSingle(TextRun(rest, NoFormat));
  }

  /**
   * An unrecognised command followed by a brace group is matched by the
   * catch-all token only up to its last letter but one: `\foo{x}` keeps
   * `o{x}` as text.
   */
  lemma CatchAllBacktracks(colors: ColorTable, s: string, name: string, x: string)
    requires s == "\\" + name + "{" + x + "}"
    requires |name| >= 2 && forall k :: 0 <= k < |name| ==> IsCommandLetter(name[k])
    requires name[0] !in "tuehc"
    requires '\\' !in x && '~' !in x
    ensures ParseInline([], colors, s) == [TextRun([name[|name| - 1]] + "{" + x + "}", NoFormat)]
  {
    CatchAllToken(name, x);
    CatchAllRest(s, name, x);
    SkippedThenPlain(colors, s, |name|);
  }

  /** What follows the catch-all token of `\name{x}`: the last letter and the brace group, as text. */
  lemma CatchAllRest(s: string, name: string, x: string)
    requires s == "\\" + name + "{" + x + "}" && |name| >= 2 && IsCommandLetter(name[|name| - 1])
    requires '\\' !in x && '~' !in x
    ensures s[|name|..] == [name[|name| - 1]] + "{" + x + "}"
    ensures '\\' !in s[|name|..] && '~' !in s[|name|..] && !IsBlank(s[|name|..])
  {
    var rest := s[|name|..];
    assert rest == [name[|name| - 1]] + "{" + x + "}";
    assert '\\' !in rest && '~' !in rest;
    assert !IsSpace(rest[1]);
  }
}
