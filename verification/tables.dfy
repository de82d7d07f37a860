/**
 * Tables: the rows of a tabular body (split at `\\`, rule commands trimmed,
 * cells split at `&`), the `table` float with its caption, label and inner
 * tabular, and the directly written `longtable`, `tabularx` and `tabular`.
 */
module Tables {
  import opened Text
  import opened Macros
  import opened Colors
  import opened Inline
  import opened Blocks

  /** A row: one parsed cell per `&`-separated part. */
  type Row = seq<seq<Item>>

  /** A table block as the converter records it. */
  datatype TableData = TableData(
    rows: seq<Row>,
    caption: Option<seq<Item>>,
    refLabel: Option<string>,
    colSpec: Option<string>,
    envType: Option<string>)

  /**
   * `re.match(r"\\cline\s*\{.*?\}(.*)", r)` (no DOTALL): the rest of the
   * line after the `\cline` argument, which may not cross a newline.
   */
  function ClineRest(r: string): (x: Option<string>)
    ensures x.Some? ==> |x.value| < |r|
  {
    if !At(r, "\\cline", 0) then None
    else
      var o := SkipSpaces(r, 6);
      if o >= |r| || r[o] != '{' then None
      else match LazyUntil(r, "}", o + 1, false)
        case None => None
        case Some(c) =>
          var e := match IndexOf(r, "\n", c + 1) case Some(n) => n case None => |r|;
          Some(r[c + 1..e])
  }

  /** The row once leading `\hline` and `\cline{...}` rules are gone; a `\cline` that does not match empties it. */
  function TrimRules(r: string): (x: string)
    ensures |x| <= |r|
    ensures !At(x, "\\hline", 0) && !At(x, "\\cline", 0)
    decreases |r|
  {
    if At(r, "\\hline", 0) then TrimRules(Strip(r[6..]))
    else if At(r, "\\cline", 0) then
      match ClineRest(r)
      case Some(rest) => TrimRules(Strip(rest))
      case None => ""
    else r
  }

  /** The rule-trimming loop of the row parser. */
  method StripRules(row: string) returns (x: string)
    ensures x == TrimRules(row)
  {
    x := row;
    while At(x, "\\hline", 0) || At(x, "\\cline", 0)
      invariant TrimRules(x) == TrimRules(row)
      decreases |x|
    {
      if At(x, "\\hline", 0) {
        x := Strip(x[6..]);
      } else {
        var m := ClineRest(x);
        x := if m.Some? then Strip(m.value) else "";
      }
    }
  }

  /** Trimming the rules twice trims nothing more. */
  lemma TrimRulesIdempotent(r: string)
    ensures TrimRules(TrimRules(r)) == TrimRules(r)
  {
  }

  /** `\hline` in front of a row is dropped with the spaces after it. */
  lemma HlineDropped(r: string, x: string)
    requires r == "\\hline " + x
    requires x == [] || (!IsSpace(x[0]) && !IsSpace(x[|x| - 1]))
    requires !At(x, "\\hline", 0) && !At(x, "\\cline", 0)
    ensures TrimRules(r) == x
  {
    assert r[..6] == "\\hline";
    assert r[6..] == " " + x;
    StripPadded(" ", x);
  }

  /** A cell counts when it holds a text run that is not blank. */
  predicate HasText(cell: seq<Item>) {
    exists k :: 0 <= k < |cell| && cell[k].TextRun? && !IsBlank(cell[k].text)
  }

  /** A row is kept when one of its cells has text. */
  predicate Kept(row: Row) {
    exists k :: 0 <= k < |row| && HasText(row[k])
  }

  /** Every row is kept. */
  predicate AllKept(rows: seq<Row>) {
    forall j :: 0 <= j < |rows| ==> Kept(rows[j])
  }

  /** `[parse(cell.strip()) for cell in row.split("&")]`. */
  function Cells(macros: MacroTable, colors: ColorTable, parts: seq<string>): (r: Row)
    ensures |r| == |parts|
  {
    if parts == [] then [] else [ParseInline(macros, colors, Strip(parts[0]))] + Cells(macros, colors, parts[1..])
  }

  /** One `\\`-separated piece: trimmed, rules removed, kept when a cell has text. */
  function RowOf(macros: MacroTable, colors: ColorTable, piece: string): (r: Option<Row>)
    ensures r.Some? ==> Kept(r.value)
  {
    var x := TrimRules(Strip(piece));
    if x == "" then None
    else
      var cells := Cells(macros, colors, Split(x, "&"));
      if Kept(cells) then Some(cells) else None
  }

  function RowsOf(macros: MacroTable, colors: ColorTable, pieces: seq<string>): (r: seq<Row>)
    ensures |r| <= |pieces|
    ensures AllKept(r)
  {
    if pieces == [] then []
    else KeepRow(RowOf(macros, colors, pieces[0]), RowsOf(macros, colors, pieces[1..]))
  }

  /** A row in front of the others, when there is one. */
  function KeepRow(head: Option<Row>, rest: seq<Row>): (r: seq<Row>)
    requires head.Some? ==> Kept(head.value)
    requires AllKept(rest)
    ensures |r| <= |rest| + 1
    ensures AllKept(r)
  {
    if head.Some? then [head.value] + rest else rest
  }

  /** The rows of a tabular body: `content.strip().split("\\\\")`. */
  function Rows(macros: MacroTable, colors: ColorTable, content: string): (r: seq<Row>)
    ensures |r| <= Count(Strip(content), "\\\\") + 1
    ensures AllKept(r)
  {
    SplitCount(Strip(content), "\\\\");
    RowsOf(macros, colors, Split(Strip(content), "\\\\"))
  }

  /**
   * A lazy braced argument after the first `opener`, with DOTALL: its text,
   * the start of the match and its end. When the first opener has no `}`
   * after it, no later one has either.
   */
  function FirstArgument(s: string, opener: string): (r: Option<(string, nat, nat)>)
    requires |opener| > 0
    ensures r.Some? ==> r.value.1 + |opener| <= r.value.2 <= |s|
  {
    match IndexOf(s, opener, 0)
    case None => None
    case Some(i) =>
      match IndexOf(s, "}", i + |opener|)
      case None => None
      case Some(c) => Some((s[i + |opener|..c], i, c + 1))
  }

  /** The environments the inner tabular search accepts. */
  const TabularNames: seq<string> := ["tabularx", "tabular", "tabular*", "supertabular", "xtabular"]

  /**
   * `\\begin\{(name)\}\s*(\{[^}]*\})?(.*?)\\end\{\1\}` with DOTALL at `i`:
   * the column specification, when one is present and the match goes
   * through with it, and the content.
   */
  function TabularAt(s: string, i: nat): (r: Option<(Option<string>, string)>)
  {
    match BeginName(s, i, TabularNames)
    case None => None
    case Some(name) =>
      var q := SkipSpaces(s, i + 8 + |name|);
      var close := EndTag(name);
      var withSpec: Option<(Option<string>, string)> :=
        if q < |s| && s[q] == '{' then
          match IndexOf(s, "}", q + 1)
          case None => None
          case Some(c) =>
            match IndexOf(s, close, c + 1)
            case None => None
            case Some(e) => Some((Some(s[q..c + 1]), s[c + 1..e]))
        else None;
      if withSpec.Some? then withSpec
      else
        match IndexOf(s, close, q)
        case None => None
        case Some(e) => Some((None, s[q..e]))
  }

  /** The `table` float: caption, label and the first inner tabular. */
  function FloatTable(macros: MacroTable, colors: ColorTable, content: string): (t: TableData)
    ensures t.envType.None?
  {
    var caption := match FirstArgument(content, "\\caption{")
      case Some((g, _, _)) => Some(ParseInline(macros, colors, Strip(g)))
      case None => None;
    var refLabel := match FirstArgument(content, "\\label{")
      case Some((g, _, _)) => Some(Strip(g))
      case None => None;
    match FirstFrom(TabularAt, content, 0)
    case None => TableData([], caption, refLabel, None, None)
    case Some((_, (spec, body))) =>
      var colSpec := if spec.Some? then Some(Strip(spec.value)) else None;
      TableData(Rows(macros, colors, body), caption, refLabel, colSpec, None)
  }

  /** `re.match(r"\s*(\{[^}]*\})", s)`: the leading column specification and what follows it. */
  function LeadingSpec(s: string): (r: Option<(string, string)>)
    ensures r.Some? ==> |r.value.1| < |s|
  {
    var q := SkipSpaces(s, 0);
    if q < |s| && s[q] == '{' then
      match IndexOf(s, "}", q + 1)
      case None => None
      case Some(c) => Some((s[q..c + 1], s[c + 1..]))
    else None
  }

  /**
   * A directly written `longtable`, `tabularx` or `tabular`: a leading column
   * specification is cut off; a `longtable` also loses its caption and label,
   * every copy of each matched command being removed from the body.
   */
  function DirectTable(macros: MacroTable, colors: ColorTable, name: string, content: string): (t: TableData)
    ensures t.envType == Some(name)
    ensures name != "longtable" ==> t.caption.None? && t.refLabel.None?
  {
    var spec := LeadingSpec(content);
    var colSpec := if spec.Some? then Some(Strip(spec.value.0)) else None;
    var body := if spec.Some? then spec.value.1 else content;
    if name == "longtable" then
      var cap := FirstArgument(body, "\\caption{");
      var caption := if cap.Some? then Some(ParseInline(macros, colors, Strip(cap.value.0))) else None;
      var body1 := if cap.Some? then ReplaceAll(body, body[cap.value.1..cap.value.2], "") else body;
      var lab := FirstArgument(body1, "\\label{");
      var refLabel := if lab.Some? then Some(Strip(lab.value.0)) else None;
      var body2 := if lab.Some? then ReplaceAll(body1, body1[lab.value.1..lab.value.2], "") else body1;
      TableData(Rows(macros, colors, body2), caption, refLabel, colSpec, Some(name))
    else
      TableData(Rows(macros, colors, body), None, None, colSpec, Some(name))
  }

  /** A table is emitted when it has a row or a non-empty caption. */
  predicate Emitted(t: TableData) {
    t.rows != [] || (t.caption.Some? && t.caption.value != [])
  }
}
