/**
 * `itemize` and `enumerate` bodies: the `\item` pattern (matched without
 * regard to ASCII case), the item text and the formatting an item keeps
 * when all of its runs agree on one.
 */
module Lists {
  import opened Text
  import opened Macros
  import opened Colors
  import opened Inline

  /** An entry of a list block: its text and, when uniform, its formatting. */
  datatype ListItem = ListItem(text: string, fmt: Option<Formatting>)

  function LowerChar(c: char): char {
    if 'A' <= c <= 'Z' then (c as int + 32) as char else c
  }

  /** `pat` occurs at `i` when ASCII case is ignored (`re.IGNORECASE`). */
  predicate AtNoCase(s: string, pat: string, i: nat) {
    i + |pat| <= |s| && forall k :: 0 <= k < |pat| ==> LowerChar(s[i + k]) == LowerChar(pat[k])
  }

  /** Where the lookahead `(?=\\item|\\end\{env\}|\Z)` first holds at or after `p`. */
  function ItemEnd(s: string, env: string, p: nat): (r: nat)
    requires p <= |s|
    ensures p <= r <= |s|
    ensures r == |s| || AtNoCase(s, "\\item", r) || AtNoCase(s, "\\end{" + env + "}", r)
    decreases |s| - p
  {
    if p == |s| || AtNoCase(s, "\\item", p) || AtNoCase(s, "\\end{" + env + "}", p) then p
    else ItemEnd(s, env, p + 1)
  }

  /**
   * A match of `\\item(?:\s+|\[.*?\]\s*)(.*?)(?=...)` at `i`: the raw item
   * content and the end of the match. Spaces come first; otherwise a
   * bracket runs to the first `]`.
   */
  function ItemAt(env: string, s: string, i: nat): (r: Option<(string, nat)>)
    ensures r.Some? ==> i + 5 <= r.value.1 <= |s| && |r.value.0| <= r.value.1 - i - 5
  {
    if !AtNoCase(s, "\\item", i) then None
    else
      var j := i + 5;
      var start: Option<nat> :=
        if j < |s| && IsSpace(s[j]) then Some(SkipSpaces(s, j))
        else if j < |s| && s[j] == '[' then
          match IndexOf(s, "]", j + 1)
          case None => None
          case Some(c) => Some(SkipSpaces(s, c + 1))
        else None;
      match start
      case None => None
      case Some(a) =>
        var e := ItemEnd(s, env, a);
        Some((s[a..e], e))
  }

  /** `re.finditer` over the item pattern from `pos`: the raw contents in order. */
  function RawItems(env: string, s: string, pos: nat): seq<string>
    decreases if pos <= |s| then |s| - pos + 1 else 0
  {
    match FirstFrom((t, k) => ItemAt(env, t, k), s, pos)
    case None => []
    case Some((_, m)) => [m.0] + RawItems(env, s, m.1)
  }

  /** The concatenated text of an item's runs, citations by their display text. */
  function ItemText(runs: seq<Item>): string {
    if runs == [] then ""
    else ItemText(runs[..|runs| - 1]) + (match runs[|runs| - 1] case TextRun(t, _) => t case Citation(d, _, _) => d)
  }

  /**
   * The formatting the item keeps: that of its first run, when every run is
   * text with that same formatting and it is not empty.
   */
  function ItemFormat(runs: seq<Item>): (r: Option<Formatting>)
    ensures r.Some? ==> |runs| > 0 && r.value != NoFormat
    ensures r.Some? ==> forall k :: 0 <= k < |runs| ==> runs[k].TextRun? && runs[k].fmt == r.value
  {
    if |runs| > 0 && runs[0].TextRun? && runs[0].fmt != NoFormat
       && forall k :: 0 <= k < |runs| ==> runs[k].TextRun? && runs[k].fmt == runs[0].fmt
    then Some(runs[0].fmt)
    else None
  }

  /**
   * The loop over an item's runs: it collects the text parts and tracks the
   * first formatting and whether all runs share it. A run without
   * formatting has none (`NoFormat`), which never counts as a formatting.
   */
  method SummarizeItem(runs: seq<Item>) returns (text: string, fmt: Option<Formatting>)
    ensures text == ItemText(runs)
    ensures fmt == ItemFormat(runs)
  {
    text := "";
    var first: Option<Formatting> := None;
    var consistent := true;
    for i := 0 to |runs|
      invariant text == ItemText(runs[..i])
      invariant i > 0 && runs[0].TextRun? ==> first == Some(runs[0].fmt)
      invariant i == 0 || !runs[0].TextRun? ==> first.None?
      invariant consistent <==> forall k :: 0 <= k < i ==> runs[k].TextRun? && runs[0].TextRun? && runs[k].fmt == runs[0].fmt
    {
      assert runs[..i + 1][..i] == runs[..i];
      match runs[i]
      case TextRun(t, f) =>
        text := text + t;
        if i == 0 {
          first := Some(f);
        } else if Some(f) != first {
          consistent := false;
        }
      case Citation(d, _, _) =>
        text := text + d;
        consistent := false;
    }
    assert runs[..|runs|] == runs;
    fmt := if consistent && first.Some? && first.value != NoFormat then first else None;
  }

  /** One raw item: trimmed, parsed, and kept when its text is not blank. */
  function ListItemOf(macros: MacroTable, colors: ColorTable, raw: string): (r: Option<ListItem>)
    ensures r.Some? ==> r.value.text != "" && r.value.text == Strip(r.value.text)
  {
    var c := Strip(raw);
    if c == "" then None
    else
      ItemOfRuns(ParseInline(macros, colors, c))
  }

  /** The entry for an item's runs: their trimmed text, when it is not empty. */
  function ItemOfRuns(runs: seq<Item>): (r: Option<ListItem>)
    ensures r.Some? ==> r.value.text != "" && r.value.text == Strip(r.value.text)
  {
    var text := Strip(ItemText(runs));
    StripTrimmed(text);
    if text == "" then None else Some(ListItem(text, ItemFormat(runs)))
  }

  /** Every entry has text. */
  predicate AllHaveText(items: seq<ListItem>) {
    forall k :: 0 <= k < |items| ==> items[k].text != ""
  }

  /** The entries of a list body, in order. */
  function ListItems(macros: MacroTable, colors: ColorTable, raws: seq<string>): (r: seq<ListItem>)
    ensures |r| <= |raws|
    ensures AllHaveText(r)
  {
    if raws == [] then []
    else KeepItem(ListItemOf(macros, colors, raws[0]), ListItems(macros, colors, raws[1..]))
  }

  /** An entry in front of the others, when there is one. */
  function KeepItem(head: Option<ListItem>, rest: seq<ListItem>): (r: seq<ListItem>)
    requires head.Some? ==> head.value.text != ""
    requires AllHaveText(rest)
    ensures |r| <= |rest| + 1
    ensures AllHaveText(r)
  {
    if head.Some? then [head.value] + rest else rest
  }

  /**
   * After the merge, adjacent text runs differ in formatting, so an item made
   * of several runs never keeps one: only a single formatted run does.
   */
  lemma SeveralRunsUnformatted(runs: seq<Item>)
    requires WellMerged(runs) && |runs| > 1
    ensures ItemFormat(runs).None?
  {
    if runs[0].TextRun? && runs[1].TextRun? {
      assert runs[0].fmt != runs[1].fmt;
    }
  }
}
