/**
 * The bold and italic markers of the line-based converter: `\textbf{x}` and
 * `\textit{x}` are written as `**x**` and `*x*` when the JSON is built, and a
 * marked string is cut back into plain, bold and italic runs when the
 * document is rendered.
 */
module TexMarkers {
  import opened Text

  const BoldCommand: string := "\\textbf{"
  const ItalicCommand: string := "\\textit{"

  /** The `}` that closes `command(.*?)\}` (no DOTALL) matched at `i`. */
  function ArgumentClose(s: string, command: string, i: nat): (r: Option<nat>)
    ensures r.Some? ==> At(s, command, i) && i + |command| <= r.value && At(s, "}", r.value)
    ensures r.Some? ==> forall j :: i + |command| <= j < r.value ==> !At(s, "}", j) && s[j] != '\n'
  {
    if At(s, command, i) then LazyUntil(s, "}", i + |command|, false) else None
  }

  /**
   * `re.sub(command + r"(.*?)\}", left + r"\1" + right, s)` from `i`: every
   * match, found left to right and without overlap, has its argument
   * wrapped between `left` and `right`; everything else is copied.
   */
  function Wrap(s: string, command: string, left: string, right: string, i: nat): (r: string)
    ensures left != "" ==> (r == [] <==> i >= |s|)
    decreases |s| - i
  {
    if i >= |s| then ""
    else match ArgumentClose(s, command, i)
      case Some(c) => left + s[i + |command|..c] + right + Wrap(s, command, left, right, c + 1)
      case None => [s[i]] + Wrap(s, command, left, right, i + 1)
  }

  /** `_apply_basic_formatting_to_str`: bold first, then italic. */
  function ApplyBasicFormatting(s: string): (r: string)
    ensures r == [] <==> s == []
  {
    if s == "" then "" else Wrap(Wrap(s, BoldCommand, "**", "**", 0), ItalicCommand, "*", "*", 0)
  }

  /** Where the command does not occur, the substitution copies the text. */
  lemma {:induction false} WrapAbsent(s: string, command: string, left: string, right: string, i: nat)
    requires i <= |s|
    requires forall j :: i <= j < |s| ==> !At(s, command, j)
    ensures Wrap(s, command, left, right, i) == s[i..]
    decreases |s| - i
  {
    if i < |s| {
      WrapAbsent(s, command, left, right, i + 1);
      assert s[i..] == [s[i]] + s[i + 1..];
    }
  }

  /** A text without a backslash has no command in it. */
  lemma NoCommand(s: string, command: string)
    requires |command| > 0 && command[0] == '\\' && '\\' !in s
    ensures forall j :: 0 <= j < |s| ==> !At(s, command, j)
  {
    forall j | 0 <= j < |s| ensures !At(s, command, j) {
      NotAt(s, command, j, 0);
    }
  }

  /** Text holding neither command comes out as it went in. */
  lemma FormattingUnchanged(s: string)
    requires forall j :: 0 <= j < |s| ==> !At(s, BoldCommand, j) && !At(s, ItalicCommand, j)
    ensures ApplyBasicFormatting(s) == s
  {
    if s != "" {
      WrapAbsent(s, BoldCommand, "**", "**", 0);
      WrapAbsent(s, ItalicCommand, "*", "*", 0);
    }
  }

  /** A whole `command{x}` whose argument has no `}` or newline is one match. */
  lemma WholeArgument(command: string, x: string, left: string, right: string)
    requires |command| > 0 && '}' !in x && '\n' !in x
    ensures Wrap(command + x + "}", command, left, right, 0) == left + x + right
  {
    var s := command + x + "}";
    var a := |command|;
    assert s[..a] == command;
    LastClose(s, a, x);
    assert s[a..|s| - 1] == x;
    assert '\n' !in s[a..|s| - 1];
    assert ArgumentClose(s, command, 0) == Some(|s| - 1);
  }

  /** `\textbf{x}` becomes `**x**`. */
  lemma BoldEncoded(x: string)
    requires '}' !in x && '\n' !in x && '\\' !in x
    ensures ApplyBasicFormatting(BoldCommand + x + "}") == "**" + x + "**"
  {
    WholeArgument(BoldCommand, x, "**", "**");
    NoCommand("**" + x + "**", ItalicCommand);
    WrapAbsent("**" + x + "**", ItalicCommand, "*", "*", 0);
  }

  /** `\textit{x}` becomes `*x*`. */
  lemma ItalicEncoded(x: string)
    requires '}' !in x && '\n' !in x && '\\' !in x
    ensures ApplyBasicFormatting(ItalicCommand + x + "}") == "*" + x + "*"
  {
    var s := ItalicCommand + x + "}";
    forall j | 0 <= j < |s| ensures !At(s, BoldCommand, j) {
      if j == 0 {
        NotAt(s, BoldCommand, 0, 5);
      } else {
        assert s[j] == (ItalicCommand[1..] + x + "}")[j - 1];
        NotAt(s, BoldCommand, j, 0);
      }
    }
    WrapAbsent(s, BoldCommand, "**", "**", 0);
    assert s[0..] == s;
    WholeArgument(ItalicCommand, x, "*", "*");
  }

  /** One run of rendered text. */
  datatype Run = Run(text: string, bold: bool, italic: bool)

  /** A match of `\*\*.*?\*\*|\*.*?\*` (no DOTALL) at `i`: where it ends. */
  function MarkerAt(s: string, i: nat): (r: Option<nat>)
    ensures r.Some? ==> i + 2 <= r.value <= |s| && s[i] == '*'
  {
    if i >= |s| || s[i] != '*' then None
    else
      var double := if At(s, "**", i) then LazyUntil(s, "**", i + 2, false) else None;
      match double
      case Some(c) => Some(c + 2)
      case None =>
        match LazyUntil(s, "*", i + 1, false)
        case Some(c) => Some(c + 1)
        case None => None
  }

  /** A marker closes with `*`. */
  lemma MarkerEnd(s: string, i: nat)
    requires MarkerAt(s, i).Some?
    ensures s[MarkerAt(s, i).value - 1] == '*'
  {
    var double := if At(s, "**", i) then LazyUntil(s, "**", i + 2, false) else None;
    if double.Some? {
      var c := double.value;
      assert s[c..c + 2] == "**";
      assert s[c + 1] == s[c..c + 2][1];
    } else {
      var c := LazyUntil(s, "*", i + 1, false).value;
      assert s[c..c + 1] == "*";
      assert s[c] == s[c..c + 1][0];
    }
  }

  /**
   * `re.split` on the marker pattern, which is one capturing group, scanning
   * from `i` with the current text part opened at `start`: text and matched
   * markers alternate, beginning and ending with text.
   */
  function SplitMarkers(s: string, start: nat, i: nat): (r: seq<string>)
    requires start <= i <= |s|
    ensures |r| >= 1
    decreases |s| - i
  {
    if i == |s| then [s[start..]]
    else match MarkerAt(s, i)
      case Some(e) => [s[start..i], s[i..e]] + SplitMarkers(s, e, e)
      case None => SplitMarkers(s, start, i + 1)
  }

  predicate EndsWith(s: string, suffix: string) {
    |suffix| <= |s| && s[|s| - |suffix|..] == suffix
  }

  /** Python's `s[a:-b]` for positive `a` and `b`: empty once the two ends cross. */
  function Inner(s: string, a: nat, b: nat): (r: string)
    ensures |r| <= |s|
  {
    if a + b <= |s| then s[a..|s| - b] else ""
  }

  /** The run added for one part: none for an empty part. */
  function RunOf(part: string): (r: Option<Run>)
    ensures r.None? <==> part == ""
    ensures r.Some? ==> !(r.value.bold && r.value.italic)
  {
    if part == "" then None
    else if At(part, "**", 0) && EndsWith(part, "**") then Some(Run(Inner(part, 2, 2), true, false))
    else if At(part, "*", 0) && EndsWith(part, "*") then Some(Run(Inner(part, 1, 1), false, true))
    else Some(Run(part, false, false))
  }

  function RunsOf(parts: seq<string>): (r: seq<Run>)
    ensures |r| <= |parts|
  {
    if parts == [] then []
    else (match RunOf(parts[0]) case Some(run) => [run] case None => []) + RunsOf(parts[1..])
  }

  /** The runs `add_runs_for_formatted_text` adds for a marked string. */
  function MarkedRuns(s: string): seq<Run> {
    RunsOf(SplitMarkers(s, 0, 0))
  }

  /** Concatenation of the parts of a split. */
  function Concat(parts: seq<string>): string {
    if parts == [] then "" else parts[0] + Concat(parts[1..])
  }

  /** The parts of the split put back together give the text again. */
  lemma {:induction false} SplitMarkersConcat(s: string, start: nat, i: nat)
    requires start <= i <= |s|
    ensures Concat(SplitMarkers(s, start, i)) == s[start..]
    decreases |s| - i
  {
    if i < |s| {
      match MarkerAt(s, i)
      case Some(e) =>
        SplitMarkersConcat(s, e, e);
        ConcatPair(s[start..i], s[i..e], SplitMarkers(s, e, e));
        SliceThree(s, start, i, e);
      case None =>
        SplitMarkersConcat(s, start, i + 1);
    }
  }

  lemma ConcatPair(a: string, b: string, rest: seq<string>)
    ensures Concat([a, b] + rest) == a + b + Concat(rest)
  {
    assert ([a, b] + rest)[1..] == [b] + rest;
    assert ([b] + rest)[1..] == rest;
  }

  /** Every second part, from the second on, is a marker: it opens and closes with `*`, so it always becomes a bold or italic run. */
  lemma {:induction false} MarkersAtOddParts(s: string, start: nat, i: nat)
    requires start <= i <= |s|
    ensures MarkersAlternate(SplitMarkers(s, start, i))
    decreases |s| - i
  {
    if i < |s| {
      match MarkerAt(s, i)
      case Some(e) =>
        SplitAtMarker(s, start, i, e);
        MarkersAtOddParts(s, e, e);
        MarkerPrepended(s[start..i], s[i..e], SplitMarkers(s, e, e));
      case None =>
        MarkersAtOddParts(s, start, i + 1);
        assert SplitMarkers(s, start, i) == SplitMarkers(s, start, i + 1);
    }
  }

  /** A marker at `i` ends the current text part; the marker itself is the next part. */
  lemma SplitAtMarker(s: string, start: nat, i: nat, e: nat)
    requires start <= i < |s| && MarkerAt(s, i) == Some(e)
    ensures IsMarker(s[i..e])
    ensures SplitMarkers(s, start, i) == [s[start..i], s[i..e]] + SplitMarkers(s, e, e)
  {
    MarkerEnd(s, i);
    assert s[i..e][0] == s[i] && s[i..e][e - i - 1] == s[e - 1];
  }

  /** Text and a marker in front of alternating parts keep them alternating. */
  lemma MarkerPrepended(a: string, b: string, rest: seq<string>)
    requires IsMarker(b)
    requires MarkersAlternate(rest)
    ensures MarkersAlternate([a, b] + rest)
  {
    var parts := [a, b] + rest;
    forall k | 0 <= 2 * k + 1 < |parts| ensures IsMarker(parts[2 * k + 1]) {
      if k > 0 { assert parts[2 * k + 1] == rest[2 * (k - 1) + 1]; }
    }
  }

  /** Every second part, from the second on, is a marker. */
  ghost predicate MarkersAlternate(parts: seq<string>) {
    forall k :: 0 <= 2 * k + 1 < |parts| ==> IsMarker(parts[2 * k + 1])
  }

  /** At least two characters, the first and the last `*`. */
  predicate IsMarker(part: string) {
    |part| >= 2 && part[0] == '*' && part[|part| - 1] == '*'
  }

  /** Where no marker starts, the rest of the text stays one part. */
  lemma {:induction false} NoMarkerSplit(s: string, start: nat, i: nat)
    requires start <= i <= |s|
    requires forall j :: i <= j < |s| ==> MarkerAt(s, j).None?
    ensures SplitMarkers(s, start, i) == [s[start..]]
    decreases |s| - i
  {
    if i < |s| {
      NoMarkerSplit(s, start, i + 1);
    }
  }

  /** Text without `*` is one plain run. */
  lemma PlainRun(s: string)
    requires s != "" && '*' !in s
    ensures MarkedRuns(s) == [Run(s, false, false)]
  {
    NoMarkerSplit(s, 0, 0);
    assert s[0..] == s;
    assert [s][1..] == [];
  }

  /** The parts of a text that is exactly one marker. */
  lemma OneMarker(s: string)
    requires MarkerAt(s, 0) == Some(|s|)
    ensures SplitMarkers(s, 0, 0) == ["", s, ""]
  {
    assert s[|s|..] == "" && s[0..0] == "" && s[0..|s|] == s;
  }

  /** The runs of a split into one marker. */
  lemma RunsOfOne(s: string, run: Run)
    requires RunOf(s) == Some(run)
    ensures RunsOf(["", s, ""]) == [run]
  {
    assert ["", s, ""][1..] == [s, ""];
    assert [s, ""][1..] == [""];
    assert RunsOf([""]) == [];
  }

  /** `**x**`, for non-empty `x` without `*` or newline, is one bold run of `x`. */
  lemma BoldRun(x: string)
    requires x != "" && '*' !in x && '\n' !in x
    ensures MarkedRuns("**" + x + "**") == [Run(x, true, false)]
  {
    var s := "**" + x + "**";
    var e := 2 + |x|;
    assert s[e..e + 2] == "**";
    forall k | 2 <= k < e ensures !At(s, "**", k) {
      assert s[k] == x[k - 2];
      NotAt(s, "**", k, 0);
    }
    IndexOfFirst(s, "**", 2, e);
    assert s[2..e] == x;
    assert s[..2] == "**";
    assert MarkerAt(s, 0) == Some(|s|);
    OneMarker(s);
    assert s[2..|s| - 2] == x;
    assert RunOf(s) == Some(Run(x, true, false));
    RunsOfOne(s, Run(x, true, false));
  }

  /** `*x*`, for non-empty `x` without `*` or newline, is one italic run of `x`. */
  lemma ItalicRun(x: string)
    requires x != "" && '*' !in x && '\n' !in x
    ensures MarkedRuns("*" + x + "*") == [Run(x, false, true)]
  {
    var s := "*" + x + "*";
    var e := 1 + |x|;
    assert s[e..e + 1] == "*";
    assert s[1] == x[0];
    NotAt(s, "**", 0, 1);
    forall k | 1 <= k < e ensures s[k] != '*' {
      assert s[k] == x[k - 1];
    }
    IndexOfChar(s, '*', 1, e);
    assert s[1..e] == x;
    assert MarkerAt(s, 0) == Some(|s|);
    OneMarker(s);
    assert s[1..|s| - 1] == x;
    assert RunOf(s) == Some(Run(x, false, true));
    RunsOfOne(s, Run(x, false, true));
  }

  /** Encoding `\textbf{x}` and cutting the result back into runs gives one bold run of `x`. */
  lemma BoldRoundTrip(x: string)
    requires x != "" && '*' !in x && '}' !in x && '\\' !in x && '\n' !in x
    ensures MarkedRuns(ApplyBasicFormatting(BoldCommand + x + "}")) == [Run(x, true, false)]
  {
    BoldEncoded(x);
    BoldRun(x);
  }

  /** Encoding `\textit{x}` and cutting the result back into runs gives one italic run of `x`. */
  lemma ItalicRoundTrip(x: string)
    requires x != "" && '*' !in x && '}' !in x && '\\' !in x && '\n' !in x
    ensures MarkedRuns(ApplyBasicFormatting(ItalicCommand + x + "}")) == [Run(x, false, true)]
  {
    ItalicEncoded(x);
    ItalicRun(x);
  }
}
