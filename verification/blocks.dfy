/**
 * The body scanner's text-level pieces: comment removal, removal of
 * `%TC:ignore` regions, the split into paragraphs at blank lines and the
 * block pattern (sections, environments, page breaks, bibliographies).
 */
module Blocks {
  import opened Text

  /**
   * A match of `(?<!\\)%.*` at `i`: a `%` whose predecessor is not a
   * backslash, running to the end of its line (the newline stays).
   */
  function CommentAt(s: string, i: nat): (r: Option<nat>)
    ensures r.Some? ==> i < r.value <= |s| && s[i] == '%' && (i == 0 || s[i - 1] != '\\')
    ensures r.Some? ==> r.value == |s| || s[r.value] == '\n'
    ensures r.None? && i < |s| && s[i] == '%' ==> i > 0 && s[i - 1] == '\\'
  {
    if i < |s| && s[i] == '%' && (i == 0 || s[i - 1] != '\\') then
      match IndexOf(s, "\n", i)
      case Some(n) =>
        assert s[n..n + 1][0] == s[n];
        Some(n)
      case None => Some(|s|)
    else None
  }

  /** `re.sub(r"(?<!\\)%.*", "", s)`, scanning from `pos`. */
  function Uncomment(s: string, pos: nat): string
    requires pos <= |s|
    decreases |s| - pos
  {
    match FirstFrom(CommentAt, s, pos)
    case None => s[pos..]
    case Some((i, e)) => s[pos..i] + Uncomment(s, e)
  }

  /** Every `%` left is escaped: it comes right after a backslash. */
  predicate Escaped(r: string) {
    forall k :: 0 <= k < |r| && r[k] == '%' ==> k > 0 && r[k - 1] == '\\'
  }

  /** After comment removal only escaped percent signs remain. */
  lemma {:induction false} UncommentEscaped(s: string, pos: nat)
    requires pos <= |s| && (0 < pos < |s| ==> s[pos] == '\n')
    ensures Escaped(Uncomment(s, pos))
    ensures Uncomment(s, pos) == [] || Uncomment(s, pos)[0] != '%'
    decreases |s| - pos
  {
    match FirstFrom(CommentAt, s, pos)
    case None =>
      var r := s[pos..];
      assert pos < |s| ==> s[pos] != '%' by {
        if pos < |s| { assert CommentAt(s, pos).None?; }
      }
      forall k | 0 <= k < |r| && r[k] == '%' ensures k > 0 && r[k - 1] == '\\' {
        assert s[pos + k] == '%';
        assert CommentAt(s, pos + k).None?;
      }
    case Some((i, e)) =>
      UncommentEscaped(s, e);
      var a := s[pos..i];
      var b := Uncomment(s, e);
      assert b != [] ==> b[0] != '%';
      assert pos < i ==> s[pos] != '%' by {
        if pos < i { assert CommentAt(s, pos).None?; }
      }
      forall k | 0 <= k < |a + b| && (a + b)[k] == '%' ensures k > 0 && (a + b)[k - 1] == '\\' {
        if k < |a| {
          assert a[k] == s[pos + k];
          assert CommentAt(s, pos + k).None?;
          assert (a + b)[k - 1] == s[pos + k - 1];
        } else {
          assert b[k - |a|] == '%';
          assert k - |a| > 0;
          assert (a + b)[k - 1] == b[k - |a| - 1];
        }
      }
  }

  /** Text without a percent sign is left as it is. */
  lemma UncommentNoPercent(s: string)
    requires '%' !in s
    ensures Uncomment(s, 0) == s
  {
    assert FirstFrom(CommentAt, s, 0).None? by {
      forall j | 0 <= j <= |s| ensures CommentAt(s, j).None? {
        if j < |s| { assert s[j] != '%'; }
      }
    }
    assert s[0..] == s;
  }

  /** Comment removal when the one comment starts at `i` and its line ends at `n`. */
  lemma {:induction false} UncommentOne(s: string, i: nat, n: nat)
    requires i < n < |s| && s[n] == '\n'
    requires s[i] == '%' && (i == 0 || s[i - 1] != '\\')
    requires forall j :: 0 <= j < i ==> s[j] != '%'
    requires forall j :: i < j < n ==> s[j] != '\n'
    requires forall j :: n < j < |s| ==> s[j] != '%'
    ensures Uncomment(s, 0) == s[..i] + s[n..]
  {
    IndexOfChar(s, '\n', i, n);
    assert CommentAt(s, i) == Some(n);
    forall j | 0 <= j < i ensures CommentAt(s, j).None? { }
    assert FirstFrom(CommentAt, s, 0) == Some((i, n));
    forall j | n <= j <= |s| ensures CommentAt(s, j).None? { }
    assert FirstFrom(CommentAt, s, n).None?;
  }

  /** The positions of `x%y`, a newline and `z`: the comment sign at `|x|`, the newline after `y`. */
  lemma CommentLineShape(s: string, x: string, y: string, z: string)
    requires s == x + "%" + y + "\n" + z
    requires '%' !in x && '%' !in z && '\n' !in y
    requires x == [] || x[|x| - 1] != '\\'
    ensures var i, n := |x|, |x| + 1 + |y|;
      i < n < |s| && s[n] == '\n' && s[i] == '%' && (i == 0 || s[i - 1] != '\\')
      && (forall j :: 0 <= j < i ==> s[j] != '%')
      && (forall j :: i < j < n ==> s[j] != '\n')
      && (forall j :: n < j < |s| ==> s[j] != '%')
      && s[..i] + s[n..] == x + "\n" + z
  {
    var i := |x|;
    var n := i + 1 + |y|;
    forall j | 0 <= j < i ensures s[j] != '%' { assert s[j] == x[j]; }
    forall j | i < j < n ensures s[j] != '\n' { assert s[j] == y[j - i - 1]; }
    forall j | n < j < |s| ensures s[j] != '%' { assert s[j] == z[j - n - 1]; }
    if i > 0 { assert s[i - 1] == x[i - 1]; }
    assert s[..i] == x;
    assert s[n..] == "\n" + z;
  }

  /** A comment runs to the end of its line: `x%y`, a newline and `z` keep `x`, the newline and `z`. */
  lemma UncommentLine(s: string, x: string, y: string, z: string)
    requires s == x + "%" + y + "\n" + z
    requires '%' !in x && '%' !in z && '\n' !in y
    requires x == [] || x[|x| - 1] != '\\'
    ensures Uncomment(s, 0) == x + "\n" + z
  {
    CommentLineShape(s, x, y, z);
    UncommentOne(s, |x|, |x| + 1 + |y|);
  }

  /** The markers of a region the word counter and the converter skip. */
  const IgnoreStart: string := "%TC:ignore"
  const IgnoreEnd: string := "%TC:endignore"

  /**
   * The next match of `%TC:ignore.*?%TC:endignore` (DOTALL) from `pos`: the
   * first start marker and the end of the first end marker after it.
   * Without an end marker no later start can match either.
   */
  function IgnoredRegion(s: string, pos: nat): (r: Option<(nat, nat)>)
    ensures r.Some? ==> pos <= r.value.0 && r.value.0 + 23 <= r.value.1 <= |s|
  {
    match IndexOf(s, IgnoreStart, pos)
    case None => None
    case Some(i) =>
      match IndexOf(s, IgnoreEnd, i + 10)
      case None => None
      case Some(e) => Some((i, e + 13))
  }

  /** `re.sub(r"%TC:ignore.*?%TC:endignore", "", s, flags=re.DOTALL)` from `pos`. */
  function RemoveIgnored(s: string, pos: nat): string
    requires pos <= |s|
    decreases |s| - pos
  {
    match IgnoredRegion(s, pos)
    case None => s[pos..]
    case Some((i, e)) => s[pos..i] + RemoveIgnored(s, e)
  }

  /** Removal of the one ignored region, which starts at `i` and whose end marker starts at `e`. */
  lemma RemoveOne(s: string, i: nat, e: nat)
    requires i + 10 <= e && At(s, IgnoreStart, i) && At(s, IgnoreEnd, e)
    requires forall j :: 0 <= j < i ==> s[j] != '%'
    requires forall j :: i + 10 <= j < e ==> s[j] != '%'
    requires forall j :: e + 13 <= j < |s| ==> s[j] != '%'
    ensures RemoveIgnored(s, 0) == s[..i] + s[e + 13..]
  {
    FirstMarker(s, IgnoreStart, 0, i);
    FirstMarker(s, IgnoreEnd, i + 10, e);
    RegionFound(s, 0, i, e);
    RemoveStep(s, 0, i, e + 13);
    RemoveNoMarker(s, e + 13);
    assert s[0..i] == s[..i];
  }

  /** The first markers found make the region. */
  lemma RegionFound(s: string, pos: nat, i: nat, e: nat)
    requires IndexOf(s, IgnoreStart, pos) == Some(i) && IndexOf(s, IgnoreEnd, i + 10) == Some(e)
    ensures IgnoredRegion(s, pos) == Some((i, e + 13))
  {
  }

  /** One removal: the text before the region, then the removal after it. */
  lemma RemoveStep(s: string, pos: nat, i: nat, e: nat)
    requires pos <= |s| && IgnoredRegion(s, pos) == Some((i, e))
    ensures pos <= i <= e <= |s|
    ensures RemoveIgnored(s, pos) == s[pos..i] + RemoveIgnored(s, e)
  {
  }

  /** A marker at `j` with no `%` from `i` up to it is the first one from `i`. */
  lemma FirstMarker(s: string, marker: string, i: nat, j: nat)
    requires i <= j && At(s, marker, j) && |marker| > 0 && marker[0] == '%'
    requires forall k :: i <= k < j ==> s[k] != '%'
    ensures IndexOf(s, marker, i) == Some(j)
  {
    forall k | i <= k < j ensures !At(s, marker, k) { NotAt(s, marker, k, 0); }
    IndexOfFirst(s, marker, i, j);
  }

  /** Removal only ever shortens the text. */
  lemma {:induction false} RemoveIgnoredShorter(s: string, pos: nat)
    requires pos <= |s|
    ensures |RemoveIgnored(s, pos)| <= |s| - pos
    decreases |s| - pos
  {
    match IgnoredRegion(s, pos)
    case None =>
    case Some((i, e)) =>
      RemoveIgnoredShorter(s, e);
  }

  /** From a position with no `%` after it, the rest is kept. */
  lemma RemoveNoMarker(s: string, p: nat)
    requires p <= |s| && forall j :: p <= j < |s| ==> s[j] != '%'
    ensures RemoveIgnored(s, p) == s[p..]
  {
    forall j | p <= j ensures !At(s, IgnoreStart, j) {
      if j < |s| { NotAt(s, IgnoreStart, j, 0); }
    }
    assert IndexOf(s, IgnoreStart, p).None?;
  }

  /** An ignored region is cut out, markers included. */
  lemma IgnoredRegionRemoved(s: string, x: string, y: string, z: string)
    requires s == x + "%TC:ignore" + y + "%TC:endignore" + z
    requires '%' !in x && '%' !in y && '%' !in z
    ensures RemoveIgnored(s, 0) == x + z
  {
    var i := |x|;
    var e := i + 10 + |y|;
    assert s[..i] == x;
    assert s[i..i + 10] == IgnoreStart;
    assert s[i + 10..e] == y;
    assert s[e..e + 13] == IgnoreEnd;
    assert s[e + 13..] == z;
    forall j | 0 <= j < i ensures s[j] != '%' { assert s[j] == s[..i][j]; }
    forall j | i + 10 <= j < e ensures s[j] != '%' { assert s[j] == s[i + 10..e][j - i - 10]; }
    forall j | e + 13 <= j < |s| ensures s[j] != '%' { assert s[j] == s[e + 13..][j - e - 13]; }
    RemoveOne(s, i, e);
  }

  /** Text without a marker is left as it is. */
  lemma RemoveIgnoredNoMarker(s: string)
    requires !Contains(s, IgnoreStart)
    ensures RemoveIgnored(s, 0) == s
  {
    assert s[0..] == s;
  }

  /** The body text the block scanner works on. */
  function Prepare(body: string): string {
    var u := Uncomment(body, 0);
    RemoveIgnored(u, 0)
  }

  /** The last newline in `s[lo..hi]`. */
  function LastNewline(s: string, lo: nat, hi: nat): (r: Option<nat>)
    requires lo <= hi <= |s|
    decreases hi - lo
    ensures r.Some? ==> lo <= r.value < hi && s[r.value] == '\n'
    ensures r.Some? ==> forall k :: r.value < k < hi ==> s[k] != '\n'
    ensures r.None? ==> forall k :: lo <= k < hi ==> s[k] != '\n'
  {
    if hi == lo then None
    else if s[hi - 1] == '\n' then Some(hi - 1)
    else LastNewline(s, lo, hi - 1)
  }

  /**
   * A match of `\n\s*\n+` at `i`: a newline followed by a run of whitespace
   * that holds another newline. The match ends after the last newline of the run.
   */
  function BreakAt(s: string, i: nat): (r: Option<nat>)
    ensures r.Some? ==> i + 2 <= r.value <= |s| && s[i] == '\n'
    ensures r.Some? ==> forall k :: i <= k < r.value ==> IsSpace(s[k])
    ensures r.Some? ==> s[r.value - 1] == '\n'
  {
    if i >= |s| || s[i] != '\n' then None
    else
      var w := SkipSpaces(s, i + 1);
      match LastNewline(s, i + 1, w)
      case None => None
      case Some(l) => Some(l + 1)
  }

  /** `re.split(r'\n\s*\n+', s)` from `pos`: the paragraphs between blank lines. */
  function Paragraphs(s: string, pos: nat): (r: seq<string>)
    requires pos <= |s|
    ensures |r| >= 1
    decreases |s| - pos
  {
    match FirstFrom(BreakAt, s, pos)
    case None => [s[pos..]]
    case Some((i, e)) => [s[pos..i]] + Paragraphs(s, e)
  }

  /** Text on one line is one paragraph. */
  lemma OneParagraph(s: string)
    requires '\n' !in s
    ensures Paragraphs(s, 0) == [s]
  {
    assert FirstFrom(BreakAt, s, 0).None? by {
      forall j | 0 <= j <= |s| ensures BreakAt(s, j).None? {
        if j < |s| { assert s[j] != '\n'; }
      }
    }
    assert s[0..] == s;
  }

  /** The split when the one blank line is the pair of newlines at `i`. */
  lemma {:induction false} SplitOnce(s: string, i: nat)
    requires i + 2 <= |s| && s[i] == '\n' && s[i + 1] == '\n'
    requires i + 2 < |s| ==> !IsSpace(s[i + 2])
    requires forall j :: 0 <= j < i ==> s[j] != '\n'
    requires forall j :: i + 2 <= j < |s| ==> s[j] != '\n'
    ensures Paragraphs(s, 0) == [s[..i], s[i + 2..]]
  {
    assert SkipSpaces(s, i + 1) == i + 2;
    assert LastNewline(s, i + 1, i + 2) == Some(i + 1);
    assert BreakAt(s, i) == Some(i + 2);
    forall j | 0 <= j < i ensures BreakAt(s, j).None? { }
    assert FirstFrom(BreakAt, s, 0) == Some((i, i + 2));
    forall j | i + 2 <= j <= |s| ensures BreakAt(s, j).None? { }
    assert FirstFrom(BreakAt, s, i + 2).None?;
  }

  /** A blank line separates two paragraphs. */
  lemma TwoParagraphs(s: string, x: string, y: string)
    requires s == x + "\n\n" + y
    requires '\n' !in x && '\n' !in y && (y == [] || !IsSpace(y[0]))
    ensures Paragraphs(s, 0) == [x, y]
  {
    var i := |x|;
    assert s[..i] == x;
    assert s[i + 2..] == y;
    assert s[i] == '\n' && s[i + 1] == '\n';
    forall j | 0 <= j < i ensures s[j] != '\n' { assert s[j] == s[..i][j]; }
    forall j | i + 2 <= j < |s| ensures s[j] != '\n' { assert s[j] == s[i + 2..][j - i - 2]; }
    assert i + 2 < |s| ==> s[i + 2] == y[0];
    SplitOnce(s, i);
  }

  /** Text `\n\s*\n+` matches as a whole: whitespace that starts and ends with a newline. */
  predicate IsBreak(t: string)
  {
    |t| >= 2 && t[0] == '\n' && t[|t| - 1] == '\n' && forall k :: 0 <= k < |t| ==> IsSpace(t[k])
  }

  /** Text in which `\n\s*\n+` matches nowhere. */
  ghost predicate NoBreak(p: string)
  {
    forall j :: BreakAt(p, j).None?
  }

  /** The separators `Paragraphs(s, pos)` cuts at, in order. */
  function Breaks(s: string, pos: nat): (r: seq<string>)
    requires pos <= |s|
    ensures |r| == |Paragraphs(s, pos)| - 1
    ensures forall k :: 0 <= k < |r| ==> IsBreak(r[k])
    decreases |s| - pos
  {
    match FirstFrom(BreakAt, s, pos)
    case None => []
    case Some((i, e)) =>
      BreakSpan(s, i, e);
      [s[i..e]] + Breaks(s, e)
  }

  /** The text a match of `\n\s*\n+` spans is a whole break. */
  lemma BreakSpan(s: string, i: nat, e: nat)
    requires BreakAt(s, i) == Some(e)
    ensures i < e <= |s| && IsBreak(s[i..e])
  {
    var t := s[i..e];
    forall k | 0 <= k < |t| ensures IsSpace(t[k]) { assert t[k] == s[i + k]; }
    assert t[0] == s[i] && t[|t| - 1] == s[e - 1];
  }

  /** The pieces with the separators put back between them. */
  function Rejoin(pieces: seq<string>, seps: seq<string>): string
    requires |pieces| == |seps| + 1
  {
    if |seps| == 0 then pieces[0] else pieces[0] + seps[0] + Rejoin(pieces[1..], seps[1..])
  }

  /** Putting the cut separators back between the paragraphs gives the text again. */
  lemma {:induction false} ParagraphsRejoin(s: string, pos: nat)
    requires pos <= |s|
    ensures Rejoin(Paragraphs(s, pos), Breaks(s, pos)) == s[pos..]
    decreases |s| - pos
  {
    match FirstFrom(BreakAt, s, pos)
    case None =>
    case Some((i, e)) =>
      var ps := Paragraphs(s, pos);
      var bs := Breaks(s, pos);
      assert ps == [s[pos..i]] + Paragraphs(s, e);
      assert bs == [s[i..e]] + Breaks(s, e);
      assert ps[1..] == Paragraphs(s, e) && bs[1..] == Breaks(s, e);
      assert Rejoin(ps, bs) == s[pos..i] + s[i..e] + Rejoin(Paragraphs(s, e), Breaks(s, e));
      ParagraphsRejoin(s, e);
      SliceThree(s, pos, i, e);
  }

  /** A break inside the slice `s[lo..hi]` is a break in `s` too. */
  lemma BreakInSlice(s: string, lo: nat, hi: nat, j: nat)
    requires lo <= hi <= |s|
    requires BreakAt(s[lo..hi], j).Some?
    ensures lo + j < hi && BreakAt(s, lo + j).Some?
  {
    var p := s[lo..hi];
    var w' := SkipSpaces(p, j + 1);
    var l' := LastNewline(p, j + 1, w').value;
    assert s[lo + j] == p[j];
    var w := SkipSpaces(s, lo + j + 1);
    forall k | lo + j + 1 <= k < lo + w' ensures IsSpace(s[k]) {
      assert s[k] == p[k - lo];
    }
    assert lo + w' <= w;
    assert s[lo + l'] == p[l'];
    assert LastNewline(s, lo + j + 1, w).Some?;
  }

  /** No paragraph holds a blank line: every break was cut at. */
  lemma {:induction false} ParagraphsNoBreak(s: string, pos: nat)
    requires pos <= |s|
    ensures forall p :: p in Paragraphs(s, pos) ==> NoBreak(p)
    decreases |s| - pos
  {
    match FirstFrom(BreakAt, s, pos)
    case None =>
      forall j ensures BreakAt(s[pos..|s|], j).None? {
        if BreakAt(s[pos..|s|], j).Some? { BreakInSlice(s, pos, |s|, j); }
      }
      assert s[pos..] == s[pos..|s|];
    case Some((i, e)) =>
      forall j ensures BreakAt(s[pos..i], j).None? {
        if BreakAt(s[pos..i], j).Some? { BreakInSlice(s, pos, i, j); }
      }
      ParagraphsNoBreak(s, e);
  }

  /** What the block pattern matched. */
  datatype BlockMatch =
    | SectionMatch(level: nat, title: string)
    | EnvMatch(name: string, body: string)
    | PageBreak(command: string)
    | BibliographyMatch(command: string)

  /** The environment alternatives of the block pattern, in its order. */
  const Environments: seq<string> :=
    ["figure", "table", "itemize", "enumerate", "quotation", "verbatim",
     "longtable", "tabularx", "tabular", "subcaption", "subfigure"]

  /**
   * `(?:\[(.*?)\])?\{(.*?)\}` with DOTALL from `k`: an optional bracket
   * (its content runs to the first `]{`), then the braced argument to the
   * first `}`. Returns the argument and the end of the match.
   */
  function OptBracketArgAt(s: string, k: nat): (r: Option<(string, nat)>)
    ensures r.Some? ==> k < r.value.1 <= |s| && |r.value.0| < r.value.1 - k
    ensures r.Some? ==> '}' !in r.value.0
  {
    if k < |s| && s[k] == '[' then
      match IndexOf(s, "]{", k + 1)
      case None => None
      case Some(j) =>
        match IndexOf(s, "}", j + 2)
        case None => None
        case Some(c) => ArgumentOk(s, j + 2, c); Some((s[j + 2..c], c + 1))
    else if k < |s| && s[k] == '{' then
      match IndexOf(s, "}", k + 1)
      case None => None
      case Some(c) => ArgumentOk(s, k + 1, c); Some((s[k + 1..c], c + 1))
    else None
  }

  /** The argument before the first `}` holds none. */
  lemma ArgumentOk(s: string, a: nat, c: nat)
    requires IndexOf(s, "}", a) == Some(c)
    ensures a <= c < |s| && '}' !in s[a..c]
  {
    forall j | a <= j < c ensures s[j] != '}' { assert !At(s, "}", j); }
  }

  /** `\\(section|subsection|subsubsection)` with its argument, at `i`: the level and the raw title. */
  function SectionAt(s: string, i: nat): (r: Option<(BlockMatch, nat)>)
    ensures r.Some? ==> i < r.value.1 <= |s| && r.value.0.SectionMatch?
    ensures r.Some? ==> 1 <= r.value.0.level <= 3
  {
    var head: Option<(nat, nat)> :=
      if At(s, "\\section", i) then Some((1, i + 8))
      else if At(s, "\\subsection", i) then Some((2, i + 11))
      else if At(s, "\\subsubsection", i) then Some((3, i + 14))
      else None;
    match head
    case None => None
    case Some((level, k)) =>
      match OptBracketArgAt(s, k)
      case None => None
      case Some((title, e)) => Some((SectionMatch(level, title), e))
  }

  /** The first environment name `n` of `names` for which `\begin{n}` occurs at `i`. */
  function BeginName(s: string, i: nat, names: seq<string>): (r: Option<string>)
    ensures r.Some? ==> r.value in names && At(s, BeginTag(r.value), i)
  {
    if names == [] then None
    else if At(s, BeginTag(names[0]), i) then Some(names[0])
    else BeginName(s, i, names[1..])
  }

  /** The opening tag `\begin{name}` of an environment. */
  function BeginTag(name: string): (r: string)
    ensures |r| == |name| + 8 && r[0] == '\\' && r[1] == 'b'
    ensures forall k :: 0 <= k < |name| ==> r[7 + k] == name[k]
  {
    "\\begin{" + name + "}"
  }

  /** The closing tag `\end{name}` of an environment. */
  function EndTag(name: string): (r: string)
    ensures |r| == |name| + 6
  {
    "\\end{" + name + "}"
  }

  /** `\\begin\{(name)\}(.*?)\\end\{\4\}` with DOTALL at `i`: the content runs to the first matching end. */
  function EnvironmentAt(s: string, i: nat): (r: Option<(BlockMatch, nat)>)
    ensures r.Some? ==> i < r.value.1 <= |s| && r.value.0.EnvMatch? && r.value.0.name in Environments
  {
    match BeginName(s, i, Environments)
    case None => None
    case Some(name) =>
      var from := i + 8 + |name|;
      match IndexOf(s, EndTag(name), from)
      case None => None
      case Some(e) => Some((EnvMatch(name, s[from..e]), e + |name| + 6))
  }

  /** The alternatives of the block pattern after the environments: `\newpage`, `\clearpage` and the bibliography commands. */
  function CommandBlockAt(s: string, i: nat): (r: Option<(BlockMatch, nat)>)
    ensures r.Some? ==> i < r.value.1 <= |s| && (r.value.0.PageBreak? || r.value.0.BibliographyMatch?)
  {
    if At(s, "\\newpage", i) then Some((PageBreak("newpage"), i + 8))
    else if At(s, "\\clearpage", i) then Some((PageBreak("clearpage"), i + 10))
    else if At(s, "\\printbibliography", i) then Some((BibliographyMatch("printbibliography"), i + 18))
    else if At(s, "\\bibliography{", i) then
      match IndexOf(s, "}", i + 14)
      case None => None
      case Some(c) => Some((BibliographyMatch(s[i + 1..c + 1]), c + 1))
    else None
  }

  /**
   * The block pattern at `i`, its alternatives tried in order: a section, an
   * environment, `\newpage`/`\clearpage`, `\printbibliography` or `\bibliography{...}`.
   */
  function BlockAt(s: string, i: nat): (r: Option<(BlockMatch, nat)>)
    ensures r.Some? ==> i < r.value.1 <= |s|
    ensures r.Some? && r.value.0.SectionMatch? ==> 1 <= r.value.0.level <= 3
    ensures r.Some? && r.value.0.EnvMatch? ==> r.value.0.name in Environments
  {
    var section := SectionAt(s, i);
    if section.Some? then section else
    var env := EnvironmentAt(s, i);
    if env.Some? then env else CommandBlockAt(s, i)
  }

  /** Without a backslash the block pattern matches nowhere. */
  lemma NoBlockWithoutBackslash(s: string, pos: nat)
    requires '\\' !in s && pos <= |s|
    ensures FirstFrom(BlockAt, s, pos).None?
  {
    forall j | pos <= j <= |s| ensures BlockAt(s, j).None? {
      if j < |s| {
        assert s[j] != '\\';
        NotAt(s, "\\section", j, 0);
        NotAt(s, "\\subsection", j, 0);
        NotAt(s, "\\subsubsection", j, 0);
        forall n | n in Environments ensures !At(s, BeginTag(n), j) {
          NotAt(s, BeginTag(n), j, 0);
        }
        NotAt(s, "\\newpage", j, 0);
        NotAt(s, "\\clearpage", j, 0);
        NotAt(s, "\\printbibliography", j, 0);
        NotAt(s, "\\bibliography{", j, 0);
      }
    }
  }

  /** `\subsection{t}` matches as a whole, as a level-2 section. */
  lemma SubsectionMatch(s: string, t: string)
    requires s == "\\subsection{" + t + "}" && '}' !in t
    ensures BlockAt(s, 0) == Some((SectionMatch(2, t), |s|))
  {
    assert s[..11] == "\\subsection";
    assert s[2] == 'u' && s[11] == '{';
    NotAt(s, "\\section", 0, 2);
    assert s[12..|s| - 1] == t;
    forall j | 12 <= j < |s| - 1 ensures s[j] != '}' { assert s[j] == t[j - 12]; }
    IndexOfChar(s, '}', 12, |s| - 1);
  }

  /** `BeginName` finds the `k`-th name when it occurs and none before it does. */
  lemma {:induction false} BeginNameIs(s: string, i: nat, names: seq<string>, k: nat)
    requires k < |names| && At(s, BeginTag(names[k]), i)
    requires forall j :: 0 <= j < k ==> !At(s, BeginTag(names[j]), i)
    ensures BeginName(s, i, names) == Some(names[k])
  {
    if k > 0 {
      assert !At(s, BeginTag(names[0]), i);
      forall j | 0 <= j < k - 1 ensures !At(s, BeginTag(names[1..][j]), i) {
        assert names[1..][j] == names[j + 1];
      }
      BeginNameIs(s, i, names[1..], k - 1);
    }
  }
}
