/**
 * String primitives shared by every component: Python's notion of whitespace,
 * `str.strip`, `str.replace`, `str.split`, `str.join`, literal search, and the
 * leftmost-match search that `re.search`, `re.finditer` and `re.sub` perform.
 */
module Text {

  datatype Option<+T> = None | Some(value: T)

  /** Python's `str.isspace` (the characters `\s` and `strip()` treat as whitespace). */
  predicate IsSpace(c: char) {
    ('\t' <= c <= '\r') || ('\U{1C}' <= c <= '\U{1F}') || c == ' ' || c == '\U{85}' || c == '\U{A0}'
    || c == '\U{1680}' || ('\U{2000}' <= c <= '\U{200A}') || c == '\U{2028}' || c == '\U{2029}'
    || c == '\U{202F}' || c == '\U{205F}' || c == '\U{3000}'
  }

  /** The characters at which Python's `str.splitlines` ends a line. */
  predicate IsLineBreak(c: char) {
    c == '\n' || c == '\r' || c == '\U{0B}' || c == '\U{0C}' || ('\U{1C}' <= c <= '\U{1E}')
    || c == '\U{85}' || c == '\U{2028}' || c == '\U{2029}'
  }

  /** Regex `\w`, restricted to ASCII. */
  predicate IsWordChar(c: char) {
    ('a' <= c <= 'z') || ('A' <= c <= 'Z') || ('0' <= c <= '9') || c == '_'
  }

  /** Regex class `[a-zA-Z@]`: the characters of a LaTeX control word. */
  predicate IsCommandLetter(c: char) {
    ('a' <= c <= 'z') || ('A' <= c <= 'Z') || c == '@'
  }

  predicate IsDigit(c: char) { '0' <= c <= '9' }

  predicate IsHexDigit(c: char) {
    IsDigit(c) || ('a' <= c <= 'f') || ('A' <= c <= 'F')
  }

  /** ASCII upper-casing, which is what `str.upper` does to hexadecimal digits. */
  function UpperChar(c: char): (r: char)
    ensures IsHexDigit(c) ==> IsHexDigit(r) && !('a' <= r <= 'f')
  {
    if 'a' <= c <= 'z' then (c as int - 32) as char else c
  }

  function Upper(s: string): (r: string)
    ensures |r| == |s|
    ensures forall i :: 0 <= i < |s| ==> r[i] == UpperChar(s[i])
  {
    if s == [] then [] else [UpperChar(s[0])] + Upper(s[1..])
  }

  /** A string Python's `strip()` would turn into the empty string. */
  predicate IsBlank(s: string) {
    forall i :: 0 <= i < |s| ==> IsSpace(s[i])
  }

  /** Where the trailing whitespace of `s[lo..hi]` begins. */
  function TrimEndIndex(s: string, lo: nat, hi: nat): (r: nat)
    requires lo <= hi <= |s|
    ensures lo <= r <= hi
    ensures forall k :: r <= k < hi ==> IsSpace(s[k])
    ensures r > lo ==> !IsSpace(s[r - 1])
    decreases hi
  {
    if hi > lo && IsSpace(s[hi - 1]) then TrimEndIndex(s, lo, hi - 1) else hi
  }

  /** Python's `str.strip()` with no argument. */
  function Strip(s: string): (r: string)
    ensures |r| <= |s|
    ensures r == [] || (!IsSpace(r[0]) && !IsSpace(r[|r| - 1]))
    ensures r == [] <==> IsBlank(s)
    ensures Contains(s, r)
  {
    var a := SkipSpaces(s, 0);
    var b := TrimEndIndex(s, a, |s|);
    assert At(s, s[a..b], a);
    assert a == b ==> IsBlank(s);
    s[a..b]
  }

  /** `pat` occurs in `s` at index `i`. */
  predicate At(s: string, pat: string, i: nat) {
    i + |pat| <= |s| && s[i..i + |pat|] == pat
  }

  predicate Contains(s: string, pat: string) {
    exists i :: 0 <= i <= |s| && At(s, pat, i)
  }

  /** A pattern one of whose characters the string lacks does not occur in it. */
  lemma AbsentByChar(s: string, pat: string, k: nat)
    requires k < |pat| && pat[k] !in s
    ensures !Contains(s, pat)
  {
    forall i | 0 <= i <= |s| ensures !At(s, pat, i) {
      if i + |pat| <= |s| {
        assert s[i..i + |pat|][k] == s[i + k];
      }
    }
  }

  /** The index of the first occurrence of `pat` at or after `from`: Python's `str.find(pat, from)`. */
  function IndexOf(s: string, pat: string, from: nat): (r: Option<nat>)
    decreases |s| - from
    ensures r.Some? ==> from <= r.value && At(s, pat, r.value)
    ensures r.Some? ==> forall j :: from <= j < r.value ==> !At(s, pat, j)
    ensures r.None? ==> forall j :: from <= j ==> !At(s, pat, j)
  {
    if from + |pat| > |s| then None
    else if At(s, pat, from) then Some(from)
    else IndexOf(s, pat, from + 1)
  }

  /** The end of the maximal run of whitespace that starts at `i` (regex `\s*`, greedy). */
  function SkipSpaces(s: string, i: nat): (r: nat)
    decreases |s| - i
    ensures i <= r && (i <= |s| ==> r <= |s|) && (i > |s| ==> r == i)
    ensures forall j :: i <= j < r ==> IsSpace(s[j])
    ensures r < |s| ==> !IsSpace(s[r])
  {
    if i < |s| && IsSpace(s[i]) then SkipSpaces(s, i + 1) else i
  }

  /** The end of the maximal run of `[a-zA-Z@]` that starts at `i` (regex `[a-zA-Z@]*`, greedy). */
  function SkipCommandLetters(s: string, i: nat): (r: nat)
    decreases |s| - i
    ensures i <= r && (i <= |s| ==> r <= |s|) && (i > |s| ==> r == i)
    ensures forall j :: i <= j < r ==> IsCommandLetter(s[j])
    ensures r < |s| ==> !IsCommandLetter(s[r])
  {
    if i < |s| && IsCommandLetter(s[i]) then SkipCommandLetters(s, i + 1) else i
  }

  /** The end of the maximal run of word characters that starts at `i` (regex `\w*`, greedy). */
  function SkipWordChars(s: string, i: nat): (r: nat)
    decreases |s| - i
    ensures i <= r && (i <= |s| ==> r <= |s|) && (i > |s| ==> r == i)
    ensures forall j :: i <= j < r ==> IsWordChar(s[j])
    ensures r < |s| ==> !IsWordChar(s[r])
  {
    if i < |s| && IsWordChar(s[i]) then SkipWordChars(s, i + 1) else i
  }

  /**
   * The close of a lazy group `(.*?)` followed by `close`: the first occurrence
   * of `close` at or after `from`; without DOTALL the group may not cross a newline.
   */
  function LazyUntil(s: string, close: string, from: nat, dotAll: bool): (r: Option<nat>)
    ensures r.Some? ==> from <= r.value && At(s, close, r.value)
    ensures r.Some? ==> forall j :: from <= j < r.value ==> !At(s, close, j)
    ensures r.Some? && !dotAll ==> forall j :: from <= j < r.value ==> s[j] != '\n'
  {
    match IndexOf(s, close, from)
    case None => None
    case Some(p) => if dotAll || '\n' !in s[from..p] then Some(p) else None
  }

  /**
   * Leftmost-match search: the first index `j >= i` at which `m` matches, with
   * what it matched. This is the search that `re.search(p, s, i)` performs.
   */
  function FirstFrom<T>(m: (string, nat) -> Option<T>, s: string, i: nat): (r: Option<(nat, T)>)
    decreases if i <= |s| then |s| - i + 1 else 0
    ensures r.Some? ==> i <= r.value.0 <= |s| && m(s, r.value.0) == Some(r.value.1)
    ensures r.Some? ==> forall j :: i <= j < r.value.0 ==> m(s, j).None?
    ensures r.None? ==> forall j :: i <= j <= |s| ==> m(s, j).None?
  {
    if i > |s| then None
    else match m(s, i)
      case Some(t) => Some((i, t))
      case None => FirstFrom(m, s, i + 1)
  }

  /** An empty prefix leaves a concatenation as it is. */
  lemma EmptyPrefix<T>(p: seq<T>, a: seq<T>, b: seq<T>)
    requires p == []
    ensures p + a + b == a + b
  {
  }

  /** Empty pieces on both sides leave the middle as it is. */
  lemma EmptyAround<T>(p: seq<T>, a: seq<T>, q: seq<T>)
    requires p == [] && q == []
    ensures p + a + q == a
  {
  }

  /** A suffix cut in three at `j` and `e`. */
  lemma SliceThree(s: string, i: nat, j: nat, e: nat)
    requires i <= j <= e <= |s|
    ensures s[i..] == s[i..j] + s[j..e] + s[e..]
  {
  }

  /** A match at `j`, with none from `i` up to it, is the first one from `i`. */
  lemma {:induction false} FirstIs<T>(m: (string, nat) -> Option<T>, s: string, i: nat, j: nat, x: T)
    requires i <= j <= |s| && m(s, j) == Some(x)
    requires forall k :: i <= k < j ==> m(s, k).None?
    ensures FirstFrom(m, s, i) == Some((j, x))
    decreases j - i
  {
    if i < j {
      FirstIs(m, s, i + 1, j, x);
    }
  }

  /** A match at the starting position is the first one. */
  lemma FirstAt<T>(m: (string, nat) -> Option<T>, s: string, i: nat, x: T)
    requires i <= |s| && m(s, i) == Some(x)
    ensures FirstFrom(m, s, i) == Some((i, x))
  {
  }

  /** Python's `str.replace(pat, rep)`: every non-overlapping occurrence, left to right. */
  function ReplaceAll(s: string, pat: string, rep: string): string
    requires |pat| > 0
    decreases |s|
  {
    if |s| < |pat| then s
    else if s[..|pat|] == pat then rep + ReplaceAll(s[|pat|..], pat, rep)
    else [s[0]] + ReplaceAll(s[1..], pat, rep)
  }

  lemma {:induction false} ReplaceAllAbsent(s: string, pat: string, rep: string)
    requires |pat| > 0 && !Contains(s, pat)
    ensures ReplaceAll(s, pat, rep) == s
    decreases |s|
  {
    if |s| >= |pat| {
      assert s[..|pat|] != pat by { assert !At(s, pat, 0); }
      forall i: nat ensures !At(s[1..], pat, i) {
        if At(s[1..], pat, i) {
          assert s[1..][i..i + |pat|] == s[i + 1..i + 1 + |pat|];
          assert At(s, pat, i + 1);
        }
      }
      ReplaceAllAbsent(s[1..], pat, rep);
    }
  }

  /** A character that is neither in `s` nor in the replacement is not in the result. */
  lemma {:induction false} ReplaceAllKeepsOut(s: string, pat: string, rep: string, c: char)
    requires |pat| > 0 && c !in s && c !in rep
    ensures c !in ReplaceAll(s, pat, rep)
    decreases |s|
  {
    if |s| >= |pat| {
      if s[..|pat|] == pat {
        ReplaceAllKeepsOut(s[|pat|..], pat, rep, c);
      } else {
        ReplaceAllKeepsOut(s[1..], pat, rep, c);
      }
    }
  }

  /** Replacing a one-character pattern by a string that lacks it removes it everywhere. */
  lemma {:induction false} ReplaceAllRemoves(s: string, c: char, rep: string)
    requires c !in rep
    ensures c !in ReplaceAll(s, [c], rep)
    decreases |s|
  {
    if |s| >= 1 {
      if s[..1] == [c] {
        ReplaceAllRemoves(s[1..], c, rep);
      } else {
        assert s[0] != c by { assert s[..1] == [s[0]]; }
        ReplaceAllRemoves(s[1..], c, rep);
      }
    }
  }

  /** Python's `str.split(sep)` with an explicit, non-empty separator. */
  function Split(s: string, sep: string): (r: seq<string>)
    requires |sep| > 0
    ensures |r| >= 1
    decreases |s|
  {
    match IndexOf(s, sep, 0)
    case None => [s]
    case Some(p) => [s[..p]] + Split(s[p + |sep|..], sep)
  }

  /** Python's `sep.join(parts)`. */
  function Join(sep: string, parts: seq<string>): string {
    if parts == [] then ""
    else if |parts| == 1 then parts[0]
    else parts[0] + sep + Join(sep, parts[1..])
  }

  /** Splitting and joining back with the same separator gives the original string. */
  lemma {:induction false} JoinSplit(s: string, sep: string)
    requires |sep| > 0
    ensures Join(sep, Split(s, sep)) == s
    decreases |s|
  {
    var r := IndexOf(s, sep, 0);
    if r.Some? {
      var p := r.value;
      var rest := s[p + |sep|..];
      var tail := Split(rest, sep);
      var parts := [s[..p]] + tail;
      assert parts[1..] == tail;
      calc {
        Join(sep, Split(s, sep));
        Join(sep, parts);
        s[..p] + sep + Join(sep, tail);
        { JoinSplit(rest, sep); }
        s[..p] + sep + rest;
        { assert s[p..p + |sep|] == sep; }
        s;
      }
    }
  }

  /** The number of non-overlapping occurrences of `sep`, counted left to right as `str.count` does. */
  function Count(s: string, sep: string): nat
    requires |sep| > 0
    decreases |s|
  {
    match IndexOf(s, sep, 0)
    case None => 0
    case Some(p) => 1 + Count(s[p + |sep|..], sep)
  }

  /** `str.split(sep)` yields one more piece than there are separators. */
  lemma {:induction false} SplitCount(s: string, sep: string)
    requires |sep| > 0
    ensures |Split(s, sep)| == Count(s, sep) + 1
    decreases |s|
  {
    match IndexOf(s, sep, 0)
    case None =>
    case Some(p) => SplitCount(s[p + |sep|..], sep);
  }

  /** `[f(x) for x in xs]` for `strip`. */
  function StripAll(xs: seq<string>): (r: seq<string>)
    ensures |r| == |xs| && forall k :: 0 <= k < |xs| ==> r[k] == Strip(xs[k])
  {
    if xs == [] then [] else [Strip(xs[0])] + StripAll(xs[1..])
  }

  /** A character missing from a string is missing from any of its substrings. */
  lemma AbsentFromPart(s: string, part: string, c: char)
    requires c !in s && Contains(s, part)
    ensures c !in part
  {
    var i :| 0 <= i <= |s| && At(s, part, i);
    forall j | 0 <= j < |part| ensures part[j] != c {
      assert s[i..i + |part|][j] == s[i + j];
    }
  }

  /** `SkipCommandLetters` stops exactly at the end of a run of letters. */
  lemma {:induction false} LettersRun(s: string, i: nat, j: nat)
    requires i <= j < |s| && !IsCommandLetter(s[j])
    requires forall k :: i <= k < j ==> IsCommandLetter(s[k])
    ensures SkipCommandLetters(s, i) == j
    decreases j - i
  {
    if i < j { LettersRun(s, i + 1, j); }
  }

  /** `SkipWordChars` stops exactly at the end of a word-character run that ends at a non-word character. */
  lemma {:induction false} SkipWordCharsRun(s: string, i: nat, j: nat)
    requires i <= j < |s| && !IsWordChar(s[j])
    requires forall k :: i <= k < j ==> IsWordChar(s[k])
    ensures SkipWordChars(s, i) == j
    decreases j - i
  {
    if i < j { SkipWordCharsRun(s, i + 1, j); }
  }

  /** `IndexOf` finds an occurrence that no earlier position (from `i` on) matches. */
  lemma {:induction false} IndexOfFirst(s: string, pat: string, i: nat, j: nat)
    requires i <= j && At(s, pat, j)
    requires forall k :: i <= k < j ==> !At(s, pat, k)
    ensures IndexOf(s, pat, i) == Some(j)
    decreases j - i
  {
    if i < j {
      IndexOfFirst(s, pat, i + 1, j);
    }
  }

  /** The first occurrence of a one-character pattern is where that character first appears. */
  lemma IndexOfChar(s: string, c: char, i: nat, j: nat)
    requires i <= j < |s| && s[j] == c
    requires forall k :: i <= k < j ==> s[k] != c
    ensures IndexOf(s, [c], i) == Some(j)
  {
    assert s[j..j + 1] == [c];
    forall k | i <= k < j ensures !At(s, [c], k) {
      assert s[k..k + 1][0] == s[k];
    }
    IndexOfFirst(s, [c], i, j);
  }

  /** A text ending in `x}` with no `}` inside `x` closes at its last character. */
  lemma LastClose(s: string, a: nat, x: string)
    requires a + |x| + 1 == |s| && s[a..|s| - 1] == x && s[|s| - 1] == '}' && '}' !in x
    ensures IndexOf(s, "}", a) == Some(|s| - 1)
  {
    forall k | a <= k < |s| - 1 ensures s[k] != '}' { assert s[k] == x[k - a]; }
    IndexOfChar(s, '}', a, |s| - 1);
  }

  /** A pattern that differs from the text at one of its positions does not occur there. */
  lemma NotAt(s: string, pat: string, i: nat, k: nat)
    requires k < |pat| && i + k < |s| && s[i + k] != pat[k]
    ensures !At(s, pat, i)
  {
    if i + |pat| <= |s| {
      assert s[i..i + |pat|][k] == s[i + k];
    }
  }

  /** A string with no surrounding whitespace is its own `strip()`. */
  lemma StripTrimmed(r: string)
    requires r == [] || (!IsSpace(r[0]) && !IsSpace(r[|r| - 1]))
    ensures Strip(r) == r
  {
    if r != [] {
      assert SkipSpaces(r, 0) == 0;
      assert TrimEndIndex(r, 0, |r|) == |r|;
      assert r[0..|r|] == r;
    }
  }

  /** Leading whitespace in front of trimmed text is stripped away. */
  lemma StripPadded(w: string, x: string)
    requires IsBlank(w) && (x == [] || (!IsSpace(x[0]) && !IsSpace(x[|x| - 1])))
    ensures Strip(w + x) == x
  {
    var s := w + x;
    if x == [] {
      assert s == w;
    } else {
      forall k | 0 <= k < |w| ensures IsSpace(s[k]) { assert s[k] == w[k]; }
      assert s[|w|] == x[0];
      SpacesRun(s, 0, |w|);
      assert s[|s| - 1] == x[|x| - 1];
      assert TrimEndIndex(s, |w|, |s|) == |s|;
      assert s[|w|..|s|] == x;
    }
  }

  /** `SkipSpaces` stops exactly where the run of spaces ends. */
  lemma {:induction false} SpacesRun(s: string, i: nat, j: nat)
    requires i <= j <= |s| && (j < |s| ==> !IsSpace(s[j]))
    requires forall k :: i <= k < j ==> IsSpace(s[k])
    ensures SkipSpaces(s, i) == j
    decreases j - i
  {
    if i < j { SpacesRun(s, i + 1, j); }
  }
}
