/**
 * The command stripper: up to three rounds of "replace `\cmd[opt]{arg}` by
 * `arg`, then delete bare `\cmd`", then removal of every brace, trimming and
 * the text cleaner.
 */
module Commands {
  import opened Text
  import opened Cleaner

  /**
   * A match of `\\[a-zA-Z@]+(?:\[[^\]]*\])?\{(.*?)\}` (no DOTALL) at `i`:
   * the argument text and the end of the match. The letter run is maximal,
   * the optional bracket runs to the first `]`, the argument to the first `}`
   * on the same line.
   */
  function CommandArgAt(s: string, i: nat): (r: Option<(string, nat)>)
    ensures r.Some? ==> i < |s| && s[i] == '\\'
    ensures r.Some? ==> i < r.value.1 <= |s| && |r.value.0| < r.value.1 - i
    ensures r.Some? ==> '\n' !in r.value.0 && '}' !in r.value.0
  {
    if i >= |s| || s[i] != '\\' then None
    else
      var k := SkipCommandLetters(s, i + 1);
      if k == i + 1 || k >= |s| then None
      else
        var open: Option<nat> :=
          if s[k] == '[' then
            match IndexOf(s, "]", k + 1)
            case Some(c) => if c + 1 < |s| && s[c + 1] == '{' then Some(c + 1) else None
            case None => None
          else if s[k] == '{' then Some(k)
          else None;
        match open
        case None => None
        case Some(o) =>
          match LazyUntil(s, "}", o + 1, false)
          case None => None
          case Some(e) =>
            assert forall j :: o + 1 <= j < e ==> s[j] != '}' by {
              forall j | o + 1 <= j < e ensures s[j] != '}' { assert !At(s, "}", j); }
            }
            Some((s[o + 1..e], e + 1))
  }

  /** `re.sub` of the argument pattern by its argument, scanning from `pos`. */
  function KeepArguments(s: string, pos: nat): string
    decreases if pos <= |s| then |s| - pos + 1 else 0
  {
    if pos > |s| then ""
    else match FirstFrom(CommandArgAt, s, pos)
      case None => s[pos..]
      case Some((i, m)) => s[pos..i] + m.0 + KeepArguments(s, m.1)
  }

  /** A match of `\\[a-zA-Z@]+` at `i`: its end. */
  function BareCommandAt(s: string, i: nat): (r: Option<nat>)
    ensures r.Some? ==> i + 1 < r.value <= |s| && s[i] == '\\'
  {
    if i >= |s| || s[i] != '\\' then None
    else
      var k := SkipCommandLetters(s, i + 1);
      if k == i + 1 then None else Some(k)
  }

  /** `re.sub(r"\\[a-zA-Z@]+", "", s)`, scanning from `pos`. */
  function DropBareCommands(s: string, pos: nat): string
    decreases if pos <= |s| then |s| - pos + 1 else 0
  {
    if pos > |s| then ""
    else match FirstFrom(BareCommandAt, s, pos)
      case None => s[pos..]
      case Some((i, e)) => s[pos..i] + DropBareCommands(s, e)
  }

  /** One round of the stripping loop. */
  function Round(s: string): string {
    DropBareCommands(KeepArguments(s, 0), 0)
  }

  /** `n` applications of `step`: the stripping rounds without the early exit. */
  function Rounds(step: string -> string, s: string, n: nat): string
    decreases n
  {
    if n == 0 then s else step(Rounds(step, s, n - 1))
  }

  /** `s.replace("{", "").replace("}", "")`. */
  function RemoveBraces(s: string): (r: string)
    ensures '{' !in r && '}' !in r
  {
    var t := ReplaceAll(s, "{", "");
    ReplaceAllRemoves(s, '{', "");
    ReplaceAllKeepsOut(t, "}", "", '{');
    ReplaceAllRemoves(t, '}', "");
    ReplaceAll(t, "}", "")
  }

  /** The result of the command stripper (`keep_content=True`, the only form the converter uses). */
  function Stripped(s: string): string {
    Clean(Strip(RemoveBraces(Rounds(Round, s, 3))))
  }

  /** Once a round changes nothing, further rounds change nothing: the early exit is sound. */
  lemma {:induction false} RoundsStay(step: string -> string, s: string, k: nat, n: nat)
    requires k <= n && step(Rounds(step, s, k)) == Rounds(step, s, k)
    ensures Rounds(step, s, n) == Rounds(step, s, k)
    decreases n - k
  {
    if k < n {
      RoundsStay(step, s, k, n - 1);
    }
  }

  /** `_strip_latex_commands`: at most three rounds, stopping early once a round changes nothing. */
  method StripLatexCommands(s: string) returns (r: string)
    ensures r == Stripped(s)
    ensures '{' !in r && '}' !in r && '~' !in r
  {
    var text := s;
    var k := 0;
    while k < 3
      invariant 0 <= k <= 3
      invariant text == Rounds(Round, s, k)
    {
      var prev := text;
      text := KeepArguments(text, 0);
      text := DropBareCommands(text, 0);
      if text == prev {
        RoundsStay(Round, s, k, 3);
        break;
      }
      k := k + 1;
    }
    r := Clean(Strip(RemoveBraces(text)));
    StrippedClean(s);
  }

  /** The stripper's output holds no brace and no tilde. */
  lemma StrippedClean(s: string)
    ensures '{' !in Stripped(s) && '}' !in Stripped(s) && '~' !in Stripped(s)
  {
    var b := RemoveBraces(Rounds(Round, s, 3));
    AbsentFromPart(b, Strip(b), '{');
    AbsentFromPart(b, Strip(b), '}');
    CleanNoBraces(Strip(b));
    CleanNoTilde(Strip(b));
  }

  /** Without a backslash nothing matches, so a round leaves the text alone. */
  lemma RoundNoBackslash(s: string)
    requires '\\' !in s
    ensures Round(s) == s
  {
    KeepNoBackslash(s, 0);
    assert s[0..] == s;
    DropNoBackslash(s, 0);
  }

  lemma KeepNoBackslash(s: string, pos: nat)
    requires '\\' !in s && pos <= |s|
    ensures KeepArguments(s, pos) == s[pos..]
  {
    assert FirstFrom(CommandArgAt, s, pos).None? by {
      forall j | pos <= j <= |s| ensures CommandArgAt(s, j).None? {
        if j < |s| { assert s[j] != '\\'; }
      }
    }
  }

  lemma DropNoBackslash(s: string, pos: nat)
    requires '\\' !in s && pos <= |s|
    ensures DropBareCommands(s, pos) == s[pos..]
  {
    assert FirstFrom(BareCommandAt, s, pos).None? by {
      forall j | pos <= j <= |s| ensures BareCommandAt(s, j).None? {
        if j < |s| { assert s[j] != '\\'; }
      }
    }
  }

  /** Text free of backslashes, braces and tildes is only trimmed. */
  lemma {:induction false} StrippedPlain(s: string)
    requires '\\' !in s && '{' !in s && '}' !in s && '~' !in s
    ensures Stripped(s) == Strip(s)
  {
    RoundNoBackslash(s);
    assert Rounds(Round, s, 0) == s;
    RoundsStay(Round, s, 0, 3);
    AbsentByChar(s, "{", 0);
    ReplaceAllAbsent(s, "{", "");
    AbsentByChar(s, "}", 0);
    ReplaceAllAbsent(s, "}", "");
    AbsentFromPart(s, Strip(s), '\\');
    AbsentFromPart(s, Strip(s), '~');
    CleanIdentity(Strip(s));
  }

  /** The argument pattern matches `\name{x}` as a whole. */
  lemma CommandArgWhole(s: string, name: string, x: string)
    requires s == "\\" + name + "{" + x + "}"
    requires |name| > 0 && forall k :: 0 <= k < |name| ==> IsCommandLetter(name[k])
    requires '}' !in x && '\n' !in x
    ensures CommandArgAt(s, 0) == Some((x, |s|))
  {
    var o := 1 + |name|;
    assert s[o] == '{';
    LettersRun(s, 1, o);
    IndexOfChar(s, '}', o + 1, |s| - 1);
    assert s[o + 1..|s| - 1] == x;
  }

  /** A text that is one argument match keeps just the argument. */
  lemma KeepWhole(s: string, x: string)
    requires CommandArgAt(s, 0) == Some((x, |s|))
    ensures KeepArguments(s, 0) == x
  {
    assert FirstFrom(CommandArgAt, s, 0) == Some((0, (x, |s|)));
    assert KeepArguments(s, |s|) == "";
  }

  /** `\name{x}` (or `\name[opt]{x}`) is replaced by its argument, trimmed. */
  lemma {:induction false} StrippedCommand(name: string, x: string)
    requires |name| > 0 && forall k :: 0 <= k < |name| ==> IsCommandLetter(name[k])
    requires '\\' !in x && '{' !in x && '}' !in x && '~' !in x && '\n' !in x
    ensures Stripped("\\" + name + "{" + x + "}") == Strip(x)
  {
    var s := "\\" + name + "{" + x + "}";
    CommandArgWhole(s, name, x);
    KeepWhole(s, x);
    DropNoBackslash(x, 0);
    assert x[0..] == x;
    assert Round(s) == x;
    RoundNoBackslash(x);
    assert Rounds(Round, x, 0) == x;
    RoundsStay(Round, x, 0, 2);
    assert Rounds(Round, s, 1) == Rounds(Round, x, 0);
    assert Rounds(Round, s, 2) == Rounds(Round, x, 1);
    StrippedPlain(x);
  }
}
