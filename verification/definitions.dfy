/**
 * The preamble scans for `\newcommand{\name}{body}` and
 * `\definecolor{name}{HTML}{spec}`, with the first-`}` semantics of their
 * lazy regular expressions (no DOTALL: no group crosses a newline).
 */
module Definitions {
  import opened Text
  import opened Macros
  import opened Colors

  /** Negative lookahead `(?!\s*\[)` fails at `j`: the next non-space character is `[`. */
  predicate OpensBracket(s: string, j: nat) {
    var k := SkipSpaces(s, j);
    k < |s| && s[k] == '['
  }

  /**
   * The end of the lazy body `(.*?)\}(?!\s*\[)` that starts at `j`: the first
   * `}` not followed by spaces and `[`, provided no newline comes first.
   */
  function BodyClose(s: string, j: nat): (r: Option<nat>)
    decreases |s| - j
    ensures r.Some? ==> j <= r.value < |s| && s[r.value] == '}' && !OpensBracket(s, r.value + 1)
    ensures r.Some? ==> forall k :: j <= k < r.value ==> s[k] != '\n' && (s[k] == '}' ==> OpensBracket(s, k + 1))
  {
    if j >= |s| || s[j] == '\n' then None
    else if s[j] == '}' && !OpensBracket(s, j + 1) then Some(j)
    else BodyClose(s, j + 1)
  }

  /**
   * The part `\s*\}\s*\{(.*?)\}(?!\s*\[)` of the `\newcommand` pattern that
   * follows the macro name, from `c0`: the body and the end of the match.
   */
  function NewCommandBody(s: string, c0: nat): (r: Option<(string, nat)>)
    ensures r.Some? ==> c0 < r.value.1 <= |s| && '\n' !in r.value.0
  {
    var c := SkipSpaces(s, c0);
    if c >= |s| || s[c] != '}' then None
    else
      var d := SkipSpaces(s, c + 1);
      if d >= |s| || s[d] != '{' then None
      else match BodyClose(s, d + 1)
        case None => None
        case Some(e) =>
          var body := s[d + 1..e];
          assert '\n' !in body by {
            forall j | 0 <= j < |body| ensures body[j] != '\n' { assert body[j] == s[d + 1 + j]; }
          }
          Some((body, e + 1))
  }

  /**
   * A match of `\\newcommand\{\s*\\(\w+)\s*\}\s*\{(.*?)\}(?!\s*\[)` at `i`:
   * the macro name, its body and the end of the match.
   */
  function NewCommandAt(s: string, i: nat): (r: Option<(string, string, nat)>)
    ensures r.Some? ==> i < r.value.2 <= |s| && |r.value.0| > 0
    ensures r.Some? ==> '}' !in r.value.0 && '\n' !in r.value.1
  {
    if !At(s, "\\newcommand{", i) then None
    else
      var a := SkipSpaces(s, i + 12);
      if a >= |s| || s[a] != '\\' then None
      else
        var b := SkipWordChars(s, a + 1);
        if b == a + 1 then None
        else match NewCommandBody(s, b)
          case None => None
          case Some((body, end)) =>
            var name := s[a + 1..b];
            assert '}' !in name by {
              forall j | 0 <= j < |name| ensures name[j] != '}' { assert name[j] == s[a + 1 + j]; }
            }
            Some((name, body, end))
  }

  /** `re.finditer` over the `\newcommand` pattern from `pos`: (name, body) in order. */
  function NewCommands(s: string, pos: nat): seq<(string, string)>
    decreases if pos <= |s| then |s| - pos + 1 else 0
  {
    match FirstFrom(NewCommandAt, s, pos)
    case None => []
    case Some((_, m)) => [(m.0, m.1)] + NewCommands(s, m.2)
  }

  /** `for name, body in defs: macros[name] = body`. */
  function DefineAll(t: MacroTable, defs: seq<(string, string)>): (r: MacroTable)
    requires UniqueNames(t)
    ensures UniqueNames(r)
    decreases |defs|
  {
    if defs == [] then t
    else
      DefineLookup(t, defs[0].0, defs[0].1, defs[0].0);
      DefineAll(Define(t, defs[0].0, defs[0].1), defs[1..])
  }

  /** After all definitions, a name maps to the body of its last definition. */
  lemma {:induction false} DefineAllLast(t: MacroTable, defs: seq<(string, string)>, k: nat)
    requires UniqueNames(t) && k < |defs|
    requires forall j :: k < j < |defs| ==> defs[j].0 != defs[k].0
    ensures Lookup(DefineAll(t, defs), defs[k].0) == Some(defs[k].1)
    decreases |defs|
  {
    var t1 := Define(t, defs[0].0, defs[0].1);
    DefineLookup(t, defs[0].0, defs[0].1, defs[k].0);
    if k == 0 {
      DefineAllUntouched(t1, defs[1..], defs[0].0);
    } else {
      DefineAllLast(t1, defs[1..], k - 1);
    }
  }

  /** A name that no definition mentions keeps its old value. */
  lemma {:induction false} DefineAllUntouched(t: MacroTable, defs: seq<(string, string)>, name: string)
    requires UniqueNames(t)
    requires forall j :: 0 <= j < |defs| ==> defs[j].0 != name
    ensures Lookup(DefineAll(t, defs), name) == Lookup(t, name)
    decreases |defs|
  {
    if defs != [] {
      DefineLookup(t, defs[0].0, defs[0].1, name);
      DefineAllUntouched(Define(t, defs[0].0, defs[0].1), defs[1..], name);
    }
  }

  /** The `[n]`-argument form `\newcommand{\name}[n]{...}` is not captured. */
  lemma ArgumentFormIgnored(name: string, rest: string)
    requires |name| > 0 && forall k :: 0 <= k < |name| ==> IsWordChar(name[k])
    ensures NewCommandAt("\\newcommand{\\" + name + "}[" + rest, 0).None?
  {
    var s := "\\newcommand{\\" + name + "}[" + rest;
    assert At(s, "\\newcommand{", 0) by { assert s[..12] == "\\newcommand{"; }
    assert SkipSpaces(s, 12) == 12;
    SkipWordCharsRun(s, 13, 13 + |name|);
    assert SkipSpaces(s, 13 + |name|) == 13 + |name|;
    assert SkipSpaces(s, 14 + |name|) == 14 + |name|;
  }

  /**
   * The remainder `\s*\{(HTML|rgb)\}\s*\{(.*?)\}` of a colour definition,
   * from `q0`: the colour model, the spec and the end of the match.
   */
  function ColorRest(s: string, q0: nat): (r: Option<(string, string, nat)>)
    ensures r.Some? ==> q0 < r.value.2 <= |s|
    ensures r.Some? ==> '\n' !in r.value.1
  {
    var q := SkipSpaces(s, q0);
    var m: Option<(string, nat)> :=
      if At(s, "{HTML}", q) then Some(("HTML", q + 6))
      else if At(s, "{rgb}", q) then Some(("rgb", q + 5))
      else None;
    match m
    case None => None
    case Some((model, after)) =>
      var o := SkipSpaces(s, after);
      if o >= |s| || s[o] != '{' then None
      else match LazyUntil(s, "}", o + 1, false)
        case None => None
        case Some(e) =>
          Some((model, s[o + 1..e], e + 1))
  }

  /** The lazy colour name of `\definecolor{(.*?)}`: the first `}` after which the rest matches. */
  function ColorNameClose(s: string, j: nat): (r: Option<nat>)
    decreases |s| - j
    ensures r.Some? ==> j <= r.value < |s| && s[r.value] == '}'
    ensures r.Some? ==> forall k :: j <= k < r.value ==> s[k] != '\n'
  {
    if j >= |s| || s[j] == '\n' then None
    else if s[j] == '}' && ColorRest(s, j + 1).Some? then Some(j)
    else ColorNameClose(s, j + 1)
  }

  /** A colour definition: the raw name, the colour model and the spec. */
  datatype ColorDef = ColorDef(name: string, model: string, spec: string)

  /** A match of `\\definecolor\{(.*?)\}\s*\{(HTML|rgb)\}\s*\{(.*?)\}` at `i`, with its end. */
  function DefineColorAt(s: string, i: nat): (r: Option<(ColorDef, nat)>)
    ensures r.Some? ==> i < r.value.1 <= |s|
    ensures r.Some? ==> r.value.0.model in {"HTML", "rgb"} && '\n' !in r.value.0.spec
  {
    if !At(s, "\\definecolor{", i) then None
    else match ColorNameClose(s, i + 13)
      case None => None
      case Some(p) =>
        match ColorRest(s, p + 1)
        case None => None
        case Some((model, spec, end)) => Some((ColorDef(s[i + 13..p], model, spec), end))
  }

  /** `re.finditer` over the `\definecolor` pattern from `pos`. */
  function ColorDefinitions(s: string, pos: nat): seq<ColorDef>
    decreases if pos <= |s| then |s| - pos + 1 else 0
  {
    match FirstFrom(DefineColorAt, s, pos)
    case None => []
    case Some((_, m)) => [m.0] + ColorDefinitions(s, m.1)
  }

  /** The definitions the colour loop stores: `HTML` with a six-digit spec. */
  predicate Stored(d: ColorDef) {
    d.model == "HTML" && IsHtmlSpec(d.spec)
  }

  /** One step of the colour loop; `rgb` and malformed `HTML` definitions change nothing here. */
  function ApplyColor(c: ColorTable, d: ColorDef): ColorTable {
    if Stored(d) then c[Strip(d.name) := HtmlColor(d.spec)] else c
  }

  function ApplyColors(c: ColorTable, defs: seq<ColorDef>): ColorTable
    decreases |defs|
  {
    if defs == [] then c else ApplyColors(ApplyColor(c, defs[0]), defs[1..])
  }

  /**
   * A name whose last stored definition is `defs[k]` ends up with the value
   * `#` + upper(spec), whatever the palette or earlier definitions said.
   */
  lemma {:induction false} ApplyColorsLast(c: ColorTable, defs: seq<ColorDef>, k: nat)
    requires k < |defs| && Stored(defs[k])
    requires forall j :: k < j < |defs| && Stored(defs[j]) ==> Strip(defs[j].name) != Strip(defs[k].name)
    ensures Strip(defs[k].name) in ApplyColors(c, defs)
    ensures ApplyColors(c, defs)[Strip(defs[k].name)] == "#" + Upper(defs[k].spec)
    decreases |defs|
  {
    if k == 0 {
      ApplyColorsUntouched(ApplyColor(c, defs[0]), defs[1..], Strip(defs[0].name));
    } else {
      ApplyColorsLast(ApplyColor(c, defs[0]), defs[1..], k - 1);
    }
  }

  /** A name with no stored definition keeps its palette (or earlier) value, or stays undefined. */
  lemma {:induction false} ApplyColorsUntouched(c: ColorTable, defs: seq<ColorDef>, name: string)
    requires forall j :: 0 <= j < |defs| && Stored(defs[j]) ==> Strip(defs[j].name) != name
    ensures name in ApplyColors(c, defs) <==> name in c
    ensures name in c ==> ApplyColors(c, defs)[name] == c[name]
    decreases |defs|
  {
    if defs != [] {
      ApplyColorsUntouched(ApplyColor(c, defs[0]), defs[1..], name);
    }
  }
}
