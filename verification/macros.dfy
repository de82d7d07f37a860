/**
 * Argument-less macros defined with `\newcommand` and their expansion.
 * The table keeps definitions in first-definition order, because expansion
 * applies the macros in that order.
 */
module Macros {
  import opened Text

  /** Macro name (without the backslash) paired with its replacement text. */
  type MacroTable = seq<(string, string)>

  predicate Defines(t: MacroTable, name: string) {
    exists k :: 0 <= k < |t| && t[k].0 == name
  }

  /** The table has at most one entry per name. */
  predicate UniqueNames(t: MacroTable) {
    forall j, k :: 0 <= j < k < |t| ==> t[j].0 != t[k].0
  }

  /** Dictionary assignment `macros[name] = body`: an existing name keeps its place, a new one goes last. */
  function Define(t: MacroTable, name: string, body: string): (r: MacroTable)
    requires UniqueNames(t)
    ensures Defines(t, name) ==> |r| == |t|
    ensures !Defines(t, name) ==> r == t + [(name, body)]
    ensures forall k :: 0 <= k < |t| ==> r[k].0 == t[k].0
    ensures forall k :: 0 <= k < |t| && t[k].0 != name ==> r[k] == t[k]
    ensures forall k :: 0 <= k < |t| && t[k].0 == name ==> r[k] == (name, body)
  {
    if t == [] then [(name, body)]
    else if t[0].0 == name then [(name, body)] + t[1..]
    else
      assert UniqueNames(t[1..]) by { UniqueTail(t); }
      var rest := Define(t[1..], name, body);
      assert Defines(t, name) <==> Defines(t[1..], name) by {
        if Defines(t, name) {
          var k :| 0 <= k < |t| && t[k].0 == name;
          assert t[1..][k - 1].0 == name;
        }
        if Defines(t[1..], name) {
          var k :| 0 <= k < |t[1..]| && t[1..][k].0 == name;
          assert t[k + 1].0 == name;
        }
      }
      [t[0]] + rest
  }

  lemma UniqueTail(t: MacroTable)
    requires UniqueNames(t) && t != []
    ensures UniqueNames(t[1..])
  {
    forall j, k | 0 <= j < k < |t[1..]| ensures t[1..][j].0 != t[1..][k].0 {
      assert t[1..][j] == t[j + 1] && t[1..][k] == t[k + 1];
    }
  }

  /** The value `macros.get(name)`. */
  function Lookup(t: MacroTable, name: string): Option<string> {
    if t == [] then None
    else if t[0].0 == name then Some(t[0].1)
    else Lookup(t[1..], name)
  }

  /** After `macros[name] = body`, the name maps to the body and the table stays duplicate-free. */
  lemma {:induction false} DefineLookup(t: MacroTable, name: string, body: string, other: string)
    requires UniqueNames(t)
    ensures Lookup(Define(t, name, body), name) == Some(body)
    ensures other != name ==> Lookup(Define(t, name, body), other) == Lookup(t, other)
    ensures UniqueNames(Define(t, name, body))
  {
    if t != [] && t[0].0 != name {
      UniqueTail(t);
      DefineLookup(t[1..], name, body, other);
    }
  }

  /**
   * `re.sub(r"\\" + re.escape(name) + r"(?!\w)", lambda m: rep, s)`: every
   * `\name` that is not followed by a word character is replaced by `rep`,
   * taken literally; the scan resumes after the replaced occurrence.
   */
  function Substitute(s: string, name: string, rep: string): string
    decreases |s|
  {
    var pat := "\\" + name;
    if |s| < |pat| then s
    else if s[..|pat|] == pat && (|s| == |pat| || !IsWordChar(s[|pat|])) then
      rep + Substitute(s[|pat|..], name, rep)
    else [s[0]] + Substitute(s[1..], name, rep)
  }

  /** One expansion pass: every macro of the table, in table order. */
  function Pass(t: MacroTable, s: string): string {
    if t == [] then s else Pass(t[1..], Substitute(s, t[0].0, t[0].1))
  }

  /**
   * The recursive expander: a pass is repeated while it changes the text,
   * and the recursion gives up once `depth` exceeds 10.
   */
  function Expand(t: MacroTable, s: string, depth: nat): string
    decreases if depth <= 11 then 11 - depth else 0
  {
    if depth > 10 then s
    else
      var next := Pass(t, s);
      if next != s then Expand(t, next, depth + 1) else next
  }

  /** `k` passes in a row. */
  function Passes(t: MacroTable, s: string, k: nat): string
    decreases k
  {
    if k == 0 then s else Passes(t, Pass(t, s), k - 1)
  }

  /**
   * Expansion always stops: it performs at most `11 - depth` passes, and its
   * result is either a fixed point of a further pass or the result of exactly
   * that many passes.
   */
  lemma {:induction false} ExpandBounded(t: MacroTable, s: string, depth: nat)
    requires depth <= 11
    ensures exists k :: (0 <= k <= 11 - depth && Expand(t, s, depth) == Passes(t, s, k)
                         && (Pass(t, Expand(t, s, depth)) == Expand(t, s, depth) || k == 11 - depth))
    decreases 11 - depth
  {
    if depth > 10 {
      assert Passes(t, s, 0) == s;
    } else {
      var next := Pass(t, s);
      if next != s {
        ExpandBounded(t, next, depth + 1);
        var k :| 0 <= k <= 11 - (depth + 1) && Expand(t, next, depth + 1) == Passes(t, next, k)
          && (Pass(t, Expand(t, next, depth + 1)) == Expand(t, next, depth + 1) || k == 11 - (depth + 1));
        assert Passes(t, s, k + 1) == Passes(t, next, k);
      } else {
        assert Passes(t, s, 0) == s;
      }
    }
  }

  /** A text in which the pattern never occurs is left as it is. */
  lemma {:induction false} SubstituteAbsent(s: string, name: string, rep: string)
    requires !Contains(s, "\\" + name)
    ensures Substitute(s, name, rep) == s
    decreases |s|
  {
    var pat := "\\" + name;
    if |s| >= |pat| {
      assert s[..|pat|] != pat by { assert !At(s, pat, 0); }
      assert !Contains(s[1..], pat) by {
        forall i | 0 <= i <= |s[1..]| ensures !At(s[1..], pat, i) {
          assert !At(s, pat, i + 1);
          assert i + |pat| <= |s[1..]| ==> s[1..][i..i + |pat|] == s[i + 1..i + 1 + |pat|];
        }
      }
      SubstituteAbsent(s[1..], name, rep);
    }
  }

  /** A text that mentions none of the table's macros is left unchanged by expansion. */
  lemma {:induction false} ExpandNoMatch(t: MacroTable, s: string, depth: nat)
    requires forall k :: 0 <= k < |t| ==> !Contains(s, "\\" + t[k].0)
    ensures Expand(t, s, depth) == s
  {
    PassNoMatch(t, s);
  }

  lemma {:induction false} PassNoMatch(t: MacroTable, s: string)
    requires forall k :: 0 <= k < |t| ==> !Contains(s, "\\" + t[k].0)
    ensures Pass(t, s) == s
  {
    if t != [] {
      SubstituteAbsent(s, t[0].0, t[0].1);
      assert forall k :: 0 <= k < |t[1..]| ==> t[1..][k] == t[k + 1];
      PassNoMatch(t[1..], s);
    }
  }

  /** Text without a backslash is never changed by expansion, whatever the table. */
  lemma ExpandNoBackslash(t: MacroTable, s: string, depth: nat)
    requires '\\' !in s
    ensures Expand(t, s, depth) == s
  {
    forall k | 0 <= k < |t| ensures !Contains(s, "\\" + t[k].0) {
      AbsentByChar(s, "\\" + t[k].0, 0);
    }
    ExpandNoMatch(t, s, depth);
  }

  /**
   * An occurrence of `\name` that is not followed by a word character becomes
   * the replacement, inserted literally, and the scan continues after it.
   */
  lemma SubstituteHit(name: string, rep: string, rest: string)
    requires rest == [] || !IsWordChar(rest[0])
    ensures Substitute("\\" + name + rest, name, rep) == rep + Substitute(rest, name, rep)
  {
    var s := "\\" + name + rest;
    assert s[..|"\\" + name|] == "\\" + name;
    assert s[|"\\" + name|..] == rest;
  }

  /** An occurrence followed by a word character is part of a longer name and is kept. */
  lemma SubstituteLongerName(name: string, rep: string, rest: string)
    requires rest != [] && IsWordChar(rest[0])
    ensures Substitute("\\" + name + rest, name, rep) == "\\" + Substitute(name + rest, name, rep)
  {
    var s := "\\" + name + rest;
    assert s[1..] == name + rest;
  }
}
