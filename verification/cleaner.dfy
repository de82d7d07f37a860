/**
 * The text cleaner applied to every leaf text run: a fixed chain of literal
 * replacements, applied one after the other over the whole string.
 */
module Cleaner {
  import opened Text

  /** The replacement chain of the converter's text cleaner, in its order. */
  const Replacements: seq<(string, string)> := [
    ("~", " "),
    ("\\'e", "\U{E9}"), ("\\'a", "\U{E1}"),
    ("\\%", "%"), ("\\&", "&"), ("\\#", "#"),
    ("\\$", "$"), ("\\_", "_"),
    ("\\{", "{"), ("\\}", "}"),
    ("\\\\", "\n"), ("\\newline", "\n")
  ]

  /** Applies `rs` in order, each one to the result of the previous one. */
  function ReplaceChain(s: string, rs: seq<(string, string)>): string
    requires forall k :: 0 <= k < |rs| ==> |rs[k].0| > 0
    decreases |rs|
  {
    if rs == [] then s else ReplaceChain(ReplaceAll(s, rs[0].0, rs[0].1), rs[1..])
  }

  /** `_clean_latex_text_segment`: the replacement chain, spelled out in its order. */
  function Clean(s: string): string {
    var s1 := ReplaceAll(s, "~", " ");
    var s2 := ReplaceAll(ReplaceAll(s1, "\\'e", "\U{E9}"), "\\'a", "\U{E1}");
    var s3 := ReplaceAll(ReplaceAll(ReplaceAll(s2, "\\%", "%"), "\\&", "&"), "\\#", "#");
    var s4 := ReplaceAll(ReplaceAll(s3, "\\$", "$"), "\\_", "_");
    var s5 := ReplaceAll(ReplaceAll(s4, "\\{", "{"), "\\}", "}");
    ReplaceAll(ReplaceAll(s5, "\\\\", "\n"), "\\newline", "\n")
  }

  /** The cleaner is the replacement chain `Replacements`, applied in order. */
  lemma CleanIsChain(s: string)
    ensures Clean(s) == ReplaceChain(s, Replacements)
  {
    var rs := Replacements;
    assert rs[0..] == rs;
    var t0 := s;
    ChainAt(t0, rs, 0);
    var t1 := ReplaceAll(t0, rs[0].0, rs[0].1);
    ChainAt(t1, rs, 1);
    var t2 := ReplaceAll(t1, rs[1].0, rs[1].1);
    ChainAt(t2, rs, 2);
    var t3 := ReplaceAll(t2, rs[2].0, rs[2].1);
    ChainAt(t3, rs, 3);
    var t4 := ReplaceAll(t3, rs[3].0, rs[3].1);
    ChainAt(t4, rs, 4);
    var t5 := ReplaceAll(t4, rs[4].0, rs[4].1);
    ChainAt(t5, rs, 5);
    var t6 := ReplaceAll(t5, rs[5].0, rs[5].1);
    ChainAt(t6, rs, 6);
    var t7 := ReplaceAll(t6, rs[6].0, rs[6].1);
    ChainAt(t7, rs, 7);
    var t8 := ReplaceAll(t7, rs[7].0, rs[7].1);
    ChainAt(t8, rs, 8);
    var t9 := ReplaceAll(t8, rs[8].0, rs[8].1);
    ChainAt(t9, rs, 9);
    var t10 := ReplaceAll(t9, rs[9].0, rs[9].1);
    ChainAt(t10, rs, 10);
    var t11 := ReplaceAll(t10, rs[10].0, rs[10].1);
    ChainAt(t11, rs, 11);
    var t12 := ReplaceAll(t11, rs[11].0, rs[11].1);
    assert rs[12..] == [];
  }

  /** The chain from `k` is the `k`-th replacement followed by the chain from `k + 1`. */
  lemma ChainAt(s: string, rs: seq<(string, string)>, k: nat)
    requires forall j :: 0 <= j < |rs| ==> |rs[j].0| > 0
    requires k < |rs|
    ensures ReplaceChain(s, rs[k..]) == ReplaceChain(ReplaceAll(s, rs[k].0, rs[k].1), rs[k + 1..])
  {
    assert rs[k..][1..] == rs[k + 1..];
  }

  /** A chain whose patterns all begin with a character `s` lacks leaves `s` as it is. */
  lemma {:induction false} ChainAbsent(s: string, rs: seq<(string, string)>, c: char)
    requires forall k :: 0 <= k < |rs| ==> |rs[k].0| > 0 && rs[k].0[0] == c
    requires c !in s
    requires forall k :: 0 <= k < |rs| ==> c !in rs[k].1
    ensures ReplaceChain(s, rs) == s
  {
    if rs != [] {
      AbsentByChar(s, rs[0].0, 0);
      ReplaceAllAbsent(s, rs[0].0, rs[0].1);
      ChainAbsent(s, rs[1..], c);
    }
  }

  /**
   * A character absent from the input stays absent, provided every replacement
   * that would introduce it has that character in its own pattern (which the
   * absent character then keeps from matching).
   */
  lemma {:induction false} ChainKeepsOut(s: string, rs: seq<(string, string)>, c: char)
    requires forall k :: 0 <= k < |rs| ==> |rs[k].0| > 0
    requires c !in s
    requires forall k :: 0 <= k < |rs| ==> c !in rs[k].1 || c in rs[k].0
    ensures c !in ReplaceChain(s, rs)
    decreases |rs|
  {
    if rs != [] {
      var t := ReplaceAll(s, rs[0].0, rs[0].1);
      if c in rs[0].0 {
        var k :| 0 <= k < |rs[0].0| && rs[0].0[k] == c;
        AbsentByChar(s, rs[0].0, k);
        ReplaceAllAbsent(s, rs[0].0, rs[0].1);
      } else {
        ReplaceAllKeepsOut(s, rs[0].0, rs[0].1, c);
      }
      ChainKeepsOut(t, rs[1..], c);
    }
  }

  /** Text without a backslash or a tilde passes through the cleaner unchanged; in particular "" maps to "". */
  lemma CleanIdentity(s: string)
    requires '\\' !in s && '~' !in s
    ensures Clean(s) == s
  {
    CleanIsChain(s);
    ChainIdentity(s);
  }

  lemma ChainIdentity(s: string)
    requires '\\' !in s && '~' !in s
    ensures ReplaceChain(s, Replacements) == s
  {
    AbsentByChar(s, "~", 0);
    ReplaceAllAbsent(s, "~", " ");
    ChainAbsent(s, Replacements[1..], '\\');
  }

  /** The cleaner never leaves a tilde behind. */
  lemma CleanNoTilde(s: string)
    ensures '~' !in Clean(s)
  {
    CleanIsChain(s);
    ChainNoTilde(s);
  }

  lemma ChainNoTilde(s: string)
    ensures '~' !in ReplaceChain(s, Replacements)
  {
    var t := ReplaceAll(s, "~", " ");
    ReplaceAllRemoves(s, '~', " ");
    ChainKeepsOut(t, Replacements[1..], '~');
  }

  /** The cleaner introduces a brace only by unescaping one, so brace-free text stays brace-free. */
  lemma CleanNoBraces(s: string)
    requires '{' !in s && '}' !in s
    ensures '{' !in Clean(s) && '}' !in Clean(s)
  {
    CleanIsChain(s);
    ChainNoOpenBrace(s);
    ChainNoCloseBrace(s);
  }

  /** Only the unescaping of `\{` introduces `{`, and that needs `{` already present. */
  lemma ChainNoOpenBrace(s: string)
    requires '{' !in s
    ensures '{' !in ReplaceChain(s, Replacements)
  {
    var rs := Replacements;
    forall k | 0 <= k < |rs| ensures '{' !in rs[k].1 || '{' in rs[k].0 {
      if k == 8 { assert rs[k].0[1] == '{'; }
    }
    ChainKeepsOut(s, rs, '{');
  }

  /** Only the unescaping of `\}` introduces `}`, and that needs `}` already present. */
  lemma ChainNoCloseBrace(s: string)
    requires '}' !in s
    ensures '}' !in ReplaceChain(s, Replacements)
  {
    var rs := Replacements;
    forall k | 0 <= k < |rs| ensures '}' !in rs[k].1 || '}' in rs[k].0 {
      if k == 9 { assert rs[k].0[1] == '}'; }
    }
    ChainKeepsOut(s, rs, '}');
  }
}
