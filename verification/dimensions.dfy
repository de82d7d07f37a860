/**
 * LaTeX lengths such as `2.5in`, `.5\linewidth` or `12`: a numeral, optional
 * spaces and an optional unit, after macro expansion and trimming. The
 * numeral is kept as written rather than converted to a float.
 */
module Dimensions {
  import opened Text
  import opened Macros

  /** A parsed length: the numeral as written and the unit name without a backslash. */
  datatype Dimension = Dimension(value: string, unit: string)

  /** The unit alternatives of the pattern, in its order. */
  const Units: seq<string> := ["pt", "in", "cm", "mm", "em", "ex", "%", "\\textwidth", "\\linewidth"]

  predicate IsNumeralChar(c: char) { IsDigit(c) || c == '.' }

  /** Regex `[0-9]*\.?[0-9]+`: digits with at most one point, ending in a digit. */
  predicate IsNumeral(n: string) {
    |n| > 0 && IsDigit(n[|n| - 1])
    && (forall k :: 0 <= k < |n| ==> IsNumeralChar(n[k]))
    && (forall j, k :: 0 <= j < k < |n| && n[j] == '.' ==> n[k] != '.')
  }

  /** The end of the maximal run of digits and points from `i`. */
  function SkipNumeral(s: string, i: nat): (r: nat)
    decreases |s| - i
    ensures i <= r && (i <= |s| ==> r <= |s|) && (i > |s| ==> r == i)
    ensures forall j :: i <= j < r ==> IsNumeralChar(s[j])
    ensures r < |s| ==> !IsNumeralChar(s[r])
  {
    if i < |s| && IsNumeralChar(s[i]) then SkipNumeral(s, i + 1) else i
  }

  /** The stored unit: `pt` when there is none, and a command unit without its backslash. */
  function UnitName(u: string): (r: string)
    requires u == "" || u in Units
    ensures r != "" && '\\' !in r
    ensures u == "" ==> r == "pt"
    ensures u != "" && u[0] != '\\' ==> r == u
    ensures u != "" && u[0] == '\\' ==> "\\" + r == u
  {
    if u == "" then "pt"
    else if u[0] == '\\' then u[1..]
    else u
  }

  /**
   * The anchored match of `^([0-9]*\.?[0-9]+)\s*(unit)?$` on a trimmed string:
   * the numeral is the maximal prefix of digits and points (anything after it
   * would have to be a space or a unit, neither of which starts with one), and
   * what follows the spaces must be a unit or nothing.
   */
  function MatchDimension(s: string): (r: Option<Dimension>)
    ensures r.Some? ==> IsNumeral(r.value.value) && r.value.unit != ""
  {
    var p := SkipNumeral(s, 0);
    var n := s[..p];
    if !IsNumeral(n) then None
    else
      var u := s[SkipSpaces(s, p)..];
      if u == "" || u in Units then Some(Dimension(n, UnitName(u))) else None
  }

  /** `_parse_latex_dimension`: `None` or `""` give nothing; otherwise expand macros, trim and match. */
  function ParseDimension(macros: MacroTable, dim: Option<string>): (r: Option<Dimension>)
    ensures dim.None? || dim == Some("") ==> r.None?
    ensures r.Some? ==> IsNumeral(r.value.value) && r.value.unit != "" && '\\' !in r.value.unit
  {
    match dim
    case None => None
    case Some(d) =>
      if d == "" then None
      else MatchDimension(Strip(Expand(macros, d, 0)))
  }

  /** The shape the pattern accepts: a numeral, spaces and a unit or nothing. */
  predicate Splits(s: string, n: string, w: string, u: string) {
    s == n + w + u && IsNumeral(n) && IsBlank(w) && (u == "" || u in Units)
  }

  /** No unit starts with a digit, a point or a space. */
  lemma UnitStart(u: string)
    requires u in Units
    ensures u != [] && !IsNumeralChar(u[0]) && !IsSpace(u[0])
  {
  }

  /**
   * The matcher accepts exactly the strings of the form numeral, spaces,
   * optional unit, and then returns that numeral and the unit's name.
   */
  lemma MatchDimensionSound(s: string)
    requires MatchDimension(s).Some?
    ensures exists w, u :: Splits(s, MatchDimension(s).value.value, w, u)
                           && MatchDimension(s).value.unit == UnitName(u)
  {
    var p := SkipNumeral(s, 0);
    var q := SkipSpaces(s, p);
    var w := s[p..q];
    var u := s[q..];
    assert MatchDimension(s).value == Dimension(s[..p], UnitName(u));
    assert IsBlank(w) by {
      forall k | 0 <= k < |w| ensures IsSpace(w[k]) {
        assert w[k] == s[p + k];
      }
    }
    assert s == s[..p] + w + u by { ThreeParts(s, p, q); }
    assert IsNumeral(s[..p]) && (u == "" || u in Units);
    assert Splits(s, s[..p], w, u);
  }

  lemma ThreeParts(s: string, p: nat, q: nat)
    requires p <= q <= |s|
    ensures s == s[..p] + s[p..q] + s[q..]
  {
    assert s[..q] == s[..p] + s[p..q];
    assert s == s[..q] + s[q..];
  }

  lemma {:induction false} MatchDimensionComplete(s: string, n: string, w: string, u: string)
    requires Splits(s, n, w, u)
    ensures MatchDimension(s) == Some(Dimension(n, UnitName(u)))
  {
    var p := |n|;
    assert forall k :: 0 <= k < p ==> s[k] == n[k];
    assert p < |s| ==> !IsNumeralChar(s[p]) by {
      if p < |s| {
        if w != [] {
          assert s[p] == w[0];
        } else {
          assert s[p] == u[0];
          UnitStart(u);
        }
      }
    }
    NumeralRun(s, 0, p);
    assert s[..p] == n;
    var q := p + |w|;
    assert forall k :: p <= k < q ==> s[k] == w[k - p];
    assert q < |s| ==> !IsSpace(s[q]) by {
      if q < |s| {
        assert s[q] == u[0];
        UnitStart(u);
      }
    }
    SpacesRun(s, p, q);
    assert s[q..] == u;
  }

  /** `SkipNumeral` stops exactly where the run of digits and points ends. */
  lemma {:induction false} NumeralRun(s: string, i: nat, j: nat)
    requires i <= j <= |s| && (j < |s| ==> !IsNumeralChar(s[j]))
    requires forall k :: i <= k < j ==> IsNumeralChar(s[k])
    ensures SkipNumeral(s, i) == j
    decreases j - i
  {
    if i < j { NumeralRun(s, i + 1, j); }
  }

  /** Without a unit the length is in points. */
  lemma DefaultUnit(n: string)
    requires IsNumeral(n)
    ensures MatchDimension(n) == Some(Dimension(n, "pt"))
  {
    assert n == n + "" + "";
    MatchDimensionComplete(n, n, "", "");
  }

  /** A command unit loses its backslash: `0.8\textwidth` has the unit `textwidth`. */
  lemma CommandUnit(n: string)
    requires IsNumeral(n)
    ensures MatchDimension(n + "\\textwidth") == Some(Dimension(n, "textwidth"))
    ensures MatchDimension(n + " \\linewidth") == Some(Dimension(n, "linewidth"))
  {
    TextWidthUnit(n);
    LineWidthUnit(n);
  }

  lemma TextWidthUnit(n: string)
    requires IsNumeral(n)
    ensures MatchDimension(n + "\\textwidth") == Some(Dimension(n, "textwidth"))
  {
    assert UnitName("\\textwidth") == "textwidth";
    assert n + "\\textwidth" == n + "" + "\\textwidth";
    MatchDimensionComplete(n + "\\textwidth", n, "", "\\textwidth");
  }

  lemma LineWidthUnit(n: string)
    requires IsNumeral(n)
    ensures MatchDimension(n + " \\linewidth") == Some(Dimension(n, "linewidth"))
  {
    assert UnitName("\\linewidth") == "linewidth";
    assert IsBlank(" ");
    MatchDimensionComplete(n + " \\linewidth", n, " ", "\\linewidth");
  }

  /** A unit outside the list, such as `px`, is rejected. */
  lemma UnknownUnit(n: string)
    requires IsNumeral(n)
    ensures MatchDimension(n + "px").None?
  {
    var s := n + "px";
    var p := |n|;
    assert forall k :: 0 <= k < p ==> s[k] == n[k];
    NumeralRun(s, 0, p);
    assert s[..p] == n;
    SpacesRun(s, p, p);
    assert s[p..] == "px";
  }
}
