/**
 * Citations in the line-based converter: the four natbib commands it
 * recognises, the scan that splits a line into text and citation elements
 * at the leftmost citation, and the display text and item prefixes of the
 * Zotero field written for a citation.
 */
module TexCitations {
  import opened Text
  import opened TexMarkers

  /** The recognised commands, in the order the scan tries them. */
  datatype Command = Citet | Citep | CiteAuthor | CiteYearPar

  const CitationCommands: seq<Command> := [Citet, Citep, CiteAuthor, CiteYearPar]

  /** The command's name, as written after the backslash and as recorded in the element. */
  function Name(c: Command): string {
    match c
    case Citet => "citet"
    case Citep => "citep"
    case CiteAuthor => "citeauthor"
    case CiteYearPar => "citeyearpar"
  }

  /** An element of a processed line. */
  datatype InlineElement =
    | TextPart(value: string)
    | Citation(command: Command, keys: seq<string>, prenote: string, postnote: string)

  /** The groups of a command match: the bracket group when it took part, the brace group, and the end. */
  datatype ArgMatch = ArgMatch(option: Option<string>, argument: string, end: nat)

  /** `name\{(.*?)\}` (no DOTALL) at `i`. */
  function BracedAt(s: string, name: string, i: nat): (r: Option<ArgMatch>)
    ensures r.Some? ==> r.value.option.None? && i < r.value.end <= |s| && At(s, name, i)
  {
    var j := i + |name|;
    if !At(s, name, i) || j >= |s| || s[j] != '{' then None
    else match LazyUntil(s, "}", j + 1, false)
      case None => None
      case Some(c) => Some(ArgMatch(None, s[j + 1..c], c + 1))
  }

  /**
   * `name(?:\[(.*?)\])?\{(.*?)\}` (no DOTALL) at `i`. After `[` only the
   * bracketed form can match, and the bracket group ends at the first `]{`:
   * when the brace group fails after that one, it fails after every later
   * one as well, since neither group may cross a newline.
   */
  function BracketedAt(s: string, name: string, i: nat): (r: Option<ArgMatch>)
    ensures r.Some? ==> i < r.value.end <= |s| && At(s, name, i)
  {
    var j := i + |name|;
    if At(s, name, i) && j < |s| && s[j] == '[' then
      match LazyUntil(s, "]{", j + 1, false)
      case None => None
      case Some(k) =>
        match LazyUntil(s, "}", k + 2, false)
        case None => None
        case Some(c) => Some(ArgMatch(Some(s[j + 1..k]), s[k + 2..c], c + 1))
    else BracedAt(s, name, i)
  }

  /** What each command's pattern matches at `i`. */
  function CommandAt(c: Command, s: string, i: nat): (r: Option<ArgMatch>)
    ensures r.Some? ==> i < r.value.end <= |s| && At(s, "\\" + Name(c), i)
    ensures r.Some? && c == CiteAuthor ==> r.value.option.None?
  {
    match c
    case CiteAuthor =>
      assert "\\" + Name(c) == "\\citeauthor";
      BracedAt(s, "\\citeauthor", i)
    case _ => BracketedAt(s, "\\" + Name(c), i)
  }

  /** `cmd_re.search(text_line, current_pos)`. */
  function Search(c: Command, s: string, pos: nat): Option<(nat, ArgMatch)> {
    FirstFrom((t, k) => CommandAt(c, t, k), s, pos)
  }

  /**
   * The choice the inner loop has made after trying the first `k` commands:
   * the match that starts earliest, before the end of the line, an earlier
   * command winning a tie.
   */
  function Earliest(s: string, pos: nat, k: nat): (r: Option<(Command, nat, ArgMatch)>)
    requires k <= |CitationCommands|
    ensures r.Some? ==> pos <= r.value.1 && CommandAt(r.value.0, s, r.value.1) == Some(r.value.2)
  {
    if k == 0 then None
    else
      var best := Earliest(s, pos, k - 1);
      var bound := if best.Some? then best.value.1 else |s|;
      match Search(CitationCommands[k - 1], s, pos)
      case Some((j, m)) => if j < bound then Some((CitationCommands[k - 1], j, m)) else best
      case None => best
  }

  /**
   * The chosen match is the leftmost occurrence of any of the commands tried:
   * none of them matches anywhere between the scan position and it.
   */
  lemma {:induction false} EarliestLeftmost(s: string, pos: nat, k: nat)
    requires k <= |CitationCommands|
    ensures var r := Earliest(s, pos, k);
      forall q, j :: 0 <= q < k && pos <= j && (r.None? || j < r.value.1) ==> CommandAt(CitationCommands[q], s, j).None?
  {
    if k > 0 {
      EarliestLeftmost(s, pos, k - 1);
      var best := Earliest(s, pos, k - 1);
      var c := CitationCommands[k - 1];
      var r := Earliest(s, pos, k);
      forall j | pos <= j && (r.None? || j < r.value.1) ensures CommandAt(c, s, j).None? {
        var m := (t, i) => CommandAt(c, t, i);
        assert m(s, j) == CommandAt(c, s, j);
      }
    }
  }

  /** The citation element for a match: keys split at commas and trimmed, the prenote trimmed, no postnote. */
  function CitationOf(c: Command, m: ArgMatch): (r: InlineElement)
    ensures r.Citation? && r.command == c && r.postnote == ""
    ensures |r.keys| == Count(m.argument, ",") + 1
    ensures forall k :: 0 <= k < |r.keys| ==> Strip(r.keys[k]) == r.keys[k]
    ensures Strip(r.prenote) == r.prenote
    ensures c == CiteAuthor || m.option.None? ==> r.prenote == ""
  {
    var prenote := if c == CiteAuthor || m.option.None? then "" else m.option.value;
    SplitCount(m.argument, ",");
    StripsAll(Split(m.argument, ","));
    StripTwice(prenote);
    Citation(c, StripAll(Split(m.argument, ",")), Strip(prenote), "")
  }

  /** Stripping twice strips nothing more. */
  lemma StripTwice(s: string)
    ensures Strip(Strip(s)) == Strip(s)
  {
    StripTrimmed(Strip(s));
  }

  lemma StripsAll(xs: seq<string>)
    ensures forall k :: 0 <= k < |xs| ==> Strip(StripAll(xs)[k]) == StripAll(xs)[k]
  {
    forall k | 0 <= k < |xs| ensures Strip(StripAll(xs)[k]) == StripAll(xs)[k] {
      StripTwice(xs[k]);
    }
  }

  /** `process_inline_elements` from `pos`: text before each leftmost citation, the citation, and the text after the last. */
  function Elements(s: string, pos: nat): (r: seq<InlineElement>)
    requires pos <= |s|
    ensures r == [] <==> pos == |s|
    decreases |s| - pos
  {
    if pos == |s| then []
    else match Earliest(s, pos, |CitationCommands|)
      case None => [TextPart(ApplyBasicFormatting(s[pos..]))]
      case Some((c, j, m)) =>
        (if j > pos then [TextPart(ApplyBasicFormatting(s[pos..j]))] else [])
        + [CitationOf(c, m)] + Elements(s, m.end)
  }

  /** `process_inline_elements`: the outer scan and, for each position, the inner loop over the commands. */
  method ProcessInlineElements(line: string) returns (elements: seq<InlineElement>)
    ensures elements == Elements(line, 0)
  {
    elements := [];
    var pos := 0;
    while pos < |line|
      invariant pos <= |line|
      invariant elements + Elements(line, pos) == Elements(line, 0)
      decreases |line| - pos
    {
      var best := EarliestMatch(line, pos);
      if best.None? {
        elements := elements + [TextPart(ApplyBasicFormatting(line[pos..]))];
        return;
      }
      var (c, j, m) := best.value;
      var before := if j > pos then [TextPart(ApplyBasicFormatting(line[pos..j]))] else [];
      Regroup(elements, before, [CitationOf(c, m)], Elements(line, m.end));
      elements := elements + before + [CitationOf(c, m)];
      pos := m.end;
    }
  }

  /** The inner loop of `process_inline_elements`: every command searched from `pos`, the earliest match kept. */
  method EarliestMatch(line: string, pos: nat) returns (best: Option<(Command, nat, ArgMatch)>)
    ensures best == Earliest(line, pos, |CitationCommands|)
  {
    best := None;
    for k := 0 to |CitationCommands|
      invariant best == Earliest(line, pos, k)
    {
      var found := Search(CitationCommands[k], line, pos);
      var bound := if best.Some? then best.value.1 else |line|;
      if found.Some? && found.value.0 < bound {
        best := Some((CitationCommands[k], found.value.0, found.value.1));
      }
    }
  }

  lemma Regroup<T>(a: seq<T>, b: seq<T>, c: seq<T>, d: seq<T>)
    ensures a + (b + c + d) == a + b + c + d
  {
  }

  /** No two text elements are next to each other. */
  predicate NoAdjacentText(els: seq<InlineElement>) {
    forall k :: 0 <= k < |els| - 1 ==> !(els[k].TextPart? && els[k + 1].TextPart?)
  }

  /** Every citation element has trimmed keys and prenote and no postnote, and `\citeauthor` no prenote. */
  predicate CitationsWellFormed(els: seq<InlineElement>) {
    forall k :: 0 <= k < |els| && els[k].Citation? ==>
      els[k].postnote == "" && Strip(els[k].prenote) == els[k].prenote && |els[k].keys| >= 1
      && (forall q :: 0 <= q < |els[k].keys| ==> Strip(els[k].keys[q]) == els[k].keys[q])
      && (els[k].command == CiteAuthor ==> els[k].prenote == "")
  }

  lemma JoinAfterCitation(pre: seq<InlineElement>, cit: InlineElement, rest: seq<InlineElement>)
    requires |pre| <= 1 && (pre != [] ==> pre[0].TextPart?) && cit.Citation?
    requires CitationsWellFormed([cit]) && CitationsWellFormed(rest)
    requires NoAdjacentText(rest)
    ensures NoAdjacentText(pre + [cit] + rest)
    ensures CitationsWellFormed(pre + [cit] + rest)
  {
    var els := pre + [cit] + rest;
    forall k | 0 <= k < |els| && els[k].Citation?
      ensures els[k].postnote == "" && Strip(els[k].prenote) == els[k].prenote && |els[k].keys| >= 1
      && (forall q :: 0 <= q < |els[k].keys| ==> Strip(els[k].keys[q]) == els[k].keys[q])
      && (els[k].command == CiteAuthor ==> els[k].prenote == "")
    {
      if k == |pre| { assert els[k] == [cit][0]; } else { assert els[k] == rest[k - |pre| - 1]; }
    }
    forall k | 0 <= k < |els| - 1 ensures !(els[k].TextPart? && els[k + 1].TextPart?) {
      if k > |pre| { assert els[k] == rest[k - |pre| - 1] && els[k + 1] == rest[k - |pre|]; }
      else if k == |pre| { assert els[k] == cit; }
      else { assert els[k + 1] == cit; }
    }
  }

  /**
   * The elements of a line alternate: no two text elements are adjacent; and
   * every citation is well formed.
   */
  lemma {:induction false} ElementsShape(s: string, pos: nat)
    requires pos <= |s|
    ensures NoAdjacentText(Elements(s, pos))
    ensures CitationsWellFormed(Elements(s, pos))
    decreases |s| - pos
  {
    if pos < |s| {
      match Earliest(s, pos, |CitationCommands|)
      case None =>
      case Some((c, j, m)) =>
        ElementsShape(s, m.end);
        var pre := if j > pos then [TextPart(ApplyBasicFormatting(s[pos..j]))] else [];
        var cit := CitationOf(c, m);
        assert CitationsWellFormed([cit]) by {
          SplitCount(m.argument, ",");
        }
        JoinAfterCitation(pre, cit, Elements(s, m.end));
    }
  }

  /** Each command's pattern starts with `\cite`. */
  lemma CommandStartsCite(c: Command, s: string, i: nat)
    requires CommandAt(c, s, i).Some?
    ensures At(s, "\\cite", i)
  {
    var name := "\\" + Name(c);
    assert name[..5] == "\\cite" by { CitePrefix(c); }
    assert s[i..i + |name|][..5] == s[i..i + 5];
  }

  lemma CitePrefix(c: Command)
    ensures |"\\" + Name(c)| >= 5 && ("\\" + Name(c))[..5] == "\\cite"
  {
    match c
    case Citet => assert "\\" + Name(c) == "\\citet";
    case Citep => assert "\\" + Name(c) == "\\citep";
    case CiteAuthor => assert "\\" + Name(c) == "\\citeauthor";
    case CiteYearPar => assert "\\" + Name(c) == "\\citeyearpar";
  }

  /** A line without `\cite` is one text element, formatted. */
  lemma NoCitation(s: string)
    requires s != "" && !Contains(s, "\\cite")
    ensures Elements(s, 0) == [TextPart(ApplyBasicFormatting(s))]
  {
    var r := Earliest(s, 0, |CitationCommands|);
    if r.Some? {
      CommandStartsCite(r.value.0, s, r.value.1);
      assert false;
    }
    assert s[0..] == s;
  }

  /** A plain `\cite{...}` is no citation command: it stays in the text. */
  lemma PlainCiteIsText(s: string, i: nat)
    requires At(s, "\\cite{", i)
    ensures forall c :: CommandAt(c, s, i).None?
  {
    assert s[i + 5] == s[i..i + 6][5] == '{';
    forall c ensures CommandAt(c, s, i).None? {
      CommandSixth(c, s, i);
    }
  }

  /** The sixth character of every command's name is a letter, never `{`. */
  lemma CommandSixth(c: Command, s: string, i: nat)
    ensures CommandAt(c, s, i).Some? ==> i + 6 <= |s| && s[i + 5] != '{'
  {
    if CommandAt(c, s, i).Some? {
      var name := "\\" + Name(c);
      assert s[i + 5] == s[i..i + |name|][5] == name[5];
    }
  }

  /** The `plainCitation` text shown for a citation: the keys joined with `, `, and the prenote when there is one. */
  function PlainCitation(command: string, keys: seq<string>, prenote: string): (r: string)
  {
    var shown := Join(", ", keys);
    var parts := (if prenote != "" then [prenote] else []) + [shown];
    if command == "citep" || command == "citeyearpar" then "(" + Join("; ", parts) + ")"
    else if command == "citet" then shown + (if prenote != "" then ", " + prenote else "")
    else if command == "citeauthor" then shown
    else "(" + Join("; ", parts) + ")"
  }

  /**
   * Parenthetical commands, and any command the converter does not know,
   * show the prenote and the keys inside parentheses, separated by `; `.
   */
  lemma Parenthetical(command: string, keys: seq<string>, prenote: string)
    requires command != "citet" && command != "citeauthor"
    ensures PlainCitation(command, keys, prenote)
      == "(" + (if prenote != "" then prenote + "; " else "") + Join(", ", keys) + ")"
  {
    NoteJoined(prenote, Join(", ", keys));
  }

  lemma NoteJoined(prenote: string, shown: string)
    ensures Join("; ", (if prenote != "" then [prenote] else []) + [shown])
      == (if prenote != "" then prenote + "; " else "") + shown
  {
    if prenote != "" {
      assert [prenote] + [shown] == [prenote, shown];
      assert [prenote, shown][1..] == [shown];
    } else {
      assert [] + [shown] == [shown];
    }
  }

  /** `\citeauthor` shows only the keys, whatever the prenote. */
  lemma AuthorOnly(keys: seq<string>, prenote: string)
    ensures PlainCitation("citeauthor", keys, prenote) == Join(", ", keys)
  {
  }

  /** One entry of the field's `citationItems`. */
  datatype CitationItem = CitationItem(id: string, kind: string, prefix: string, suffix: string, uri: string)

  const ItemUriPrefix: string := "http://zotero.org/users/local/placeholder/items/"

  /** The item loop of `construct_zotero_json_payload`: the prenote goes to the first key only. */
  method CitationItems(keys: seq<string>, prenote: string) returns (items: seq<CitationItem>)
    ensures |items| == |keys|
    ensures forall k :: 0 <= k < |keys| ==>
      items[k] == CitationItem(keys[k], "book", if k == 0 then prenote else "", "", ItemUriPrefix + keys[k])
  {
    items := [];
    var first := true;
    for k := 0 to |keys|
      invariant |items| == k && first == (k == 0)
      invariant forall q :: 0 <= q < k ==>
        items[q] == CitationItem(keys[q], "book", if q == 0 then prenote else "", "", ItemUriPrefix + keys[q])
    {
      var current := if first then prenote else "";
      first := false;
      items := items + [CitationItem(keys[k], "book", current, "", ItemUriPrefix + keys[k])];
    }
  }

  /** The Zotero field of a citation, without its JSON serialisation. */
  datatype ZoteroField = ZoteroField(citationId: string, plainCitation: string, items: seq<CitationItem>, schema: string)

  const CslSchema: string := "https://github.com/citation-style-language/schema/raw/master/csl-citation.json"

  /**
   * `construct_zotero_json_payload` for a citation element; the identifier,
   * a fresh UUID in the converter, is a parameter.
   */
  method ZoteroPayload(citationId: string, cit: InlineElement) returns (field: ZoteroField)
    requires cit.Citation?
    ensures field.citationId == citationId && field.schema == CslSchema
    ensures field.plainCitation == PlainCitation(Name(cit.command), cit.keys, cit.prenote)
    ensures |field.items| == |cit.keys|
    ensures forall k :: 0 <= k < |cit.keys| ==>
      field.items[k] == CitationItem(cit.keys[k], "book", if k == 0 then cit.prenote else "", "", ItemUriPrefix + cit.keys[k])
  {
    var items := CitationItems(cit.keys, cit.prenote);
    field := ZoteroField(citationId, PlainCitation(Name(cit.command), cit.keys, cit.prenote), items, CslSchema);
  }
}
