/**
 * The three pure pieces of the JSON-to-docx renderer: reading a `#RRGGBB`
 * colour as three integers, choosing the heading level of a paragraph, and
 * repairing paragraph content whose text was split around braces.
 */
module DocxContent {
  import opened Text
  import opened Colors

  /** The value of a hexadecimal digit, either case. */
  function DigitValue(c: char): (v: nat)
    requires IsHexDigit(c)
    ensures v < 16 && (IsDigit(c) <==> v < 10)
  {
    if IsDigit(c) then c as int - '0' as int
    else if 'a' <= c <= 'f' then c as int - 'a' as int + 10
    else c as int - 'A' as int + 10
  }

  /** A digit of the base, 10 or 16, that `int(s, base)` reads. */
  predicate InBase(c: char, base: nat) {
    IsHexDigit(c) && (base == 16 || IsDigit(c))
  }

  /** The digit grammar of `int()`: digits, with single underscores between two digits. */
  predicate DigitBody(t: string, base: nat) {
    t != [] && InBase(t[0], base) && InBase(t[|t| - 1], base)
    && (forall k :: 0 <= k < |t| ==> InBase(t[k], base) || t[k] == '_')
    && (forall k :: 0 <= k < |t| - 1 ==> NotDouble(t, k))
  }

  /** No underscore at `k` is followed by another. */
  predicate NotDouble(t: string, k: nat)
    requires k + 1 < |t|
  {
    t[k] != '_' || t[k + 1] != '_'
  }

  /** The number the digits of `t` spell in `base`, underscores skipped. */
  function BodyValue(t: string, base: nat): (v: nat)
    requires base == 10 || base == 16
    requires forall k :: 0 <= k < |t| ==> InBase(t[k], base) || t[k] == '_'
  {
    if t == [] then 0
    else
      var last := t[|t| - 1];
      assert InBase(last, base) || last == '_';
      if last == '_' then BodyValue(t[..|t| - 1], base)
      else BodyValue(t[..|t| - 1], base) * base + DigitValue(last)
  }

  /**
   * `int(s, base)` for base 10 or 16 without a `0x` prefix: surrounding
   * whitespace, an optional sign, then the digits; `None` where Python
   * raises `ValueError`.
   */
  function ParseInt(s: string, base: nat): (r: Option<int>)
    requires base == 10 || base == 16
    ensures r.Some? ==> !IsBlank(s)
  {
    var t := Strip(s);
    if t == [] then None
    else
      var body := if t[0] == '+' || t[0] == '-' then t[1..] else t;
      if DigitBody(body, base) then
        var v: int := BodyValue(body, base);
        Some(if t[0] == '-' then -v else v)
      else None
  }

  /** Python's slice `s[i:j]` for `0 <= i <= j`: both ends clamped to the length. */
  function Slice(s: string, i: nat, j: nat): (r: string)
    requires i <= j
    ensures |r| == (if j <= |s| then j - i else if i <= |s| then |s| - i else 0)
  {
    if j <= |s| then s[i..j] else if i <= |s| then s[i..] else ""
  }

  /** The colour without one leading `#`. */
  function Unhashed(color: string): (h: string)
    ensures |h| >= |color| - 1
  {
    if |color| > 0 && color[0] == '#' then color[1..] else color
  }

  /**
   * `hex_to_rgb`: the colour without one leading `#`, read as three base-16
   * integers from the slices `[0:2]`, `[2:4]` and `[4:6]`; `None` where a
   * slice does not parse and Python raises `ValueError`.
   */
  function HexToRgb(color: string): (r: Option<(int, int, int)>)
    ensures r.Some? ==> |Unhashed(color)| >= 5
  {
    var h := Unhashed(color);
    var r, g, b := ParseInt(Slice(h, 0, 2), 16), ParseInt(Slice(h, 2, 4), 16), ParseInt(Slice(h, 4, 6), 16);
    if r.Some? && g.Some? && b.Some? then Some((r.value, g.value, b.value)) else None
  }

  /** The byte two hexadecimal digits encode. */
  function PairValue(hi: char, lo: char): (v: nat)
    requires IsHexDigit(hi) && IsHexDigit(lo)
    ensures v < 256
  {
    DigitValue(hi) * 16 + DigitValue(lo)
  }

  /** The upper-case hexadecimal digit of `v`. */
  function HexDigit(v: nat): (c: char)
    requires v < 16
    ensures IsHexDigit(c) && !('a' <= c <= 'f') && DigitValue(c) == v
  {
    if v < 10 then (v + '0' as int) as char else (v - 10 + 'A' as int) as char
  }

  /** `#RRGGBB` for three bytes, in upper case as colours are stored. */
  function Encode(r: nat, g: nat, b: nat): (v: string)
    requires r < 256 && g < 256 && b < 256
    ensures IsHexColor(v)
  {
    "#" + [HexDigit(r / 16), HexDigit(r % 16), HexDigit(g / 16), HexDigit(g % 16), HexDigit(b / 16), HexDigit(b % 16)]
  }

  /** Two hexadecimal digits parse as the byte they encode. */
  lemma PairParses(s: string)
    requires |s| == 2 && IsHexDigit(s[0]) && IsHexDigit(s[1])
    ensures ParseInt(s, 16) == Some(PairValue(s[0], s[1]))
  {
    StripTrimmed(s);
    forall k | 0 <= k < |s| ensures InBase(s[k], 16) {
      assert k == 0 || k == 1;
    }
    assert DigitBody(s, 16);
    assert s[..1] == [s[0]] && s[..1][..0] == [];
    assert BodyValue(s[..1], 16) == DigitValue(s[0]);
  }

  /** Six hexadecimal digits, after an optional `#`, read as the three bytes they encode, each in 0..255. */
  lemma {:induction false} SixDigits(color: string)
    requires |Unhashed(color)| == 6 && forall k :: 0 <= k < 6 ==> IsHexDigit(Unhashed(color)[k])
    ensures var h := Unhashed(color);
      HexToRgb(color) == Some((PairValue(h[0], h[1]), PairValue(h[2], h[3]), PairValue(h[4], h[5])))
  {
    var h := Unhashed(color);
    assert IsHexDigit(h[0]) && IsHexDigit(h[1]) && IsHexDigit(h[2]);
    assert IsHexDigit(h[3]) && IsHexDigit(h[4]) && IsHexDigit(h[5]);
    var r, g, b := PairValue(h[0], h[1]), PairValue(h[2], h[3]), PairValue(h[4], h[5]);
    assert ParseInt(Slice(h, 0, 2), 16) == Some(r) by { PairAt(h, 0); }
    assert ParseInt(Slice(h, 2, 4), 16) == Some(g) by { PairAt(h, 2); }
    assert ParseInt(Slice(h, 4, 6), 16) == Some(b) by { PairAt(h, 4); }
    HexToRgbOf(color, r, g, b);
  }

  /** Three slices that parse make the colour's three components. */
  lemma {:induction false} HexToRgbOf(color: string, r: int, g: int, b: int)
    requires var h := Unhashed(color);
      ParseInt(Slice(h, 0, 2), 16) == Some(r) && ParseInt(Slice(h, 2, 4), 16) == Some(g)
      && ParseInt(Slice(h, 4, 6), 16) == Some(b)
    ensures HexToRgb(color) == Some((r, g, b))
  {
  }

  /** The slice `[i:i+2]` of six hexadecimal digits reads as the byte its two digits encode. */
  lemma {:induction false} PairAt(h: string, i: nat)
    requires |h| == 6 && i + 2 <= 6 && IsHexDigit(h[i]) && IsHexDigit(h[i + 1])
    ensures ParseInt(Slice(h, i, i + 2), 16) == Some(PairValue(h[i], h[i + 1]))
  {
    var s := Slice(h, i, i + 2);
    assert s == h[i..i + 2] && s[0] == h[i] && s[1] == h[i + 1];
    PairParses(s);
  }

  /** Encoding three bytes and reading them back gives the bytes. */
  lemma EncodeRoundTrip(r: nat, g: nat, b: nat)
    requires r < 256 && g < 256 && b < 256
    ensures HexToRgb(Encode(r, g, b)) == Some((r, g, b))
  {
    var v := Encode(r, g, b);
    SixDigits(v);
    PairOf(r);
    PairOf(g);
    PairOf(b);
  }

  /** The two digits of a byte encode that byte. */
  lemma PairOf(v: nat)
    requires v < 256
    ensures PairValue(HexDigit(v / 16), HexDigit(v % 16)) == v
  {
  }

  /** The stored form `#` + upper-cased spec of an `HTML` colour reads back as the bytes the spec encodes. */
  lemma StoredColorRoundTrip(spec: string)
    requires IsHtmlSpec(spec)
    ensures HexToRgb(HtmlColor(spec)) == Some((PairValue(spec[0], spec[1]), PairValue(spec[2], spec[3]), PairValue(spec[4], spec[5])))
  {
    var v := HtmlColor(spec);
    var h := Upper(spec);
    assert v[1..] == h;
    SixDigits(v);
    UpperPair(spec, 0);
    UpperPair(spec, 2);
    UpperPair(spec, 4);
  }

  /** The digit pair at `i` of a spec encodes the same byte once upper-cased. */
  lemma UpperPair(spec: string, i: nat)
    requires IsHtmlSpec(spec) && i < 5
    ensures PairValue(Upper(spec)[i], Upper(spec)[i + 1]) == PairValue(spec[i], spec[i + 1])
  {
    UpperDigit(spec[i]);
    UpperDigit(spec[i + 1]);
  }

  /** Upper-casing a hexadecimal digit keeps its value. */
  lemma UpperDigit(c: char)
    requires IsHexDigit(c)
    ensures DigitValue(UpperChar(c)) == DigitValue(c)
  {
  }

  /** A colour of at most four characters after the `#` leaves the last slice empty, which `int` rejects. */
  lemma ShortColorFails(color: string)
    requires |Unhashed(color)| <= 4
    ensures HexToRgb(color).None?
  {
  }

  /** The value of a `level` field in the JSON: an integer (or boolean), a string, or anything else. */
  datatype LevelField = LevelInt(n: int) | LevelText(s: string) | LevelOther

  /** `str.isdigit()`, for ASCII digits. */
  predicate IsDigitString(s: string) {
    s != [] && forall k :: 0 <= k < |s| ==> IsDigit(s[k])
  }

  /**
   * The heading level `create_paragraph_from_json` gives a paragraph type:
   * 0 for `title_paragraph`; for a type starting with `heading`, the number
   * left once every `heading` is removed and the rest trimmed, else the
   * `level` field when `int()` accepts it, else 1; `None` for any other type.
   */
  function HeadingLevel(paraType: string, level: Option<LevelField>): (r: Option<int>)
    ensures r.Some? <==> paraType == "title_paragraph" || At(paraType, "heading", 0)
  {
    if paraType == "title_paragraph" then Some(0)
    else if At(paraType, "heading", 0) then
      var levelStr := Strip(ReplaceAll(paraType, "heading", ""));
      if IsDigitString(levelStr) then Some(BodyValue(levelStr, 10))
      else if level.None? then Some(1)
      else
        match level.value
        case LevelInt(n) => Some(n)
        case LevelText(s) => Some(if ParseInt(s, 10).Some? then ParseInt(s, 10).value else 1)
        case LevelOther => Some(1)
    else None
  }

  /** The decimal digits of `n`, without leading zeros. */
  function Decimal(n: nat): (s: string)
    ensures IsDigitString(s)
  {
    if n < 10 then [HexDigit(n)] else Decimal(n / 10) + [HexDigit(n % 10)]
  }

  /** The decimal digits of `n` spell `n`. */
  lemma {:induction false} DecimalValue(n: nat)
    ensures BodyValue(Decimal(n), 10) == n
  {
    var s := Decimal(n);
    if n < 10 {
      assert s[..0] == [];
    } else {
      assert s[..|s| - 1] == Decimal(n / 10);
      DecimalValue(n / 10);
    }
  }

  /** `title_paragraph` is the level-0 heading whatever the `level` field says. */
  lemma TitleLevel(level: Option<LevelField>)
    ensures HeadingLevel("title_paragraph", level) == Some(0)
  {
  }

  /** `headingN`, for the decimal digits of N, is a heading of level N whatever the `level` field says. */
  lemma NumberedHeading(n: nat, level: Option<LevelField>)
    ensures HeadingLevel("heading" + Decimal(n), level) == Some(n)
  {
    var t := "heading" + Decimal(n);
    var d := Decimal(n);
    assert t[..7] == "heading" && t[7..] == d;
    AbsentByChar(d, "heading", 0);
    ReplaceAllAbsent(d, "heading", "");
    assert ReplaceAll(t, "heading", "") == d;
    StripTrimmed(d);
    DecimalValue(n);
  }

  /** A bare `heading` takes an integer `level` field as it is, and level 1 when the field is missing or not a number. */
  lemma BareHeading(level: Option<LevelField>)
    ensures level.Some? && level.value.LevelInt? ==> HeadingLevel("heading", level) == Some(level.value.n)
    ensures level.None? || level.value.LevelOther? ==> HeadingLevel("heading", level) == Some(1)
    ensures level.Some? && level.value.LevelText? && IsBlank(level.value.s) ==> HeadingLevel("heading", level) == Some(1)
  {
    assert "heading"[..7] == "heading";
    assert "heading"[7..] == "";
    assert ReplaceAll("heading", "heading", "") == "";
    assert Strip("") == "";
  }

  /** A formatting value in the JSON. */
  datatype Value = Flag(b: bool) | Word(s: string) | Number(n: int)

  /** A paragraph's formatting dictionary; a missing one is the empty map. */
  type Formatting = map<string, Value>

  /** One content item of a paragraph: a text run, or any other item, which the repair passes through. */
  datatype Item = TextItem(text: string, formatting: Formatting) | OtherItem(payload: string)

  /** `{A`, `B`, `}` with the first and last formatted alike: the three-part repair applies. */
  predicate ThreeMerges(a: Item, b: Item, c: Item) {
    a.TextItem? && b.TextItem? && c.TextItem?
    && |a.text| > 0 && a.text[0] == '{' && c.text == "}" && a.formatting == c.formatting
  }

  /** `{A`, `}` formatted alike: the two-part repair applies. */
  predicate TwoMerges(a: Item, b: Item) {
    a.TextItem? && b.TextItem?
    && |a.text| > 0 && a.text[0] == '{' && b.text == "}" && a.formatting == b.formatting
  }

  /**
   * The content after the repair: where the three-part repair applies, one
   * text `A+B` whose formatting is the outer one overridden by the inner;
   * else where the two-part repair applies, the text `A` if it is not empty;
   * else the item unchanged.
   */
  function Repaired(c: seq<Item>): (r: seq<Item>)
    ensures |r| <= |c|
    decreases |c|
  {
    if c == [] then []
    else if |c| >= 3 && ThreeMerges(c[0], c[1], c[2]) then
      [TextItem(c[0].text[1..] + c[1].text, c[0].formatting + c[1].formatting)] + Repaired(c[3..])
    else if |c| >= 2 && TwoMerges(c[0], c[1]) then
      (if |c[0].text| > 1 then [TextItem(c[0].text[1..], c[0].formatting)] else []) + Repaired(c[2..])
    else [c[0]] + Repaired(c[1..])
  }

  /** The repair loop of `create_paragraph_from_json`. */
  method RepairContent(content: seq<Item>) returns (repaired: seq<Item>)
    ensures repaired == Repaired(content)
  {
    repaired := [];
    var i, n := 0, |content|;
    while i < n
      invariant i <= n
      invariant repaired + Repaired(content[i..]) == Repaired(content)
    {
      ghost var rest := content[i..];
      if i + 2 < n && ThreeMerges(content[i], content[i + 1], content[i + 2]) {
        var item := TextItem(content[i].text[1..] + content[i + 1].text, content[i].formatting + content[i + 1].formatting);
        RepairedThree(rest, item);
        assert rest[3..] == content[i + 3..];
        Reassoc(repaired, [item], Repaired(content[i + 3..]));
        repaired := repaired + [item];
        i := i + 3;
      } else if i + 1 < n && TwoMerges(content[i], content[i + 1]) {
        var mergedText := content[i].text[1..];
        var kept := if mergedText != "" then [TextItem(mergedText, content[i].formatting)] else [];
        RepairedTwo(rest, kept);
        assert rest[2..] == content[i + 2..];
        Reassoc(repaired, kept, Repaired(content[i + 2..]));
        repaired := repaired + kept;
        i := i + 2;
      } else {
        RepairedOne(rest);
        assert rest[1..] == content[i + 1..];
        Reassoc(repaired, [content[i]], Repaired(content[i + 1..]));
        repaired := repaired + [content[i]];
        i := i + 1;
      }
    }
  }

  lemma RepairedThree(c: seq<Item>, item: Item)
    requires |c| >= 3 && ThreeMerges(c[0], c[1], c[2])
    requires item == TextItem(c[0].text[1..] + c[1].text, c[0].formatting + c[1].formatting)
    ensures Repaired(c) == [item] + Repaired(c[3..])
  {
  }

  lemma RepairedTwo(c: seq<Item>, kept: seq<Item>)
    requires |c| >= 2 && TwoMerges(c[0], c[1]) && !(|c| >= 3 && ThreeMerges(c[0], c[1], c[2]))
    requires kept == if |c[0].text| > 1 then [TextItem(c[0].text[1..], c[0].formatting)] else []
    ensures Repaired(c) == kept + Repaired(c[2..])
  {
  }

  lemma RepairedOne(c: seq<Item>)
    requires |c| >= 1 && !(|c| >= 3 && ThreeMerges(c[0], c[1], c[2])) && !(|c| >= 2 && TwoMerges(c[0], c[1]))
    ensures Repaired(c) == [c[0]] + Repaired(c[1..])
  {
  }

  lemma Reassoc<T>(a: seq<T>, b: seq<T>, c: seq<T>)
    ensures a + b + c == a + (b + c)
  {
  }

  /** The items that are not text runs, in order. */
  function Others(c: seq<Item>): (r: seq<Item>)
    ensures |r| <= |c|
  {
    if c == [] then [] else (if c[0].OtherItem? then [c[0]] else []) + Others(c[1..])
  }

  /** The repair keeps every non-text item, in order, and adds none. */
  lemma {:induction false} OthersKept(c: seq<Item>)
    ensures Others(Repaired(c)) == Others(c)
    decreases |c|
  {
    if c != [] {
      if |c| >= 3 && ThreeMerges(c[0], c[1], c[2]) {
        OthersKept(c[3..]);
        OthersAppend([TextItem(c[0].text[1..] + c[1].text, c[0].formatting + c[1].formatting)], Repaired(c[3..]));
        assert c[1..][1..] == c[2..] && c[2..][1..] == c[3..];
        assert Others(c) == Others(c[1..]) == Others(c[2..]) == Others(c[3..]);
      } else if |c| >= 2 && TwoMerges(c[0], c[1]) {
        OthersKept(c[2..]);
        OthersAppend(if |c[0].text| > 1 then [TextItem(c[0].text[1..], c[0].formatting)] else [], Repaired(c[2..]));
        assert c[1..][1..] == c[2..];
        assert Others(c) == Others(c[1..]) == Others(c[2..]);
      } else {
        OthersKept(c[1..]);
        OthersAppend([c[0]], Repaired(c[1..]));
      }
    }
  }

  lemma {:induction false} OthersAppend(a: seq<Item>, b: seq<Item>)
    ensures Others(a + b) == Others(a) + Others(b)
    decreases |a|
  {
    if a != [] {
      assert (a + b)[1..] == a[1..] + b;
      OthersAppend(a[1..], b);
    } else {
      assert a + b == b;
    }
  }

  /** Content where no text run starts with `{` comes out of the repair unchanged. */
  lemma {:induction false} NoBraceUnchanged(c: seq<Item>)
    requires forall k :: 0 <= k < |c| && c[k].TextItem? ==> |c[k].text| == 0 || c[k].text[0] != '{'
    ensures Repaired(c) == c
    decreases |c|
  {
    if c != [] {
      NoBraceUnchanged(c[1..]);
    }
  }

  /** `{A`, `B`, `}`, the first and last formatted alike, become one text `A+B` with the inner formatting winning. */
  lemma ThreePart(a: string, b: string, f: Formatting, g: Formatting, rest: seq<Item>)
    ensures Repaired([TextItem("{" + a, f), TextItem(b, g), TextItem("}", f)] + rest)
         == [TextItem(a + b, f + g)] + Repaired(rest)
  {
    var c := [TextItem("{" + a, f), TextItem(b, g), TextItem("}", f)] + rest;
    assert ("{" + a)[1..] == a;
    assert c[3..] == rest;
  }

  /** `{A`, `}` formatted alike, and not followed by a third `}` formatted alike, become `A`, or nothing when `A` is empty. */
  lemma TwoPart(a: string, f: Formatting, rest: seq<Item>)
    requires rest == [] || rest[0] != TextItem("}", f)
    ensures Repaired([TextItem("{" + a, f), TextItem("}", f)] + rest)
         == (if a != "" then [TextItem(a, f)] else []) + Repaired(rest)
  {
    var c := [TextItem("{" + a, f), TextItem("}", f)] + rest;
    assert ("{" + a)[1..] == a;
    assert c[2..] == rest;
    if |c| >= 3 {
      assert c[2] == rest[0];
    }
  }
}
