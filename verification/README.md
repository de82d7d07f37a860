# tex2docx, modelled in Dafny

tex2docx turns LaTeX documents into Word documents by way of a JSON document
tree. This project models its three conversion cores and proves properties
about them:

- **LaTeX to JSON** (`latex2json.py`, class `LatexToJsonConverter`).
  - The converter splits the source at the `document` environment and strips comments and `%TC:ignore` regions from the preamble.
  - It records the argument-less `\newcommand` macros and `HTML` colours it finds there.
  - It reads the title, author and graphics path.
  - It then scans the body into paragraphs, headings, figures, lists, quotations, verbatim text and tables.
  - Inline text goes through a recursive run generator over a priority-ordered pattern, followed by a merge of adjacent runs.
- **The line-based converter** (`tex_to_docx_converter.py`).
  - It scans the lines of a LaTeX text while tracking two list flags and a pending paragraph.
  - It splits lines into text and natbib citations.
  - It reads `\includegraphics` options.
  - It encodes `\textbf`/`\textit` as `**`/`*` markers and cuts them back into runs.
  - It builds the display text and items of a Zotero citation field.
- **The JSON-to-docx renderer** (`json2docx.py`).
  - `hex_to_rgb`.
  - The heading level of a paragraph.
  - The loop that repairs text runs split around braces.

The source's regular expressions are modelled by hand-written matchers. Each matcher returns the groups and the end of a match at a position. A generic leftmost search stands for `re.search`, `re.finditer` and `re.sub`. Where the source writes a loop, or an object updates its fields, the model writes it the same way:
- `Converter` is a class with `modifies` clauses.
- Each loop is a method with invariants.
- Each method is proved against a function that specifies it.

### Where the specification and the code disagree

The model follows the code in each of these cases.

- **Macros with arguments.** The specification expands `\newcommand` macros with arguments. The code's pattern refuses `\newcommand{\x}[n]{...}` (`Definitions.ArgumentFormIgnored`).
- **Page breaks and bibliography commands.** The specification turns them into page-break and bibliography blocks. The code asks for match groups 10 and 11 of a pattern with eight groups, which raises `IndexError`. The model ends the body scan with a failure (`Body.PageBreakStops`), and the conversion then has no result.
- **Unrecognised commands followed by a brace group.** The specification says they are dropped together with the group. The catch-all token backtracks one letter instead, so `\foo{x}` leaves the text `o{x}` (`Inline.CatchAllBacktracks`). The brace-skipping loop after it computes an index that nothing uses.
- **Nested lists.** The specification builds them as child lists. The code's lazy `\item` pattern does not nest lists at all.
- **The "[Unhandled ...]" run.** The specification describes it, but that branch cannot be reached: some alternative of the inline pattern always matched.
- **The expansion bound.** The specification says "for example 10". The code's recursion performs up to 11 passes (`Macros.ExpandBounded`).

## Model

| member | source | states |
|---|---|---|
| Text.Strip | latex2json.py:329 | `str.strip()`: the result is no longer than the input and is a substring of it; it has no whitespace at either end; it is empty exactly when the input is all whitespace |
| Text.Upper | latex2json.py:114 | `str.upper()` on the colour's hexadecimal digits keeps the length and maps each character, in place, to its ASCII upper-case form |
| Text.IndexOf | latex2json.py:561 | the literal search finds the first occurrence at or after the start, and reports none only when no position matches |
| Text.SkipSpaces | latex2json.py:108 | greedy `\s*`: every character skipped is whitespace, and the character it stops at is not |
| Text.LazyUntil | latex2json.py:108 | a lazy `(.*?)` group ends at the first occurrence of what follows it; without DOTALL it crosses no newline |
| Text.FirstFrom | latex2json.py:370 | `re.search` from a position: the match found is the leftmost, with no match before it; no result means no position matches |
| Text.FirstIs | latex2json.py:370 | a match with none before it is the one `re.search` returns |
| Text.Split | latex2json.py:451 | `str.split(sep)` always yields at least one piece |
| Text.JoinSplit | latex2json.py:451 | joining the pieces of `str.split(sep)` with `sep` gives back the original text |
| Text.SplitCount | latex2json.py:451 | `str.split(sep)` yields one more piece than there are separators |
| Text.ReplaceAllAbsent | latex2json.py:99-104 | `str.replace` of a pattern that does not occur changes nothing |
| Text.ReplaceAllKeepsOut | latex2json.py:99-104 | `str.replace` never introduces a character that is in neither the text nor the replacement |
| Text.ReplaceAllRemoves | latex2json.py:164 | replacing a character by text without it removes every occurrence |
| Text.StripAll | latex2json.py:154 | the comprehension strips each element and keeps their number and order |
| Text.IsSpace | latex2json.py:329 | the characters Python's `str.isspace` accepts, which `\s` and `strip()` treat as whitespace |
| Text.IsLineBreak | tex_to_docx_converter.py:94 | the characters at which `str.splitlines()` ends a line |
| Text.IsWordChar | latex2json.py:130 | regex `\w` over ASCII: letters, digits and `_` |
| Text.IsCommandLetter | latex2json.py:162 | regex class `[a-zA-Z@]`, the letters of a LaTeX control word |
| Text.UpperChar | latex2json.py:114 | upper-casing a hexadecimal digit gives a hexadecimal digit that is not a lower-case letter |
| Text.IsBlank | latex2json.py:329 | text that `strip()` turns into the empty string: whitespace only |
| Text.TrimEndIndex | latex2json.py:329 | where the trailing whitespace of a slice begins: everything from there on is whitespace and the character before it is not |
| Text.SkipCommandLetters | latex2json.py:162 | greedy `[a-zA-Z@]*`: every character skipped is a command letter, and the one it stops at is not |
| Text.SkipWordChars | latex2json.py:108 | greedy `\w*`: every character skipped is a word character, and the one it stops at is not |
| Text.ReplaceAll | latex2json.py:98-105 | `str.replace(pat, rep)` over every non-overlapping occurrence from the left; ReplaceAllAbsent, ReplaceAllKeepsOut and ReplaceAllRemoves state its properties |
| Text.Join | tex_to_docx_converter.py:215 | `sep.join(parts)`; JoinSplit proves that it undoes `str.split(sep)` |
| Text.Count | latex2json.py:451 | the non-overlapping occurrences of a separator, counted from the left as `str.count` does; SplitCount ties it to the split |
| Text.FirstAt | latex2json.py:370 | a match at the starting position is the one `re.search` returns |
| Text.IndexOfFirst | latex2json.py:561 | an occurrence with no occurrence before it, from the start position on, is the one the literal search finds |
| Text.IndexOfChar | latex2json.py:561 | for a one-character pattern, the search finds the first position holding that character |
| Text.LettersRun | latex2json.py:162 | `[a-zA-Z@]*` stops exactly where the run of command letters ends |
| Text.SkipWordCharsRun | latex2json.py:108 | `\w*` stops exactly where the run of word characters ends |
| Text.SpacesRun | latex2json.py:108 | `\s*` stops exactly where the run of whitespace ends |
| Text.StripTrimmed | latex2json.py:329 | text with no whitespace at either end is its own `strip()` |
| Text.StripPadded | latex2json.py:329 | whitespace in front of trimmed text is removed by `strip()` and nothing else is |
| Cleaner.CleanIsChain | latex2json.py:98-105 | the text cleaner is exactly the twelve literal replacements in source order, each applied to the previous result |
| Cleaner.CleanIdentity | latex2json.py:98-105 | text without backslash or tilde passes through the cleaner unchanged (so "" stays "") |
| Cleaner.CleanNoTilde | latex2json.py:99 | no tilde survives the cleaner |
| Cleaner.CleanNoBraces | latex2json.py:103 | the cleaner introduces braces only by unescaping them, so brace-free text stays brace-free |
| Cleaner.ChainKeepsOut | latex2json.py:98-105 | an absent character stays absent through a replacement chain when every replacement that writes it also needs it in its pattern |
| Cleaner.ReplaceChain | latex2json.py:98-105 | a list of replacements applied in order, each to the previous result; ChainKeepsOut and ChainAbsent state its properties |
| Cleaner.Clean | latex2json.py:98-105 | `_clean_latex_text_segment` with its twelve replacements written out; CleanIsChain, CleanIdentity, CleanNoTilde and CleanNoBraces state its properties |
| Cleaner.ChainAt | latex2json.py:98-105 | the chain from the k-th replacement is that replacement followed by the chain after it |
| Cleaner.ChainAbsent | latex2json.py:100-105 | replacements whose patterns all start with a character the text lacks, and whose replacements lack it too, leave the text unchanged |
| Cleaner.ChainIdentity | latex2json.py:98-105 | text with no backslash and no tilde passes through the whole chain unchanged |
| Cleaner.ChainNoTilde | latex2json.py:99 | no tilde survives the chain |
| Cleaner.ChainNoOpenBrace | latex2json.py:103 | the chain adds no `{` to text that has none |
| Cleaner.ChainNoCloseBrace | latex2json.py:103 | the chain adds no `}` to text that has none |
| Macros.Define | latex2json.py:109 | dictionary assignment: an existing name keeps its position and gets the new body; a new name is appended; every other entry is unchanged |
| Macros.DefineLookup | latex2json.py:109 | after `macros[name] = body` the name maps to the body, every other name keeps its value, and names stay unique |
| Macros.ExpandBounded | latex2json.py:122-133 | expansion always terminates after at most `11 - depth` passes; its result is either a fixed point of a further pass or the result of exactly that many passes |
| Macros.SubstituteAbsent | latex2json.py:130 | the substitution leaves text that never mentions `\name` unchanged |
| Macros.SubstituteHit | latex2json.py:130 | `\name` not followed by a word character is replaced literally by the body, and the scan continues after it |
| Macros.SubstituteLongerName | latex2json.py:130 | `\name` followed by a word character is part of a longer name and is kept |
| Macros.PassNoMatch | latex2json.py:125-132 | a pass over a text that mentions none of the macros changes nothing |
| Macros.ExpandNoMatch | latex2json.py:122-133 | expansion of a text mentioning none of the macros returns it unchanged |
| Macros.ExpandNoBackslash | latex2json.py:122-133 | text without a backslash is never changed by expansion, whatever the macros |
| Macros.UniqueNames | latex2json.py:109 | at most one entry per name, as in the `macros` dictionary |
| Macros.Lookup | latex2json.py:124 | the value stored under a name, or none; DefineLookup states it after an assignment |
| Macros.Substitute | latex2json.py:130 | `re.sub` of `\name(?!\w)` by the literal body; SubstituteAbsent, SubstituteHit and SubstituteLongerName state its properties |
| Macros.Pass | latex2json.py:124-131 | one pass of the expander: every macro in table order, each applied to the previous result; PassNoMatch states its identity case |
| Macros.Expand | latex2json.py:122-133 | `_expand_macros`, which repeats passes while the text changes and stops once `depth` exceeds 10; ExpandBounded, ExpandNoMatch and ExpandNoBackslash state its properties |
| Macros.Passes | latex2json.py:122-133 | k passes in a row, in whose terms ExpandBounded states the bound |
| Colors.HtmlColor | latex2json.py:113-114 | the stored form of an `HTML` colour is `#` followed by six upper-case hexadecimal digits, the spec upper-cased |
| Colors.IsHtmlSpec | latex2json.py:113 | `^[0-9A-Fa-f]{6}$`: exactly six hexadecimal digits |
| Colors.IsHexColor | latex2json.py:114 | the stored colour form: `#` and six hexadecimal digits, none of them a lower-case letter |
| Inline.BraceGroupAt | latex2json.py:32-36 | a `\cmd{(.*?)}` match starts with a backslash, ends within the text and captures less than it spans |
| Inline.TextColorAt | latex2json.py:37 | a `\textcolor{name}{...}` match starts with a backslash and records a colour name |
| Inline.ColorGroupAt | latex2json.py:38 | a `{\color{name}...}` match starts with `{` and contains a backslash |
| Inline.HrefAt | latex2json.py:40 | an `\href` match starts with a backslash and yields its display text |
| Inline.CiteAt | latex2json.py:41 | a citation match starts with a backslash and yields its keys |
| Inline.OtherAt | latex2json.py:43 | the catch-all command token spans at least a backslash and one letter and captures nothing |
| Inline.TokenAt | latex2json.py:31-45 | the inline pattern's match, its alternatives tried in priority order, ends within the text and contains a backslash |
| Inline.Restyle | latex2json.py:197-240 | `\textbf`, `\textit`, `\underline` and `\texttt` each set their own key (bold, italic, underline, monospace font) and leave every other key as it was; a defined, non-empty colour replaces the colour and leaves the rest; an undefined colour, a link, a citation or another command changes nothing |
| Inline.Plain | latex2json.py:192-195 | text between matches gives at most one run, with the current formatting: a run is emitted exactly when the cleaned text is not empty |
| Inline.GeneratedRestyled | latex2json.py:270-271 | runs generated under a restyled formatting also keep the outer formatting's keys |
| Inline.ScanStep | latex2json.py:189-273 | one turn of the match loop: the cleaned text before the leftmost match, what the match emits, then the scan after its end |
| Inline.ScanGenerated | latex2json.py:171-280 | every run `generate_runs` produces keeps the keys of the formatting it was called with |
| Inline.EmitEmptyContent | latex2json.py:270 | a formatting command whose trimmed content is empty emits nothing |
| Inline.EmitLink | latex2json.py:241-246 | `\url` and `\href` emit one run of the cleaned, trimmed link text under the current formatting, even when that text is empty |
| Inline.EmitGenerated | latex2json.py:200-271 | every item one match emits (recursion, link text, citation or nothing) keeps the caller's formatting keys |
| Inline.Runs | latex2json.py:171-280 | the generated runs all satisfy the invariant relative to the starting formatting |
| Inline.MergeStep | latex2json.py:285-292 | one merge step keeps the list well merged (no blank text run, no two adjacent text runs alike) and grows it by at most one |
| Inline.Merged | latex2json.py:283-292 | the merge loop's result is well merged and no longer than its input |
| Inline.MergeItems | latex2json.py:283-292 | the merge loop, extending the last item or appending, computes the merge and leaves it well merged |
| Inline.Filter | latex2json.py:293 | the final comprehension leaves no blank text run |
| Inline.FilterMerged | latex2json.py:293 | after the merge, the final comprehension changes nothing |
| Inline.MergeStepCitations | latex2json.py:289-292 | a merge step keeps the citations it had and adds the new item when it is a citation |
| Inline.MergedCitations | latex2json.py:283-292 | the merge keeps every citation, in order |
| Inline.ParseInline | latex2json.py:167-293 | the parsed content is well merged |
| Inline.Finish | latex2json.py:283-293 | merge and filter leave a well-merged list with exactly the raw citations, in order |
| Inline.FinishSingle | latex2json.py:283-293 | a single citation or non-blank run comes out as it went in |
| Inline.ScanPlain | latex2json.py:275-279 | where no backslash remains nothing matches, and the rest is one cleaned run |
| Inline.ScanText | latex2json.py:186-280 | text without commands or tildes is exactly one run under the current formatting, or nothing when empty |
| Inline.PlainInline | latex2json.py:167-293 | plain text yields exactly one unformatted text run, or nothing when blank |
| Inline.ScanAtEnd | latex2json.py:275 | nothing is emitted after a match that ends the segment |
| Inline.ExpandEmpty | latex2json.py:169 | with no macros, expansion is the identity |
| Inline.BoldToken | latex2json.py:32 | `\textbf{x}` is matched by the bold alternative, its content running to the closing brace |
| Inline.EmitStyled | latex2json.py:200-271 | a formatting command with non-blank content emits the runs of its trimmed content under the extended formatting |
| Inline.StyledWhole | latex2json.py:200-271 | a formatting command spanning the segment, with plain content, yields one run of the trimmed content in that style |
| Inline.StyledInline | latex2json.py:167-293 | a styled command spanning the whole text parses to one run of its trimmed content in that style |
| Inline.BoldInline | latex2json.py:200-203 | `\textbf{x}` parses to one bold run of `x` trimmed |
| Inline.TextColorMatch | latex2json.py:37 | the colour alternative reads the maximal word-character name and the content up to the closing brace |
| Inline.TextColorToken | latex2json.py:31-45 | `\textcolor{n}{x}` is matched by the colour alternative; the five alternatives before it fail |
| Inline.TextColorInline | latex2json.py:225-232 | `\textcolor{n}{x}` gives one run of `x` trimmed, coloured when `n` is a defined colour and uncoloured otherwise |
| Inline.CiteMatch | latex2json.py:41 | the citation alternative skips the note to the first `]{` and reads the keys to the closing brace |
| Inline.CiteToken | latex2json.py:31-45 | `\cite[note]{keys}` is matched by the citation alternative |
| Inline.CitationWhole | latex2json.py:247-252 | a citation spanning the text is the only item, displayed as `[keys]` |
| Inline.CiteInline | latex2json.py:247-252 | `\cite[note]{keys}` parses to one citation showing `[keys]`; the note is discarded |
| Inline.CatchAllToken | latex2json.py:43 | for `\name{`, the catch-all token stops one letter short of the name, because the lookahead fails |
| Inline.SkippedThenPlain | latex2json.py:253-264 | a skipped command followed by plain text leaves that text as one run |
| Inline.CatchAllBacktracks | latex2json.py:253-264 | an unknown `\name{x}` keeps its last letter and the brace group as text |
| Inline.Extends | latex2json.py:197-240 | every formatting key the outer formatting sets is still set in the inner one |
| Inline.GoodItem | latex2json.py:171-280 | what each generated item satisfies: a text run keeps the caller's keys and carries a colour only from the caller or the colour table; a citation shows `[keys]` |
| Inline.Generated | latex2json.py:171-280 | every item of a list is a GoodItem |
| Inline.GeneratedConcat | latex2json.py:267-273 | the invariant holds of the concatenated pieces of a scan |
| Inline.Scan | latex2json.py:186-280 | the `finditer` loop of `generate_runs`: the text before each match, what the match emits, then the text after the last match; ScanStep, ScanGenerated, ScanText and ScanAtEnd state its properties |
| Inline.Emit | latex2json.py:196-271 | what one match emits: a recursion into a formatting command's stripped content, a link's text run, a citation, or nothing; EmitEmptyContent, EmitLink, EmitStyled and EmitGenerated state its properties |
| Inline.PlainGenerated | latex2json.py:192-195 | the plain-text run satisfies the invariant under the caller's formatting |
| Inline.WellMerged | latex2json.py:283-293 | the merged list has no blank text run and no two adjacent text runs with equal formatting |
| Inline.Citations | latex2json.py:247-252 | the citation items of a list, in order |
| Inline.CitationsAppend | latex2json.py:289-292 | the citations of a list with one more item are the old citations, plus that item when it is a citation |
| Inline.MergedSingle | latex2json.py:285-292 | the merge of a single item is one merge step from the empty list |
| Inline.ScanFirst | latex2json.py:186-273 | with a match at the very start, the scan is what that match emits followed by the scan after it |
| Inline.RunsFirst | latex2json.py:171-280 | the same for the runs `generate_runs` returns |
| Inline.CiteNoteEnd | latex2json.py:41 | the note of `\cite[note]{keys}` ends at the first `]{` |
| Inline.CiteKeysEnd | latex2json.py:41 | the keys of `\cite[note]{keys}` end at the first `}` after the note |
| Inline.CatchAllRest | latex2json.py:43 | after the catch-all token of `\name{x}` come the name's last letter and the brace group, as plain text |
| Commands.CommandArgAt | latex2json.py:161 | an argument match starts with a backslash; its argument holds no newline and no `}` |
| Commands.BareCommandAt | latex2json.py:162 | a bare command match is a backslash and at least one letter |
| Commands.RemoveBraces | latex2json.py:164 | no brace is left |
| Commands.RoundsStay | latex2json.py:159-163 | once a round changes nothing, further rounds change nothing: the early exit is sound |
| Commands.StripLatexCommands | latex2json.py:157-165 | the stripping loop computes the three-round stripper, and its output holds no brace and no tilde |
| Commands.StrippedClean | latex2json.py:164-165 | the stripper's output holds no brace and no tilde |
| Commands.RoundNoBackslash | latex2json.py:159-163 | without a backslash a round changes nothing |
| Commands.StrippedPlain | latex2json.py:157-165 | text without backslashes, braces or tildes is only trimmed |
| Commands.CommandArgWhole | latex2json.py:161 | `\name{x}` is one argument match as a whole |
| Commands.KeepWhole | latex2json.py:161 | a text that is one argument match keeps just its argument |
| Commands.StrippedCommand | latex2json.py:157-165 | `\name{x}` strips to `x` trimmed |
| Commands.KeepArguments | latex2json.py:161 | `re.sub` of `\name[opt]{arg}` by its argument; KeepWhole and KeepNoBackslash state its properties |
| Commands.DropBareCommands | latex2json.py:162 | `re.sub` of `\name` by nothing; DropNoBackslash states its identity case |
| Commands.Round | latex2json.py:160-163 | one round of the stripping loop: arguments kept, then bare commands dropped; RoundNoBackslash states its identity case |
| Commands.Rounds | latex2json.py:159-163 | the three rounds without the early `break`; RoundsStay proves the `break` changes nothing |
| Commands.Stripped | latex2json.py:157-165 | `_strip_latex_commands` with `keep_content=True`; StripLatexCommands, StrippedClean, StrippedPlain and StrippedCommand state its properties |
| Commands.KeepNoBackslash | latex2json.py:161 | text with no backslash is kept as it is |
| Commands.DropNoBackslash | latex2json.py:162 | text with no backslash is kept as it is |
| Dimensions.SkipNumeral | latex2json.py:335 | the numeral run is maximal: digits and points up to the first other character |
| Dimensions.UnitName | latex2json.py:347-353 | the unit is `pt` when missing, a plain unit as written, and a command unit without its backslash; never empty and never a command |
| Dimensions.MatchDimension | latex2json.py:335-336 | an accepted length has a well-formed numeral and a unit |
| Dimensions.ParseDimension | latex2json.py:324-357 | a missing or empty length gives nothing; a parsed one has a numeral and a unit without backslash |
| Dimensions.MatchDimensionSound | latex2json.py:335-355 | every accepted string is numeral, spaces and an optional unit, and the result is that numeral and the unit's name |
| Dimensions.MatchDimensionComplete | latex2json.py:335-355 | every string of that shape is accepted, with that numeral and unit |
| Dimensions.DefaultUnit | latex2json.py:352-353 | a bare numeral is in points |
| Dimensions.CommandUnit | latex2json.py:348-349 | `\textwidth` and `\linewidth` units lose their backslash, with or without spaces before them |
| Dimensions.UnknownUnit | latex2json.py:335 | a unit outside the list, such as `px`, is rejected |
| Dimensions.IsNumeral | latex2json.py:335 | `[0-9]*\.?[0-9]+`: digits with at most one point, ending in a digit |
| Dimensions.Splits | latex2json.py:335 | the shape the pattern accepts: a numeral, whitespace, then a unit or nothing |
| Dimensions.UnitStart | latex2json.py:335 | no unit starts with a digit, a point or whitespace, so the numeral run ends where the unit begins |
| Dimensions.NumeralRun | latex2json.py:335 | the numeral scan stops exactly where the run of digits and points ends |
| Dimensions.TextWidthUnit | latex2json.py:348-349 | a numeral followed by `\textwidth` is a dimension in `textwidth` |
| Dimensions.LineWidthUnit | latex2json.py:348-349 | a numeral, a space and `\linewidth` is a dimension in `linewidth` |
| Definitions.BodyClose | latex2json.py:108 | the body of `\newcommand` ends at the first `}` not followed by spaces and `[`, with no newline before it |
| Definitions.NewCommandBody | latex2json.py:108 | the matched body holds no newline |
| Definitions.NewCommandAt | latex2json.py:108 | a `\newcommand` match has a non-empty name without `}` and a body without newline |
| Definitions.DefineAll | latex2json.py:108-109 | assigning the definitions in order keeps the names unique |
| Definitions.DefineAllLast | latex2json.py:108-109 | after all definitions, each name maps to the body of its last definition |
| Definitions.DefineAllUntouched | latex2json.py:108-109 | a name no definition mentions keeps its value |
| Definitions.ArgumentFormIgnored | latex2json.py:108 | `\newcommand{\name}[n]...` is not captured |
| Definitions.ColorRest | latex2json.py:110 | the colour spec of a match holds no newline |
| Definitions.ColorNameClose | latex2json.py:110 | the colour name ends at a `}` with no newline before it |
| Definitions.DefineColorAt | latex2json.py:110 | a `\definecolor` match has model `HTML` or `rgb` and a spec without newline |
| Definitions.ApplyColorsLast | latex2json.py:110-114 | a name whose last stored definition is an `HTML` colour maps to `#` and its upper-cased spec, whatever came before |
| Definitions.ApplyColorsUntouched | latex2json.py:110-120 | a name without a stored `HTML` definition keeps its palette or earlier value, or stays undefined |
| Definitions.OpensBracket | latex2json.py:108 | where the lookahead `(?!\s*\[)` fails: the next non-space character is `[` |
| Definitions.NewCommands | latex2json.py:108 | the `finditer` over the `\newcommand` pattern: (name, body) pairs in order; DefineAll, DefineAllLast and DefineAllUntouched state what storing them does |
| Definitions.ColorDefinitions | latex2json.py:110 | the `finditer` over the `\definecolor` pattern, in order; ApplyColorsLast and ApplyColorsUntouched state what storing them does |
| Definitions.Stored | latex2json.py:113 | a colour definition is stored when its model is `HTML` and its spec is six hexadecimal digits |
| Definitions.ApplyColor | latex2json.py:111-114 | one turn of the colour loop: the stripped name gets `#` and the upper-cased spec, and other definitions change nothing |
| Definitions.ApplyColors | latex2json.py:110-114 | the colour loop over all definitions in order; ApplyColorsLast and ApplyColorsUntouched state its properties |
| Blocks.CommentAt | latex2json.py:360 | a comment starts at a `%` not preceded by a backslash and runs to the end of its line; an unmatched `%` is escaped |
| Blocks.UncommentEscaped | latex2json.py:360 | after comment removal every remaining `%` is escaped |
| Blocks.UncommentNoPercent | latex2json.py:360 | text without `%` is left as it is |
| Blocks.UncommentLine | latex2json.py:360 | a comment is removed up to, but not including, the newline |
| Blocks.IgnoredRegion | latex2json.py:361 | an ignored region starts at or after the scan position and spans both markers |
| Blocks.RemoveIgnoredShorter | latex2json.py:361 | removing ignored regions never lengthens the text |
| Blocks.IgnoredRegionRemoved | latex2json.py:361 | a `%TC:ignore ... %TC:endignore` region is cut out, markers included |
| Blocks.RemoveIgnoredNoMarker | latex2json.py:361 | text without a start marker is left as it is |
| Blocks.BreakAt | latex2json.py:373 | a paragraph break is whitespace that starts with a newline and spans at least two characters |
| Blocks.Paragraphs | latex2json.py:373 | `re.split(r'\n\s*\n+', …)` yields at least one piece; ParagraphsRejoin and ParagraphsNoBreak give its meaning over all inputs |
| Blocks.OneParagraph | latex2json.py:373 | text on one line is one paragraph |
| Blocks.TwoParagraphs | latex2json.py:373 | a blank line separates two paragraphs |
| Blocks.OptBracketArgAt | latex2json.py:363 | the section argument holds no `}` and lies within the match |
| Blocks.SectionAt | latex2json.py:363 | a section match has a level from 1 to 3 |
| Blocks.BeginName | latex2json.py:364 | the environment found is one of the names, and its opening tag is at the position |
| Blocks.BeginTag | latex2json.py:364 | the opening tag is `\begin{` + name + `}` |
| Blocks.EndTag | latex2json.py:364 | the closing tag is six characters longer than the name |
| Blocks.EnvironmentAt | latex2json.py:364 | an environment match names one of the eleven environments |
| Blocks.CommandBlockAt | latex2json.py:365-366 | the remaining alternatives match only page breaks and bibliography commands |
| Blocks.BlockAt | latex2json.py:362-367 | a block match ends within the text; sections have level 1 to 3; environments are of the listed kinds |
| Blocks.NoBlockWithoutBackslash | latex2json.py:362-370 | without a backslash no block is found |
| Blocks.SubsectionMatch | latex2json.py:363 | `\subsection{t}` matches as a whole as a level-2 section |
| Blocks.Uncomment | latex2json.py:360 | `re.sub(r"(?<!\\)%.*", "", s)`; UncommentEscaped, UncommentNoPercent and UncommentLine state its properties |
| Blocks.Escaped | latex2json.py:360 | every `%` left comes right after a backslash |
| Blocks.UncommentOne | latex2json.py:360 | with one unescaped `%`, the text from it to the end of its line is removed and the newline is kept |
| Blocks.CommentLineShape | latex2json.py:360 | the positions of `x%y`, a newline and `z` meet UncommentOne's conditions, and the cut gives `x`, a newline and `z` |
| Blocks.RemoveIgnored | latex2json.py:361 | `re.sub` of `%TC:ignore.*?%TC:endignore` with DOTALL; IgnoredRegionRemoved, RemoveIgnoredShorter and RemoveIgnoredNoMarker state its properties |
| Blocks.RemoveOne | latex2json.py:361 | one ignored region is removed together with both markers |
| Blocks.RegionFound | latex2json.py:361 | the region runs from the first start marker to the first end marker after it |
| Blocks.RemoveStep | latex2json.py:361 | one removal: the text before the region, then the removal from the region's end |
| Blocks.FirstMarker | latex2json.py:361 | a marker with no `%` before it from the search position is the first one found |
| Blocks.RemoveNoMarker | latex2json.py:361 | from a position with no `%` after it, the rest of the text is kept |
| Blocks.Prepare | latex2json.py:360-361 | the body text the block scan works on: comments removed first, then ignored regions |
| Blocks.LastNewline | latex2json.py:373 | the last newline of a slice, where the greedy `\s*` inside `\n\s*\n+` gives back to the final `\n` |
| Blocks.SplitOnce | latex2json.py:373 | text with a single pair of newlines, not followed by whitespace, splits into the text before and after them |
| Blocks.IsBreak | latex2json.py:373 | text `\n\s*\n+` matches as a whole: whitespace that starts and ends with a newline, at least two characters long |
| Blocks.NoBreak | latex2json.py:373 | text in which `\n\s*\n+` matches nowhere |
| Blocks.Breaks | latex2json.py:373 | the separators the split cuts at, in order: one fewer than the paragraphs, each a whole match of `\n\s*\n+` |
| Blocks.ParagraphsRejoin | latex2json.py:373 | over all inputs, the paragraphs with the cut separators put back between them give the text again |
| Blocks.ParagraphsNoBreak | latex2json.py:373 | over all inputs, no paragraph contains a match of `\n\s*\n+` |
| Blocks.BreakSpan | latex2json.py:373 | the text a match of `\n\s*\n+` spans is a whole break |
| Blocks.BreakInSlice | latex2json.py:373 | a break inside a slice of the text is a break in the text too |
| Blocks.ArgumentOk | latex2json.py:363 | the argument before the first `}` contains no `}` |
| Blocks.BeginNameIs | latex2json.py:364 | the environment alternation picks the first name, in pattern order, whose `\begin{name}` occurs |
| Body.ParagraphsOf | latex2json.py:373-378 | each piece gives at most one paragraph, whose content is non-empty and well merged |
| Body.TextBlocks | latex2json.py:371-378 | the text before a block gives only paragraphs with non-empty, well-merged content |
| Body.IncludeGraphicsAt | latex2json.py:389 | an `\includegraphics` match ends within the text |
| Body.SectionBlocks | latex2json.py:381-385 | a section gives at most one block, and it is well formed |
| Body.FigureBlocks | latex2json.py:388-390 | a figure gives at most one image block |
| Body.ListBlocks | latex2json.py:391-411 | a list gives at most one block, and it is well formed |
| Body.QuotationBlocks | latex2json.py:412-415 | a quotation gives at most one block, and it is well formed |
| Body.TableBlocks | latex2json.py:465-466 | a table block is added exactly when the table has a row or a non-empty caption |
| Body.EnvironmentBlocks | latex2json.py:386-518 | each environment gives at most one well-formed block |
| Body.MatchBlocks | latex2json.py:381-518 | every block a match gives is well formed |
| Body.NormalizeAll | latex2json.py:543-549 | the schema pass keeps the number of blocks |
| Body.NormalizeWellFormed | latex2json.py:543-549 | on well-formed blocks the schema pass changes nothing |
| Body.BodyWellFormed | latex2json.py:359-549 | every block the scan produces is well formed |
| Body.PlainBody | latex2json.py:369-379 | text without commands gives only its paragraphs, and the scan succeeds |
| Body.NewPageMatch | latex2json.py:365 | `\newpage` is the page-break alternative |
| Body.PageBreakStops | latex2json.py:521-525 | a page break ends the scan with a failure after the paragraphs before it |
| Body.NoBlockAt | latex2json.py:362-367 | no block starts where there is no backslash |
| Body.VerbatimMatch | latex2json.py:364 | a verbatim environment matches as a whole, with its content as written |
| Body.BodyStep | latex2json.py:369-380 | one turn of the scan: the paragraphs before a section or environment, its blocks, then the rest |
| Body.WholeBlock | latex2json.py:369-380 | a body that is one section or environment gives exactly that block's blocks |
| Body.SubsectionHeading | latex2json.py:381-385 | `\subsection{t}` is a level-2 heading of the parsed title |
| Body.VerbatimKept | latex2json.py:416-418 | verbatim text is kept trimmed in one monospaced run, without inline parsing |
| Body.ParsedParagraphs | latex2json.py:373-378 | paragraph blocks, each with merged, non-empty content |
| Body.ConsParagraph | latex2json.py:376-378 | a paragraph with merged, non-empty content in front of others keeps the paragraph invariant |
| Body.ListBlock | latex2json.py:408-411 | one list block, well formed, made from items that all have text |
| Body.BodyFrom | latex2json.py:368-380 | the `while` loop of `_parse_body` from a position: done at the end of the text, else one turn; BodyStep, BodyWellFormed, PlainBody, WholeBlock and PageBreakStops state its properties |
| Body.BodyAfter | latex2json.py:369-541 | one turn of the loop: the paragraphs before the next block, then its blocks and the rest of the scan, or a failure at a page break or bibliography command; BodyStep states it |
| Body.ParseBody | latex2json.py:359-541 | `_parse_body` up to the schema pass: comments and ignored regions removed, then the scan; BodyWellFormed states its invariant |
| Body.WellFormed | latex2json.py:543-549 | what the closing schema pass relies on: paragraph-like blocks have content, headings have levels 1 to 3, lists have items with text, tables have a row or a caption |
| Body.AllWellFormed | latex2json.py:543-549 | every block is WellFormed |
| Body.Normalize | latex2json.py:545-547 | the schema pass on one block: a paragraph-like block without content gets one empty text run |
| Body.WellFormedConcat | latex2json.py:368-541 | the blocks of consecutive loop turns stay well formed |
| Body.TextBlocksWellFormed | latex2json.py:371-378 | the paragraphs from text before a match are well formed |
| Body.NoBeginName | latex2json.py:364 | no environment name opens where no `\begin{name}` occurs |
| Body.VerbatimBegins | latex2json.py:363-364 | `\begin{verbatim}` opens no section and names the verbatim environment |
| Body.NoSectionAfterB | latex2json.py:363 | text whose second character is `b` opens no section |
| Body.VerbatimOpens | latex2json.py:364 | text that starts with `\begin{verbatim}` names the verbatim environment |
| Body.VerbatimNamed | latex2json.py:364 | `verbatim` is found when no name before it in the alternation starts with `v` |
| Body.VerbatimListed | latex2json.py:364 | `verbatim` is the sixth environment name, and no name before it starts with `v` |
| Body.VerbatimOpener | latex2json.py:364 | the opening tag of the verbatim environment is `\begin{verbatim}` |
| Body.VerbatimEnds | latex2json.py:364 | content without a backslash cannot hide the closing `\end{verbatim}` |
| Body.EnvironmentFound | latex2json.py:364 | the environment match once its name and first closing tag are known: the name, the content between the tags, and the end after the closing tag |
| Body.EnvironmentBlock | latex2json.py:362-364 | where no section starts, the block pattern matches as the environment alternative does |
| Body.VerbatimCloser | latex2json.py:364 | the closing tag the `\4` back-reference gives for `verbatim` is `\end{verbatim}` |
| Body.VerbatimFound | latex2json.py:364 | the verbatim environment's match from the facts about its opening and closing tags |
| Lists.ItemEnd | latex2json.py:393 | an item ends at the next `\item`, at the end of its environment (ignoring ASCII case), or at the end of the text |
| Lists.ItemAt | latex2json.py:393 | an item match starts with `\item` and its content lies within the match |
| Lists.ItemFormat | latex2json.py:398-405 | an item keeps a formatting only when it has runs, all of them text with that same formatting, and the formatting is not the empty one |
| Lists.SummarizeItem | latex2json.py:399-406 | the run loop collects the item text and decides the kept formatting as specified |
| Lists.ListItemOf | latex2json.py:395-410 | an item entry has trimmed, non-empty text |
| Lists.ItemOfRuns | latex2json.py:406-410 | an entry made from runs has trimmed, non-empty text |
| Lists.ListItems | latex2json.py:394-410 | every entry has text, and there are at most as many as raw items |
| Lists.SeveralRunsUnformatted | latex2json.py:404 | after the merge an item of several runs never keeps a formatting |
| Lists.AtNoCase | latex2json.py:393 | a pattern occurs at a position when ASCII case is ignored (`re.IGNORECASE`) |
| Lists.RawItems | latex2json.py:393 | the `finditer` over the `\item` pattern: the raw item contents in order; ListItems states what the entries become |
| Lists.ItemText | latex2json.py:399-406 | the text of an item's runs joined in order, a citation by its display text |
| Lists.AllHaveText | latex2json.py:406-410 | every list entry has non-empty text |
| Lists.KeepItem | latex2json.py:395-410 | an entry in front of the others, when there is one: at most one more entry, all with text |
| Tables.ClineRest | latex2json.py:457 | what follows a `\cline` argument is shorter than the row |
| Tables.TrimRules | latex2json.py:454-458 | after trimming, the row starts with neither `\hline` nor `\cline`, and it is no longer than before |
| Tables.StripRules | latex2json.py:454-458 | the rule-trimming loop computes the trimmed row |
| Tables.TrimRulesIdempotent | latex2json.py:454-458 | trimming twice trims nothing more |
| Tables.HlineDropped | latex2json.py:455 | a leading `\hline` is dropped with the spaces after it |
| Tables.Cells | latex2json.py:460-461 | one parsed cell per `&`-separated part |
| Tables.RowOf | latex2json.py:453-463 | a row is kept only when one of its cells has non-blank text |
| Tables.RowsOf | latex2json.py:452-463 | every kept row has text, and there are at most as many rows as pieces |
| Tables.Rows | latex2json.py:451-463 | a tabular body has at most one more row than `\\` separators, each with text |
| Tables.FirstArgument | latex2json.py:423 | the caption and label argument lies after its opener and within the text |
| Tables.FloatTable | latex2json.py:420-466 | a `table` float records no environment type |
| Tables.LeadingSpec | latex2json.py:472 | cutting the leading column specification shortens the content |
| Tables.DirectTable | latex2json.py:468-502 | a direct table records its environment; only a `longtable` has a caption or a label |
| Tables.HasText | latex2json.py:461-462 | a cell holds a text run that is not blank |
| Tables.Kept | latex2json.py:462-463 | a row is kept when one of its cells has text |
| Tables.AllKept | latex2json.py:462-463 | every row is kept |
| Tables.KeepRow | latex2json.py:462-463 | a kept row in front of kept rows: at most one more row, all kept |
| Tables.TabularAt | latex2json.py:431-435 | the inner tabular search, with the optional column specification and the lazy content up to the matching `\end`; LeadingSpec and FloatTable state its properties |
| Tables.Emitted | latex2json.py:465-466 | a table is emitted when it has a row or a non-empty caption |
| LatexToJson.SplitDocument | latex2json.py:561-565 | the preamble and body together are no longer than the source; without `\begin{document}` the whole text is the body |
| LatexToJson.DocumentSplit | latex2json.py:561-565 | `x\begin{document}y\end{document}z` splits into preamble `x` and body `y` |
| LatexToJson.PathsClose | latex2json.py:151 | the graphics-path group ends at a `}` followed, after spaces, by another `}` |
| LatexToJson.PathsCloseAt | latex2json.py:151 | it ends at the first such `}` |
| LatexToJson.GraphicsPathAt | latex2json.py:151 | a `\graphicspath` match ends within the text |
| LatexToJson.GraphicsPathWhole | latex2json.py:151 | `\graphicspath{{g}}` gives the group `g` |
| LatexToJson.KeptPaths | latex2json.py:154 | every kept path is trimmed and non-empty, and none is added |
| LatexToJson.KeptPathsAll | latex2json.py:154 | when every part has text, every part is kept trimmed, in order |
| LatexToJson.KeptPathsBlank | latex2json.py:154 | a blank part is dropped |
| LatexToJson.GraphicsPaths | latex2json.py:153-154 | the search paths are trimmed and non-empty |
| LatexToJson.PreambleText | latex2json.py:139 | the title and author text holds no brace and no tilde |
| LatexToJson.PreambleOf | latex2json.py:135-154 | graphics paths read from the preamble are trimmed and non-empty |
| LatexToJson.TitleBlocks | latex2json.py:146-148 | a title paragraph is added exactly when the title was found and is not empty |
| LatexToJson.Converter.constructor | latex2json.py:47-57 | a new converter has no macros, the built-in palette, the paths `./` and `""`, the default title and author, and no content |
| LatexToJson.Converter.ExtractDefinitions | latex2json.py:107-120 | every `\newcommand` and then every `\definecolor` match is recorded in order; names stay unique |
| LatexToJson.Converter.ParsePreamble | latex2json.py:135-154 | title, author and graphics path are replaced only when found; the title paragraph is appended |
| LatexToJson.Converter.ParseBody | latex2json.py:359-549 | the scan's blocks are appended, then the schema pass runs; a page break or bibliography command reports a failure |
| LatexToJson.Converter.ProcessPreamble | latex2json.py:570-572 | the cleaned preamble's definitions are recorded, then the preamble expanded with them sets title, author, graphics path and the title paragraph; names stay unique |
| LatexToJson.Converter.ProcessBody | latex2json.py:573-577 | the body's blocks are appended to the content; the document holds the current title, author and content, and there is none when the scan stopped |
| LatexToJson.Converter.Convert | latex2json.py:552-577 | the result is the conversion of the converter's old state; afterwards names stay unique, macros and colours hold the old ones plus the cleaned preamble's definitions, title, author and graphics path change only where the expanded preamble gives them, and the content is the old content, the title paragraph and the body's blocks |
| LatexToJson.ConvertLatex | latex2json.py:610-611 | a fresh converter run once gives the specified document |
| LatexToJson.DefineCommands | latex2json.py:108-109 | the `\newcommand` loop assigns each match in order and keeps names unique |
| LatexToJson.DefineColors | latex2json.py:110-120 | the `\definecolor` loop stores each match allowed by its model and spec, in order |
| LatexToJson.ReadPreamble | latex2json.py:137-154 | the preamble searches compute the specified title, author and paths |
| LatexToJson.ParagraphBlocks | latex2json.py:374-378 | the paragraph loop computes the specified paragraphs |
| LatexToJson.TextParagraphs | latex2json.py:371-378 | the text before a block gives the specified paragraphs |
| LatexToJson.ScanBody | latex2json.py:368-541 | the scan loop computes the specified blocks and failure |
| LatexToJson.BodyLast | latex2json.py:369-379 | after the last block, the rest is paragraphs and the scan succeeds |
| LatexToJson.BodyStops | latex2json.py:521-541 | a page break or bibliography command ends the scan after the text before it, reporting that command |
| LatexToJson.NormalizeBlocks | latex2json.py:544-549 | the schema loop computes the schema pass |
| LatexToJson.ConvertedWellFormed | latex2json.py:543-549 | every block of a converted document is well formed, so the schema pass has nothing left to fix |
| LatexToJson.EmptyPreamble | latex2json.py:563 | an empty preamble defines nothing and sets no title, author or paths |
| LatexToJson.NoDocumentEnvironment | latex2json.py:561-563 | without a document environment the title and author keep their defaults and the content is the body scan's |
| LatexToJson.TitleFirst | latex2json.py:146-148 | a non-default title opens the content as the title paragraph |
| LatexToJson.Chosen | latex2json.py:137-148 | a found value replaces the current one; without it the current one is kept |
| LatexToJson.ClosesPaths | latex2json.py:151 | a `}` followed, after optional whitespace, by another `}` |
| LatexToJson.Trimmed | latex2json.py:154 | a kept path is non-empty and its own `strip()` |
| LatexToJson.Outcome | latex2json.py:552-577 | the whole conversion from a converter's state; Convert and ProcessBody state their results with it |
| LatexToJson.Cleaned | latex2json.py:567-568 | the preamble with comments and ignored regions removed |
| LatexToJson.BodyContent | latex2json.py:573-577 | the content after the body scan: the blocks appended, then the schema pass when the scan completed |
| LatexToJson.ConvertDoc | latex2json.py:610-611 | the conversion a freshly constructed converter performs; ConvertLatex states its result with it |
| LatexToJson.Converter.Valid | latex2json.py:109 | the converter's macro names stay unique, as dictionary keys are |
| LatexToJson.DefineStep | latex2json.py:108-109 | one turn of the `\newcommand` loop keeps the names unique and leaves the rest of the loop to do the rest |
| LatexToJson.ColorStep | latex2json.py:110-114 | one turn of the `\definecolor` loop, then the rest of the loop |
| LatexToJson.PathsCloseSkips | latex2json.py:151 | a character other than `}` cannot start the closing `}\s*}` |
| LatexToJson.PathsCloseHere | latex2json.py:151 | a closing `}\s*}` at a position is the one the search finds from there |
| LatexToJson.FirstCommand | latex2json.py:137-151 | a pattern that opens with a backslash is found where the first backslash from the start opens it |
| TexMarkers.ArgumentClose | tex_to_docx_converter.py:31 | the argument ends at the first `}` after the command, on the same line |
| TexMarkers.Wrap | tex_to_docx_converter.py:31-32 | with a non-empty left marker, the result is empty exactly when no text is left to copy |
| TexMarkers.ApplyBasicFormatting | tex_to_docx_converter.py:29-33 | the formatted text is empty exactly when the input is |
| TexMarkers.WrapAbsent | tex_to_docx_converter.py:31-32 | where the command does not occur, the text is copied |
| TexMarkers.FormattingUnchanged | tex_to_docx_converter.py:29-33 | text holding neither command is unchanged |
| TexMarkers.WholeArgument | tex_to_docx_converter.py:31 | a whole `command{x}` is one match whose argument is wrapped |
| TexMarkers.BoldEncoded | tex_to_docx_converter.py:31 | `\textbf{x}` becomes `**x**` |
| TexMarkers.ItalicEncoded | tex_to_docx_converter.py:32 | `\textit{x}` becomes `*x*` |
| TexMarkers.MarkerAt | tex_to_docx_converter.py:249 | a marker starts with `*` and spans at least two characters |
| TexMarkers.SplitMarkers | tex_to_docx_converter.py:249 | the split always has at least one part |
| TexMarkers.Inner | tex_to_docx_converter.py:253 | Python's `s[a:-b]` is no longer than `s` |
| TexMarkers.RunOf | tex_to_docx_converter.py:251-257 | an empty part adds no run; no run is both bold and italic |
| TexMarkers.RunsOf | tex_to_docx_converter.py:250-257 | at most one run per part |
| TexMarkers.SplitMarkersConcat | tex_to_docx_converter.py:249 | the parts of the split, put back together, give the text |
| TexMarkers.MarkersAtOddParts | tex_to_docx_converter.py:249-255 | every second part is a marker that opens and closes with `*` |
| TexMarkers.NoMarkerSplit | tex_to_docx_converter.py:249 | where no marker starts, the rest stays one part |
| TexMarkers.PlainRun | tex_to_docx_converter.py:256-257 | text without `*` is one plain run |
| TexMarkers.BoldRun | tex_to_docx_converter.py:252-253 | `**x**` is one bold run of `x` |
| TexMarkers.ItalicRun | tex_to_docx_converter.py:254-255 | `*x*` is one italic run of `x` |
| TexMarkers.BoldRoundTrip | tex_to_docx_converter.py:248-257 | encoding `\textbf{x}` and rendering the markers gives one bold run of `x` |
| TexMarkers.ItalicRoundTrip | tex_to_docx_converter.py:248-257 | encoding `\textit{x}` and rendering the markers gives one italic run of `x` |
| TexMarkers.NoCommand | tex_to_docx_converter.py:31-32 | text without a backslash has no `\textbf`/`\textit` command in it |
| TexMarkers.MarkerEnd | tex_to_docx_converter.py:249 | a marker closes with `*` |
| TexMarkers.MarkedRuns | tex_to_docx_converter.py:248-257 | the runs `add_runs_for_formatted_text` adds for a marked string; BoldRoundTrip and ItalicRoundTrip state its properties |
| TexMarkers.Concat | tex_to_docx_converter.py:249 | the parts of a split joined back together, in whose terms SplitMarkersConcat states the round trip |
| TexMarkers.ConcatPair | tex_to_docx_converter.py:249 | joining two parts in front of others |
| TexMarkers.SplitAtMarker | tex_to_docx_converter.py:249 | a marker at a position ends the current text part, and the marker itself is the next part |
| TexMarkers.MarkerPrepended | tex_to_docx_converter.py:249 | a text part and a marker in front of alternating parts keep them alternating |
| TexMarkers.MarkersAlternate | tex_to_docx_converter.py:249-255 | every second part, from the second on, is a marker |
| TexMarkers.IsMarker | tex_to_docx_converter.py:252-255 | at least two characters, starting and ending with `*` |
| TexMarkers.OneMarker | tex_to_docx_converter.py:249 | text that is exactly one marker splits into an empty part, the marker and an empty part |
| TexMarkers.RunsOfOne | tex_to_docx_converter.py:250-257 | that split gives exactly the marker's run |
| TexCitations.BracedAt | tex_to_docx_converter.py:17 | a `\citeauthor{...}` match has no prenote group and starts with the command |
| TexCitations.BracketedAt | tex_to_docx_converter.py:15-16 | a match of the bracketed form starts with the command and ends within the line |
| TexCitations.CommandAt | tex_to_docx_converter.py:15-25 | each command's match starts with that command; `\citeauthor` never has a prenote |
| TexCitations.Earliest | tex_to_docx_converter.py:45-51 | the chosen match is a real match of the chosen command at or after the position |
| TexCitations.EarliestLeftmost | tex_to_docx_converter.py:45-51 | no command tried matches anywhere between the scan position and the chosen match, so the chosen match is the leftmost |
| TexCitations.EarliestMatch | tex_to_docx_converter.py:45-51 | the inner loop keeps the earliest match of the four commands |
| TexCitations.CitationOf | tex_to_docx_converter.py:58-73 | one trimmed key per comma-separated part, a trimmed prenote (empty for `\citeauthor` or without brackets), no postnote |
| TexCitations.Elements | tex_to_docx_converter.py:35-80 | a line gives elements exactly when it is not empty |
| TexCitations.ProcessInlineElements | tex_to_docx_converter.py:35-80 | the scan loop computes the specified elements |
| TexCitations.ElementsShape | tex_to_docx_converter.py:35-80 | no two text elements are adjacent, and every citation has trimmed keys and prenote, no postnote, and no prenote for `\citeauthor` |
| TexCitations.CommandStartsCite | tex_to_docx_converter.py:15-18 | every recognised command starts with `\cite` |
| TexCitations.NoCitation | tex_to_docx_converter.py:76-78 | a line without `\cite` is one formatted text element |
| TexCitations.PlainCiteIsText | tex_to_docx_converter.py:15-25 | a plain `\cite{...}` is no recognised command |
| TexCitations.Parenthetical | tex_to_docx_converter.py:218-227 | parenthetical and unknown commands show `(prenote; keys)` |
| TexCitations.AuthorOnly | tex_to_docx_converter.py:224-225 | `\citeauthor` shows only the keys |
| TexCitations.CitationItems | tex_to_docx_converter.py:229-238 | one item per key, in order, with the prenote on the first only and the item URI |
| TexCitations.ZoteroPayload | tex_to_docx_converter.py:206-246 | the field carries the given identifier, the CSL schema, the display text and one item per key; the k-th item has that key as its id, type `book`, the prenote as prefix on the first item only, an empty suffix, and the placeholder Zotero URI ending in the key |
| TexCitations.Name | tex_to_docx_converter.py:21-26 | the command's name as written after the backslash and as recorded in the element |
| TexCitations.Search | tex_to_docx_converter.py:46 | `cmd_re.search(text_line, current_pos)` for one command; EarliestLeftmost and EarliestMatch state what the loop over the commands finds |
| TexCitations.StripTwice | tex_to_docx_converter.py:66-70 | stripping twice strips nothing more |
| TexCitations.StripsAll | tex_to_docx_converter.py:66 | every stripped key is its own `strip()` |
| TexCitations.NoAdjacentText | tex_to_docx_converter.py:35-80 | no two text elements are next to each other |
| TexCitations.CitationsWellFormed | tex_to_docx_converter.py:58-73 | every citation has at least one key, trimmed keys and prenote, and no postnote; `\citeauthor` has no prenote |
| TexCitations.JoinAfterCitation | tex_to_docx_converter.py:52-75 | text before a citation, the citation and well-formed elements after it keep both invariants |
| TexCitations.CitePrefix | tex_to_docx_converter.py:15-18 | every command's name starts with `\cite` |
| TexCitations.CommandSixth | tex_to_docx_converter.py:15-18 | a command match's sixth character is a letter, never `{` |
| TexCitations.PlainCitation | tex_to_docx_converter.py:212-227 | the display text of a citation by command; Parenthetical and AuthorOnly state its cases |
| TexCitations.NoteJoined | tex_to_docx_converter.py:212-219 | joining the optional prenote and the keys with `; ` puts `; ` only between the two |
| TexLines.OptionOf | tex_to_docx_converter.py:86-89 | a parsed option has a trimmed key without `=` and a trimmed value |
| TexLines.Options | tex_to_docx_converter.py:82-90 | a missing or empty option group gives no options |
| TexLines.ParseLatexOptions | tex_to_docx_converter.py:82-90 | the loop over the parts computes the specified options |
| TexLines.OptionsKeys | tex_to_docx_converter.py:85-89 | a key is set exactly when some part defines it |
| TexLines.LastKeyWins | tex_to_docx_converter.py:89 | a key's value comes from its last defining part |
| TexLines.NoEqualsIgnored | tex_to_docx_converter.py:86-87 | a part without `=` is skipped |
| TexLines.OptionsTrimmed | tex_to_docx_converter.py:89 | every key and value is trimmed, and no key holds `=` |
| TexLines.OptionPair | tex_to_docx_converter.py:86-89 | `key=value` is read back as that pair |
| TexLines.Flushed | tex_to_docx_converter.py:200-201 | the pending text gives at most one paragraph |
| TexLines.ItemOf | tex_to_docx_converter.py:131-136 | an item line starts with `\item` and its text is trimmed |
| TexLines.GreedyArgument | tex_to_docx_converter.py:160 | a greedy argument is found only after its opener |
| TexLines.HeadingBlock | tex_to_docx_converter.py:160-182 | a heading line gives only a title, section or subsection heading |
| TexLines.ImageBlock | tex_to_docx_converter.py:184-190 | an `\includegraphics` line gives only an image block |
| TexLines.LineEnd | tex_to_docx_converter.py:94 | a line ends at the first line break or at the end of the text |
| TexLines.Flush | tex_to_docx_converter.py:200-201 | the final pending paragraph is rendered after the output |
| TexLines.RenderBlock | tex_to_docx_converter.py:104-192 | each block is rendered as specified |
| TexLines.EmitBlock | tex_to_docx_converter.py:103-193 | the pending paragraph and then the block are appended, rendered |
| TexLines.ParseLine | tex_to_docx_converter.py:99-198 | one loop turn computes the next scan state and appends exactly the rendered new blocks |
| TexLines.ParseLatexToJson | tex_to_docx_converter.py:92-202 | the line loop computes the specified elements |
| TexLines.FeedAppend | tex_to_docx_converter.py:99 | the scan over two runs of lines is the scan over the first, continued over the second |
| TexLines.OrdinaryLinesJoin | tex_to_docx_converter.py:195-198 | outside a list, consecutive ordinary lines join into one pending paragraph with single spaces |
| TexLines.OrdinaryStep | tex_to_docx_converter.py:195-198 | an ordinary line is added to the pending text, after a space if any |
| TexLines.FlushesFirst | tex_to_docx_converter.py:154-193 | a paragraph-ending line writes the pending paragraph first, then at most one block |
| TexLines.BlankLineInList | tex_to_docx_converter.py:138-139 | inside a list a blank line adds a lone space, which becomes an empty paragraph |
| TexLines.ItemLine | tex_to_docx_converter.py:131 | `\item x` is stripped already, opens no list and carries `x` |
| TexLines.ItemStep | tex_to_docx_converter.py:130-137 | inside a list with nothing pending, an `\item` line adds one item of that list's kind |
| TexLines.ListBody | tex_to_docx_converter.py:130-152 | inside a list each `\item` line becomes one item of that kind |
| TexLines.ItemizeBlock | tex_to_docx_converter.py:102-140 | a whole `itemize` environment writes the pending paragraph, then one bullet item per line, and leaves the list |
| TexLines.OpenItemize | tex_to_docx_converter.py:116-121 | `\begin{itemize}` ends the pending paragraph and enters the list |
| TexLines.CloseItemize | tex_to_docx_converter.py:102-107 | `\end{itemize}` with nothing pending only leaves the list |
| TexLines.SectionHeading | tex_to_docx_converter.py:168-174 | `\section{x}` writes a first-level heading of `x` |
| TexLines.SplitTerminated | tex_to_docx_converter.py:94 | splitting newline-terminated lines gives those lines back |
| TexLines.RestOfLine | tex_to_docx_converter.py:160 | what a greedy `(.*)` takes from a position: the rest of the line, with no newline |
| TexLines.KeyFacts | tex_to_docx_converter.py:86-89 | the key before the first `=`, stripped, has no `=` and is its own `strip()` |
| TexLines.OptionsOf | tex_to_docx_converter.py:85-89 | the options of the comma-separated parts in order, a later key overwriting an earlier one; OptionsKeys, LastKeyWins and OptionsTrimmed state its properties |
| TexLines.With | tex_to_docx_converter.py:89 | the options once a pair, if any, is set in them |
| TexLines.Render | tex_to_docx_converter.py:103-201 | the element a block becomes once its text is processed; RenderBlock states its shape |
| TexLines.RenderAll | tex_to_docx_converter.py:103-201 | one element per block, in order, each its Render |
| TexLines.RenderAppend | tex_to_docx_converter.py:103-201 | rendering distributes over concatenation |
| TexLines.Emit | tex_to_docx_converter.py:103-193 | the pending paragraph written out, then the new blocks, with nothing left pending and the list flags unchanged |
| TexLines.LastIndex | tex_to_docx_converter.py:160-174 | the last occurrence of a character in a slice, where the greedy `{(.*)}` closes |
| TexLines.IsListMarker | tex_to_docx_converter.py:102-128 | the four lines that open or close a list |
| TexLines.Next | tex_to_docx_converter.py:99-198 | one stripped line of the loop: list markers first, then lines inside a list, then the rest; ParseLine states it |
| TexLines.AtListMarker | tex_to_docx_converter.py:102-128 | a list marker line ends the pending paragraph and sets or clears that list's flag |
| TexLines.InList | tex_to_docx_converter.py:130-152 | inside a list, an `\item` line ends the pending paragraph and adds an item of the list's kind; any other line is added to the pending text after a space |
| TexLines.Outside | tex_to_docx_converter.py:154-198 | outside a list, a blank line, a heading or an image ends the pending paragraph; other lines are added to it |
| TexLines.Feed | tex_to_docx_converter.py:99-198 | the loop over the lines, each stripped first; FeedAppend, OrdinaryLinesJoin and ListBody state its properties |
| TexLines.SplitLines | tex_to_docx_converter.py:94 | `str.splitlines()`: `\r\n` is one break and a final break opens no empty line; SplitTerminated states the round trip |
| TexLines.Parsed | tex_to_docx_converter.py:92-202 | `parse_latex_to_json`: the loop over the lines, then the pending paragraph, rendered; ParseLatexToJson states the method against it |
| TexLines.Ordinary | tex_to_docx_converter.py:195-198 | a stripped, non-blank line that no branch of the loop recognises |
| TexLines.Joined | tex_to_docx_converter.py:195-198 | the pending text once lines are added to it, separated by single spaces |
| TexLines.ItemLines | tex_to_docx_converter.py:131 | the `\item` lines of some texts, one per text |
| TexLines.ItemBlocks | tex_to_docx_converter.py:130-152 | the item blocks of some texts, of one list kind, one per text |
| TexLines.MarkerSecond | tex_to_docx_converter.py:102-128 | the second character of a list marker line is `b` or `e` |
| TexLines.ItemFed | tex_to_docx_converter.py:130-152 | the loop over `\item` lines takes the first one as an item and goes on with the rest |
| TexLines.SectionArgument | tex_to_docx_converter.py:160-174 | `\section{x}` is no list marker and no title, and its greedy group is `x` |
| TexLines.Terminated | tex_to_docx_converter.py:94 | the text whose lines, each ended by a newline, are the given lines |
| TexLines.SplitFirstLine | tex_to_docx_converter.py:94 | a line without breaks, then a newline: the first line split off is that line |
| DocxContent.ParseInt | json2docx.py:85 | `int()` succeeds only on non-blank text |
| DocxContent.Slice | json2docx.py:85 | a Python slice is clamped to the length |
| DocxContent.Unhashed | json2docx.py:83-84 | at most the leading `#` is removed |
| DocxContent.HexToRgb | json2docx.py:81-85 | a colour parses only when it has at least five characters after the `#` |
| DocxContent.PairParses | json2docx.py:85 | two hexadecimal digits parse as the byte they encode |
| DocxContent.SixDigits | json2docx.py:81-85 | six hexadecimal digits, with or without `#`, give the three bytes they encode |
| DocxContent.EncodeRoundTrip | json2docx.py:81-85 | encoding three bytes as `#RRGGBB` and parsing the result gives the bytes back |
| DocxContent.StoredColorRoundTrip | json2docx.py:81-85 | a colour stored from an `HTML` definition parses to the bytes of its spec |
| DocxContent.ShortColorFails | json2docx.py:85 | a colour of at most four digits raises `ValueError` |
| DocxContent.HeadingLevel | json2docx.py:339-356 | a level is chosen exactly for `title_paragraph` and for types starting with `heading` |
| DocxContent.TitleLevel | json2docx.py:339-343 | `title_paragraph` is level 0 whatever the level field says |
| DocxContent.NumberedHeading | json2docx.py:344-349 | `headingN` is level N whatever the level field says |
| DocxContent.BareHeading | json2docx.py:350-355 | a bare `heading` takes an integer level field, and level 1 when the field is missing, blank or not a number |
| DocxContent.Repaired | json2docx.py:372-437 | the repair never lengthens the content |
| DocxContent.RepairContent | json2docx.py:372-437 | the repair loop computes the specified repair |
| DocxContent.OthersKept | json2docx.py:434-437 | the repair keeps every non-text item, in order, and adds none |
| DocxContent.NoBraceUnchanged | json2docx.py:372-437 | content where no text run starts with `{` is unchanged |
| DocxContent.ThreePart | json2docx.py:382-407 | `{A`, `B`, `}`, the brace runs formatted alike, become one text `A+B` whose formatting is the outer one updated by the inner one |
| DocxContent.TwoPart | json2docx.py:409-432 | `{A`, `}` formatted alike become `A`, or nothing when `A` is empty |
| DocxContent.DigitValue | json2docx.py:85 | the value of a hexadecimal digit in either case, below 10 exactly for decimal digits |
| DocxContent.InBase | json2docx.py:85 | a digit of base 10 or 16 that `int(s, base)` reads |
| DocxContent.DigitBody | json2docx.py:85 | the digit grammar of `int()`: digits, with single underscores between two digits |
| DocxContent.BodyValue | json2docx.py:85 | the number the digits spell in the base, underscores skipped |
| DocxContent.PairValue | json2docx.py:85 | the byte two hexadecimal digits encode, below 256 |
| DocxContent.HexDigit | json2docx.py:85 | the upper-case hexadecimal digit of a value below 16, which reads back as that value |
| DocxContent.Encode | latex2json.py:114 | `#RRGGBB` for three bytes in upper case, a well-formed stored colour; EncodeRoundTrip proves `hex_to_rgb` reads it back |
| DocxContent.HexToRgbOf | json2docx.py:81-85 | three slices that parse make the colour's three components |
| DocxContent.PairAt | json2docx.py:85 | the slice `[i:i+2]` of six hexadecimal digits reads as the byte its two digits encode |
| DocxContent.PairOf | json2docx.py:85 | the two digits of a byte encode that byte |
| DocxContent.UpperPair | latex2json.py:114 | upper-casing the spec keeps the byte each digit pair encodes |
| DocxContent.UpperDigit | latex2json.py:114 | upper-casing a hexadecimal digit keeps its value |
| DocxContent.IsDigitString | json2docx.py:347 | `str.isdigit()` on ASCII digits: non-empty and digits only |
| DocxContent.Decimal | json2docx.py:347-348 | the decimal digits of a number, which `isdigit` accepts |
| DocxContent.DecimalValue | json2docx.py:348 | the decimal digits of a number read back as that number |
| DocxContent.ThreeMerges | json2docx.py:381-397 | the three-part repair applies: `{A`, `B`, `}` as text runs, the first and last formatted alike; RepairedThree states the step |
| DocxContent.TwoMerges | json2docx.py:409-421 | the two-part repair applies: `{A` and `}` as text runs formatted alike; RepairedTwo states the step |
| DocxContent.RepairedThree | json2docx.py:396-407 | the three runs become one run of `A` then `B`, with the formatting dictionaries merged, then the repair of the rest |
| DocxContent.RepairedTwo | json2docx.py:409-432 | the two runs become `A` when it is non-empty, then the repair of the rest |
| DocxContent.RepairedOne | json2docx.py:434-437 | any other item is kept, then the repair of the rest |
| DocxContent.Others | json2docx.py:434-437 | the items that are not text runs, in order |
| DocxContent.OthersAppend | json2docx.py:434-437 | the non-text items of a concatenation are those of each part, in order |

## Left out

- I/O is not modelled: reading files, the JSON schema and its validation, `print` diagnostics, and writing JSON or docx output. The conversion returns the document tree.
- The creation timestamp and the citation UUID are not modelled. The UUID is a parameter of `TexCitations.ZoteroPayload`, and JSON serialisation of the field is left out.
- Image lookup on disk (`_find_image_path`) is a function parameter `resolve`. The file system is outside the model. `resolve` receives only the image name; it does not see the search paths that the converter has computed in `graphicspath` (latex2json.py:299-304).
- `rgb` colour definitions are recognised but not stored, because storing them needs floating-point arithmetic. Only `HTML` colours change the colour table.
- Dimension values keep the numeral as written instead of a float.
- `IGNORECASE` and `\w` are modelled for ASCII only. Unicode digits accepted by `int()` and `str.isdigit()` are not modelled.
- `DocxContent.ParseInt`: the `0x` prefix is not modelled, because a two-character slice cannot hold a prefix and digits.
- `DocxContent.HeadingLevel`: a float `level` field is treated like any other non-integer value.
- `add_heading` raises an error for levels outside 0 to 9. That error and all other docx rendering are not modelled; only the level choice is.
- `_strip_latex_commands(keep_content=False)` is never called and is not modelled.
- Two groups of unreachable branches are not modelled:
  - the second `itemize`/`enumerate`, `quotation` and `verbatim` branches of the body scan, which earlier branches shadow;
  - the fallback inner-tabular searches, which cannot succeed where the first search failed.
- Page-break and bibliography blocks end the scan with a failure, because the source's group lookups raise `IndexError` there. A failed body scan makes the conversion return no document.
- `DocxContent.Repaired`: a missing `formatting` key is treated as the empty formatting. A text item whose text is not a string is treated like a non-text item. Formatting dictionaries are compared by value, so `{"bold": true}` and `{"bold": 1}`, which Python's `==` finds equal, are not merged (json2docx.py:397, 421).
- The line-based scan records each block before it is rendered to its JSON element. Rendering is pure, so the output is the same as rendering on the spot.
- `generate_docx`, the command-line entry points and `image_checker.py` are not part of this model.
