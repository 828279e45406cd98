# Highlighted writer, modelled in Dafny

`hilightedWriter.py` is a small terminal colouriser. A `HighlightedWriter` takes a
colour mapping: keys are either plain words (such as `for`) or regular expressions (such
as `#.*`), and values are colour names. It builds one combined regular expression from
the mapping. When highlighting is on, every text it writes is scanned with that
expression. Each match whose colour is one of the 16 names in the colour table is
wrapped in the ANSI SGR escapes of that colour (ECMA-48 section 8.3.117). A match of the
word group whose text is not a word key is written unchanged, and so is a match whose
colour is not in the table. When highlighting is off, the text is written as it is.

This project models that core:

- **colours.** The 16-entry colour table and `_highlight`, which wraps a text in
  `ESC[<code>m` or `ESC[<code>;1m` and ends it with `ESC[0m` (`colors.dfy`, with decimal
  spelling of the codes in `decimal.dfy`).
- **construction.** The constructor, in the order of its checks; it is modelled in
  `compiler.dfy` (the mapping side) and `writer.dfy` (the colour mode). It runs these steps:
  - it chooses the colour mode;
  - it classifies each key as a word or a regex with `_isHighlighterRegex`;
  - it compiles each regex key alone and gives it the group name `g_<i>`;
  - it appends the `g_word` alternative, joins everything with `|`, and compiles the
    combined pattern.
- **scanning.** `_createHighlightedText`, the loop over the matches that copies the gaps
  and colours each match by its group (`scanner.dfy` for the specification, `writer.dfy`
  for the loop).
- **writing.** `write` and `writeln` against an output stream that records what was
  written and how often it was flushed (`writer.dfy`).

Python's `re` module is not part of this model. It becomes the `Regex.Engine` value with
three parts, each a parameter:
- "does the pattern match at the start of the text" (`re.match`);
- "does the pattern compile" (`re.compile`);
- "the matches of a scan" (`re.finditer`), as a list of (start, end, last group) triples.

The default word pattern `[a-zA-Z_][\w_]*` is the one place where the model is concrete.
`Compiler.StandardWordRegex` states that the engine matches it at the start of a key
exactly when some non-empty prefix of the key is in the pattern's language
(`Compiler.InWordLanguage`). This is the prefix semantics of `re.match`.
`Compiler.DefaultClassification` proves from this that only the first character matters. Slices follow Python's
clamping rules (`Scanner.Slice`), so the scanner handles any match list. Only the lemmas
about the output need the matches in order, in bounds and non-overlapping, which is what
`re.finditer` yields (`Regex.WellFormedMatches`).

Four behaviours of the code worth noting:
- **key classification.** It is a prefix test (`re.match`), not a full match: `for.*` is a
  word key, because the word pattern matches its first three characters.
- **flushing.** `write` always flushes. The constructor's `flushAfterWrite` argument is
  never stored, so the class attribute `True` is what `write` reads.
- **compile errors.** A pattern that does not compile is reported by the pattern itself
  (`InitError.BadPattern`), not by its position in the mapping.
- **the "off" mode.** Construction compiles the mapping in every colour mode, so a bad
  pattern is an error even when highlighting is off.

## Model

Six definitions make up the model. They have no contract of their own, so they have no rows. The lemmas in the table state their properties.
- `Compiler.IsHighlighterRegex` is `_isHighlighterRegex` (hilightedWriter.py:32-33).
- `Compiler.CompileResult` is the constructor's classification, group loop and combined pattern (hilightedWriter.py:96-111).
- `Scanner.MatchColor` is the choice of colour for one match (hilightedWriter.py:134-144).
- `Scanner.Segments` is the scanning loop of `_createHighlightedText` as a list of gaps and coloured spans (hilightedWriter.py:128-147).
- `Scanner.HighlightedText` is that list rendered to a string (hilightedWriter.py:128-147).
- `Writer.HighlightedWriter.Output` is what `write` sends, highlighted or not (hilightedWriter.py:150-152).

| member | source | states |
|---|---|---|
| Colors.HueEntries | hilightedWriter.py:13-30 | The hue at position h of black, red, green, yellow, blue, magenta, cyan, white has code 30 + h and no bold parameter. The matching `bright-` name has the same code and bold parameter 1. |
| Colors.ColorTableShape | hilightedWriter.py:13-30 | Every name in the table has a code in 30..37 and a bold parameter that is absent or 1. Each name is one of the eight hues or its `bright-` variant. |
| Colors.Opener | hilightedWriter.py:117-119 | The opening escape starts with `ESC[` and ends with `m`. |
| Colors.Highlight | hilightedWriter.py:113-121 | The result equals the text exactly when the colour is not in the table. For a colour in the table, its length is the opener's, the text's and the reset's added together; Colors.HighlightBytes states the exact bytes. |
| Colors.UnknownColor | hilightedWriter.py:114-121 | The empty colour name leaves any text unchanged. |
| Colors.StripHighlightRoundTrip | hilightedWriter.py:113-121 | Removing the escapes of the colour from the highlighted text gives back the original text, for every text and every name. |
| Colors.HighlightBytes | hilightedWriter.py:113-121 | The exact output: hue h gives `ESC[3<h>m` + text + `ESC[0m`, and its bright variant gives `ESC[3<h>;1m` + text + `ESC[0m`. |
| Colors.BrightRedExample | hilightedWriter.py:113-119 | `bright-red` around `err` gives `ESC[31;1merrESC[0m`. |
| Decimal.DigitChar | hilightedWriter.py:103 | The digit character of d < 10 is a decimal digit whose value is d. |
| Decimal.DigitValue | hilightedWriter.py:103 | The value of a decimal digit is below 10. |
| Decimal.NatToString | hilightedWriter.py:103 | `str(n)` is non-empty, all digits, and has no leading zero. |
| Decimal.ParseNatToString | hilightedWriter.py:103 | Reading `str(n)` back as a decimal number gives n. |
| Decimal.NatToStringInjective | hilightedWriter.py:103 | Distinct numbers have distinct spellings. |
| Decimal.TwoDigits | hilightedWriter.py:117-119 | A two-digit code is spelled by its tens digit followed by its units digit. |
| Compiler.DefaultClassification | hilightedWriter.py:32-33 | Given only `re.match`'s prefix semantics for the default word pattern, a key is a regex exactly when it is empty or its first character is not an ASCII letter or `_`. |
| Compiler.PrefixClassification | hilightedWriter.py:32-33 | `re.match` tests a prefix: `for.*` is not in the word pattern's language, yet it is a word key. |
| Compiler.WordsColorMapContents | hilightedWriter.py:96 | The word map's keys are exactly the mapping's word keys. A word key takes the colour of its last item. |
| Compiler.RegexMappingsInOrder | hilightedWriter.py:97 | The regex list is the mapping's items at an ascending list of positions. A position is in that list exactly when its key is a regex. |
| Compiler.ClassificationPartition | hilightedWriter.py:96-97 | Every item lands on exactly one side: a word key in the word map, or a regex key in the regex list. |
| Compiler.GroupNamesDistinct | hilightedWriter.py:103-108 | Generated names `g_<i>` never collide with each other or with `g_word`. |
| Compiler.RegexAlternativesAt | hilightedWriter.py:106 | There is one alternative per regex key; the i-th is `(?P<g_i>key_i)`. |
| Compiler.RegexColorMapContents | hilightedWriter.py:103-105 | The group table holds exactly `g_0`..`g_(n-1)`, each with the colour of its regex key, and never `g_word`. |
| Compiler.JoinSnoc | hilightedWriter.py:110 | Joining one more part appends the separator and that part. |
| Compiler.CombinedRegexEndsWithWordGroup | hilightedWriter.py:108-110 | The combined pattern is the `\|`-join of the regex alternatives, followed by `(?P<g_word>wordRegex)` as the last alternative. With no regex keys it is that group alone. |
| Compiler.FirstUncompilable | hilightedWriter.py:100-102 | The position of the first regex key that does not compile, if any, is within the list. |
| Compiler.FirstUncompilableSpec | hilightedWriter.py:100-102 | No position is reported exactly when every key compiles. A reported position fails, and every earlier key compiles. |
| Compiler.FirstUncompilableAt | hilightedWriter.py:100-102 | A failing key with nothing reported before it is the one reported. |
| Compiler.FirstUncompilableSkip | hilightedWriter.py:100-102 | A key that compiles is not the one reported. |
| Compiler.RegexStep | hilightedWriter.py:103-106 | One more regex key adds its named group to the alternatives and its colour to the group table. |
| Compiler.CompileRegexes | hilightedWriter.py:99-107 | The loop fails with the first key that does not compile alone. Otherwise it returns every key's named group, in order, and the full group table. |
| Compiler.Compile | hilightedWriter.py:96-111 | Construction after the mode check produces `CompileResult`, with the checks in the source's order: the word pattern (when the mapping is non-empty), each regex key alone, then the combined pattern. |
| Compiler.CompiledContents | hilightedWriter.py:96-111 | A successful construction holds the word map, the group table `g_i` to the colour of regex key i (and no other names, never `g_word`), and the combined pattern. |
| Compiler.EmptyMappingCompiles | hilightedWriter.py:96-111 | An empty colour mapping that compiles gives an empty word map, an empty group table, and `(?P<g_word>wordRegex)` as the whole pattern. |
| Compiler.CompileFailsOnBadKey | hilightedWriter.py:100-102 | A regex key that does not compile makes construction fail with a bad-pattern error. |
| Scanner.Slice | hilightedWriter.py:131-146 | Python slicing: the plain slice when the bounds are in order and in range, and empty when the start is not below the end. |
| Scanner.SliceJoin | hilightedWriter.py:131-146 | Adjacent slices join up. |
| Scanner.MatchColorDispatch | hilightedWriter.py:134-144 | A `g_word` match takes its text's colour in the word map, and comes out unchanged when its text is not there. Another `g_…` group takes its colour in the group table. A missing or non-`g_` last group gives colour `""`. |
| Scanner.UnnamedMatchUncolored | hilightedWriter.py:134-144 | A match attributed to no generated group comes out exactly as matched. |
| Scanner.RenderStep | hilightedWriter.py:130-146 | The output from `lastend` on is the gap before the first match, then that match highlighted, then the rest. With no matches left it is the tail `txt[lastend:]`. |
| Scanner.WholeTextMatch | hilightedWriter.py:128-147 | When one match covers the whole text, the output is the whole text in that match's colour, with no gap before it and no tail after it. |
| Scanner.SegmentsLength | hilightedWriter.py:130-146 | The output has two pieces per match plus one tail. |
| Scanner.SegmentsAt | hilightedWriter.py:131-144 | Piece 2k is the gap from the end of match k-1 (or from `lastend`) to the start of match k. Piece 2k+1 is match k with the colour its group selects. |
| Scanner.SegmentsTail | hilightedWriter.py:146 | The last piece is the text after the last match. |
| Scanner.OrderedFromTail | hilightedWriter.py:130-132 | After a match, the remaining matches are ordered from its end. |
| Scanner.PlainSegments | hilightedWriter.py:128-147 | Without colours, the pieces from `lastend` on spell `txt[lastend:]`. |
| Scanner.VerbatimPreservation | hilightedWriter.py:128-147 | For ordered, non-overlapping, in-bounds matches, the gaps and the matched spans with their colours removed are exactly the input text. |
| Scanner.RenderUncolored | hilightedWriter.py:138-144 | When no piece names a colour of the table, the output is the uncoloured text. |
| Scanner.StripRenderPlain | hilightedWriter.py:128-147 | Reading the output back span by span, with each coloured span's escapes stripped and each gap taken as it is, gives the uncoloured text of the pieces. |
| Scanner.StripEachSpan | hilightedWriter.py:141-144 | Stripping each coloured span of its escapes gives back that span's text. |
| Scanner.SegmentColorsEmpty | hilightedWriter.py:138-144 | With an empty word map and an empty group table, every match takes a colour that is not in the table. |
| Scanner.EmptyMappingIdentity | hilightedWriter.py:128-147 | With an empty word map and an empty group table, the scanner returns its input unchanged for any well-formed match list. |
| Writer.OutputStream.Write | hilightedWriter.py:152 | The stream records the text and does not flush. |
| Writer.OutputStream.Flush | hilightedWriter.py:154 | The stream is flushed once more and nothing is written. |
| Writer.SelectMode | hilightedWriter.py:87-94 | "auto", "on" and "off" are accepted and anything else is an unsupported-mode error. Highlighting is on exactly for "on", or for "auto" when the stream supports colour. |
| Writer.HighlightedWriter.constructor | hilightedWriter.py:85-111 | The writer holds the stream, the highlight flag, the engine, and the compiled word map, group table and pattern it is given. |
| Writer.HighlightedWriter.Create | hilightedWriter.py:74-111 | A bad mode fails before the mapping is looked at. Otherwise a compile error is returned unchanged, or a fresh writer holds the chosen mode and the compiled maps and pattern. The writer always flushes after a write. |
| Writer.HighlightedWriter.CreateHighlightedText | hilightedWriter.py:123-147 | The loop's output equals the scanner specification on the engine's matches for the combined pattern. |
| Writer.HighlightedWriter.Write | hilightedWriter.py:149-154 | One entry is appended to the stream: the highlighted text when highlighting is on, otherwise the text itself. The stream is flushed exactly once. |
| Writer.HighlightedWriter.Writeln | hilightedWriter.py:156-157 | Exactly a write of the text followed by a newline. |
| Writer.PassThroughOutput | hilightedWriter.py:149-152 | With highlighting off, a write forwards the text unchanged. |
| Writer.HighlightedOutputPreservesText | hilightedWriter.py:128-152 | With highlighting on and well-formed scans, the written text is the rendering of the scan's gaps and matched spans. Those pieces without their colours spell the input, and so does the written text read back span by span with each span's escapes stripped. When the word map and the group table are both empty, the written text is the input exactly. |
| Examples.KeywordMappingCompiles | hilightedWriter.py:96-111 | `{"for": "blue"}` gives the word map `{"for": "blue"}`, an empty group table, and the pattern `(?P<g_word>[a-zA-Z_][\w_]*)`. |
| Examples.BlueKeyword | hilightedWriter.py:113-117 | `for` in blue is `ESC[34mforESC[0m`. |
| Examples.KeywordScanRest | hilightedWriter.py:130-146 | After `for`, the space is copied and `x`, which has no entry in the word map, comes out unchanged. |
| Examples.KeywordScan | hilightedWriter.py:128-147 | Scanning `for x` colours `for` blue and leaves ` x` as it is. |
| Examples.CommentMappingCompiles | hilightedWriter.py:96-111 | `{"#.*": "green"}` is a regex key, recorded as `g_0` in green, with an empty word map. |
| Examples.GreenComment | hilightedWriter.py:113-117 | Green wraps a text in `ESC[32m` and `ESC[0m`. |
| Examples.CommentScan | hilightedWriter.py:128-147 | When the comment group matches all of `# comment for`, the output is one green span, and `for` is not coloured on its own. |

## Left out

- **the regex engine.** Python's `re` module (`re.match`, `re.compile`, `re.finditer`, `lastgroup`) is a foreign library and is not part of this model.
  - Its answers are parameters (`Regex.Engine`).
  - Well-formed scans are a hypothesis (`Regex.ScansWellFormed`).
  - The default word pattern is concrete only as the hypothesis `Compiler.StandardWordRegex`.
  - `Compiler.IsWordChar` models `\w` on ASCII only. Python's `\w` on `str` also accepts other Unicode letters and digits. This does not affect the classification, because the first character must be in `[a-zA-Z_]`.
- **leftmost-first precedence.** Which alternative wins at a position is a property of `re`. The scan examples take the match list as given.
- **`streamSupportsColor` and `safe_cast` (lines 35-52).** These are platform and terminal checks, so their answer is the boolean `supportsColor` given to `Create`. As written, `safe_cast("a" + release, int, 0)` always fails, so the revision is always 0 and Windows never gets colour. The model does not reproduce this, because the answer is an input.
- **`flush()` (lines 159-161).** It is declared without `self`, so it cannot be called successfully; it is not modelled as an operation of the writer.
- **the class-level dictionaries (lines 65-67).** The model keeps the word map and the group table per writer. In the source, `regexColorMap` is the class attribute and line 105 mutates it in place, so all writers share one group table. The model does not capture this aliasing between writers.
- **the `self.regex is None` branch (lines 124-125).** It cannot be taken, because line 111 always assigns a compiled pattern.
- **`_highlightedWriterTest` (lines 164-185).** It is a demonstration that reads its own file, so it is file I/O.
- **default arguments.** The constructor's defaults (`flushAfterWrite=True`, `colorMode="auto"`, and the word pattern `Compiler.DefaultWordRegex`) are not modelled. Callers of `Writer.HighlightedWriter.Create` pass every argument explicitly.
- **exceptions raised by the stream.** Exceptions from the stream's `write` or `flush` propagate unchanged in the source. The model's stream does not fail.
- **repeated keys in the colour mapping.** The mapping is a list of (key, colour) pairs in insertion order. For distinct keys, which a Python dictionary always has, it matches the source. The list also allows repeated keys. A repeated word key keeps the colour of its last pair, as a dictionary would. A repeated regex key becomes one group per pair, whereas a dictionary would hold one entry, at the first key's position, with the last colour.
