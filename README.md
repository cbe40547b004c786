# Taint-flow highlighting, modelled in Dafny

The extension reads a taint-flow trace, a text of steps joined by `-->` where each
step looks like `{ ln: 12 cl: 5 fl: main.c }`, and turns it into highlight regions
with hover texts for the source file. It comes in two builds that share the front half
of the pipeline and differ in where a region ends:

- `out/extension.js` ends a region at the first space or newline found on the line at or
  after 0-based offset `cl`, or at the end of the line;
- `src/extension.ts` ends it at `cl` plus the whole length of the line.

The model keeps both builds apart and shares only what is identical.

| module | file | models |
|---|---|---|
| `Wrappers` | `wrappers.dfy` | `Option` for `null` results and swallowed exceptions; the left-to-right scan `exec` performs |
| `JsString` | `js_string.dfy` | the string built-ins the parser uses: the classes `\s`, `\d` and `.`, `trim`, `indexOf`, `split`, `startsWith`/`endsWith`, `parseInt` on digits, and `${n}` for a non-negative integer |
| `TaintRegex` | `taint_regex.dfy` | `convertTextToJson`: the pattern `/{ ln:\s+(\d+)\s+cl: (\d+)\s+fl: (.+) }/` as a value of a small pattern language, a matcher for that language, and the declarative reading of a match it is proved against |
| `TaintTrace` | `taint_trace.dfy` | the shared front half of `parseTaintFlowFile`: split on `-->`, trim, the brace filter, parse-or-skip, the hover text, and the list of decorations pushed in record order |
| `OutExtension` | `out_extension.dfy` | `getPreviousSpaceOrNewlinePosition`, the three-argument `getLineLength`, and the `parseTaintFlowFile` loop of `out/extension.js` |
| `SrcExtension` | `src_extension.dfy` | the two-argument `getLineLength` and the `parseTaintFlowFile` loop of `src/extension.ts` |
| `Variants` | `variants.dfy` | the two builds side by side |

How the model is built:

- **File contents are parameters.** The trace text and the source file's text are passed
  in. The model splits the source text on `\n` itself, as both `getLineLength`s do.
- **The loops stay loops.** Each `parseTaintFlowFile` is a `method` with the source's
  indexed `for` loop. It is proved to return `Decorations(Anchors(Segments(taintFlowData)),
  Decorate(fileContent))`: one decoration per kept record, in segment order, each made by
  that build's `DecorationOf`.
- **Thrown exceptions become `None`.** The `try`/`catch` skip of a piece whose parse gives
  `null` (destructuring `null` throws) is a `None` from `ParseSegment`. The `catch` in
  `getLineLength` becomes the 0 returned for a line that is not in the file.

**The matcher.**

- `Match` interprets a `Pattern` the way the backtracking engine does:
  - a run `c+` takes every character of its class;
  - the greedy label `(.+) }` takes the longest stretch without a line terminator that is
    followed by ` }`.
- `FirstMatch` tries every start index from 0 upwards.
- `MatchSound` and `MatchComplete` hold `Match` against `Fits`, the declarative reading
  of a pattern.
  - `MatchComplete` needs the patterns to be `Separated`: what follows a run cannot start
    with a character of the run's class. `TaintPattern` is such a pattern
    (`TaintSeparated`), so greedy runs never need to give characters back.
- The match `exec` reports is `IsExecMatch`: no match starts further left, and none at
  the same start has a longer label.

**Where the code and the extension's documented behaviour disagree, the model follows
the code:**

- a record whose line is not in the file is not dropped: its region ends at 0 (`.js`) or
  at `cl` (`.ts`);
- the `.js` word search starts at offset `cl`, not `cl - 1`;
- the `.js` end column is not clamped, so it can fall before the start column;
- the label runs to the last ` }` on its line and may itself hold `}`;
- exactly one space must follow `{`, `cl:` and `fl:`, while `\s+` follows `ln:` and
  comes before `cl:` and `fl:`.

The `linelen === -1` branches are dead: both `getLineLength`s return a value of at least 0.

## Model

| member | source | states |
|---|---|---|
| `Wrappers.FirstSome` | out/extension.js:56 | the scan stops at an index in range where the step yields a value, and reports that value |
| `Wrappers.FirstSomeIsFirst` | out/extension.js:56 | the index the scan reports is the first that yields a value; when it reports nothing, no index in range yields one |
| `JsString.WhiteSpaceIsNotPrintable` | out/extension.js:55 | no `\s` character is printable ASCII, so `\s+` never eats a digit, a brace or a letter of `cl:`/`fl:` |
| `JsString.PrintableIsNotWhiteSpace` | out/extension.js:55 | a printable ASCII character is not in `\s` |
| `JsString.OccursAtSlice` | out/extension.js:75 | an occurrence of a pattern at an index is the same as the pattern being equal to the substring there |
| `JsString.RunEnd` | out/extension.js:55 | a greedy run from an index ends at or after it and within the text |
| `JsString.RunStart` | out/extension.js:118 | a run read backwards from an index starts at or before it |
| `JsString.RunEndSpec` | out/extension.js:55 | a greedy run takes only characters of its class and stops before the first character outside it |
| `JsString.RunStartSpec` | out/extension.js:118 | the run that ends at an index, read backwards, holds only characters of its class and is maximal |
| `JsString.RunEndIs` | out/extension.js:55 | a stretch of class characters followed by a non-class character (or the end) is exactly the greedy run |
| `JsString.RunEndAtLeast` | out/extension.js:55 | a greedy run covers at least every stretch of class characters from its start |
| `JsString.RunStartIs` | out/extension.js:118 | a stretch of class characters preceded by a non-class character (or the start) is exactly the backward run |
| `JsString.TrimStart` | out/extension.js:118 | the result is a suffix of the input, what was dropped is all white space, and the result does not start with white space |
| `JsString.TrimEnd` | out/extension.js:118 | the result is a prefix of the input, what was dropped is all white space, and the result does not end with white space |
| `JsString.Trim` | out/extension.js:118 | `trim` leaves neither leading nor trailing white space |
| `JsString.TrimStartPadded` | out/extension.js:118 | `trimStart` removes exactly a white-space prefix in front of a non-white-space character |
| `JsString.TrimEndPadded` | out/extension.js:118 | `trimEnd` removes exactly a white-space suffix after a non-white-space character |
| `JsString.TrimPadded` | out/extension.js:118 | `trim` gives back exactly the core of any white-space padding of a string that neither starts nor ends with white space |
| `JsString.IndexOf` | out/extension.js:75-76 | `indexOf` returns -1 exactly when the pattern occurs nowhere from `from` on, and otherwise the first index where it occurs |
| `JsString.Split` | out/extension.js:116 | `split` yields at least one piece, and no piece holds the separator |
| `JsString.SplitJoin` | out/extension.js:116 | joining the pieces of `split` with the separator gives back the text |
| `JsString.JoinCons` | out/extension.js:116 | joining a piece in front of a list puts the separator between it and the join of the rest |
| `JsString.DigitChar` | out/extension.js:131 | the digit character for a value below 10 reads back as that value |
| `JsString.NumberToString` | out/extension.js:131 | `${n}` is a non-empty run of decimal digits |
| `JsString.NumberToStringIsCanonical` | out/extension.js:131 | `${n}` has no redundant leading zero |
| `JsString.ParseInt` | out/extension.js:60-61 | `parseInt` of a digit run is 0 exactly when every digit is 0; `ParseIntLeadingZero` gives the value of runs with leading zeros |
| `JsString.ParseIntLeadingZero` | out/extension.js:60-61 | a leading zero carries no value: `parseInt("0" + s)` is `parseInt(s)` for every digit run `s` |
| `JsString.ParseIntOfNumberToString` | out/extension.js:60-61 | `parseInt` reads back the number `${n}` printed |
| `JsString.ParseIntLeadingNonZero` | out/extension.js:60-61 | a digit run that does not start with 0 parses to at least 1 |
| `JsString.NumberToStringOfParseInt` | out/extension.js:60-61 | printing a parsed canonical digit run gives back the same digits |
| `TaintRegex.AnchorOf` | out/extension.js:58-63 | `fl` is the label group verbatim, and `ln` and `cl`, printed again, give back their digit groups when those have no redundant leading zero |
| `TaintRegex.DigitsPrintBack` | out/extension.js:60-61 | a digit group without a redundant leading zero is what `parseInt` of it prints back as |
| `TaintRegex.LastClose` | out/extension.js:55 | where the label search gives back characters, the candidate ` }` lies inside the searched stretch |
| `TaintRegex.LastCloseSpec` | out/extension.js:55 | the search finds an occurrence of ` }`, and no occurrence in range lies further right |
| `TaintRegex.Match` | out/extension.js:55-56 | a match of a pattern records one string per run and one for the label |
| `TaintRegex.MatchSound` | out/extension.js:55-56 | whatever the matcher returns is a match of the pattern at that index |
| `TaintRegex.LabelSound` | out/extension.js:55 | the label the matcher takes is non-empty, free of line terminators and followed by ` }` |
| `TaintRegex.RunSlice` | out/extension.js:55 | the run the matcher takes holds only characters of its class |
| `TaintRegex.MatchComplete` | out/extension.js:55-56 | wherever a separated pattern matches, the matcher finds a match at that index with the same runs and a label at least as long |
| `TaintRegex.RunStops` | out/extension.js:55 | in a match, what follows a run starts with a character outside the run's class |
| `TaintRegex.GreedyCons` | out/extension.js:55 | putting the same run in front of two matches keeps the first at least as greedy as the second |
| `TaintRegex.LabelComplete` | out/extension.js:55 | wherever a label followed by ` }` lies, the matcher takes a label at least as long |
| `TaintRegex.FitsUnique` | out/extension.js:55 | two matches at one index whose recorded strings have equal lengths are the same match |
| `TaintRegex.Captures` | out/extension.js:58 | the groups `exec` returns are the second, fourth and sixth recorded strings |
| `TaintRegex.PartsOf` | out/extension.js:58 | reading six recorded strings into the parts of a match and back loses nothing |
| `TaintRegex.TaintArity` | out/extension.js:55 | the trace pattern records six strings: three white-space runs, two digit groups and the label |
| `TaintRegex.TaintSeparated` | out/extension.js:55 | in the trace pattern, no run can eat into what follows it: `\s` and `\d` are disjoint, and neither `c` nor `f` is white space |
| `TaintRegex.OccursSplit` | out/extension.js:55 | where a concatenation occurs, its first part occurs and its second part follows |
| `TaintRegex.OccursJoin` | out/extension.js:55 | a part followed by a second part is an occurrence of their concatenation |
| `TaintRegex.FitsSpelled` | out/extension.js:55 | a pattern fits at an index exactly when the recorded strings are of the right kinds and the text they spell out with the literals occurs there |
| `TaintRegex.ColumnPattern` | out/extension.js:55 | the trace pattern is `{ ln:`, `\s+`, `\d+`, `\s+`, then a three-string tail |
| `TaintRegex.TaintAccepts` | out/extension.js:55 | for the trace pattern, recorded strings of the right kinds are exactly `\s+`, `\d+`, `\s+`, `\d+`, `\s+`, `.+` |
| `TaintRegex.ColumnSpelled` | out/extension.js:55 | the tail of the trace pattern spells out `cl: `, the digits, white space, `fl: `, the label and ` }` |
| `TaintRegex.TaintSpelled` | out/extension.js:55 | the text a match of the trace pattern spells out is `{ ln:` + white space + digits + white space + `cl: ` + digits + white space + `fl: ` + label + ` }` |
| `TaintRegex.MatchesAtFits` | out/extension.js:55 | the declarative reading of a match and the pattern value agree at every index |
| `TaintRegex.MatchAt` | out/extension.js:56 | `exec` trying one index: what the engine finds there is a match of the pattern at that index |
| `TaintRegex.MatchAtComplete` | out/extension.js:56 | wherever the pattern matches, the engine finds a match at that index with the same white space and digits and a label at least as long |
| `TaintRegex.SameMatch` | out/extension.js:56 | two matches at one index with the same runs and equally long labels are one match |
| `TaintRegex.FirstMatch` | out/extension.js:56 | the scan, when it finds anything, finds a match of the pattern |
| `TaintRegex.FirstMatchIsLeftmost` | out/extension.js:56 | the scan reports the first index where the engine finds a match, and when it reports none the engine finds a match nowhere |
| `TaintRegex.ConvertTextToJson` | out/extension.js:54-66 | a record is returned only when the pattern matches somewhere in the text, and it is the record built from one of those matches |
| `TaintRegex.ConvertTextToJsonFinds` | out/extension.js:54-66 | `convertTextToJson` returns a record exactly when the pattern matches somewhere in the text, and `null` otherwise; `src/extension.ts:60-74` is the same function |
| `TaintRegex.ConvertTextToJsonIsExecMatch` | out/extension.js:54-66 | the record returned is exactly the one built from the match `exec` reports (leftmost start, then longest label): `ln` and `cl` are the values of the two digit groups and `fl` is the label |
| `TaintTrace.Segments` | out/extension.js:116 | the pieces of the trace put back together with `-->` give the trace text, and no piece holds `-->` |
| `TaintTrace.Lines` | out/extension.js:95 | the lines put back together with `\n` give the file text, and no line holds a newline |
| `TaintTrace.IsBraced` | out/extension.js:119 | `startsWith('{') && endsWith('}')` holds exactly when the piece is non-empty, its first character is `{` and its last is `}` |
| `TaintTrace.ParseSegment` | out/extension.js:118-123 | a piece yields a record only when, trimmed, it starts with `{`, ends with `}`, and `convertTextToJson` returns that record |
| `TaintTrace.ParseSegmentSpec` | out/extension.js:118-123 | a piece yields a record exactly when, trimmed, it is brace-delimited and the pattern matches in it; the record is the one of the match `exec` reports |
| `TaintTrace.HoverMessage` | out/extension.js:131 | every hover text starts with `Tainted Path Segment: ` |
| `TaintTrace.NumberSuffix` | out/extension.js:131 | cutting off a trailing `:digits` leaves a shorter text |
| `TaintTrace.NumberSuffixOf` | out/extension.js:131 | cutting off `:${n}` gives back the text in front and `n` |
| `TaintTrace.DecodeHover` | out/extension.js:131 | only a text that starts with `Tainted Path Segment: ` reads back as a record |
| `TaintTrace.HoverMessageRoundTrip` | out/extension.js:131 | the hover text loses nothing: the label, which may hold colons and digits, and both numbers read back from it |
| `TaintTrace.HoverMessageInjective` | out/extension.js:131 | two records have the same hover text exactly when they are equal |
| `TaintTrace.Kept` | out/extension.js:117-139 | the loop keeps at most one value per piece |
| `TaintTrace.Anchors` | out/extension.js:117-139 | no more records reach the end-column step than there are pieces |
| `TaintTrace.KeptStep` | out/extension.js:117-139 | one more turn of the loop adds what is kept from the next piece, after what came before |
| `TaintTrace.KeptIndices` | out/extension.js:117-134 | the positions of the accepted pieces, strictly increasing, each accepted, and every accepted piece listed |
| `TaintTrace.KeptFollowsSegments` | out/extension.js:117-134 | there is exactly one kept value per accepted piece, and the k-th kept value is the value of the k-th accepted piece, in piece order |
| `TaintTrace.KeptAppend` | out/extension.js:117-139 | what is kept from two lists of pieces in a row is what is kept from the first followed by what is kept from the second |
| `TaintTrace.Decorations` | out/extension.js:117-139 | one decoration per record, in the same order, each given by the build's end-column policy |
| `TaintTrace.DecorationsStep` | out/extension.js:133 | pushing the decorations of one more record appends them after the earlier ones |
| `TaintTrace.DecorationsOfOne` | out/extension.js:119-137 | one turn of the loop pushes the decoration of the piece's record, or nothing when the piece is skipped |
| `TaintTrace.SkippedSegmentIsInvisible` | out/extension.js:135-137 | a piece that fails to parse leaves no value and does not disturb the values of the others |
| `TaintTrace.ParsedSegmentIsKept` | out/extension.js:119-133 | a piece that parses contributes its record between those of the pieces before and after it |
| `TaintTrace.KeptSingle` | out/extension.js:117-139 | from a single piece, the loop keeps its value if it parses and nothing otherwise |
| `TaintTrace.NothingKeptIffNothingParses` | out/extension.js:117-140 | the loop keeps nothing exactly when no piece parses |
| `TaintTrace.EmptyTraceHasNoAnchors` | out/extension.js:115-140 | an empty trace text yields no record |
| `TaintTrace.EmptyTraceIsOneSegment` | out/extension.js:116 | splitting the empty text gives one empty piece |
| `TaintTrace.EmptySegmentIsSkipped` | out/extension.js:119 | an empty piece does not start with `{` and is passed over |
| `OutExtension.IndexOfChar` | out/extension.js:75-76 | `indexOf` of one character returns -1 exactly when the character does not occur, and otherwise its first index |
| `OutExtension.GetPreviousSpaceOrNewlinePosition` | out/extension.js:73-91 | returns -1 exactly when no space or newline lies at or after `startPosition` (including when the start is past the end); otherwise returns the first index at or after `startPosition` holding one |
| `OutExtension.LineHasNoNewline` | out/extension.js:95-96 | a line of `split('\n')` holds no newline, so the word search stops only at spaces |
| `OutExtension.GetLineLength` | out/extension.js:92-107 | on a line of the file, the first space at or after offset `cl`, or the line's length when none follows; 0 when the line is not in the file; never -1 |
| `OutExtension.DecorationOf` | out/extension.js:124-132 | the region is on line `ln - 1` from column `cl - 1`; on a line of the file it ends at the first space at or after offset `cl`, or at the end of the line when none follows; for a line not in the file it ends at 0; its hover text is the record's |
| `OutExtension.ParseTaintFlowFile` | out/extension.js:108-141 | the loop returns exactly one decoration per piece that parses, in piece order |
| `OutExtension.DecorateSegment` | out/extension.js:118-137 | one turn pushes nothing for a skipped piece and exactly the record's decoration otherwise |
| `OutExtension.RegionDirection` | out/extension.js:124-130 | on a line of the file, the region runs forward exactly when `cl` lies on the line, is empty exactly when `cl` is one past its end, and is reversed beyond that |
| `OutExtension.MissingLineEndsAtZero` | out/extension.js:103-106 | a record whose line is not in the file still gets a region, ending at column 0 |
| `OutExtension.RegionStaysOnLine` | out/extension.js:97-101 | a region never ends past the end of its line |
| `SrcExtension.GetLineLength` | src/extension.ts:83-93 | the length of the record's line, ignoring the column; 0 when the line is not in the file; never -1 |
| `SrcExtension.LineFitsInText` | src/extension.ts:86-88 | no line is longer than the file text |
| `SrcExtension.DecorationOf` | src/extension.ts:122-125 | the region is on line `ln - 1`, starts at column `cl - 1`, spans the line's length plus one (so it ends at `cl` plus that length), and its hover text is the record's |
| `SrcExtension.ParseTaintFlowFile` | src/extension.ts:95-135 | the loop returns exactly one decoration per piece that parses, in piece order |
| `SrcExtension.DecorateSegment` | src/extension.ts:108-131 | one turn pushes nothing for a skipped piece and exactly the record's decoration otherwise |
| `SrcExtension.RegionWidth` | src/extension.ts:122-125 | every region is at least one character wide |
| `SrcExtension.MissingLineEndsAtColumn` | src/extension.ts:87-92 | a record whose line is not in the file still gets a region, ending at its own column |
| `SrcExtension.EndShiftsWithColumn` | src/extension.ts:123 | on one line, two regions' ends lie exactly as far apart as their columns |
| `SrcExtension.RegionOvershootsLine` | src/extension.ts:123 | on a line of the file, a region whose column is at least 1 ends past the end of the line |
| `Variants.EndsCompared` | src/extension.ts:123 | both builds give a record the same line, start column and hover text; on a line of the file, with `cl` at least 1, the `.js` region ends before the `.ts` one; on a missing line they end at 0 and at `cl` |
| `Variants.WalkersAgreeExceptEnd` | src/extension.ts:106-127 | for a whole trace, both builds emit the same number of regions, and the k-th regions agree on everything but the end column |

## Left out

- Reading files (`fs.existsSync`, `fs.readFileSync`) and the early return for a missing
  trace file: the model receives the trace text and the source text as parameters.
- `console.error` logging: it has no effect on the result.
- `await` and `async`: `getLineLength` is synchronous, so awaiting it changes nothing
  about the result.
- `vscode.Range`: the four numbers are recorded as given. The constructor's own
  validation is not modelled, nor its reordering of an end that lies before the start.
  Its rejection of a negative line or column (for `ln = 0` or `cl = 0`) would also make
  the `catch` skip that piece, and this is not modelled either.
- Strings are sequences of UTF-16 code units in the source. Here they are sequences of
  `char`, with no surrogate pairs, so lengths and offsets are counted in `char`s.
- JsString.NumberToString: it is `${n}` only for `n` below 10^21. From 10^21 on, JavaScript
  prints a number in exponent form (`1e+21`), so `TaintTrace.HoverMessage` and the hover
  round trip hold as stated only for line and column numbers below that bound.
- ConvertTextToJson: `parseInt` is modelled as exact on any run of digits. The source
  yields a double, which loses precision above 2^53.
- TaintRegex.Match: it models the backtracking engine only for patterns made of
  literals, runs of one class and a closing greedy label. Completeness (`MatchComplete`)
  is proved for patterns whose runs are stopped by what follows them, which includes the
  trace pattern. The general regular-expression engine is not modelled.
- `compileToLLVMIR`, `runBinaryProgram`, `activate`, `deactivate`, `sleep` and
  `removeFileExtension`: subprocess calls, editor commands and decoration types, a
  timer, and path helpers of Node, none of which shape the regions.
