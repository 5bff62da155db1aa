# Indentation detection for YAML documents

A Dafny model of the indentation detector of serde-yaml-neo (`src/indent.rs`).
Given a YAML document, the detector reports how many spaces make up one
nesting level, reports that there is no indentation signal, or fails.

- The document must first pass a validity gate: the libyaml event parser has
  to read it to the end of the stream.
- The bytes are decoded as UTF-8.
- The text is split into lines. Blank lines and comment lines are skipped.
- A content line indented with a tab fails the whole call. Blank and comment
  lines are skipped before the tab test (src/indent.rs:103-111), so
  `"\t# note"` is a comment line and does not fail
  (`IndentProperties.TabBeforeCommentIsSkipped`).
- Every other content line contributes its count of leading spaces.
- The sequence of counts is reduced to one unit. The unit is the gcd of every
  step between consecutive levels (starting from level 0) and of every
  distinct non-zero level. The fold stops early once it reaches 1.

The model has four modules:

- `Arith` (`arith.dfy`) states divisibility and "greatest common divisor of a
  sequence" as predicates, with the lemmas the proofs need.
- `TextLines` (`text.dfy`) models the Rust string operations the detector
  uses: `char::is_whitespace`, `str::trim_start` and `str::lines`.
- `Indent` (`indent.dfy`) holds the data types, the line classification, the
  specification predicates and the operations. The operations are imperative
  methods with the source's loops: `Gcd`, `FindIndentationUnit` (with one
  method per loop of the source: `NonZeroLevels`, `SortUnstableDedup`,
  `LevelSteps` and `GcdFold`), `DetectLevelsAndUnit` (the loop of `detect_from_text`), `DetectFromText`,
  `DetectIndentationSlice` and `DetectIndentation`.
- `IndentProperties` (`properties.dfy`) proves properties of the
  specification and the documented examples.

`FindIndentationUnit` is proved against `IsUnitResult`. That predicate
characterises the answer without computing it:

- `None` exactly when every level is 0 (an empty sequence included);
- otherwise `Some(u)`, where `u >= 1` divides every level and every other
  common divisor of the levels divides `u`.

The loops build the differences. `LevelSteps` is proved to record exactly
`Changes(0, levels)`, the non-zero changes between consecutive levels, in
order. The proof shows that the differences have the same common divisors
as the levels. The walk cannot change the result: the gcd of the changes
followed by the distinct non-zero levels equals the gcd of the levels, which
equals the gcd of the distinct non-zero levels alone
(`IndentProperties.StepsDoNotChangeUnit`). The gcd fold, including its early
exit at 1, is proved to produce their gcd. As a consequence, the branches
that return `None` after the difference list is built can never be taken.

`DetectLevelsAndUnit` is proved against `IsDetection(text, r)`:

- the call fails with `TabIndentation` exactly when some content line of
  `Lines(text)` is tab-indented;
- otherwise it returns the unit of `Levels(Lines(text))`, wrapped in
  `Indentation`.

## Model

| member | source | states |
|---|---|---|
| `Indent.Gcd` | src/indent.rs:196-203 | the result divides both inputs, and every common divisor of the inputs divides it; `gcd(a, 0) == a`; the result is 0 only when both inputs are 0 |
| `Indent.FindIndentationUnit` | src/indent.rs:133-193 | `None` exactly when the levels are empty or all 0; otherwise `Some(u)` with `u >= 1` the greatest common divisor of the levels; the two later `None` returns (no differences, result 0) can never be taken |
| `Indent.NonZeroLevels` | src/indent.rs:139-143 | the filter keeps exactly the non-zero levels |
| `Indent.Changes` | src/indent.rs:155-165 | the changes the walk records: at most one per level, each positive (a distance between two different levels) |
| `Indent.ChangesStep` | src/indent.rs:157-164 | one iteration of the walk: the change from the previous level, if any, comes before the changes of the later levels |
| `Indent.ChangesShareDivisors` | src/indent.rs:157-165 | a divisor of the starting level and of every level divides every recorded change |
| `Indent.LevelSteps` | src/indent.rs:152-165 | the loop records exactly `Changes(0, levels)`: every non-zero change between consecutive levels, starting from level 0, in order |
| `Indent.GcdFold` | src/indent.rs:176-185 | the fold, early exit at 1 included, returns a positive gcd of a non-empty list of positive differences |
| `Indent.DifferencesShareDivisors` | src/indent.rs:150-171 | the step list followed by the distinct non-zero levels has exactly the common divisors of the levels, so its gcd is theirs |
| `Indent.SortUnstableDedup` | src/indent.rs:139-145 | the result is strictly increasing, with each value of the input exactly once |
| `Indent.InsertSorted` | src/indent.rs:144-145 | inserting into a strictly increasing sequence keeps it strictly increasing, and adds only the new value |
| `Indent.ScanStep` | src/indent.rs:100-121 | scanning one more line appends that line's level, and finds a tab-indented line exactly when the earlier lines or the new one hold one |
| `Indent.DetectLevelsAndUnit` | src/indent.rs:97-127 | fails with a tab error exactly when some content line is tab-indented; otherwise returns the unit of the content lines' leading-space counts, wrapped in `Indentation` |
| `Indent.DetectFromText` | src/indent.rs:86-95 | undecodable input fails with `InvalidUtf8`; decoded text gives the detection of that text |
| `Indent.DetectIndentationSlice` | src/indent.rs:61-67 | a failed parse gives `InvalidYaml` before any decoding; otherwise the result is that of `DetectFromText` |
| `Indent.DetectIndentation` | src/indent.rs:53-55 | the string entry point: `InvalidYaml` on a failed parse, otherwise the detection of the text |
| `Indent.Indentation.Spaces` | src/indent.rs:7-18 | `spaces()` returns the unit, which is never 0: a unit of 0 is "no signal" and is never wrapped |
| `Indent.LeadingSpaces` | src/indent.rs:108 | the count of leading spaces is at most the line length, and the character after them, if any, is not `' '` |
| `Indent.LeadingSpacesIsSpaceRun` | src/indent.rs:108 | every character `LeadingSpaces` counts is `' '`; with `LeadingSpaces`' own contract, the count is the maximal run of spaces at the start of the line |
| `Indent.HasTabIndent` | src/indent.rs:110-112 | the tab test as written (`starts_with('\t')`, or leading spaces and then a tab) holds exactly when the character right after the leading spaces is a tab |
| `Indent.IsBlankOrComment` | src/indent.rs:101-103 | the skip test on the trimmed line (empty, or starts with `#`); characterised by `IndentProperties.BlankOrCommentByFirstContent` |
| `Indent.LevelOf` | src/indent.rs:101-120 | what one line adds to the levels: nothing when skipped, else its leading-space count; its properties are `IndentProperties.LevelsOfContentLines` and `IndentProperties.BlankOrCommentLineAddsNoLevel` |
| `Indent.Levels` | src/indent.rs:98-121 | the level sequence the scan loop builds, at most one level per line; `Indent.DetectLevelsAndUnit` is proved against it |
| `Indent.LevelsAppend` | src/indent.rs:100-121 | the levels of two blocks of lines are the levels of the first followed by those of the second |
| `Indent.AnyTabIndentedAppend` | src/indent.rs:110-118 | a concatenation of lines contains a tab-indented line exactly when one of its parts does |
| `Indent.ConsIncreasing` | src/indent.rs:144 | a head below every element of a strictly increasing tail gives a strictly increasing sequence |
| `TextLines.IsWhitespace` | src/indent.rs:102 | the Unicode `White_Space` characters that `trim_start` removes; used through `TextLines.TrimStart` and `TextLines.TrimStartIsSuffix` |
| `TextLines.TrimStart` | src/indent.rs:102 | `trim_start` returns no more than its input, and what it returns does not start with whitespace |
| `TextLines.TrimStartIsSuffix` | src/indent.rs:102 | what `trim_start` returns is a suffix of the line, and everything it drops is whitespace |
| `TextLines.Lines` | src/indent.rs:100 | `lines()`: only the empty text has no lines; a line ends at `"\n"` or `"\r\n"`, and a final terminator does not start an empty line |
| `TextLines.FirstNewlineIsFirst` | src/indent.rs:100 | the split point of a line is the first `'\n'` |
| `TextLines.LinesHaveNoNewline` | src/indent.rs:100 | no line holds a `'\n'` |
| `TextLines.LinesAppend` | src/indent.rs:100 | a text that ends with a line break splits independently of the text after it |
| `TextLines.FirstNewlineInside` | src/indent.rs:100 | a text ending in `'\n'` has its first `'\n'` inside it, so at least one line is split off |
| `TextLines.LinesOfHead` | src/indent.rs:100 | a text with a `'\n'` splits into its first line, without its terminator, and the lines after it |
| `TextLines.LinesOfAppendHead` | src/indent.rs:100 | the first line of a text is split off the same way whatever follows the text |
| `TextLines.LinesOfOneLine` | src/indent.rs:100 | a line without `'\n'` followed by `"\n"` is exactly one line, losing a final `'\r'` (a `"\r\n"` ending) |
| `TextLines.LinesOfLastLine` | src/indent.rs:100 | a non-empty last line with no terminator is one line, kept as it is |
| `IndentProperties.BlankOrCommentByFirstContent` | src/indent.rs:101-105 | a line is skipped exactly when it is all whitespace or its first non-whitespace character is `#` |
| `IndentProperties.TabBeforeCommentIsSkipped` | src/indent.rs:101-105 | a comment after a tab, `"\t# note"`, is skipped before the tab test, so it does not fail detection |
| `IndentProperties.SpaceIndentedLine` | src/indent.rs:102-108 | a line of `n` spaces followed by a non-whitespace character trims to that character onwards and has level `n` |
| `IndentProperties.LevelsOfContentLines` | src/indent.rs:107-121 | with only content lines, there is one level per line, in line order, each the line's leading-space count |
| `IndentProperties.BlankOrCommentLineAddsNoLevel` | src/indent.rs:101-105 | a blank or comment line anywhere leaves the level sequence unchanged |
| `IndentProperties.BlankOrCommentLinePassesTabCheck` | src/indent.rs:101-105 | a blank or comment line anywhere never trips the tab check |
| `IndentProperties.LinesWithLineInserted` | src/indent.rs:100 | inserting one line ended by `"\n"` or `"\r\n"` after a line break inserts exactly that line, without its terminator, into the line list |
| `IndentProperties.CommentLineIgnoredInText` | src/indent.rs:100-105 | inserting a blank or comment line, ended by `"\n"` or `"\r\n"`, into a text leaves every possible detection outcome unchanged |
| `IndentProperties.CommentLastLineIgnored` | src/indent.rs:100-105 | a blank or comment last line without a terminator leaves every possible detection outcome unchanged |
| `IndentProperties.EmptyLineIgnoredAtStart` | src/indent.rs:100-105 | an empty first line leaves every possible detection outcome unchanged |
| `IndentProperties.CommentLineIgnoredAtStart` | src/indent.rs:100-105 | a blank or comment first line, ended by `"\n"` or `"\r\n"`, leaves every possible detection outcome unchanged |
| `IndentProperties.CommentLineIgnoredAfterLine` | src/indent.rs:100-105 | a blank or comment line, ended by `"\n"` or `"\r\n"`, after another line leaves every possible detection outcome unchanged |
| `IndentProperties.TabLineFailsDetection` | src/indent.rs:110-118 | one tab-indented content line, ended by `"\n"` or `"\r\n"`, anywhere in a text makes the whole detection fail with `TabIndentation`, with no partial result |
| `IndentProperties.TabLastLineFailsDetection` | src/indent.rs:110-118 | a tab-indented last line without a terminator makes the whole detection fail with `TabIndentation` |
| `IndentProperties.UnitResultIsUnique` | src/indent.rs:133-193 | the contract of the unit computation determines its result |
| `IndentProperties.DetectionIsDeterministic` | src/indent.rs:86-127 | the contract of detection determines its result, so detection is a function of the text |
| `IndentProperties.UnitDividesEveryStep` | src/indent.rs:152-171 | the unit divides every level and every change between consecutive levels, the first line counting as a change from 0 |
| `IndentProperties.StepsDoNotChangeUnit` | src/indent.rs:152-185 | the distinct non-zero levels have the same gcd as all the levels, and adding the walk's changes in front of them does not change it |
| `IndentProperties.UnitIsGreatest` | src/indent.rs:176-185 | no common divisor of the levels is larger than the unit |
| `IndentProperties.UnitAtMostLevel` | src/indent.rs:167-185 | the unit is at most every non-zero level |
| `IndentProperties.UnitOfConstantStep` | src/indent.rs:133-193 | if a level `k` divides every level, the unit is `k` |
| `IndentProperties.ExampleDeeplyNested` | src/indent.rs:273-282 | levels `[0, 4, 8, 12]` give unit 4 |
| `IndentProperties.ExampleThreeSpaces` | src/indent.rs:266-270 | levels `[0, 3]` give unit 3 |
| `IndentProperties.ExampleFourSpaces` | src/indent.rs:217-221 | levels `[0, 4]` give unit 4 |
| `IndentProperties.ExampleEightSpaces` | src/indent.rs:259-263 | levels `[0, 8]` give unit 8 |
| `IndentProperties.ExampleNested` | src/indent.rs:224-228 | levels `[0, 2, 4]` give unit 2 |
| `IndentProperties.ExampleSequence` | src/indent.rs:231-235 | levels `[0, 2, 2]` give unit 2 |
| `IndentProperties.ExampleMixedContent` | src/indent.rs:297-307 | levels `[0, 2, 0, 2, 2]` give unit 2 |
| `IndentProperties.ExampleOneStep` | src/indent.rs:210-214 | levels `[0, 2]` give unit 2 |
| `IndentProperties.ExampleFlat` | src/indent.rs:147-150 | levels that are all 0 give no unit |
| `IndentProperties.ExampleMixedWidths` | src/indent.rs:178-184 | mixed widths 2 and 5 reduce to unit 1, which is returned as it is |
| `IndentProperties.RootLine` | src/indent.rs:101-121 | `"root:"` is a content line at level 0 that passes the tab check |
| `IndentProperties.ChildLine` | src/indent.rs:101-121 | `"  child: value"` is a content line at level 2 that passes the tab check |
| `IndentProperties.TabChildLine` | src/indent.rs:110-118 | `"\tchild: value"` is a tab-indented content line |
| `IndentProperties.IndentedCommentLine` | src/indent.rs:101-105 | `"  # Comment at level 1"` is a comment line |
| `IndentProperties.RootCommentLine` | src/indent.rs:101-105 | `"# Comment at root"` is a comment line |
| `IndentProperties.ExampleTwoSpaceText` | src/indent.rs:210-214 | `"root:\n  child: value\n"` gives `Indentation` of 2 spaces |
| `IndentProperties.ExampleFlatText` | src/indent.rs:238-242 | `"key: value\n"` gives no indentation |
| `IndentProperties.ExampleTabText` | src/indent.rs:110-118 | `"root:\n\tchild: value\n"` fails with the tab error |
| `IndentProperties.ExampleWithComments` | src/indent.rs:285-294 | the documented text with a leading empty line and comment lines at two depths gives 2 spaces |
| `IndentProperties.OneLineText` | src/indent.rs:97-127 | for a line `a` with no `'\n'` or `'\r'`, detection of `a + "\n"` fails exactly when `a` is tab-indented, and otherwise is the unit of its level |
| `IndentProperties.TwoLineText` | src/indent.rs:97-127 | for lines `a` and `b` with no `'\n'` or `'\r'`, detection of `a + "\n" + b + "\n"` fails exactly when one of them is tab-indented, and otherwise is the unit of their levels |
| `IndentProperties.TwoLines` | src/indent.rs:100 | for lines `a` and `b` with no `'\n'` or `'\r'`, `a + "\n" + b + "\n"` splits into the lines `a` and `b` |
| `Arith.DividesModStep` | src/indent.rs:197-201 | one step of Euclid's loop keeps the common divisors: `d` divides `a` and `b` exactly when it divides `b` and `a % b` |
| `Arith.GcdOfSnoc` | src/indent.rs:177-179 | one step of the gcd fold extends the gcd of a prefix to the gcd of the longer prefix |
| `Arith.GcdOneExtends` | src/indent.rs:180-184 | once a prefix has gcd 1 the whole list has gcd 1, which justifies the early exit |
| `Arith.GcdOfIsUnique` | src/indent.rs:176-185 | a greatest common divisor of a list is unique |
| `Arith.DividesAbsDiff` | src/indent.rs:157-159 | a common divisor of two levels divides their absolute difference |

## Left out

- `validate_yaml` (src/indent.rs:70-83) drives the libyaml event parser, which is not part of this model. Its outcome is the `gate` parameter (`Parsed` or `ParseFailed`) of `DetectIndentationSlice` and `DetectIndentation`.
- UTF-8 decoding (`std::str::from_utf8`) is not modelled. Its outcome is the `decoded` parameter of `DetectFromText`: `None` for bytes that do not decode, otherwise the decoded text as a sequence of Unicode scalar values.
- Error values are the three kinds `InvalidYaml`, `InvalidUtf8` and `TabIndentation`. Message strings, parser positions and the error type's other details are not modelled.
- Leading spaces are counted in characters, while the source counts bytes (`line.len()` minus the length after trimming). The two counts agree because only ASCII spaces are counted. For the same reason, the byte the tab test reads at index `leading_spaces` is a tab exactly when the character at that index is.
- `usize` arithmetic is modelled with unbounded `nat`. The source cannot overflow here: a difference or a gcd of levels never exceeds the largest level.
- `Indent.SortUnstableDedup`: models `sort_unstable` followed by `dedup` by its result, built in a fresh sequence. The in-place rearrangement of the vector is not modelled, and neither is the order of equal elements during sorting, which `dedup` removes.
- `Indent.FindIndentationUnit`: states the result only through `IsUnitResult`, the gcd characterisation. It does not restate the exact order in which the source visits the differences; the order does not change a gcd.
- The documentation comment of `detect_indentation` promises a unit of 2-9 spaces, and the comment at src/indent.rs:187 mentions a range. The code rejects only 0, so the model returns any unit `>= 1`, including 1 and values above 9.
- The only Unicode property modelled is the character class `White_Space` that `trim_start` uses. There is no normalisation or case folding.
- The source's `indent` field is a plain `usize`. The model gives it a positive type, because the only place that builds an `Indentation` (src/indent.rs:126) wraps a unit that src/indent.rs:188-192 has already checked is not 0.
