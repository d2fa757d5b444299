# matomail run collapsing, in Dafny

`matomail` reads log lines from standard input and collapses each group of
consecutive "identical" lines into one counted line. Two lines are identical
when they are equal. With `--pattern`, they are identical when they are equal
after every match of a regular expression has been replaced by `MASKED`.

The repository holds this logic twice.

- **The production loop** is in `main`. It tracks `prevLine`, `maskedPrevLine`,
  `count` and `isFirstLine`, and writes `(n) line` once a differing line
  closes a run. At end of input it writes the run still open.
- **Two reference helpers** are in the test suite. `runMatomailWithInput`
  compares lines exactly. `runMatomailWithInputAndPattern` compares their
  message types, the text after the second space. Both build the listing the
  tests expect, entry by entry:
  - a line that does not repeat stays bare;
  - a repeated line becomes `(1) first`, then `...` when the run has more than
    two lines, then `(n) line`.

The model is organised as follows.

- `Grouping` defines the runs both algorithms compute. `Runs` builds them one
  line at a time, as the loops do. `IsRunPartition` describes maximal runs
  declaratively. The two are proved to agree, and the description is proved
  to determine the runs uniquely.
- `Output` holds the records written and their text. `Decimal` stands for the
  `%d` of `"(%d) %s"`.
- `Matomail` holds the production loop, `Collapse`. It is a method with the
  loop's four variables, proved equal to `CollapsedOutput`: one record per
  maximal run of masked-equal lines.
- `ReferenceCompaction` holds the two helpers. Each is an index loop that
  rewrites the last entry of `result` in place. Each is proved equal to a
  listing function of the runs: `ExactCompaction` and `TypedCompaction`.
- `ListingProperties` states what the listings promise: pass-through,
  ellipsis, length, and how a single run is shown.
- `Agreement` relates the helpers to `main`. `Decode` reads a listing back
  into `(n) first` records, and the decoded listing equals what `main` writes.
- `Scenarios` checks the tests' expected outputs, and what `main` writes for
  the same inputs.

The repository describes its output in two places: the help text and the
tests' expected outputs. `main` matches only the first. The model follows
the code.

- The help text (src/main.go:115-117) promises a counter prefix such as `(3)`
  on repeated lines. The tests' expected outputs (src/main_test.go:27-31,
  55-58 and 100-102; main_test.go:22, 28 and 38) show a richer listing: bare
  lines, `(1)`, `...` and `(n)`.
- `main` resets `count` to 1 at src/main.go:79, so `count > 0` always holds at
  src/main.go:64 and 86. Every run, including a run of one line, is written as
  `(n) first line of the run`. The bare-line branch never runs, and `...` is
  never written. `main` thus keeps the help text's promise, but only the test
  helpers produce the listing the tests expect.
  `Scenarios.MainOnBasicInput` shows the difference on the basic test input.
- `runMatomailWithInput` handles a run still open at end of input differently
  from a closed run. It only replaces the last entry with `(n) line`, with no
  `(1)` and no `...`. The pattern helper shows such a run in full. The model
  keeps both behaviours as written.

## Model

| member | source | states |
|---|---|---|
| Grouping.Runs | src/main.go:57-81 | runs are non-empty, there are no more runs than lines, and there are none exactly when there is no input |
| Grouping.RunsArePartition | src/main.go:57-81 | the runs are maximal: they concatenate to the input in order, every line has its run's key, and adjacent runs have different keys |
| Grouping.RunsUnique | src/main.go:57-81 | any cut of the input into maximal runs is the one the loop computes |
| Grouping.OpenRunStep | src/main.go:57-80 | a line with the open run's key adds one to its count and keeps its first line; any other line closes it and opens a run of one starting with that line |
| Grouping.RunsGrowAtTheEnd | src/main.go:63-72 | reading more input never changes a closed run; the open run can only grow |
| Grouping.RunsDependOnlyOnEquivalence | src/main.go:57 | two key functions inducing the same equivalence give the same runs |
| Grouping.RunsAreSingletonsIff | src/main.go:57 | every run is a single line exactly when no two adjacent lines are equivalent |
| Output.Decimal | src/main.go:66 | the numeral of a count is non-empty, all digits, without a leading zero |
| Output.DecimalRoundTrip | src/main.go:66 | the numeral `%d` prints reads back as the count |
| Output.Render | src/main.go:66 | a bare line is printed verbatim and the ellipsis as `...`; a counted line is `(`, a non-empty numeral, then `) ` and the line unchanged, as `"(%d) %s"` formats it at src/main.go:66 and src/main_test.go:149, 155 and 161 |
| Output.CountedLineShowsCount | src/main.go:66 | a counted line is `(`, the numeral, `) `, then the line unchanged, and the numeral between the parentheses reads back as the count |
| Matomail.EquivalenceIsExactWithoutPattern | src/main.go:51-54 | without a pattern the mask is the identity, so equivalent means equal |
| Matomail.RepeatedLineIsOneRecord | src/main.go:57-59 | whatever the pattern, a line read twice in a row is one record `(2) line`, because a masked line always equals itself |
| Matomail.CollapseStep | src/main.go:57-81 | one loop step: an equivalent line writes nothing and extends the run; a differing line writes exactly `(count) prevLine` and restarts the count at 1 |
| Matomail.CollapseFlush | src/main.go:84-92 | at end of input the open run's record follows those already written |
| Matomail.Collapse | src/main.go:41-92 | the loop writes exactly one `(n) first line` record per maximal run of masked-equal lines, in input order |
| Matomail.TotalOfRunCounts | src/main.go:59 | the counts of the records add up to the number of lines read |
| Matomail.CollapsedOutputDescribesRuns | src/main.go:41-92 | no output exactly for no input; one record per maximal run, with its length and unmasked first line; counts at least 1 that sum to the input length; adjacent records not equivalent |
| Matomail.NoBareRecords | src/main.go:64-70 | every record carries a count of at least 1, so the bare-line branch is dead |
| Matomail.OneRecordPerLineIff | src/main.go:57-70 | without a pattern, the output is `(1) line` for every line exactly when no line repeats its predecessor |
| Matomail.WriteOnlyOnChange | src/main.go:57-72 | a line writes nothing while the run grows, and writes exactly the closed run when it differs |
| Matomail.WrittenRecordsAreFinal | src/main.go:63-72 | what has been written is a prefix of everything written later and of the final output |
| ReferenceCompaction.Block | src/main_test.go:153-161 | a run of one is its line bare; a longer run starts with `(1) first` and ends with `(count) last`, in two entries for a run of two and three otherwise |
| ReferenceCompaction.ShowRun | src/main_test.go:153-161 | the in-place rewrite turns the last entry into `(1) first`, adds `...` only for a count above 2, then `(count) last` |
| ReferenceCompaction.ExactCompaction | src/main_test.go:117-171 | the exact helper's listing is empty exactly for an input that is empty or one empty line |
| ReferenceCompaction.ExactScanFollowsRuns | src/main_test.go:140-168 | the exact loop's state after each line is the listing of the closed runs plus the open run |
| ReferenceCompaction.RunWithInput | src/main_test.go:117-171 | the helper returns the listing of the exact runs: closed runs as blocks, the last run bare or as `(n) line`, and nothing for empty input |
| ReferenceCompaction.GetMessageType | src/main_test.go:190-196 | the message type is never longer than the line, and when it differs from the line at least two characters (the two spaces) are gone |
| ReferenceCompaction.MessageTypeIsTail | src/main_test.go:190-196 | the message type is a tail of the line: the line with some leading characters dropped |
| ReferenceCompaction.MessageTypeAfterSecondSpace | src/main_test.go:190-196 | the message type of a line with two spaces is everything after the second one |
| ReferenceCompaction.MessageTypeWithoutTwoSpaces | src/main_test.go:190-196 | a line with fewer than two spaces is its own message type |
| ReferenceCompaction.TypedCompaction | src/main_test.go:174-246 | the typed helper's listing is empty exactly for an input that is empty or one empty line |
| ReferenceCompaction.TypedScanFollowsRuns | src/main_test.go:198-243 | `sameTypeLines` holds exactly the open run, and the listing holds the blocks of the closed runs |
| ReferenceCompaction.RunWithInputAndPattern | src/main_test.go:174-246 | the helper returns one block per run of equal message type, the last run included, and nothing for empty input |
| ListingProperties.BlockShape | src/main_test.go:153-161 | a block is bare only for one line, has an ellipsis only for more than two, and is never longer than its run |
| ListingProperties.ExactPassThroughIff | src/main_test.go:140-167 | the exact listing is the input unchanged exactly when no line repeats its predecessor |
| ListingProperties.TypedPassThroughIff | src/main_test.go:198-243 | the typed listing is the input unchanged exactly when no line has its predecessor's message type |
| ListingProperties.CompactionFitsInput | src/main_test.go:133-245 | neither listing has more entries than the input has lines |
| ListingProperties.ExactEllipsisIff | src/main_test.go:145-164 | the exact listing has `...` exactly when a run of more than two has been closed |
| ListingProperties.TypedEllipsisIff | src/main_test.go:210-236 | the typed listing has `...` exactly when some run, the last included, has more than two lines |
| ListingProperties.ExactOpenRunRendering | src/main_test.go:145-150 | a repeated line still open at end of input is listed as `(n) line` alone |
| ListingProperties.ExactClosedRunRendering | src/main_test.go:151-165 | n ≥ 2 equal lines closed by another line become `(1) x`, `...` if n > 2, `(n) x`, then the new line |
| ListingProperties.TypedOpenRunRendering | src/main_test.go:210-223 | a run of n ≥ 2 lines of one type at end of input becomes `(1) first`, `...` if n > 2, `(n) last` |
| ListingProperties.TypedClosedRunRendering | src/main_test.go:224-242 | the same run closed by a line of another type is followed by that line bare |
| Agreement.DecodeBlock | src/main_test.go:153-161 | a block decodes to the single record `(n) first` of its run, whatever precedes it |
| Agreement.ExactListingAgreesWithMain | src/main.go:41-92 | decoding the exact helper's listing gives exactly what `main` writes without a pattern |
| Agreement.TypedListingAgreesWithMain | src/main_test.go:174-246 | decoding the typed listing gives one record per message-type run; this is `main`'s output for any mask that identifies exactly same-type lines |
| Scenarios.TestBasicFunctionality | src/main_test.go:18-44 | `line1`, `(1) line2`, `...`, `(3) line2`, `line3` |
| Scenarios.MainOnBasicInput | src/main.go:41-92 | `main` writes `(1) line1`, `(3) line2`, `(1) line3` for the same input |
| Scenarios.RegexMessageTypes | src/main_test.go:49-52 | the three timestamped `ERROR` lines share a message type and the `INFO` line has another |
| Scenarios.TestRegexPattern | src/main_test.go:47-71 | `(1)` first `ERROR` line, `...`, `(3)` last `ERROR` line, then the `INFO` line |
| Scenarios.TestEmptyInput | src/main_test.go:73-91 | empty input gives an empty listing in both helpers and no output from `main` |
| Scenarios.TestSpecialCharacters | src/main_test.go:93-115 | a run of two gives `(1)` and `(2)` with no ellipsis, then the different line |

## Left out

- Flag parsing, `--help` and its text, and the `os.Exit` diagnostics on stderr are command-line glue.
- Compiling the pattern is left out, including the invalid-pattern exit. `ReplaceAllString` belongs to Go's regular-expression engine. The mask is a parameter: `Pattern` carries the replace-all operation as a function.
- Reading lines, buffered writing and `Flush` are I/O. Input is a finite sequence of lines and output the sequence of records in order. A read error from the scanner is not modelled.
- Matomail.Collapse: `count` is a Go `int` and is modelled as unbounded. A run longer than the platform's maximum integer is not modelled.
- Splitting the test input on newlines, joining the result, and trimming white space before comparing are not modelled. The helpers take their input already split into lines, and outputs are compared line by line.
- An empty input string means different things to the helpers and to `main`. In the helpers, `strings.Split` turns it into one empty line (`[""]`), and both helpers return an empty listing for it by the same guard (src/main_test.go:136 and 185). `main`'s scanner reads no line at all from it. The model follows the helpers' guard for the helpers and the scanner for `main`.
- ListingProperties.ExactPassThroughIff and ListingProperties.TypedPassThroughIff exclude the input `[""]`. That input is a single line, yet its listing is empty.
- Agreement.ExactListingAgreesWithMain and Agreement.TypedListingAgreesWithMain exclude the same input. For the helpers it is an empty input string, while `main` reads it as one empty line.
- ReferenceCompaction.RunWithInputAndPattern: the helper's `pattern` argument is never read, so the model omits it. Its equivalence is the message type, not the pattern.
- The commented-out code that would run the compiled binary is not modelled.
- The root-level `main_test.go` drives `newLineProcessor` and `ProcessLines`; `newLineProcessor` is not part of this model. Its basic case expects the same lines as `Scenarios.TestBasicFunctionality`.
