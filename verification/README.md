# pyline: records, word splitting and column sort

pyline runs a small command over every line of its input and gives back one
result record per line. This project models the part of pyline that its
test suite (`tests/test_pyline.py`) pins down. The implementation module is
not part of this model, so the test file's expectations define what is
modelled.

- **Record production.** Every input line becomes a context: the raw line,
  its words and its ordinal `i`. The command is evaluated against that
  context, and the value is wrapped in a record numbered by the line. The
  command is `line`, `words`, or a caller-supplied function of the context
  (`codefunc`).
- **Word splitting.** This is Python 2's `str.split()` with no separator,
  and the test helper `splitwords`, which applies it to every line of
  `str.splitlines()`.
- **Column sort** (`sort_asc` / `sort_desc`). This is a stable sort of the
  records by `result[column]`. Keys are compared as Python compares
  strings. Descending keeps equal-key records in input order, as
  `sorted(..., reverse=True)` does.
- **The test harness** (`assertTestIO`). The input text is cut with
  `splitlines(True)` and passed to `main`, and the `result` of every record
  is collected. The six-line dataset `a 5 320` … `f 0 300` and the outputs
  the tests expect of it are constants. Every `test_15_pyline_sort__*` case
  and `test_30_pyline_codefunc` are stated as lemmas.

Modules:

- `Wrappers` holds `Option` and `Result`.
- `Text` holds `split`, `splitlines`, `join`, `[::-1]` and `splitwords`.
- `LexOrder` is string `<=`.
- `StableSort` is a generic insertion sort by a string key, in either
  direction.
- `Pyline` covers contexts, evaluation, records, the column key, the sort
  and `main`.
- `Fixtures` holds the dataset and the scenarios.

## Model

| member | source | states |
|---|---|---|
| `Text.Split` | tests/test_pyline.py:76-77 | every word `split()` returns is non-empty and holds no whitespace |
| `Text.SplitKeepsContent` | tests/test_pyline.py:76-77 | `split()` drops exactly the whitespace: the words put back together are the line's non-whitespace characters in order |
| `Text.SplitEmptyIffBlank` | tests/test_pyline.py:76-77 | a line has no words exactly when it holds only whitespace |
| `Text.SplitMaximalRuns` | tests/test_pyline.py:76-77 | `split()` returns exactly the maximal runs of non-whitespace: any leading whitespace, then non-empty whitespace-free words separated by non-empty whitespace runs of any length, then any trailing whitespace, splits into exactly those words |
| `Text.SplitJoinRoundTrip` | tests/test_pyline.py:76-77 | non-empty whitespace-free words joined by single spaces, followed by any trailing whitespace, split back into the same words |
| `Text.SplitLinesRoundTrip` | tests/test_pyline.py:332-334 | the lines `splitlines(True)` gives, put back together, are the whole text: no character is lost or added |
| `Text.SplitLinesChomp` | tests/test_pyline.py:76-77 | `splitlines()` and `splitlines(True)` cut the text at the same places; each line without ends is the line with ends minus its one terminator |
| `Text.SplitLinesFirstLine` | tests/test_pyline.py:332-333 | a line ends at its first terminator, whether `\n`, `\r\n` or a lone `\r`: `splitlines` keeps that terminator whole with `keepends` and drops it without, and a `\r\n` is never cut in two |
| `Text.SplitLinesUnlines` | tests/test_pyline.py:43-49 | text written as break-free lines, each ended by a newline, splits back into those lines, without and with their newlines |
| `Text.SplitLinesJoin` | tests/test_pyline.py:69-71 | break-free lines joined by newlines split back into the same lines when the last line is not empty |
| `Text.SplitWordsUnlines` | tests/test_pyline.py:76-77 | `splitwords` of text written line by line gives exactly one word list per line, each the `split()` of that line |
| `Text.Reverse` | tests/test_pyline.py:69-71 | `[::-1]` has the same length as its input, and element `i` is the input's element `n-1-i` |
| `LexOrder.LexLeReflexive` | tests/test_pyline.py:61-67 | every string is `<=` itself |
| `LexOrder.LexLeAntisymmetric` | tests/test_pyline.py:61-67 | two strings each `<=` the other are equal |
| `LexOrder.LexLeTransitive` | tests/test_pyline.py:61-67 | string `<=` is transitive |
| `LexOrder.LexLeTotal` | tests/test_pyline.py:61-67 | of any two strings one is `<=` the other, so any list of keys can be ordered |
| `StableSort.SortByPermutes` | tests/test_pyline.py:129-163 | the sort only reorders: its output is a permutation of its input |
| `StableSort.SortBySorted` | tests/test_pyline.py:129-163 | the output is ordered by key in the requested direction |
| `StableSort.SortByStable` | tests/test_pyline.py:153-157 | for every key, the records with that key come out in their input order |
| `StableSort.InsertAt` | tests/test_pyline.py:129-163 | one insertion step puts the record directly after every record that must precede it and before the first that it may precede |
| `StableSort.SortByOfSorted` | tests/test_pyline.py:129-139 | sorting records already in order by the key leaves them unchanged |
| `StableSort.SortByTied` | tests/test_pyline.py:153-157 | when every record has the same key, sorting in either direction leaves the input unchanged |
| `StableSort.SortByUnique` | tests/test_pyline.py:147-151 | when keys are distinct, the output is the only arrangement of the input's records that is in key order |
| `StableSort.DescendingReversesAscending` | tests/test_pyline.py:159-163 | with distinct keys, descending order is exactly the reverse of ascending order |
| `Pyline.RecordsFrom` | tests/test_pyline.py:343-348 | there is one record per line, in input order: record `i` has ordinal `start+i` and holds the command's value on line `i` |
| `Pyline.Results` | tests/test_pyline.py:348 | `[x.result for x in output]` keeps the count and order of the records |
| `Pyline.Column` | tests/test_pyline.py:149-155 | `result[column]` exists exactly when the column is below the length of the result, whether that is a line or a word list |
| `Pyline.FirstMissing` | tests/test_pyline.py:149-155 | finds the first record that lacks the column, and finds none exactly when every record has it |
| `Pyline.SortRecords` | tests/test_pyline.py:129-163 | the sort succeeds exactly when every record has the column, and then returns a permutation of the records; otherwise it fails and names a record that lacks the column |
| `Pyline.Main` | tests/test_pyline.py:343-346 | without a sort `main` always succeeds; a successful run has one record per input line and holds the same records as the unsorted run |
| `Pyline.RecordsNumbered` | tests/test_pyline.py:343-348 | the ordinals are 0, 1, 2, … in input order, so they strictly increase |
| `Pyline.LineModeVerbatim` | tests/test_pyline.py:129-133 | with the command `line` and no sort, the results are the input lines verbatim, terminators included |
| `Pyline.WordsModeSplits` | tests/test_pyline.py:135-139 | with the command `words` and no sort, result `i` is the `split()` of line `i` |
| `Pyline.CodeFuncPerLine` | tests/test_pyline.py:420-427 | a `codefunc` is applied once per line, in order, to the line's context, and each record holds its value |
| `Pyline.SortedMainOrdered` | tests/test_pyline.py:129-163 | a sorted run returns the records of the unsorted run, ordered by the column key, with equal-key records in input order |
| `Pyline.SortedInputUnchanged` | tests/test_pyline.py:129-139 | a sorted run on records already in key order returns them unchanged |
| `Pyline.DescendingIsReversedAscending` | tests/test_pyline.py:159-163 | when every record has the column and no two share a value there, `sort_desc` is exactly the reverse of `sort_asc` |
| `Fixtures.RunTest` | tests/test_pyline.py:330-348 | the harness yields one result per line of `splitlines(True)` of the input, and never fails without a sort |
| `Fixtures.LinesA0AreRows` | tests/test_pyline.py:43-49 | every line of the dataset is its three words joined by single spaces, with no line break and no empty or whitespace-holding word |
| `Fixtures.SplitWordsOfInputA0` | tests/test_pyline.py:43-49 | `splitwords(TEST_INPUT_A0)` is the six three-word rows `a 5 320` … `f 0 300` |
| `Fixtures.ScenarioLineAsc0` | tests/test_pyline.py:129-133 | `line` mode sorted ascending by column 0 returns `TEST_OUTPUT_A0_SORT_ASC_0.splitlines(True)` |
| `Fixtures.ScenarioWordsAsc0` | tests/test_pyline.py:135-139 | `words` mode sorted ascending by column 0 returns `splitwords(TEST_OUTPUT_A0_SORT_ASC_0)` |
| `Fixtures.ScenarioWordsAsc1` | tests/test_pyline.py:141-145 | `words` mode sorted ascending by column 1 returns `splitwords(TEST_OUTPUT_A0_SORT_ASC_1)`, the order f, e, d, c, b, a |
| `Fixtures.ScenarioWordsAsc2` | tests/test_pyline.py:147-151 | `words` mode sorted ascending by column 2 returns `splitwords(TEST_OUTPUT_A0_SORT_ASC_2)`, the order d, c, f, b, a, e |
| `Fixtures.ScenarioLineAsc1` | tests/test_pyline.py:153-157 | `line` mode sorted ascending by column 1, where every key is a space, returns the input lines unchanged |
| `Fixtures.ScenarioWordsDesc2` | tests/test_pyline.py:159-163 | `words` mode sorted descending by column 2 returns `splitwords(TEST_OUTPUT_A0_SORT_DESC_2)`, the reverse of the ascending column-2 order |
| `Fixtures.ScenarioLineDesc1Tied` | tests/test_pyline.py:153-157 | no test runs this case: it follows from the modelled descending sort (a reversed comparator, stable like `sorted(..., reverse=True)`) applied to the tied column of :153-157. Sorting descending on the all-space column 1 returns the input unchanged, and that output differs from the reversed input |
| `Fixtures.ScenarioCodeFunc` | tests/test_pyline.py:420-427 | the `codefunc` `line[::-1]` maps `["one", "two"]` to `["eno", "owt"]` |

## Left out

- Regex mode and the `rgx` / `_rgx` names (tests/test_pyline.py:119-121, 389-397) are not modelled. They need Python's `re` engine, and no outcome of them is asserted.
- Arbitrary Python expressions as commands (`sorted(words)`, `w[:3]`, `len(words) > 2 and words`) are left out. A command is `line`, `words` or a total function of the line context. `test_10_pyline_pyline` only prints, so it asserts nothing more.
- Column-spec parsing (tests/test_pyline.py:432-453) is left out. The test only asserts that a generator is returned, so no grammar is pinned down.
- The command-line interface, the file reading, `-m` module import, the `-p` path mode, `stat`, and the csv/json/tsv/html/checkbox renderers (tests/test_pyline.py:357-418) are left out. Their source is not part of this model, and the test asserts no output.
- Multi-column sort keys (`-s 1,2`) and casts in the column spec are left out. Only a single column compared as a string is pinned by an assertion.
- `test_sort_by_001` (tests/test_pyline.py:455-467) is left out. It ends in an unconditional `raise`, and it sorts inside one record, which contradicts the record-level sort every other test exercises.
- The test scaffolding (temporary files, logging: tests/test_pyline.py:97-111) and the failure-message rendering (tests/test_pyline.py:204-320, `repr`, `pprint`, `difflib`) are left out. They are I/O and diagnostics only.
- The `uri` and `meta` fields of a result record are left out. No modelled test reads them, so a record is its ordinal `n` and its `result`.
- The in-place result list is left out. The test harness passes `results=output` and then reads the list that `main` fills in place (tests/test_pyline.py:345-346). The model has no mutable list: `Pyline.Main` returns the records as its result, and `Fixtures.RunTest` hands that value to the scenario lemmas, which compare it with the expected records.
- Generators are left out. `pyline` returns an iterator (tests/test_pyline.py:425), and the model returns the whole sequence, which the tests consume in full anyway.
- Giving both `sort_asc` and `sort_desc` at once is not modelled. A sort key carries exactly one direction, so the case cannot arise.
- `Pyline.SortRecords`: a record without the requested column yields `Failure(MissingColumn)` naming that record. The implementation's behaviour here is not visible; the commented-out test at tests/test_pyline.py:165-167 leaves it open whether it raises.
- `Pyline.Column`: in `line` mode the model takes the key of column `c` to be the one-character string `line[c]`, that is `result[c]` of a string result. The unchanged output that tests/test_pyline.py:153-157 expects for `sort_asc` `1` fits this reading, because every `line[1]` is a space and the keys all tie. It fits equally well a key that is the whole line, because the input is already sorted. The comment on line 155 (`line[2] == ' '`) names the wrong position: `line[2]` of `a 5 320` is `5`. So the test does not decide between the two readings.
- Result shapes and filtering are left out. A command's result is either a string or a list of strings. Other Python values are not modelled: `None`, `False`, numbers, tuples, dicts such as `{"n": i, ...}` at tests/test_pyline.py:394, and any exclusion sentinel. Any dropping of lines on such results is not modelled either; `len(words) > 2 and words` at :387 gives `False` for short lines. So every input line yields exactly one record. `Pyline.Main`'s one record per line and `Fixtures.RunTest`'s count rest on this. The tests that check outputs use only `line`, `words` and a string-returning `codefunc`.
- Whitespace is Python 2's byte-string set: space, `\t`, `\n`, `\r`, `\v` and `\f`. Line breaks for `splitlines` are `\n`, `\r` and `\r\n`. Unicode-only breaks and spaces are not modelled.
- The fixture texts are written as their lines, each followed by `\n`. That is exactly the content of the triple-quoted literals at tests/test_pyline.py:43-67.
