# csv-gpa in Dafny

A model of `cvs_gpa.py`, a command-line tool that reads a CSV file of
student records and prints their average GPA. The model covers its logic:

- **Header matching.** `normalize_header` trims a column name, lower-cases it, turns `-`
  and `_` into spaces and collapses whitespace. `find_gpa_column` picks the GPA column in
  two passes. The first pass looks for an exact match against `POSSIBLE_GPA_HEADERS`. The
  second looks for a normalized name containing `"gpa"`. The first match wins.
- **Value parsing.** `parse_gpa` turns an optional cell text into an optional GPA. It
  gives none for absent, blank or non-numeric text and for numbers outside
  [0.0, 5.0].
- **Aggregation.** `compute_average_gpa` validates the header row and finds the column.
  It then sums and counts the accepted values in one pass, skipping every rejected row,
  and divides. It fails with "no header row", "no GPA column" or "no valid GPA values".
- **Exit codes.** `main` maps each outcome to an exit status: 0, 2, 3 or 1.

Modules:

| module | file | models |
|---|---|---|
| `Wrappers` | wrappers.dfy | `Option` and `Result`, standing for `None` and raised `ValueError`s |
| `Text` | text.dfy | Python's `strip`, `lower`, `replace`, `split`, `" ".join` and substring `in`, over ASCII |
| `Headers` | headers.dfy | `POSSIBLE_GPA_HEADERS`, `normalize_header`, `find_gpa_column` |
| `Decimal` | decimal.dfy | the decimal numerals `float()` accepts, with a parser and a printer |
| `GpaValue` | gpa_value.dfy | `parse_gpa` and its sanity bounds |
| `Aggregate` | aggregate.dfy | the validation, the row loop and the mean of `compute_average_gpa` |
| `Cli` | cli.dfy | the outcome-to-exit-status mapping of `main` |

Design choices:

- **Inputs instead of the CSV reader.** The header list and the rows are inputs. The
  header list is `None` when the file has no header row. A row is a
  `map<string, Option<string>>`: the CSV reader gives a short row's missing columns no
  value. `row.get(col, "")` becomes `Cell`.
- **Exact arithmetic.** GPA values are `real`, so the running sum is exact.
- **Decimal grammar.** Numbers are read by a decimal grammar: an optional `+` or `-`,
  then digits with an optional `.` and fraction. At least one digit is required, so
  `3`, `3.5`, `3.` and `.5` are numbers.
- **Range-only contracts.** Where a contract says "in range", it means
  `MinGpa <= g <= MaxGpa` with the program's constants 0.0 and 5.0.
- **Three partners.** `Decimal.Render` prints numerals, which gives the parser a round
  trip. `Aggregate.Accepted` and `Aggregate.Sum` give the loop a reference definition:
  the values kept, in row order, and their sum. `Headers.IsNormal` describes the shape
  of a normalized header.

Two behaviours of the code a reader might not expect:

- An empty header list is not reported as "no header row". The code only checks for a
  missing header row (`is None`, cvs_gpa.py:80). So an empty list goes on to
  `find_gpa_column` and fails with "no GPA column".
- Two entries of `POSSIBLE_GPA_HEADERS`, `"grade_point_average"` and
  `"grade-point-average"`, can never match. The lookup compares the normalized header,
  which has no `_` or `-` (cvs_gpa.py:37). Headers spelled that way still match, through
  the entry `"grade point average"`. `Headers.ExactMatchUsesThreeSpellings` and
  `Headers.ListedSpellingsMatch` state both facts.

## Model

| member | source | states |
|---|---|---|
| Text.Strip | cvs_gpa.py:57 | the stripped text neither starts nor ends with whitespace |
| Text.StripPadded | cvs_gpa.py:57 | `strip` removes exactly the whitespace around text that does not start or end with whitespace |
| Text.StripIgnoresPadding | cvs_gpa.py:57 | adding whitespace on either side of a string does not change what `strip` returns |
| Text.Lower | cvs_gpa.py:27 | `lower()` keeps the length, turns each upper-case letter into its lower-case letter and leaves every other character unchanged |
| Text.Replace | cvs_gpa.py:27 | `replace(a, b)` keeps the length, turns every `a` into `b` and leaves every other character unchanged |
| Text.Join | cvs_gpa.py:27 | `" ".join` starts with the first word, followed by a space when there are more; `Text.SplitJoin` is its round trip with `split()` |
| Text.Contains | cvs_gpa.py:42 | `p in s`, by walking `s`; `Text.ContainsIffOccurs` states what it means |
| Text.ContainsIffOccurs | cvs_gpa.py:42 | `p in s` holds exactly when `p` occurs in `s` at some position |
| Text.TakeWord | cvs_gpa.py:27 | the first word is the longest whitespace-free prefix |
| Text.Split | cvs_gpa.py:27 | `split()` yields non-empty, whitespace-free words made of characters of the input, the first being the input's first word; the lemmas below pin the rest |
| Text.SplitSkipsSpace | cvs_gpa.py:27 | leading whitespace does not change the words |
| Text.SplitDropsTrailingSpace | cvs_gpa.py:27 | trailing whitespace does not change the words |
| Text.SplitOfWord | cvs_gpa.py:27 | a single word splits into exactly itself |
| Text.SplitWordThenSpace | cvs_gpa.py:27 | a word followed by any non-empty run of whitespace is the first word, and the rest splits on its own |
| Text.SplitJoin | cvs_gpa.py:27 | splitting words joined with single spaces gives back exactly those words |
| Headers.Fold | cvs_gpa.py:27 | lower-casing and the two `replace` calls keep the length, turn each upper-case letter into its lower-case letter and each `-` or `_` into a space, and leave every other character unchanged |
| Headers.Normalize | cvs_gpa.py:26-27 | a normalized header has no leading or trailing space, no two spaces in a row, no other whitespace, no `-` or `_`, and no upper-case letter |
| Headers.FoldedWords | cvs_gpa.py:27 | after lower-casing and replacing `-` and `_`, every word `split` yields is made of word characters |
| Headers.JoinNormal | cvs_gpa.py:27 | joining such words with single spaces gives a normalized header |
| Headers.SplitJoinNormal | cvs_gpa.py:27 | splitting a normalized header and re-joining it gives it back unchanged |
| Headers.NormalizeKeepsWords | cvs_gpa.py:26-27 | a normalized header has exactly the words of the lower-cased, `-`/`_`-replaced header, joined by single spaces: every whitespace run collapses to one space and the `strip` is redundant |
| Headers.FoldedWordsIgnorePadding | cvs_gpa.py:27 | the whitespace `strip` removes holds no words |
| Headers.NormalizeFixpoint | cvs_gpa.py:26-27 | `normalize_header(x) == x` exactly when x has the normalized shape |
| Headers.NormalizeIdempotent | cvs_gpa.py:26-27 | normalizing twice equals normalizing once |
| Headers.FirstIndex | cvs_gpa.py:36-38 | the first-match loop returns the earliest position that satisfies the test, or none when no position does |
| Headers.IsExactMatch | cvs_gpa.py:37 | the first-pass test; `Headers.ExactMatchUsesThreeSpellings` states which headers pass it |
| Headers.IsLooseMatch | cvs_gpa.py:42 | the second-pass test; `Headers.LooseMatchIffOccurs` states which headers pass it |
| Headers.LooseMatchIffOccurs | cvs_gpa.py:42 | the second pass accepts a header exactly when "gpa" occurs somewhere in its normalized form |
| Headers.FindGpaColumn | cvs_gpa.py:30-45 | a returned name is one of the headers and passes one of the two tests; the result is none exactly when no header passes either test |
| Headers.FirstIndexIsEarliest | cvs_gpa.py:36-43 | the earliest position satisfying the test is the one found |
| Headers.FindPrefersExactMatch | cvs_gpa.py:35-38 | the first header whose normalized form is listed wins, even over an earlier header that only contains "gpa" |
| Headers.FindFallsBackToSubstring | cvs_gpa.py:40-43 | with no listed spelling present, the first header whose normalized form contains "gpa" wins |
| Headers.ExactMatchUsesThreeSpellings | cvs_gpa.py:17-37 | the first pass accepts exactly the headers normalizing to "gpa", "gradepointaverage" or "grade point average"; the `_` and `-` entries are dead |
| Headers.ListedSpellingsMatch | cvs_gpa.py:17-38 | headers spelled like each listed entry, and "GPA", pass the first pass |
| Headers.NormalizeOfFolded | cvs_gpa.py:26-27 | text without surrounding whitespace whose folded form is normalized normalizes to that folded form |
| Decimal.LeadingDigits | cvs_gpa.py:62 | the digit run of a numeral is the longest all-digit prefix |
| Decimal.ParseNumeral | cvs_gpa.py:61-64 | every numeral the parser returns is well formed and prints back as exactly the input text |
| Decimal.ParseUnsigned | cvs_gpa.py:61-64 | the part after the sign is read as digits with an optional fraction, and prints back as exactly that part |
| Decimal.ParseRender | cvs_gpa.py:61-64 | every well-formed numeral is parsed back from its own text |
| Decimal.ParseDecimal | cvs_gpa.py:61-64 | a number is read only from the text of a well-formed numeral, and is that numeral's value |
| Decimal.ParseDecimalOfRender | cvs_gpa.py:61-64 | the text of every well-formed numeral is read as its value, so no numeral is rejected |
| Decimal.FractionTrailingZero | cvs_gpa.py:51 | a trailing zero in the fraction does not change the value (`3.50` denotes 3.5) |
| Decimal.WholePart | cvs_gpa.py:62 | a sanity check on the model's `Value` rather than source behaviour: the digits before the point are the integer part of the magnitude, and the fraction adds less than one |
| GpaValue.BoundsCheckAsWritten | cvs_gpa.py:66-68 | the check as written keeps a number exactly when it lies in range |
| GpaValue.BoundsCheckAdmitsNaN | cvs_gpa.py:66-68 | the check as written lets NaN through |
| GpaValue.BoundsCheck | cvs_gpa.py:66-70 | the intended check keeps exactly the numbers in [0.0, 5.0] |
| GpaValue.BoundsCheckDiffersOnlyOnNaN | cvs_gpa.py:66-68 | the intended and the written checks agree on everything but NaN |
| GpaValue.ParseGpa | cvs_gpa.py:48-70 | absent or blank input gives none; a returned value lies in [0.0, 5.0] and is the value of a numeral that is exactly the stripped text |
| GpaValue.StripOfBlank | cvs_gpa.py:57-59 | a blank cell strips to the empty string |
| GpaValue.RenderIsSolid | cvs_gpa.py:57-62 | a numeral's text neither starts nor ends with whitespace |
| GpaValue.ParseGpaOfNumeral | cvs_gpa.py:57-70 | a numeral, with any whitespace around it, gives its value when that lies in [0.0, 5.0] and none otherwise, so negatives and values above 5.0 are rejected |
| GpaValue.ParseGpaIgnoresPadding | cvs_gpa.py:51-57 | whitespace around the cell text never changes the result, for any text |
| GpaValue.ParseGpaIgnoresTrailingZero | cvs_gpa.py:51-62 | padding and a trailing zero in the fraction together never change the result: `' 3.50 '` gives what `'3.5'` gives |
| GpaValue.ParseGpaRejectsNonNumerals | cvs_gpa.py:61-64 | text whose stripped form is not a numeral gives none |
| Aggregate.Cell | cvs_gpa.py:91 | `row.get(gpa_col, "")`: the row's cell when the column is present, the empty text when it is not |
| Aggregate.Step | cvs_gpa.py:92-96 | one loop iteration; `Aggregate.StepAddsRow` states what it does |
| Aggregate.StepAddsRow | cvs_gpa.py:92-96 | one loop iteration adds exactly what the row contributes on its own: a rejected cell leaves total and count as they were, an accepted value raises the count by one and the total by the value |
| Aggregate.ParsedCells | cvs_gpa.py:91 | each row's GPA cell is passed through `parse_gpa`, one result per row, each present result in range |
| Aggregate.Accepted | cvs_gpa.py:89-96 | the accepted values are never more than the rows |
| Aggregate.Accumulate | cvs_gpa.py:89-99 | the count never exceeds the number of rows |
| Aggregate.AccumulateBounds | cvs_gpa.py:95-96 | when all accepted values are in range, the total lies between count * 0.0 and count * 5.0 |
| Aggregate.AccumulateConcat | cvs_gpa.py:89-99 | rows contribute independently: the aggregate of two stretches of rows is the sum of their aggregates |
| Aggregate.SkippedCellChangesNothing | cvs_gpa.py:92-94 | a rejected cell adds nothing, and the cells after it still count |
| Aggregate.MissingCellRejected | cvs_gpa.py:91 | a row lacking the column, a short row, or an empty or blank cell is rejected |
| Aggregate.SkippedRowChangesNothing | cvs_gpa.py:89-99 | a row whose cell is rejected changes neither total nor count, and later rows are still processed |
| Aggregate.AccumulateIsSumOfAccepted | cvs_gpa.py:89-99 | the loop's count is the number of accepted values and its total is their sum |
| Aggregate.SumConcat | cvs_gpa.py:95 | the sum of two stretches of values is the sum of their sums |
| Aggregate.AccumulatePermutation | cvs_gpa.py:89-99 | any reordering of the cells gives the same total and count |
| Aggregate.MapPermutation | cvs_gpa.py:89-91 | reordering the rows reorders their parsed cells the same way |
| Aggregate.MeanInRange | cvs_gpa.py:101-104 | a mean of in-range values is in range |
| Aggregate.ComputeAverage | cvs_gpa.py:80-104 | fails with "no header row" exactly when the header row is missing, and with "no GPA column" (carrying the headers) exactly when none is found. Fails with "no valid GPA values" exactly when no value is accepted; otherwise returns the sum of the accepted values divided by their number, a value in [0.0, 5.0] |
| Aggregate.FailureBeforeRows | cvs_gpa.py:80-87 | with no header row or no GPA column, the rows are not examined: any other rows give the same result |
| Aggregate.AverageIgnoresRowOrder | cvs_gpa.py:89-104 | the result is unchanged by any permutation of the rows |
| Aggregate.SumAndCount | cvs_gpa.py:89-99 | the single pass yields exactly the fold's total and count |
| Aggregate.ComputeAverageGpa | cvs_gpa.py:73-104 | the program's sequence of checks, loop and division computes exactly `ComputeAverage` |
| Cli.Run | cvs_gpa.py:120-132 | a printed average lies in [0.0, 5.0] |
| Cli.ExitCode | cvs_gpa.py:120-132 | every outcome maps to 0, 1, 2 or 3 |
| Cli.ExitCodeIdentifiesOutcome | cvs_gpa.py:120-132 | two outcomes share an exit status exactly when they are of the same kind |
| Cli.RunExitCodes | cvs_gpa.py:120-132 | once the `try` block of `main` is reached: status 0 exactly when an average is computed, 2 exactly when the file is missing, 3 exactly when the file is not UTF-8 (`UnicodeDecodeError` is a `ValueError`) or a check of `compute_average_gpa` fails, 1 exactly when reading fails in any other way |

## Findings

| source | as written | input that shows it | evidently intended | confidence | as-written member | corrected member |
|---|---|---|---|---|---|---|
| cvs_gpa.py:66-68 | the sanity check rejects only when `gpa < 0.0 or gpa > 5.0`, and both comparisons are false for NaN | a GPA cell reading `nan`: `float("nan")` is accepted, and the printed average becomes `nan` | reject every value outside [0.0, 5.0], NaN included | high in reasoning; not executed | GpaValue.BoundsCheckAsWritten (with GpaValue.BoundsCheckAdmitsNaN) | GpaValue.BoundsCheck (with GpaValue.BoundsCheckDiffersOnlyOnNaN), used by GpaValue.ParseGpa |

## Left out

- Opening the file, UTF-8-with-BOM decoding and CSV tokenization and quoting (cvs_gpa.py:77-78) are I/O and library code. The header list and the rows are inputs instead. `Cli.Input` says whether the file was missing, not UTF-8, unreadable for another reason, or read.
- Argument parsing, the default path `students.csv`, printing with `:.2f` and the stderr messages (cvs_gpa.py:107-132) are I/O and formatting. Only the outcome-to-exit-status mapping is modelled. `argparse` exits on its own before the `try` block is reached: with 0 on `--help`, and with 2 on a usage error such as two positional arguments. Those exits are outside `Cli.RunExitCodes`, which covers the `try` block only.
- IEEE floating point: the sum and the mean are exact reals, so rounding in the running sum and in the division is not modelled.
- The extra syntax of Python's `float()` is not modelled: exponents, `_` digit separators, `inf`, `nan` and non-ASCII digits. `GpaValue.Float` models NaN and infinities only to state the bounds check.
- `GpaValue.ParseGpa`: does not accept the exponent, `inf`/`nan` and `_`-separated forms `float()` accepts, because the decimal grammar leaves them out.
- `GpaValue.ParseGpa`: compares the exact value with the bounds, while `float()` first rounds to the nearest double. Rounding changes which cells pass near 0.0 and 5.0: `5.00000000000000001` rounds to 5.0 and is kept by the program but rejected here, and `-0.` followed by hundreds of zeros and a `1` underflows to `-0.0`, kept by the program but rejected here.
- Unicode-aware `lower()`, `strip()` and `split()` are modelled over ASCII only. Whitespace means Python's ASCII whitespace characters. Only `A`-`Z` are lower-cased. Other characters pass through unchanged.
- The per-row `except Exception` (cvs_gpa.py:97-99) has nothing to catch, since every step of the model is total.
- End-to-end examples such as `3.5` and `4.0` averaging to `3.75` are not stated as lemmas; evaluating the string functions on literal text is too costly for the verifier.
