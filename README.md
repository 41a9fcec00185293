# numcore in Dafny

A verified model of the `numcore` package (`src/numcore/__init__.py`). The package computes the "numeric core" of an integer or of a word.

- **Evaluator.** `calc_core_candidate` folds a list of integers strictly left to right with the operator tags `s` (subtract), `d` (true division) and `m` (multiply). There is no precedence. It accepts the result only when it is a positive integer.
- **Integer search.** `calc_numeric_core` writes `num` in decimal. It cuts the digits into four contiguous groups at every strictly increasing triple of gaps and evaluates each cut under the six orders of `s`, `d` and `m`, keeping the values the evaluator accepts. It takes the smallest, and searches again on it while it has more than three digits.
- **Word search.** `numeric_core_4letters` turns the letters of a word into their alphabet positions (1..26, either case). It evaluates them under the same six orders and takes the smallest accepted value. A minimum with more than three digits goes to the integer search.
- **Word to number.** `word_to_number` writes the letter positions of a word side by side and reads the result as one decimal number.

The modules follow the structure of the program:

| module | file | models |
|---|---|---|
| `Decimal` | decimal.dfy | `str(n)` and `int(s)` on decimal digit strings |
| `Rational` | rational.dfy | the evaluator's accumulator as an exact fraction |
| `Evaluator` | evaluator.dfy | `calc_core_candidate`: a loop over an exact accumulator, specified by a fold over exact reals |
| `Combinatorics` | combinatorics.dfy | `combinations(range(n), 3)` and `permutations("sdm", 3)` |
| `Partition` | partition.dfy | the gap flags and the splitting loop of `calc_numeric_core` |
| `Selection` | selection.dfy | what both searches share: the skipped exceptions and `min` |
| `Bounds` | bounds.dfy | every accepted value is at most the first number times a later one |
| `Search` | search.dfy | `calc_numeric_core`: its loops, its recursion and its termination |
| `Word` | word.dfy | `numeric_core_4letters` and `word_to_number` |

**Errors.** An exception caught inside a search becomes an error value: `Err(UnknownOperator)`, `Err(DivisionByZero)` or `Err(InvalidResult)`. `min` of an empty list becomes `Unsolvable`. This failure really happens: it is the outcome for every number below 1000 and for 1000 itself.

**Termination.** The recursion of `calc_numeric_core` has no bound in the source. The model proves that every accepted value is at least 1 and below `num` (`Search.LevelResultsBelow`), so each recursive call is on a smaller number. The argument is as follows:
- An accepted value is at most `a * y`, where `a` is the first group and `y` is a later group.
- `y` has fewer digits than the digits after the first group.
- So `a * y < num`.

**Imperative parts.** The three source loops are methods with loop invariants:
- the evaluator's loop over the zipped pairs;
- the splitting loop that walks the gap flags;
- the loops over cut triples and operator orders that append to `results`.

Each method is proved equal to a function. The properties are then proved about that function.

## Model

| member | source | states |
|---|---|---|
| Evaluator.CalcCoreCandidate | src/numcore/__init__.py:20-32 | The loop returns exactly the exact fold of the zipped pairs. The first unknown tag or division by zero is the error. A value that is not a positive integer is rejected. An accepted value is at least 1. |
| Evaluator.PairCount | src/numcore/__init__.py:21 | `zip` pairs as many numbers as the shorter of `numbers[1:]` and the operators allows. |
| Evaluator.FoldLastStep | src/numcore/__init__.py:21-27 | Strictly left to right, with no precedence: the fold of a list with one more pair at the end is that pair's step applied to the fold of the rest. |
| Evaluator.FoldFailsIff | src/numcore/__init__.py:21-29 | The fold fails exactly when some zipped pair has a tag outside s, d, m, or divides by a zero number. |
| Evaluator.FoldFirstError | src/numcore/__init__.py:21-29 | The reported error is the one of the first failing pair: division by zero for a known tag, unknown operator otherwise. |
| Evaluator.FoldNeverInvalid | src/numcore/__init__.py:21-29 | The loop itself never rejects a value; only the final test does. |
| Evaluator.CandidateOkIff | src/numcore/__init__.py:30-32 | The evaluator returns v exactly when v is at least 1 and the exact fold equals v. |
| Evaluator.CandidateInvalidIff | src/numcore/__init__.py:30-31 | "Invalid result" is raised exactly when the fold succeeds with a value that is not a positive integer. |
| Evaluator.ExampleNineThreeTwo | src/numcore/__init__.py:20-27 | `[9, 3, 2]` with `d`, `m` gives 6. |
| Evaluator.ExampleEightSixFourFive | src/numcore/__init__.py:30-31 | `[8, 6, 4, 5]` with `s`, `d`, `m` gives 2.5 (8 − 6 = 2, 2 / 4 = 0.5, 0.5 · 5 = 2.5) and is rejected. |
| Evaluator.ExampleExactDivision | src/numcore/__init__.py:24-31 | `[1, 49, 49, 0]` with `d`, `m`, `s` gives exactly 1 and is accepted; this is where the exact model and the source's floats part (see Left out). |
| Rational.Minus | src/numcore/__init__.py:22-23 | Subtracting from the fraction subtracts from its value. |
| Rational.Over | src/numcore/__init__.py:24-25 | Dividing the fraction by a non-zero number divides its value. |
| Rational.Times | src/numcore/__init__.py:26-27 | Multiplying the fraction multiplies its value. |
| Rational.ToInt | src/numcore/__init__.py:32 | `int(result)` of an integral fraction is its value. |
| Decimal.ParseDecimalString | src/numcore/__init__.py:44 | `int(str(n)) == n`. |
| Decimal.DecimalStringParse | src/numcore/__init__.py:44 | `str(int(s)) == s` for a digit string without a leading zero. |
| Decimal.AtMostThreeDigits | src/numcore/__init__.py:77 | `len(str(n)) > 3` exactly when n is at least 1000. |
| Combinatorics.Combinations3Facts | src/numcore/__init__.py:56 | The triples tried are exactly the strictly increasing gap triples, each once, C(n, 3) of them. |
| Combinatorics.BinomialSmall | src/numcore/__init__.py:56 | Fewer than three gaps give no triple. |
| Combinatorics.OperatorOrdersFacts | src/numcore/__init__.py:57 | There are six distinct orders, and they are exactly the permutations of s, d, m. |
| Combinatorics.OrderIsPermutation | src/numcore/__init__.py:57 | Every order tried uses s, d and m once each. |
| Combinatorics.PermutationOfSdm | src/numcore/__init__.py:57 | Every arrangement of s, d and m is tried. |
| Partition.GapFlags | src/numcore/__init__.py:61 | One flag per gap; for a cut, a gap is flagged exactly where the count of cut gaps passed goes up by one, the count the splitting loop relies on. |
| Partition.SplitAtGaps | src/numcore/__init__.py:61-69 | The splitting loop yields the values of the four groups the cut makes. |
| Partition.PiecesPartition | src/numcore/__init__.py:61-69 | A cut gives four non-empty digit groups. Put back together they are the digit string. Each group's value is `int` of its digits. |
| Partition.GroupValueParse | src/numcore/__init__.py:67-69 | Reading a group digit by digit equals `int(digits[lo:hi])`, leading zeros collapsing. |
| Partition.GroupValueSplit | src/numcore/__init__.py:67-69 | A range's value is its left part shifted by the length of its right part, plus the right part. |
| Partition.GroupAt | src/numcore/__init__.py:64-69 | Group m runs from the m-th flagged gap to the next one. |
| Partition.ExampleGroups86455 | src/numcore/__init__.py:48-55 | In 86455, the gaps 0, 1, 3 give the flags 1, 1, 0, 1 and the groups 8, 6, 45, 5. |
| Selection.ExpandMembership | src/numcore/__init__.py:70 | The candidates of one list of numbers are that list with each operator order. |
| Selection.SuccessesIff | src/numcore/__init__.py:70-75 | A value is in `results` exactly when some candidate evaluates to it. Every such value is at least 1. |
| Selection.SuccessesAppend | src/numcore/__init__.py:59-75 | The results of two runs of candidates in a row are the results of each, in order. |
| Selection.SuccessesSnoc | src/numcore/__init__.py:71-75 | Trying one more candidate appends its value if accepted and nothing if it raises. |
| Selection.NoneAccepted | src/numcore/__init__.py:71-74 | When every candidate raises, `results` stays empty. |
| Selection.MinOf | src/numcore/__init__.py:76 | `min(results)` is one of the results and no larger than any. |
| Selection.MinOfUnique | src/numcore/__init__.py:76 | Those two properties determine `min`. |
| Bounds.OrderedCandidateBound | src/numcore/__init__.py:20-32 | On four non-negative numbers, an accepted value is at most the first number times one of the later ones. |
| Bounds.GroupProductBelow | src/numcore/__init__.py:44-69 | The first group times any later group is below the number the digits spell. |
| Bounds.LaterGroupsBelow | src/numcore/__init__.py:61-69 | A later group is below ten to the number of digits after the first group. |
| Search.CalcNumericCore | src/numcore/__init__.py:35-79 | The search returns `NumericCore(num)`: the smallest accepted value, searched again while it has more than three digits, or `Unsolvable`. |
| Search.CollectResults | src/numcore/__init__.py:56-75 | After the loops, `results` holds the accepted values of the candidates in the order tried: each cut triple in turn, each with the six orders. |
| Search.TryOrders | src/numcore/__init__.py:70-75 | The loop over the orders appends to `results` the accepted values of the numbers under each order in turn. |
| Search.CandidatesMembership | src/numcore/__init__.py:56-75 | The candidates are exactly the groups of some gap triple under some operator order. |
| Search.CandidateHasCut | src/numcore/__init__.py:59-72 | Every candidate comes from one of the cut triples. |
| Search.CutHasCandidate | src/numcore/__init__.py:59-72 | Every cut triple with every order is a candidate. |
| Search.CandidateCount | src/numcore/__init__.py:56-75 | There are exactly 6 · C(digits − 1, 3) candidates. |
| Search.Example86455 | src/numcore/__init__.py:48-57 | 86455 has 24 candidates. |
| Search.LevelResultsBelow | src/numcore/__init__.py:76-78 | Every accepted value x satisfies 1 ≤ x < num, so the recursion terminates. |
| Search.AcceptedBelow | src/numcore/__init__.py:61-75 | An accepted candidate of any cut is below the number the digits spell. |
| Search.DigitsValue | src/numcore/__init__.py:44 | Reading all the digits of `str(num)` gives num back. |
| Search.ShortInputUnsolvable | src/numcore/__init__.py:56-76 | A number below 1000 has no candidates, so `min` fails. |
| Search.CoreBounds | src/numcore/__init__.py:76-79 | A core is at least 1, below the input, and has at most three digits. |
| Search.FinalLevel | src/numcore/__init__.py:76-79 | The number at which a successful search stops re-searching is no larger than the input. |
| Search.CoreIsLevelMinimum | src/numcore/__init__.py:76-79 | A core is `min` of the results at the final level, which lies on the chain of re-searches from the input (`OnChain`), and it has at most three digits. |
| Search.CoreOfCoreUnsolvable | src/numcore/__init__.py:76-79 | Searching again on a core finds nothing. |
| Search.ExampleThousand | src/numcore/__init__.py:56-76 | 1000 gives 1, 0, 0, 0; every order divides by zero, so there is no core. |
| Search.TrailingZerosDivide | src/numcore/__init__.py:21-29 | Groups a, 0, 0, 0 fail with a division by zero under every order. |
| Search.ExampleNineThreeOneTwo | src/numcore/__init__.py:35-79 | The core of 9312 is 1 (9 / 3 · 1 − 2). |
| Word.LetterCode | src/numcore/__init__.py:93 | A letter of either case gets its alphabet position: code n has the lowered letter as the n-th letter of a..z, so a/A is 1, z/Z is 26, and distinct letters get distinct codes. |
| Word.LetterCodes | src/numcore/__init__.py:93 | One number per character; at each letter it is that letter's alphabet position, whatever its case. |
| Word.NumericCore4Letters | src/numcore/__init__.py:91-103 | The word search returns `WordCore(letters)`: the smallest accepted value over the six orders, handed to the integer search if it has more than three digits. |
| Word.WordResultsPositive | src/numcore/__init__.py:94-99 | Every accepted value of the word search is at least 1. |
| Word.WordResultsBounded | src/numcore/__init__.py:93-99 | On four letters, every accepted value lies in 1..676. |
| Word.WordCoreIsMinimum | src/numcore/__init__.py:100-103 | On four letters, the core is v exactly when v is the least accepted value. There is no core exactly when nothing is accepted. |
| Word.WordCoreBounds | src/numcore/__init__.py:100-103 | A word's core has at most three digits, whichever way the search ends. |
| Word.WordCoreIgnoresCase | src/numcore/__init__.py:93 | Changing the case of letters does not change the core. |
| Word.ExampleZzzz | src/numcore/__init__.py:91-103 | The core of "zzzz" is 25. |
| Word.ZzzzResults | src/numcore/__init__.py:94-99 | On "zzzz" only the value 25 is accepted. |
| Word.ExampleAbcd | src/numcore/__init__.py:91-103 | "abcd" has no core. |
| Word.PythonInt | src/numcore/__init__.py:114 | `int` on a string of digits and minus signs, the only characters joined codes contain: it succeeds exactly on digits, or one minus sign and digits. Python's `int` also accepts surrounding whitespace, `+` and `_`, which cannot occur here and are not modelled. |
| Word.PythonIntString | src/numcore/__init__.py:110-114 | `int(str(n)) == n` for an integer of either sign. |
| Word.WordToNumber | src/numcore/__init__.py:106-114 | `word_to_number` as written: a result needs a non-empty word, and a negative result comes from a first character whose code is negative. |
| Word.WordToNumberChecked | src/numcore/__init__.py:110-114 | `word_to_number` with the check raising: every result is non-negative and is what the code as written returns. |
| Word.WordToNumberLetters | src/numcore/__init__.py:110-114 | On a non-empty word of letters, the result exists and is at least 1. Its decimal form is exactly the codes written side by side. The checked version agrees. |
| Word.JoinDigits | src/numcore/__init__.py:111 | Joining codes of letters gives a digit string without a leading zero. |
| Word.EmptyWordFails | src/numcore/__init__.py:114 | The empty word joins to "", on which `int` raises. |
| Word.CaretSlipsThrough | src/numcore/__init__.py:110-114 | For "^", the `isdigit` test fails, yet the function returns -2. |
| Word.CheckedRefinesAsWritten | src/numcore/__init__.py:112-114 | Raising on a failed `isdigit` test only removes outcomes. The ones it removes start with a minus sign and are not positive. |

## Left out

- `main` (src/numcore/__init__.py:117-140) is not modelled. That covers argument parsing, printing and the `chr` lookup. It also covers the CLI's own checks: a negative number, a word whose length is not 4, and skipping 0.
- Python floats: `/` gives a float, and `round(result) != result` is tested on it. The model computes the accumulator exactly, as a fraction, and differs from the source in two ways:
  - Rounding: `1/49*49` is 0.9999999999999999 in floating point. So the groups 1, 49, 49, 0 of 149490 under "dms" are rejected by the source but accepted with value 1 by the model (`Evaluator.ExampleExactDivision`).
  - Overflow: a float result beyond the double range (about 1.8e308), or an integer too large to convert to a float, raises `OverflowError`. The searches catch only `ZeroDivisionError` and `ValueError`, so the whole source search aborts, for inputs of roughly 300 digits or more. The model returns a core there instead.
- Integer search on a negative number: `str` would produce a minus sign. The model takes `num` as a natural number, the only kind the CLI passes on.
- `calc_core_candidate` on an empty list, where `numbers[0]` raises `IndexError`: the model requires a non-empty list. Both searches always pass four numbers, or one per letter.
- Word.NumericCore4Letters: requires a non-empty string. On an empty word the source raises `IndexError` inside the evaluator, which is not caught. The model is otherwise defined for any string, whatever its length.
- Word.LetterCode: `lower()` is modelled on ASCII only. Non-ASCII case mapping is not modelled. For letters the codes are 1..26; other characters are kept as the arithmetic gives them.
- Re-running the integer search on a core does not return the core: a core has at most three digits, so a second search has no gap triple and `min` fails (`Search.CoreOfCoreUnsolvable`).
- Search.Example86455: states only the count of 24 candidates, not the core of 86455. Evaluating all 24 candidates of a literal is beyond what the proofs here take on.

## Findings

| source | as written | input that shows it | evidently intended | confidence | as-written member | corrected member |
|---|---|---|---|---|---|---|
| src/numcore/__init__.py:112-113 | `ValueError(...)` is built when the joined string is not all digits, but never raised, so `int` runs regardless | `word_to_number("^")`: the code of '^' is -2, the joined string "-2" fails `isdigit`, and -2 is returned | raise the `ValueError`, so that only all-digit strings are converted | not executed | Word.WordToNumber | Word.WordToNumberChecked |
