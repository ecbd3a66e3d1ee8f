# Dividing head indexing, modelled in Dafny

A dividing head turns its spindle by one division when the crank makes
`worm_teeth / N` turns. `calculate_indexing` finds ways to make that crank
movement on an index plate:

- It takes the exact rational `worm_teeth / N` and splits it into whole turns
  and a remainder in `[0, 1)`.
- It derives three targets: Simple (the remainder), "Differential +"
  (remainder + diff_a/diff_b) and "Differential -" (remainder - diff_a/diff_b,
  only when diff_a is not zero).
- For each target and each plate it rounds `target * plate` half-to-even to a
  hole count `b`, skips `b == 0` and `b >= plate`, and keeps the record when
  the percentage error of `b/plate` is within `max_error`.
- It returns the kept records stably sorted by error.

The project has three modules:

- `Fractions` (fractions.dfy) models Python's `fractions.Fraction`: a
  numerator over a positive denominator. `Value` gives its exact meaning as
  a `real`. The module has the operations the search uses (construction
  with reduction by the gcd, `+`, `-`, scaling by an integer, `abs`, `<=`,
  floor division and `round`). Every result is proved to be in lowest terms.
- `Solutions` (solutions.dfy) models the result record and the final
  `sorted(results, key=error)`. The sort is an insertion sort proved sorted,
  a permutation, and stable on each error class. A uniqueness lemma shows
  that every stable sort by error gives this same sequence.
- `DividingHead` (dividing_head.dfy) models the search itself. Specification
  functions follow the code step by step: the turn split, the mode targets,
  the rounding, the per-plate candidate, and the two loops as folds. The
  method `CalculateIndexing`, with its inner loop `AppendPlateRecords`, runs
  the nested loops with `continue` and an accumulating list. It is proved to
  return exactly `Indexing`. Lemmas then state what the result contains and
  in which order. Worked scenarios pin down concrete outputs.

## Model

| member | source | states |
|---|---|---|
| Fractions.Make | dividing_head_app.py:8 | `Fraction(n, d)` for `d != 0` has the value `n/d` with a positive denominator |
| Fractions.MakeInLowestTerms | dividing_head_app.py:22 | the constructed fraction has numerator and denominator without common factor |
| Fractions.MakeLowestTerms | dividing_head_app.py:22 | a pair already in lowest terms with a positive denominator is kept unchanged |
| Fractions.MakeZero | dividing_head_app.py:14 | `Fraction(0, d)` is `0/1` for any non-zero `d` |
| Fractions.AddZero | dividing_head_app.py:14 | adding `Fraction(0, d)` to a reduced fraction returns that same fraction |
| Fractions.OperationsInLowestTerms | dividing_head_app.py:10-23 | results of integer conversion, `+`, `-`, integer scaling are reduced, and `abs` keeps a reduced fraction reduced |
| Fractions.FromInt | dividing_head_app.py:10 | the integer `k` as a fraction has value `k` |
| Fractions.Add | dividing_head_app.py:14 | the sum's value is the sum of the values |
| Fractions.Sub | dividing_head_app.py:10 | the difference's value is the difference of the values |
| Fractions.MulInt | dividing_head_app.py:19 | `frac * plate` has the value of the product |
| Fractions.Abs | dividing_head_app.py:23 | the value of `abs` is the absolute value |
| Fractions.Le | dividing_head_app.py:24 | the comparison holds exactly when the first value is at most the second |
| Fractions.Floor | dividing_head_app.py:9 | `numerator // denominator` is the greatest integer not above the value |
| Fractions.Round | dividing_head_app.py:19 | `round` is within one half of the value, and even on an exact tie |
| Fractions.RoundIsNearest | dividing_head_app.py:19 | no integer is nearer to the value than `round` of it |
| Fractions.RoundUnique | dividing_head_app.py:19 | any integer within one half of the value that is even on a tie equals `round` |
| Fractions.RoundCases | dividing_head_app.py:19 | comparing twice the remainder with the denominator decides below, at, or above one half |
| Solutions.WithErrorMembers | dividing_head_app.py:27 | a record is in the error class `e` of a list exactly when it is in the list with error `e` |
| Solutions.WithErrorAppend | dividing_head_app.py:27 | the error class of a concatenation is the concatenation of the classes |
| Solutions.Insert | dividing_head_app.py:27 | inserting into a sorted list keeps it sorted, adds exactly the record, and places it after its equal-error peers |
| Solutions.SortByError | dividing_head_app.py:27 | `sorted(..., key=error)` is sorted by error, a permutation of its input, and keeps each error class in input order |
| Solutions.FirstKeysAgree | dividing_head_app.py:27 | two lists sorted by error with the same error classes start with the same error |
| Solutions.HeadsAgree | dividing_head_app.py:27 | with equal first errors and equal classes, the first records agree and so do the classes of the rests |
| Solutions.SortUnique | dividing_head_app.py:27 | two lists sorted by error with the same error classes in the same order are equal |
| Solutions.StableSortIsSortByError | dividing_head_app.py:27 | any sorted, class-preserving rearrangement of the input is `SortByError` of it, so the algorithm does not matter |
| DividingHead.TurnSplit | dividing_head_app.py:8-10 | `full_turns <= worm_teeth/N < full_turns + 1`, `0 <= frac_part < 1`, and `full_turns + frac_part = worm_teeth/N` exactly |
| DividingHead.ModeTarget | dividing_head_app.py:13-15 | Simple aims at `frac_part`, "Differential +" at `frac_part + diff_a/diff_b`, "Differential -" at `frac_part - diff_a/diff_b` |
| DividingHead.ModeList | dividing_head_app.py:13-15 | definition of the list the outer loop walks; its entries are stated in `ModeListEntries` |
| DividingHead.ModeListEntries | dividing_head_app.py:13-17 | the mode list has three entries; entry `i` holds mode `i` with its target, or the skipped placeholder for "Differential -" when `diff_a = 0` |
| DividingHead.HoleCount | dividing_head_app.py:19 | `b` is within one half of `target * plate`, and even on an exact tie |
| DividingHead.PercentError | dividing_head_app.py:23 | definition of the exact error `100 * abs(b/plate - target)`; `Candidate` and `IndexingRecords` state that every record carries it and that it is within the tolerance |
| DividingHead.Candidate | dividing_head_app.py:19-25 | a record comes out exactly when `b != 0`, `b < plate` and the error is within the tolerance; it carries the mode, plate, `b`, the fraction of value `b/plate`, the error `100 * abs(b/plate - target)` and `full_turns` |
| DividingHead.CandidateInLowestTerms | dividing_head_app.py:22 | the fraction a record carries is in lowest terms |
| DividingHead.Keep | dividing_head_app.py:18-25 | the plate loop appends at most one record per plate |
| DividingHead.KeepMembers | dividing_head_app.py:18-25 | a record is appended exactly when the loop body yields it for some plate |
| DividingHead.KeepAppend | dividing_head_app.py:18 | the loop over `a + b` appends the records of `a`, then those of `b` |
| DividingHead.KeepThree | dividing_head_app.py:18 | the loop over three plates appends what each plate yields, in order |
| DividingHead.KeepNothing | dividing_head_app.py:18-21 | a body that skips every plate appends nothing |
| DividingHead.KeepRelabel | dividing_head_app.py:18-25 | bodies that differ only in the mode label append the same records, relabelled |
| DividingHead.GatherMembers | dividing_head_app.py:13-17 | a record is collected exactly when the plate loop of some listed, non-skipped target produces it |
| DividingHead.GatherLength | dividing_head_app.py:13-17 | with at most `k` records per target, the mode loop collects at most `|modes| * k` |
| DividingHead.GatherThree | dividing_head_app.py:13-17 | the three-entry mode list collects its entries' records in list order |
| DividingHead.CollectPlates | dividing_head_app.py:18-25 | definition of the inner loop as a fold over the plates; its properties are proved in `CollectPlatesMembers`, `SameTargetSameRecords`, `ZeroTargetNoRecords` and `AppendPlateRecords` |
| DividingHead.CollectModes | dividing_head_app.py:13-25 | definition of the outer loop as a fold over the mode list; its properties are proved in `CollectModesMembers` and `CollectModesLength` |
| DividingHead.Collected | dividing_head_app.py:11-25 | definition of `results` before sorting; its properties are proved in `CollectedByMode` and `DiffAZeroCopies` |
| DividingHead.Indexing | dividing_head_app.py:7-27 | definition of the returned list; its properties are proved in `IndexingMembers`, `IndexingRecords`, `IndexingComplete`, `IndexingLength`, `ZeroToleranceExact` and `TiesKeepLoopOrder` |
| DividingHead.CollectModesLength | dividing_head_app.py:13-25 | each mode adds at most one record per plate |
| DividingHead.CalculateIndexing | dividing_head_app.py:7-27 | the nested loops with `continue`, followed by the sort, return exactly `Indexing` |
| DividingHead.AppendPlateRecords | dividing_head_app.py:18-25 | the inner loop extends the list by exactly the plate records of its target |
| DividingHead.CollectPlatesMembers | dividing_head_app.py:18-25 | a record is in a mode's plate records exactly when the candidate of some plate is that record |
| DividingHead.CollectModesMembers | dividing_head_app.py:13-25 | a record is collected exactly when some present mode-list entry's plate loop produces it |
| DividingHead.IndexingMembers | dividing_head_app.py:13-27 | a record is returned exactly when the plate loop of some visited mode produces it |
| DividingHead.IndexingRecords | dividing_head_app.py:13-27 | every returned record has a visited mode and a listed plate, is that pair's candidate, satisfies `b != 0` and `b < plate`, carries the reduced fraction `b/plate` and the exact percentage error within the tolerance, and carries `full_turns` |
| DividingHead.IndexingComplete | dividing_head_app.py:13-27 | a (mode, plate) pair has a record in the result exactly when the plate is listed, the mode is visited and the pair passes the guard and the tolerance; that candidate is then returned |
| DividingHead.IndexingLength | dividing_head_app.py:13-27 | at most `3 * len(plates)` records are returned |
| DividingHead.ZeroToleranceExact | dividing_head_app.py:23-24 | with `max_error = 0` every record's fraction equals its mode's target exactly |
| DividingHead.ModeRecords | dividing_head_app.py:13-25 | definition of one mode's records, empty for a skipped mode; its properties are proved in `CollectedByMode`, `TiesKeepLoopOrder` and `DiffAZeroCopies` |
| DividingHead.CollectedByMode | dividing_head_app.py:13-25 | before sorting, the list holds the Simple records, then "Differential +", then "Differential -" |
| DividingHead.TiesKeepLoopOrder | dividing_head_app.py:27 | records of equal error come out in loop order: Simple, then "Differential +", then "Differential -", each in plate order |
| DividingHead.CandidateRelabel | dividing_head_app.py:19-25 | the mode label takes no part in a candidate's arithmetic |
| DividingHead.SameTargetSameRecords | dividing_head_app.py:18-25 | two modes with equal targets produce the same records up to the label |
| DividingHead.DiffAZeroCopies | dividing_head_app.py:13-17 | with `diff_a = 0` there are no "Differential -" records and the "Differential +" records are copies of the Simple ones |
| DividingHead.ZeroTargetNoCandidate | dividing_head_app.py:19-21 | a zero target rounds to `b = 0` on any plate and is skipped |
| DividingHead.ZeroTargetNoRecords | dividing_head_app.py:18-21 | a zero target yields no record on any plate |
| DividingHead.ExactQuotient | dividing_head_app.py:8 | helper for `IntegralTurns`: an exact integer quotient is also the exact rational quotient |
| DividingHead.IntegralTurns | dividing_head_app.py:8-10 | when N divides `worm_teeth`, `full_turns = worm_teeth / N` and `frac_part = 0` |
| DividingHead.IntegralTurnsNoSimple | dividing_head_app.py:8-25 | with a whole number of turns there are no Simple records, and with `diff_a = 0` the result is empty |
| DividingHead.SeventyThreeDivisions | dividing_head_app.py:8-10 | N = 73 with 40 worm teeth gives no whole turn and the remainder exactly 40/73 |
| DividingHead.SeventyThreePlate20 | dividing_head_app.py:19-25 | on plate 20 the 40/73 target gives `b = 11`, fraction 11/20 and error 15/73 %, which is kept at 0.5% |
| DividingHead.SeventyThreePlate21 | dividing_head_app.py:19-24 | on plate 21 the record misses the 0.5% tolerance |
| DividingHead.SeventyThreePlate24 | dividing_head_app.py:19-24 | on plate 24 the record misses the 0.5% tolerance |
| DividingHead.SeventyThreePlates | dividing_head_app.py:18-25 | over plates 20, 21 and 24 only the plate-20 Simple record is appended |
| DividingHead.SeventyThreeResult | dividing_head_app.py:7-27 | the whole call for N = 73, plates 20, 21, 24, `diff_a = 0`, `diff_b = 1` and 0.5% returns the plate-20 record as Simple and then as "Differential +" |
| DividingHead.NegativeHoleCount | dividing_head_app.py:8-25 | for N = 3 and a/b = 1/2, "Differential -" aims at -1/6; on plate 12 it yields `b = -2`, which the guard keeps |

## Left out

- The Streamlit page (dividing_head_app.py:29-61): its sidebar inputs, the button, the messages and the table display are presentation and I/O. The input ranges in lines 33-37 are not imposed as preconditions. The model demands only `N != 0` and `diff_b != 0`, the two cases where the code raises on a zero denominator.
- The pandas table and CSV download (dividing_head_app.py:52-53, 60-61): a foreign library and file encoding.
- The best-result summary (dividing_head_app.py:57): float formatting with `:.4f`.
- Candidate: the error is the exact rational `100 * abs(b/plate - target)`. The source converts the difference to a binary float before multiplying by 100, compares that float with `max_error`, and stores it. Near the tolerance, or between nearly equal errors, the float can decide differently than the exact value does.
- SortByError: sorts on the exact error instead of its float image. Records whose float errors tie but whose exact errors differ can come out in another order.
- `max_error` is an exact fraction. The page passes a float set in steps of 0.01, so most of those values are not exactly representable.
- `str(actual_frac)` (dividing_head_app.py:25): a record carries the reduced fraction itself, not Python's `"num/den"` string.
- Default arguments (dividing_head_app.py:7): `worm_teeth=40`, `diff_a=0`, `diff_b=1` and `max_error=100` are call-site conveniences. The model takes every argument explicitly.
- Determinism needs no lemma. `Indexing` is a function of its arguments and `CalculateIndexing` is proved equal to it, so equal inputs give equal outputs.
- Python's sort is Timsort, not insertion sort. `StableSortIsSortByError` shows that any stable sort by the same key gives the same list.
- The constant plate list (dividing_head_app.py:39-40) is test data. The unused `gcd` import (line 4) plays no part.

Edge cases of the code that the model keeps as written:

- The `if diff_a != 0` on line 15 guards only the third entry of the mode list. With `diff_a = 0` the "Differential +" target is still built, and every Simple record appears again under that label (`DiffAZeroCopies`, `SeventyThreeResult`).
- The guard on line 20 rejects only `b == 0` and `b >= plate`. A negative `b`, which the "Differential -" target can produce, is kept (`NegativeHoleCount`).
- The code validates no input. A zero `N` or `diff_b` raises in `Fraction`; those two cases are the model's only preconditions. Every other input runs through the same loops.
- Rounding on line 19 is `Fraction.__round__`: the nearest integer to the exact product, ties to even.
