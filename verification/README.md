# exposicion-acustica: row-count rule, series reducers, quadrature and error table

This project models the numerical core of *exposicion-acustica*. That tool
integrates a sampled noise-level series. It uses three quadrature rules: the
trapezoid rule, Simpson 1/3 and Simpson 3/8. It then compares the two
Simpson results against a reference value.

Before integrating, the tool can shrink a series to an admissible length of
the form 25 + 6k. It does so either by truncating the series or by first
dropping a percentage of rows at even spacing. An admissible length is
always odd and always of the form 3k + 1. So on an equally spaced axis, a
series of admissible length at least 7 gets a value from all three rules.
The admissible length 1 is the exception: a 6-row frame truncates to 1 row,
and every rule rejects a single point.

The model has one Dafny module per source file:

- `RowCount` models `max_filas_validas`, which gives the largest count of the form 25 + 6k that is at most n.
- `Truncation` models `truncar_a_25_6k`. The frame becomes a sequence of rows. The result is either "not truncated" (the source returns `False`) or the rows written out.
- `Reduction` models `quitar_porcentaje_homogeneo`. This covers the step 100/(100 − p), the index comprehension with `int()` truncation, the row selection and the final `head`.
- `Quadrature` models `trapezoidal_rule`, `simpson_1_3_rule` and `simpson_3_8_rule`. Each rule checks its conditions in the source's order and fails with the matching `RuleError` instead of raising `ValueError`.
- `Integration` models `calcular_metodos_integracion`. The result dict is modelled as its items in insertion order. A failed Simpson rule is recorded as `None`.
- `RelativeErrors` models `calcular_errores`. It walks the items in order, skips "Trapecios", and writes `m` and `m + "_pct"` into a map.
- `Pipeline` holds the lemmas that connect the modules.
- `Wrappers` defines `Option` and `Result`.

Floating point is modelled by exact `real`. Under that model, `np.allclose(dx, dx[0])` becomes exact equality of all consecutive differences.

Points where the model takes a position on what the code does:

- `calcular_errores` (src/integration/errors.py:20-27) divides by the reference exactly as it is given. It has two parameters. main.py:74 calls it with three arguments, which that signature does not accept. main.py is not part of this model.
- src/integration/errors.py:22 skips only the "Trapecios" entry. A `None` that calculations.py:35 or :40 leaves for a failed Simpson rule reaches the subtraction at errors.py:23. Python raises `TypeError` there, and the model returns `Failure(MissingValue(name))` instead.
- src/utils/validations.py:18-19 has no lower guard. So `max_filas_validas(24)` is 19, and truncate.py:39 cuts a 24-row frame to 19 rows.
- src/utils/remove_percentage.py:31 accepts p = 100. Line 38 then divides by 100 − p = 0. The model returns `Failure(ZeroDivision)` for that case.
- main.py:37 and :95 use a `mejor_metodo` that none of the shown files defines. There is no method selection in the model.

## Model

| member | source | states |
|---|---|---|
| RowCount.MaxValidRows | src/utils/validations.py:18-19 | the result has the form 25 + 6k, is at most n and lies within 6 of n; for n ≥ 1 it is at least 1 |
| RowCount.MaxValidRowsIsLargest | src/utils/validations.py:18-19 | every count of the form 25 + 6k that is at most n is at most the result |
| RowCount.MaxValidRowsFixedIff | src/utils/validations.py:18-19 | the result equals n exactly when n already has the form 25 + 6k, and it reaches n only then |
| RowCount.MaxValidRowsIdempotent | src/utils/validations.py:18-19 | applying the rule to its own result changes nothing |
| RowCount.MaxValidRowsSmallCounts | src/utils/validations.py:18-19 | the result is at least 25 exactly when n is; 30 maps to 25, 31 to 31, 24 to 19 and 0 to −5 |
| RowCount.AdmissibleFitsSimpson | src/utils/validations.py:18-19 | every count of the form 25 + 6k is odd and of the form 3k + 1 |
| Truncation.Truncate | src/utils/truncate.py:32-45 | nothing is written exactly when the row count already has the form 25 + 6k; otherwise the rows written are a proper prefix, with an admissible length, shorter by at most 5 |
| Truncation.TruncateKeepsMaxPrefix | src/utils/truncate.py:33-39 | the written rows are the first `max_filas_validas(n)` rows |
| Truncation.TruncateIdempotent | src/utils/truncate.py:32-37 | truncating an already truncated frame writes nothing |
| Truncation.TruncateShortFrames | src/utils/truncate.py:32-45 | frames of 1, 7, 13 and 19 rows are left alone; a frame of 24 rows is cut to its first 19 |
| Reduction.Int | src/utils/remove_percentage.py:39 | `int()` truncates toward zero: for v ≥ 0 the result k satisfies k ≤ v < k + 1, and for v < 0 it satisfies k − 1 < v ≤ k |
| Reduction.Step | src/utils/remove_percentage.py:38 | for 0 ≤ p < 100 the step is at least 1 and step·(100 − p) = 100 |
| Reduction.RangeLengthIsSelectedCount | src/utils/remove_percentage.py:39 | `int(n / step)` equals ⌊n·(100 − p)/100⌋, lies in [0, n], and that many steps fit in n |
| Reduction.SampleIndexBounds | src/utils/remove_percentage.py:39 | every index produced inside the range is below n, so the filter never drops one |
| Reduction.SampleIndexIncreasing | src/utils/remove_percentage.py:38-39 | the first index is 0 and the indices strictly increase |
| Reduction.IndicesInRange | src/utils/remove_percentage.py:39 | every index in the comprehension is in [0, n) |
| Reduction.IndicesExact | src/utils/remove_percentage.py:39 | the comprehension has exactly one entry per range element, the i-th being `int(i·step)` |
| Reduction.RemovePercentage | src/utils/remove_percentage.py:31-43 | fails with the range error exactly when p is outside [0, 100] and with division by zero exactly when p = 100; otherwise returns an admissible non-empty series of length `max_filas_validas` of the selected count, sampled at `int(i·step)` |
| Reduction.ReductionStartsAtFirstRow | src/utils/remove_percentage.py:38-41 | every reduced series, including a one-row one, is non-empty and starts with the first source row |
| Reduction.ReductionIsOrderedSample | src/utils/remove_percentage.py:38-41 | the reduced series has `max_filas_validas` of the selected count rows, and its rows come from strictly increasing source positions in range |
| Reduction.RemoveNothing | src/utils/remove_percentage.py:38-43 | removing 0 % keeps exactly the first `max_filas_validas(n)` rows |
| Quadrature.Trapezoid | src/integration/metods.py:25-30 | a length mismatch and fewer than 2 points give their own errors, each exactly when it applies; otherwise a value is returned |
| Quadrature.TrapezoidTelescopes | src/integration/metods.py:30 | when each segment equals the increase of some f across it, the trapezoid sum equals f's increase end to end |
| Quadrature.TrapezoidExactForLinear | src/integration/metods.py:30 | on any grid, data on a line integrate to the exact integral of that line |
| Quadrature.TrapezoidConstant | src/integration/metods.py:30 | a constant c on an equally spaced grid integrates to c·(n − 1)·h |
| Quadrature.Simpson13BracketIsPanels | src/integration/metods.py:69-70 | the slice formula `y[0] + y[-1] + 4·Σy[1:-1:2] + 2·Σy[2:-1:2]` equals the panel-by-panel sum of `y[2j] + 4y[2j+1] + y[2j+2]` |
| Quadrature.Simpson13 | src/integration/metods.py:56-70 | length mismatch, fewer than 3 points, an even point count and uneven spacing fail in that order; a value is returned exactly when none applies, and it is h/3 times the panel sum |
| Quadrature.Simpson13Constant | src/integration/metods.py:69-70 | a constant c integrates to c·(n − 1)·h |
| Quadrature.PanelExactForQuadratic | src/integration/metods.py:70 | one Simpson 1/3 panel integrates a parabola exactly |
| Quadrature.Simpson13Telescopes | src/integration/metods.py:69-70 | when each scaled panel equals the increase of f across it, the rule returns f's increase end to end |
| Quadrature.Simpson13ExactForQuadratic | src/integration/metods.py:56-70 | on an admissible grid, samples of a parabola integrate to the exact integral |
| Quadrature.Dot38IsPanels | src/integration/metods.py:110-116 | the coefficient vector 1, 3, 3, 2, …, 3, 3, 1 dotted with y equals the panel-by-panel sum of `y[3j] + 3y[3j+1] + 3y[3j+2] + y[3j+3]` |
| Quadrature.Simpson38 | src/integration/metods.py:96-116 | length mismatch, fewer than 4 points, a point count not of the form 3k + 1 and uneven spacing fail in that order; a value is returned exactly when none applies, and it is 3h/8 times the panel sum |
| Quadrature.Simpson38Constant | src/integration/metods.py:110-116 | a constant c integrates to c·(n − 1)·h |
| Quadrature.PanelExactForQuadratic38 | src/integration/metods.py:116 | one Simpson 3/8 panel integrates a parabola exactly |
| Quadrature.Simpson38Telescopes | src/integration/metods.py:110-116 | when each scaled panel equals the increase of f across it, the rule returns f's increase end to end |
| Quadrature.Simpson38ExactForQuadratic | src/integration/metods.py:96-116 | on an admissible grid, samples of a parabola integrate to the exact integral |
| Quadrature.WorkedExamples | src/integration/metods.py:25-116 | the trapezoid rule on y = x + 1 over [0, 2] gives 4; Simpson 1/3 on y = x² gives 8/3; 4 points fail the parity check and 5 points fail the 3k + 1 check |
| Integration.IntegrateAll | src/integration/calculations.py:29-42 | the call fails exactly when the trapezoid rule does, with its error; otherwise the keys are "Trapecios", "Simpson 1/3" and "Simpson 3/8" in that order, the trapezoid entry holds its value, and each Simpson entry is `None` exactly when that rule fails and holds the rule's value otherwise |
| Integration.AdmissibleSeriesHasEveryMethod | src/integration/calculations.py:29-40 | an equally spaced series of admissible length ≥ 7 gets a value from every method |
| Integration.EvenSeriesLosesSimpson13 | src/integration/calculations.py:31-35 | with an even point count the "Simpson 1/3" entry is `None` and the call still succeeds |
| Integration.ConstantSeriesAgree | src/integration/calculations.py:29-42 | on a constant admissible series all three entries hold c·(n − 1)·h |
| RelativeErrors.RelativeError | src/integration/errors.py:23 | the error is non-negative, is zero exactly when the value equals the reference, and times \|ref\| gives \|v − ref\| |
| RelativeErrors.ErrorsFromFailure | src/integration/errors.py:21-26 | the loop fails exactly when some non-"Trapecios" item is `None`, and it names the first such item |
| RelativeErrors.ErrorsFromKeys | src/integration/errors.py:20-27 | on success the keys are the accumulator's keys plus `m` and `m + "_pct"` for every non-"Trapecios" item |
| RelativeErrors.ErrorsFromValues | src/integration/errors.py:21-26 | when no key collides, each scored method maps to its relative error and its "_pct" key to 100 times that |
| RelativeErrors.TrapezoidNeverScored | src/integration/errors.py:22 | "Trapecios" is never a key of the error table |
| RelativeErrors.ComputeErrors | src/integration/errors.py:20-27 | fails exactly when a non-"Trapecios" value is `None`, naming the first; on success the keys are exactly the scored names and their "_pct" forms, without "Trapecios" |
| RelativeErrors.ComputeErrorsValues | src/integration/errors.py:23-26 | each scored method maps to \|v − ref\|/\|ref\| and its "_pct" key to 100 times that |
| Pipeline.TruncatedSeriesHasEveryMethod | src/utils/truncate.py:33-39 | a truncated series of ≥ 7 rows on an equally spaced axis gets a value from every method |
| Pipeline.SixRowFrameLeavesOnePoint | src/utils/truncate.py:33-39 | a 6-row frame is truncated to its first row, and on a one-point series the whole integration fails with the trapezoid rule's too-few-points error |
| Pipeline.ReducedSeriesHasEveryMethod | src/utils/remove_percentage.py:42-43 | a reduced series of ≥ 7 rows on an equally spaced axis gets a value from every method |
| Pipeline.ResultNamesAreClashFree | src/integration/calculations.py:29-40 | the three method names are distinct and none is another name plus "_pct" |
| Pipeline.CompleteResultsErrorTable | src/integration/errors.py:20-27 | for a complete result dict the error table has exactly the keys "Simpson 1/3", "Simpson 1/3_pct", "Simpson 3/8" and "Simpson 3/8_pct", each Simpson name mapping to its relative error against the reference and each "_pct" key to 100 times that |
| Pipeline.MissingSimpsonAborts | src/integration/errors.py:21-23 | a `None` left by a failed Simpson 1/3 makes the error computation fail naming "Simpson 1/3"; when only Simpson 3/8 failed, it fails naming "Simpson 3/8"; any failed Simpson rule makes it fail |

## Left out

- Reading and writing CSV files, creating the `data` directory, building the default output path and logging are I/O and are not modelled. The reducers return rows instead of writing them.
- The `columna_y` parameter of both reducers is unused by the source and is not modelled.
- `main.py`, the dB-to-intensity conversion, the statistics, the analysis script, the plotting and the CSV readers and exporters are outside this model.
- Floating-point rounding is not modelled: reals are exact. In the source, `int(i * step)` and `int(n / step)` are computed in floating point and can differ by one near integer boundaries. `np.allclose` accepts small spacing errors; the model demands exact equality.
- Truncation.Truncate: requires at least one row. On an empty frame the source calls `head(-5)`, a Polars negative head that yields an empty frame. That path is not modelled.
- Reduction.RemovePercentage: requires that a valid percentage select at least one row. With no rows selected, the source calls `head` with a negative count; that path is not modelled.
- RelativeErrors.ComputeErrors: requires a non-zero reference. With a zero reference, numpy yields `inf` or `nan` and Python floats raise `ZeroDivisionError`; neither is modelled.
- Quadrature.Simpson38ExactForQuadratic: states exactness for parabolas only, though Simpson 3/8 is also exact for cubics.
- Quadrature.Simpson13ExactForQuadratic: states exactness for parabolas only, though Simpson 1/3 is also exact for cubics.
- No error bound for non-polynomial data is stated.
