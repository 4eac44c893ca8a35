# Bisection root finder, modelled and verified in Dafny

This project models `bisection_method`, the bracketed bisection loop of
`bisection_method.py`. The solver takes a target function, a bracket [a, b],
a tolerance and an iteration budget. It rejects a bracket where f(a) and f(b)
do not have strictly opposite signs. Otherwise it runs up to `max_iterations`
rounds. Each round appends one record (round number, a, b, midpoint c, f(a),
f(b), f(c), width |b − a|) to a table. The loop stops as soon as the recorded
width is below the tolerance; otherwise it narrows the bracket to [a, c] when
f(a)·f(c) < 0 and to [c, b] otherwise. It returns the table and the last
midpoint.

The model works over Dafny `real`, and the target function is a parameter
`f: real -> real`.

- `bisection.dfy`, module `Bisection`: the record and result datatypes and the
  specification, made of `Round` (one row), `Narrow` (the sign rule),
  `Rounds` (the table, defined structurally) and `RunFrom` (the same table in
  the loop's accumulating form). `Bisect` is the whole call. The method
  `BisectionMethod` is the loop itself; it is proved to return exactly
  `Bisect`.
- `properties.dfy`, module `BisectionProperties`: lemmas stating what a call
  guarantees.

In the source, the sign test is the product test `f(a) * f(b) >= 0` and
`fa * fc < 0`. The model decides it with `OppositeSigns`, a comparison of the
two signs. `OppositeSignsIsNegativeProduct` proves that this is exactly
`x * y < 0` over the reals. The lemmas about a call's outcome, its sign rule
and its sign change restate their results with the product.

The source returns `(None, None)` for a rejected bracket. The model returns
`Failure(BracketError)` instead.

With a valid bracket and `max_iterations <= 0`, the source's loop never runs.
`return df, c` then reads a `c` that was never assigned, and Python raises an
error. The model keeps this input and makes it an explicit outcome,
`Failure(MidpointUnbound)`, instead of excluding it with a precondition. A
negative budget behaves like 0, as `range` does.

Both `Bisect` and the method are deterministic, so two calls with the same
arguments give the same table and root.

## Model

| member | source | states |
|---|---|---|
| `Bisection.BisectionMethod` | bisection_method.py:9-62 | The loop (bracket check, one appended record per round, stop on width < tolerance, sign-rule narrowing, return of the last midpoint) returns exactly the specification `Bisect` for every input. |
| `Bisection.OppositeSignsIsNegativeProduct` | bisection_method.py:24 | The sign test used by the model holds exactly when the product of the two values is negative. So "reject when f(a)·f(b) >= 0" and "take [a, c] when f(a)·f(c) < 0" are the source's tests. |
| `Bisection.Round` | bisection_method.py:32-48 | The record of a round stores the round number and the bracket it started from, its midpoint (a+b)/2, f at a, b and c, and the width abs(b−a). |
| `Bisection.Narrow` | bisection_method.py:56-59 | The next bracket keeps one end of the old one and replaces the other by the midpoint. The lemmas `NarrowHalves`, `NarrowNested` and `NarrowKeepsSignChange` in properties.dfy state what else it guarantees. |
| `Bisection.RunFrom` | bisection_method.py:29-59 | The loop in accumulating form only appends to the records it has so far, and, with budget left, appends at least one. |
| `Bisection.Bisect` | bisection_method.py:9-62 | The call succeeds exactly when f(a), f(b) have strictly opposite signs and the budget is >= 1. A success has a non-empty table, and its root is the last record's midpoint. The lemmas in properties.dfy state the rest. |
| `Bisection.Rounds` | bisection_method.py:31-59 | A budget of n >= 1 rounds produces between 1 and n records; a budget of 0 or less produces none. |
| `Bisection.RunFromRounds` | bisection_method.py:29-59 | Resuming the loop at round i with records `done` ends with `done` followed by the structural table for the remaining budget. This links the loop's accumulating form to `Rounds`. |
| `BisectionProperties.BisectOutcome` | bisection_method.py:24-26 | The call fails with a bracket error exactly when f(a)·f(b) >= 0, which includes a zero at either endpoint. It fails for lack of a midpoint exactly when the bracket is valid and the budget is <= 0. Otherwise it succeeds. |
| `BisectionProperties.BisectRounds` | bisection_method.py:24-62 | A successful call had f(a), f(b) of strictly opposite signs and a budget >= 1. It returns the structural table for the whole budget and the last record's midpoint. |
| `BisectionProperties.BisectTable` | bisection_method.py:29-48 | On success: 1 <= number of records <= max_iterations; record k (0-based) has iteration k+1; the first record starts on (a, b); every record has c = (a+b)/2, error = abs(b−a) and f(a), f(b), f(c) of its own a, b, c; the root is the last record's midpoint. |
| `BisectionProperties.RoundsIndexed` | bisection_method.py:32-48 | From any round index i, records are numbered i+1, i+2, … in append order. Each holds what a round computes from its own bracket, and the first starts on the given bracket. |
| `BisectionProperties.RoundsSignRule` | bisection_method.py:56-59 | Each record after the first starts on the bracket that the sign rule computes from the previous record. |
| `BisectionProperties.RoundsStopping` | bisection_method.py:50-53 | Every record but the last has width >= tolerance. A table shorter than the remaining budget ends with a record of width < tolerance. |
| `BisectionProperties.BisectSignRule` | bisection_method.py:56-59 | Between consecutive records: if f(a)·f(c) < 0, the next record keeps a and has b = c. Otherwise, a zero product included, it keeps b and has a = c. Nothing else carries over. |
| `BisectionProperties.BisectExactZero` | bisection_method.py:56-59 | If a midpoint other than the last is an exact zero of f, the next record has a = that midpoint and the same b. Its f(a) is 0, so its bracket no longer has a strict sign change. |
| `BisectionProperties.NarrowHalves` | bisection_method.py:56-59 | The narrowed bracket is exactly half as wide as the recorded width. |
| `BisectionProperties.BisectHalving` | bisection_method.py:32-59 | Each record's error is half the previous one. Record k's error is abs(b0−a0)/2^k, and the errors never increase. |
| `BisectionProperties.BisectStopping` | bisection_method.py:31-53 | Every record but the last has error >= tolerance. With fewer records than max_iterations, the last record's error is < tolerance. If the last error is >= tolerance, there are exactly max_iterations records. |
| `BisectionProperties.BisectBudget` | bisection_method.py:31-53 | With tolerance <= 0 the whole budget is used (non-convergence after exactly max_iterations records). When abs(b0−a0)/2^(max_iterations−1) < tolerance, the call ends converged. |
| `BisectionProperties.NarrowNested` | bisection_method.py:56-59 | Both ends of the narrowed bracket lie within the old bracket. |
| `BisectionProperties.BisectNested` | bisection_method.py:32-59 | Every later record's a, b and midpoint lie within every earlier record's bracket. So the root estimate lies within the initial bracket. |
| `BisectionProperties.NarrowKeepsSignChange` | bisection_method.py:56-59 | With a strict sign change on [a, b] and f(c) ≠ 0, the narrowed bracket again has a strict sign change. |
| `BisectionProperties.BisectKeepsSignChange` | bisection_method.py:24-59 | If no midpoint before the last is an exact zero, every record satisfies f(a)·f(b) < 0. The initial bracket does so because the call was not rejected. |

## Left out

- The concrete target `f(x) = 0.5·e^x − 5x + 2` (bisection_method.py:5-7) uses `np.exp`, a numeric library call. `f` is an arbitrary `real -> real` parameter instead, so the concrete roots near 0.4288 and 3.1658 are not modelled.
- IEEE-754 double arithmetic is not modelled: rounding, underflow of `f(a) * f(b)` to 0, NaN and infinities. All arithmetic is exact over `real`. So the exact halving and the closed form abs(b0−a0)/2^k hold in the model, and only approximately in doubles.
- The guarantee that the root is close to a true root of f is not modelled. It needs continuity of f (the intermediate value theorem), which an arbitrary `real -> real` does not have. The model proves only that the estimate lies in every recorded bracket and that a strict sign change is kept.
- The pandas DataFrame (bisection_method.py:61) is not modelled. The table is a `seq<Record>` in append order.
- The `print` calls (bisection_method.py:25, 52) are console output and are not modelled.
- `plot_function_and_root`, `plot_convergence` (bisection_method.py:64-89) and the top-level script (bisection_method.py:95-136) are plotting and presentation, and are not modelled.
- The Python default arguments (`tolerance=0.00001`, `max_iterations=100`) are not modelled. Every call passes both explicitly.
