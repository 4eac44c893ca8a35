/** A model of the bracketed bisection solver of bisection_method.py, over
    real numbers and for an arbitrary target function `f`.

    The solver is modelled twice: `Bisect` is the specification, built on
    recursive functions that produce the iteration table round by round, and
    `BisectionMethod` is the loop of `bisection_method`, which appends one record per
    round, stops on convergence and narrows the bracket otherwise. The method is
    proved to compute exactly what `Bisect` describes; properties.dfy proves
    what the table and the root estimate satisfy. */
module Bisection {

  /** One row of the iteration table: the 1-based round number, the bracket
      [guessA, guessB] the round started from, its midpoint, the three function
      values, and the width of the bracket before this round narrows it. */
  datatype Record = Record(
    iteration: int,
    guessA: real,
    guessB: real,
    midpointC: real,
    fA: real,
    fB: real,
    fC: real,
    error: real)

  /** Why a call produced no table. `BracketError`: f(a) and f(b) do not have
      strictly opposite signs. `MidpointUnbound`: the budget allowed no round,
      so there is no midpoint to return (`bisection_method` fails there with
      an unbound local `c`). */
  datatype Error = BracketError | MidpointUnbound

  /** The outcome of a call: the iteration table and the last midpoint, or an
      error. */
  datatype Result = Failure(err: Error) | Success(records: seq<Record>, root: real)

  function Abs(x: real): (r: real)
    ensures r >= 0.0
    ensures r == x || r == -x
  {
    if x < 0.0 then -x else x
  }

  /** Whether x·y < 0, decided from the two signs alone; the lemma below
      shows it is the product test. */
  predicate OppositeSigns(x: real, y: real)
  {
    (x < 0.0 && y > 0.0) || (x > 0.0 && y < 0.0)
  }

  lemma OppositeSignsIsNegativeProduct(x: real, y: real)
    ensures OppositeSigns(x, y) <==> x * y < 0.0
  {
    if x == 0.0 || y == 0.0 {
      assert x * y == 0.0;
    } else if x > 0.0 {
      if y > 0.0 { assert x * y > 0.0; } else { assert x * y < 0.0; }
    } else {
      if y > 0.0 { assert x * y < 0.0; } else { assert x * y > 0.0; }
    }
  }

  /** A record is what a round computes from the bracket it stores. */
  predicate Consistent(f: real -> real, r: Record)
  {
    && r.midpointC == (r.guessA + r.guessB) / 2.0
    && r.fA == f(r.guessA)
    && r.fB == f(r.guessB)
    && r.fC == f(r.midpointC)
    && r.error == Abs(r.guessB - r.guessA)
  }

  /** The record of round `iteration`, started on the bracket [a, b]. */
  function Round(f: real -> real, iteration: int, a: real, b: real): (r: Record)
    ensures Consistent(f, r)
    ensures r.iteration == iteration && r.guessA == a && r.guessB == b
  {
    var c := (a + b) / 2.0;
    Record(iteration, a, b, c, f(a), f(b), f(c), Abs(b - a))
  }

  /** The bracket the round after `r` starts from: [a, c] when f(a) and f(c)
      have strictly opposite signs, and [c, b] otherwise, a zero product
      included. */
  function Narrow(r: Record): (next: (real, real))
    ensures next.0 == r.guessA || next.1 == r.guessB
    ensures next.0 == r.midpointC || next.1 == r.midpointC
  {
    if OppositeSigns(r.fA, r.fC) then (r.guessA, r.midpointC) else (r.midpointC, r.guessB)
  }

  /** The records of the rounds from 0-based round `i` on, starting on the
      bracket [a, b], with `fuel` rounds of the budget left. A round whose
      width is below the tolerance is recorded and is the last one. */
  function Rounds(f: real -> real, a: real, b: real, tolerance: real, i: int, fuel: int): (rs: seq<Record>)
    ensures fuel <= 0 ==> rs == []
    ensures fuel > 0 ==> 0 < |rs| <= fuel
    decreases fuel
  {
    if fuel <= 0 then []
    else
      var r := Round(f, i + 1, a, b);
      if r.error < tolerance then [r]
      else
        var next := Narrow(r);
        [r] + Rounds(f, next.0, next.1, tolerance, i + 1, fuel - 1)
  }

  /** The table the loop ends with when it resumes at 0-based round `i` of
      `n` on the bracket [a, b], having already recorded `done`. */
  function RunFrom(f: real -> real, a: real, b: real, tolerance: real, i: int, n: int, done: seq<Record>): (rs: seq<Record>)
    ensures done <= rs
    ensures i < n ==> |rs| > |done|
    decreases n - i
  {
    if i >= n then done
    else
      var r := Round(f, i + 1, a, b);
      if r.error < tolerance then done + [r]
      else
        var next := Narrow(r);
        RunFrom(f, next.0, next.1, tolerance, i + 1, n, done + [r])
  }

  /** Resuming the loop appends to what it has recorded exactly the rounds
      that `Rounds` describes for the remaining budget. */
  lemma {:induction false} RunFromRounds(f: real -> real, a: real, b: real, tolerance: real, i: int, n: int, done: seq<Record>)
    ensures RunFrom(f, a, b, tolerance, i, n, done) == done + Rounds(f, a, b, tolerance, i, n - i)
    decreases n - i
  {
    if i < n {
      var r := Round(f, i + 1, a, b);
      if r.error < tolerance {
        assert Rounds(f, a, b, tolerance, i, n - i) == [r];
      } else {
        var next := Narrow(r);
        var rest := Rounds(f, next.0, next.1, tolerance, i + 1, n - i - 1);
        assert Rounds(f, a, b, tolerance, i, n - i) == [r] + rest;
        RunFromRounds(f, next.0, next.1, tolerance, i + 1, n, done + [r]);
        assert (done + [r]) + rest == done + ([r] + rest);
      }
    }
  }

  /** The specification of the solver: reject a bracket without a strict sign
      change, fail when the budget allows no round, and otherwise return the
      table of all rounds and the midpoint of the last one. */
  function Bisect(f: real -> real, a: real, b: real, tolerance: real, maxIterations: int): (res: Result)
    ensures res.Success? <==> OppositeSigns(f(a), f(b)) && maxIterations >= 1
    ensures res.Success? ==> |res.records| > 0 && res.root == res.records[|res.records| - 1].midpointC
  {
    if !OppositeSigns(f(a), f(b)) then Failure(BracketError)
    else if maxIterations <= 0 then Failure(MidpointUnbound)
    else
      var rs := RunFrom(f, a, b, tolerance, 0, maxIterations, []);
      Success(rs, rs[|rs| - 1].midpointC)
  }

  /** The solver loop: one record per round, appended in order; stop once the
      recorded width is below the tolerance, otherwise narrow the bracket. */
  method BisectionMethod(f: real -> real, a0: real, b0: real, tolerance: real, maxIterations: int)
    returns (result: Result)
    ensures result == Bisect(f, a0, b0, tolerance, maxIterations)
  {
    if !OppositeSigns(f(a0), f(b0)) {
      return Failure(BracketError);
    }
    var results: seq<Record> := [];
    var a, b := a0, b0;
    var c: real := 0.0;  // read only once a round has assigned it
    var i := 0;
    while i < maxIterations
      invariant 0 <= i && (i == 0 || i <= maxIterations)
      invariant |results| == i
      invariant i > 0 ==> c == results[i - 1].midpointC
      invariant RunFrom(f, a, b, tolerance, i, maxIterations, results)
        == RunFrom(f, a0, b0, tolerance, 0, maxIterations, [])
    {
      c := (a + b) / 2.0;
      var fa, fb, fc := f(a), f(b), f(c);
      var error := Abs(b - a);
      assert Record(i + 1, a, b, c, fa, fb, fc, error) == Round(f, i + 1, a, b);
      results := results + [Record(i + 1, a, b, c, fa, fb, fc, error)];
      if error < tolerance {
        break;
      }
      if OppositeSigns(fa, fc) {
        b := c;
      } else {
        a := c;
      }
      i := i + 1;
    }
    if |results| == 0 {
      return Failure(MidpointUnbound);
    }
    assert results == RunFrom(f, a0, b0, tolerance, 0, maxIterations, []);
    assert c == results[|results| - 1].midpointC;
    return Success(results, c);
  }
}
