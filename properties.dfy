/** What the bisection solver of bisection.dfy guarantees: when it fails, how
    the iteration table is numbered and filled in, how each bracket follows from
    the one before, how the width halves, when the loop stops, and where the
    root estimate lies. */
module BisectionProperties {
  import opened Bisection

  /** 2^k as a real number. */
  function Pow2(k: nat): (p: real)
    ensures p >= 1.0
  {
    if k == 0 then 1.0 else 2.0 * Pow2(k - 1)
  }

  function Min(x: real, y: real): (m: real)
    ensures m <= x && m <= y && (m == x || m == y)
  {
    if x <= y then x else y
  }

  function Max(x: real, y: real): (m: real)
    ensures m >= x && m >= y && (m == x || m == y)
  {
    if x <= y then y else x
  }

  /** `x` lies in the closed interval between the two ends of record `r`'s
      bracket, whichever way round they are. */
  predicate Within(x: real, r: Record)
  {
    Min(r.guessA, r.guessB) <= x <= Max(r.guessA, r.guessB)
  }

  // ---------------------------------------------------------------------
  // Facts about `Rounds`, from any round index and any remaining budget
  // ---------------------------------------------------------------------

  /** Records are numbered consecutively from i + 1, each is what a round
      computes from its own bracket, and the first starts on [a, b]. */
  lemma {:induction false} RoundsIndexed(f: real -> real, a: real, b: real, tolerance: real, i: int, fuel: int)
    ensures var rs := Rounds(f, a, b, tolerance, i, fuel);
      && (forall k :: 0 <= k < |rs| ==> rs[k].iteration == i + k + 1 && Consistent(f, rs[k]))
      && (|rs| > 0 ==> rs[0].guessA == a && rs[0].guessB == b)
    decreases fuel
  {
    if fuel > 0 {
      var r := Round(f, i + 1, a, b);
      if r.error >= tolerance {
        var next := Narrow(r);
        RoundsIndexed(f, next.0, next.1, tolerance, i + 1, fuel - 1);
      }
    }
  }

  /** Each record after the first starts on the bracket that `Narrow`
      computes from the record before it. */
  lemma {:induction false} RoundsSignRule(f: real -> real, a: real, b: real, tolerance: real, i: int, fuel: int)
    ensures var rs := Rounds(f, a, b, tolerance, i, fuel);
      forall k :: 0 <= k < |rs| - 1 ==> (rs[k + 1].guessA, rs[k + 1].guessB) == Narrow(rs[k])
    decreases fuel
  {
    if fuel > 0 {
      var r := Round(f, i + 1, a, b);
      if r.error >= tolerance {
        var next := Narrow(r);
        RoundsSignRule(f, next.0, next.1, tolerance, i + 1, fuel - 1);
        RoundsIndexed(f, next.0, next.1, tolerance, i + 1, fuel - 1);
      }
    }
  }

  /** Every record but the last has a width of at least the tolerance; when
      fewer records than the budget exist, the last one has converged. */
  lemma {:induction false} RoundsStopping(f: real -> real, a: real, b: real, tolerance: real, i: int, fuel: int)
    ensures var rs := Rounds(f, a, b, tolerance, i, fuel);
      && (forall k :: 0 <= k < |rs| - 1 ==> rs[k].error >= tolerance)
      && (0 < |rs| < fuel ==> rs[|rs| - 1].error < tolerance)
    decreases fuel
  {
    if fuel > 0 {
      var r := Round(f, i + 1, a, b);
      if r.error >= tolerance {
        var next := Narrow(r);
        RoundsStopping(f, next.0, next.1, tolerance, i + 1, fuel - 1);
      }
    }
  }

  // ---------------------------------------------------------------------
  // One narrowing step
  // ---------------------------------------------------------------------

  /** Narrowing keeps one end and replaces the other by the midpoint, so the
      new bracket is half as wide as the recorded width. */
  lemma NarrowHalves(f: real -> real, r: Record)
    requires Consistent(f, r)
    ensures Abs(Narrow(r).1 - Narrow(r).0) == r.error / 2.0
  {
  }

  /** The narrowed bracket lies within the old one. */
  lemma NarrowNested(f: real -> real, r: Record)
    requires Consistent(f, r)
    ensures Within(Narrow(r).0, r) && Within(Narrow(r).1, r)
  {
  }

  /** With a strict sign change on [a, b] and f(c) not zero, the narrowed
      bracket again has a strict sign change. */
  lemma NarrowKeepsSignChange(f: real -> real, r: Record)
    requires Consistent(f, r)
    requires OppositeSigns(r.fA, r.fB)
    requires r.fC != 0.0
    ensures OppositeSigns(f(Narrow(r).0), f(Narrow(r).1))
  {
  }

  /** A successful call returns the table `Rounds` describes for the whole
      budget, and the midpoint of its last record. */
  lemma BisectRounds(f: real -> real, a: real, b: real, tolerance: real, maxIterations: int,
                     rs: seq<Record>, root: real)
    requires Bisect(f, a, b, tolerance, maxIterations) == Success(rs, root)
    ensures OppositeSigns(f(a), f(b)) && maxIterations >= 1
    ensures rs == Rounds(f, a, b, tolerance, 0, maxIterations)
    ensures root == rs[|rs| - 1].midpointC
  {
    RunFromRounds(f, a, b, tolerance, 0, maxIterations, []);
    assert [] + Rounds(f, a, b, tolerance, 0, maxIterations) == Rounds(f, a, b, tolerance, 0, maxIterations);
  }

  // ---------------------------------------------------------------------
  // The solver's outcome
  // ---------------------------------------------------------------------

  /** The call fails with a bracket error exactly when f(a)·f(b) >= 0, so in
      particular when f is zero at either end of the bracket; it fails for
      lack of a midpoint exactly when the bracket is valid and the budget
      allows no round; otherwise it succeeds. */
  lemma BisectOutcome(f: real -> real, a: real, b: real, tolerance: real, maxIterations: int)
    ensures Bisect(f, a, b, tolerance, maxIterations) == Failure(BracketError)
      <==> f(a) * f(b) >= 0.0
    ensures f(a) == 0.0 || f(b) == 0.0
      ==> Bisect(f, a, b, tolerance, maxIterations) == Failure(BracketError)
    ensures Bisect(f, a, b, tolerance, maxIterations) == Failure(MidpointUnbound)
      <==> f(a) * f(b) < 0.0 && maxIterations <= 0
    ensures Bisect(f, a, b, tolerance, maxIterations).Success?
      <==> f(a) * f(b) < 0.0 && maxIterations >= 1
  {
    OppositeSignsIsNegativeProduct(f(a), f(b));
  }

  /** On success there are between 1 and maxIterations records, record k
      (0-based) is iteration k + 1, the first starts on the given bracket,
      every record holds its own midpoint, width and function values, and the
      root is the midpoint of the last record. */
  lemma BisectTable(f: real -> real, a: real, b: real, tolerance: real, maxIterations: int,
                    rs: seq<Record>, root: real)
    requires Bisect(f, a, b, tolerance, maxIterations) == Success(rs, root)
    ensures 1 <= |rs| <= maxIterations
    ensures forall k :: 0 <= k < |rs| ==> rs[k].iteration == k + 1
    ensures rs[0].guessA == a && rs[0].guessB == b
    ensures forall k :: 0 <= k < |rs| ==>
      && rs[k].midpointC == (rs[k].guessA + rs[k].guessB) / 2.0
      && rs[k].error == Abs(rs[k].guessB - rs[k].guessA)
      && rs[k].fA == f(rs[k].guessA)
      && rs[k].fB == f(rs[k].guessB)
      && rs[k].fC == f(rs[k].midpointC)
    ensures root == rs[|rs| - 1].midpointC
  {
    BisectRounds(f, a, b, tolerance, maxIterations, rs, root);
    RoundsIndexed(f, a, b, tolerance, 0, maxIterations);
  }

  /** Between consecutive records: if f(a)·f(c) < 0 the next record keeps a
      and takes c as its b; otherwise, a zero product included, it keeps b
      and takes c as its a. */
  lemma BisectSignRule(f: real -> real, a: real, b: real, tolerance: real, maxIterations: int,
                       rs: seq<Record>, root: real)
    requires Bisect(f, a, b, tolerance, maxIterations) == Success(rs, root)
    ensures forall k :: 0 <= k < |rs| - 1 ==>
      if rs[k].fA * rs[k].fC < 0.0
      then rs[k + 1].guessA == rs[k].guessA && rs[k + 1].guessB == rs[k].midpointC
      else rs[k + 1].guessA == rs[k].midpointC && rs[k + 1].guessB == rs[k].guessB
  {
    BisectRounds(f, a, b, tolerance, maxIterations, rs, root);
    RoundsSignRule(f, a, b, tolerance, 0, maxIterations);
    forall k | 0 <= k < |rs| - 1 {
      OppositeSignsIsNegativeProduct(rs[k].fA, rs[k].fC);
    }
  }

  /** An exact zero at a midpoint moves a onto it, after which the bracket no
      longer has a strict sign change. */
  lemma BisectExactZero(f: real -> real, a: real, b: real, tolerance: real, maxIterations: int,
                        rs: seq<Record>, root: real, k: nat)
    requires Bisect(f, a, b, tolerance, maxIterations) == Success(rs, root)
    requires k < |rs| - 1 && rs[k].fC == 0.0
    ensures rs[k + 1].guessA == rs[k].midpointC && rs[k + 1].guessB == rs[k].guessB
    ensures rs[k + 1].fA == 0.0 && rs[k + 1].fA * rs[k + 1].fB == 0.0
  {
    BisectRounds(f, a, b, tolerance, maxIterations, rs, root);
    RoundsIndexed(f, a, b, tolerance, 0, maxIterations);
    RoundsSignRule(f, a, b, tolerance, 0, maxIterations);
    assert rs[k + 1].fA == 0.0;
  }

  /** Each record's width is half the one before, so the widths never grow,
      and record k has width |b - a| / 2^k. */
  lemma BisectHalving(f: real -> real, a: real, b: real, tolerance: real, maxIterations: int,
                      rs: seq<Record>, root: real)
    requires Bisect(f, a, b, tolerance, maxIterations) == Success(rs, root)
    ensures forall k :: 0 <= k < |rs| - 1 ==> rs[k + 1].error == rs[k].error / 2.0
    ensures forall k :: 0 <= k < |rs| ==> rs[k].error == Abs(b - a) / Pow2(k)
    ensures forall j, k :: 0 <= j <= k < |rs| ==> rs[k].error <= rs[j].error
  {
    BisectRounds(f, a, b, tolerance, maxIterations, rs, root);
    RoundsIndexed(f, a, b, tolerance, 0, maxIterations);
    RoundsSignRule(f, a, b, tolerance, 0, maxIterations);
    forall k | 0 <= k < |rs| - 1
      ensures rs[k + 1].error == rs[k].error / 2.0
    {
      NarrowHalves(f, rs[k]);
    }
    ClosedForm(rs, Abs(b - a), |rs|);
    ErrorsNeverGrow(rs, Abs(b - a));
  }

  /** Widths w / 2^k never grow with k. */
  lemma ErrorsNeverGrow(rs: seq<Record>, w: real)
    requires w >= 0.0
    requires forall k :: 0 <= k < |rs| ==> rs[k].error == w / Pow2(k)
    ensures forall j, k :: 0 <= j <= k < |rs| ==> rs[k].error <= rs[j].error
  {
    forall j, k | 0 <= j <= k < |rs|
      ensures rs[k].error <= rs[j].error
    {
      Pow2Monotone(j, k);
      DivideByLarger(w, Pow2(j), Pow2(k));
    }
  }

  lemma {:induction false} ClosedForm(rs: seq<Record>, w: real, n: nat)
    requires n <= |rs|
    requires |rs| > 0 ==> rs[0].error == w
    requires forall k :: 0 <= k < |rs| - 1 ==> rs[k + 1].error == rs[k].error / 2.0
    ensures forall k :: 0 <= k < n ==> rs[k].error == w / Pow2(k)
  {
    if n > 0 {
      ClosedForm(rs, w, n - 1);
      if n > 1 {
        var k := n - 1;
        assert rs[k - 1].error == w / Pow2(k - 1);
        assert rs[k].error == (w / Pow2(k - 1)) / 2.0;
        assert Pow2(k) == 2.0 * Pow2(k - 1);
      }
    }
  }

  lemma {:induction false} Pow2Monotone(j: nat, k: nat)
    requires j <= k
    ensures Pow2(j) <= Pow2(k)
    decreases k
  {
    if j < k {
      Pow2Monotone(j, k - 1);
    }
  }

  lemma DivideByLarger(w: real, p: real, q: real)
    requires w >= 0.0 && 1.0 <= p <= q
    ensures w / q <= w / p
  {
    var x, y := w / p, w / q;
    assert x * p == w && y * q == w;
    assert y * p <= y * q;
  }

  /** Every record but the last has a width of at least the tolerance; a table
      shorter than the budget ends with a converged record; a table whose last
      record has not converged has exactly maxIterations records. */
  lemma BisectStopping(f: real -> real, a: real, b: real, tolerance: real, maxIterations: int,
                       rs: seq<Record>, root: real)
    requires Bisect(f, a, b, tolerance, maxIterations) == Success(rs, root)
    ensures forall k :: 0 <= k < |rs| - 1 ==> rs[k].error >= tolerance
    ensures |rs| < maxIterations ==> rs[|rs| - 1].error < tolerance
    ensures rs[|rs| - 1].error >= tolerance ==> |rs| == maxIterations
  {
    BisectRounds(f, a, b, tolerance, maxIterations, rs, root);
    RoundsStopping(f, a, b, tolerance, 0, maxIterations);
  }

  /** With a tolerance no width can go below, the budget is used up; with a
      budget large enough for |b - a| / 2^(n-1) to fall below the tolerance,
      the last record has converged. */
  lemma BisectBudget(f: real -> real, a: real, b: real, tolerance: real, maxIterations: int,
                     rs: seq<Record>, root: real)
    requires Bisect(f, a, b, tolerance, maxIterations) == Success(rs, root)
    ensures tolerance <= 0.0 ==> |rs| == maxIterations
    ensures Abs(b - a) / Pow2(maxIterations - 1) < tolerance ==> rs[|rs| - 1].error < tolerance
  {
    BisectTable(f, a, b, tolerance, maxIterations, rs, root);
    BisectHalving(f, a, b, tolerance, maxIterations, rs, root);
    BisectStopping(f, a, b, tolerance, maxIterations, rs, root);
  }

  /** Every bracket, and every midpoint, lies within all earlier brackets; in
      particular the root estimate lies within the initial bracket. */
  lemma BisectNested(f: real -> real, a: real, b: real, tolerance: real, maxIterations: int,
                     rs: seq<Record>, root: real)
    requires Bisect(f, a, b, tolerance, maxIterations) == Success(rs, root)
    ensures forall j, k :: 0 <= j <= k < |rs| ==>
      Within(rs[k].guessA, rs[j]) && Within(rs[k].guessB, rs[j]) && Within(rs[k].midpointC, rs[j])
    ensures Min(a, b) <= root <= Max(a, b)
  {
    BisectRounds(f, a, b, tolerance, maxIterations, rs, root);
    RoundsIndexed(f, a, b, tolerance, 0, maxIterations);
    RoundsSignRule(f, a, b, tolerance, 0, maxIterations);
    forall k | 0 <= k < |rs| - 1
      ensures Within(rs[k + 1].guessA, rs[k]) && Within(rs[k + 1].guessB, rs[k])
    {
      NarrowNested(f, rs[k]);
    }
    forall j, k | 0 <= j <= k < |rs|
      ensures Within(rs[k].guessA, rs[j]) && Within(rs[k].guessB, rs[j]) && Within(rs[k].midpointC, rs[j])
    {
      NestedChain(f, rs, j, k);
    }
    assert Within(root, rs[0]);
  }

  lemma {:induction false} NestedChain(f: real -> real, rs: seq<Record>, j: nat, k: nat)
    requires j <= k < |rs|
    requires forall m :: 0 <= m < |rs| ==> Consistent(f, rs[m])
    requires forall m :: 0 <= m < |rs| - 1 ==> Within(rs[m + 1].guessA, rs[m]) && Within(rs[m + 1].guessB, rs[m])
    ensures Within(rs[k].guessA, rs[j]) && Within(rs[k].guessB, rs[j]) && Within(rs[k].midpointC, rs[j])
    decreases k
  {
    if j < k {
      NestedChain(f, rs, j, k - 1);
    }
  }

  /** If the initial bracket has a strict sign change and no midpoint before
      the last is an exact zero, every recorded bracket has a strict sign
      change. */
  lemma BisectKeepsSignChange(f: real -> real, a: real, b: real, tolerance: real, maxIterations: int,
                              rs: seq<Record>, root: real)
    requires Bisect(f, a, b, tolerance, maxIterations) == Success(rs, root)
    requires forall k :: 0 <= k < |rs| - 1 ==> rs[k].fC != 0.0
    ensures forall k :: 0 <= k < |rs| ==> rs[k].fA * rs[k].fB < 0.0
  {
    BisectRounds(f, a, b, tolerance, maxIterations, rs, root);
    RoundsIndexed(f, a, b, tolerance, 0, maxIterations);
    RoundsSignRule(f, a, b, tolerance, 0, maxIterations);
    SignChain(f, rs, |rs|);
    forall k | 0 <= k < |rs| {
      OppositeSignsIsNegativeProduct(rs[k].fA, rs[k].fB);
    }
  }

  lemma {:induction false} SignChain(f: real -> real, rs: seq<Record>, n: nat)
    requires n <= |rs|
    requires |rs| > 0 ==> OppositeSigns(rs[0].fA, rs[0].fB)
    requires forall m :: 0 <= m < |rs| ==> Consistent(f, rs[m])
    requires forall m :: 0 <= m < |rs| - 1 ==> (rs[m + 1].guessA, rs[m + 1].guessB) == Narrow(rs[m])
    requires forall m :: 0 <= m < |rs| - 1 ==> rs[m].fC != 0.0
    ensures forall m :: 0 <= m < n ==> OppositeSigns(rs[m].fA, rs[m].fB)
  {
    if n > 1 {
      SignChain(f, rs, n - 1);
      NarrowKeepsSignChange(f, rs[n - 2]);
    }
  }
}
