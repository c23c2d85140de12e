/** `search_matched_count`: the bounded search for a request whose achieved count is near the
    desired one, against an arbitrary probe. */
module CountSearch {
  import opened Options

  /** One probe: the request, and the payload and count it answered with. */
  datatype Attempt<P> = Attempt(target: int, payload: Option<P>, got: int)

  /** The answer may depend on how often the probe has been called before. */
  type Probe<!P> = (nat, int) -> (Option<P>, int)

  predicate Succeeded<P>(a: Attempt<P>) {
    a.payload.Some? && a.got > 0
  }

  /** Relative error of an achieved count. */
  function Error(got: int, desired: int): real
    requires desired > 0
  {
    (if got < desired then desired - got else got - desired) as real / desired as real
  }

  function MaxReal(x: real, y: real): real {
    if x < y then y else x
  }

  function MinReal(x: real, y: real): real {
    if y < x then y else x
  }

  /** `int(max(desired * 0.25, min(ceiling, target * desired / got)))`: the value is positive, so
      truncation is the floor. */
  function NextTarget(target: int, got: int, desired: int): int
    requires desired > 0 && got > 0
  {
    MaxReal(desired as real * 0.25,
            MinReal(4.0 * desired as real, (target * desired) as real / got as real)).Floor
  }

  /** The search goes on after this attempt: it succeeded, missed the tolerance, was not a raise
      that bought under two per cent, and its correction raises the request. */
  predicate Continues<P>(a: Attempt<P>, previous: int, desired: int, tol: real)
    requires desired > 0
  {
    && Succeeded(a) && Error(a.got, desired) > tol
    && (previous == 0 || a.got as real > previous as real * 1.02)
    && NextTarget(a.target, a.got, desired) > a.target
  }

  function Previous<P>(attempts: seq<Attempt<P>>, i: nat): int
    requires i <= |attempts|
  {
    if i == 0 then 0 else attempts[i - 1].got
  }

  /** The probes are those the rules demand, each answered by the probe. */
  ghost predicate Follows<P>(attempts: seq<Attempt<P>>, probe: Probe<P>, desired: int, tol: real)
    requires desired > 0
  {
    && (forall i :: 0 <= i < |attempts| ==>
          probe(i, attempts[i].target) == (attempts[i].payload, attempts[i].got))
    && (attempts != [] ==> attempts[0].target == desired)
    && (forall i :: 0 <= i < |attempts| - 1 ==>
          Continues(attempts[i], Previous(attempts, i), desired, tol) &&
          attempts[i + 1].target == NextTarget(attempts[i].target, attempts[i].got, desired))
  }

  /** The earliest attempt with least error among the successful ones; None if there is none. */
  ghost predicate IsBest<P>(attempts: seq<Attempt<P>>, desired: int, best: Option<P>)
    requires desired > 0
  {
    if best.None? then forall i :: 0 <= i < |attempts| ==> !Succeeded(attempts[i])
    else exists i :: BestAt(attempts, desired, best, i)
  }

  ghost predicate BestAt<P>(attempts: seq<Attempt<P>>, desired: int, best: Option<P>, i: int)
    requires desired > 0
  {
    && 0 <= i < |attempts| && Succeeded(attempts[i]) && attempts[i].payload == best
    && (forall j :: 0 <= j < |attempts| && Succeeded(attempts[j]) ==>
          Error(attempts[i].got, desired) <= Error(attempts[j].got, desired))
    && (forall j :: 0 <= j < i && Succeeded(attempts[j]) ==>
          Error(attempts[i].got, desired) < Error(attempts[j].got, desired))
  }

  lemma NextTargetBounds(target: int, got: int, desired: int)
    requires desired > 0 && got > 0 && target >= desired
    ensures 0 <= NextTarget(target, got, desired) <= 4 * desired
  {
    assert (target * desired) as real / got as real >= 0.0;
  }

  /** The error is the miss in proportion to the desired count. */
  lemma ErrorIsRelative(got: int, desired: int)
    requires desired > 0
    ensures Error(got, desired) >= 0.0
    ensures got >= desired ==> Error(got, desired) * desired as real == (got - desired) as real
    ensures got <= desired ==> Error(got, desired) * desired as real == (desired - got) as real
  {
  }

  /** The multiplicative correction: short of the desired count, the next request is the greatest
      that does not pass `target * desired / got`, or else the ceiling. */
  lemma NextTargetIs(target: int, got: int, desired: int)
    requires 0 < got < desired <= target
    ensures var next := NextTarget(target, got, desired);
      if target * desired <= 4 * desired * got then next * got <= target * desired < (next + 1) * got
      else next == 4 * desired
  {
    var q := (target * desired) as real / got as real;
    QuotientAbove(target, desired, got);
    QuotientAgainst(target * desired, got, 4 * desired);
    if target * desired <= 4 * desired * got {
      FloorOfQuotient(target * desired, got);
      assert NextTarget(target, got, desired) == q.Floor;
    }
  }

  /** The quotient is above a quarter of the desired count. */
  lemma QuotientAbove(target: int, desired: int, got: int)
    requires 0 < got < desired <= target
    ensures (target * desired) as real / got as real >= desired as real * 0.25
  {
    assert target * desired >= desired * got;
    AtLeastFactor((target * desired) as real, got as real, desired as real);
  }

  lemma AtLeastFactor(x: real, y: real, bound: real)
    requires y > 0.0 && x >= bound * y
    ensures x / y >= bound
  {
    var q := x / y;
    assert q * y == x;
    assert (q - bound) * y >= 0.0;
  }

  lemma QuotientAgainst(n: int, d: int, bound: int)
    requires d > 0
    ensures n <= bound * d <==> n as real / d as real <= bound as real
  {
    assert (bound * d) as real == bound as real * d as real;
    if n <= bound * d {
      QuotientAtMost(n as real, d as real, bound as real);
    } else {
      var q := n as real / d as real;
      assert q * d as real == n as real;
    }
  }

  lemma FloorOfQuotient(n: int, d: int)
    requires d > 0
    ensures var q := (n as real / d as real).Floor; q * d <= n < (q + 1) * d
  {
    var q := (n as real / d as real).Floor;
    QuotientBelow(n, d, q);
    QuotientBelow(n, d, q + 1);
  }

  lemma QuotientBelow(n: int, d: int, bound: int)
    requires d > 0
    ensures n as real / d as real < bound as real <==> n < bound * d
  {
    var q := n as real / d as real;
    assert q * d as real == n as real;
    assert (bound * d) as real == bound as real * d as real;
    if q < bound as real {
      assert (bound as real - q) * d as real > 0.0;
    } else {
      assert (q - bound as real) * d as real >= 0.0;
    }
  }

  /** Against a probe whose count is proportional to the request, the corrected request is the
      greatest whose count does not pass the desired one. */
  lemma ProportionalProbe(target: int, got: int, desired: int, m: int, k: int)
    requires 0 < got < desired <= target && target * desired <= 4 * desired * got
    requires m > 0 && k > 0 && got * k == target * m
    ensures var next := NextTarget(target, got, desired);
      next * m <= desired * k < (next + 1) * m
  {
    var next := NextTarget(target, got, desired);
    NextTargetIs(target, got, desired);
    CancelFactor(next, got, target, desired, m, k);
    CancelFactor(next + 1, got, target, desired, m, k);
  }

  /** `x / desired` against `target / got`, where `target / got` is `k / m`. */
  lemma CancelFactor(x: int, got: int, target: int, desired: int, m: int, k: int)
    requires got > 0 && target > 0 && m > 0 && k > 0 && got * k == target * m
    ensures x * got <= target * desired <==> x * m <= desired * k
  {
    Regroup(x, got, k, target, m);
    Regroup(desired, target, k, target, k);
    assert target * desired == desired * target;
    ScaleBoth(x * got, target * desired, k);
    ScaleBoth(x * m, desired * k, target);
  }

  lemma Regroup(x: int, a: int, b: int, c: int, d: int)
    requires a * b == c * d
    ensures (x * a) * b == (x * d) * c
  {
    assert (x * a) * b == x * (a * b);
    assert (x * d) * c == x * (c * d);
  }

  lemma ScaleBoth(x: int, y: int, k: int)
    requires k > 0
    ensures x <= y <==> x * k <= y * k
  {
    if x <= y {
      assert (y - x) * k >= 0;
    } else {
      assert (x - y) * k > 0;
    }
  }

  /** Once the count is reached the correction cannot raise the request. */
  lemma OvershootStops(target: int, got: int, desired: int)
    requires desired > 0 && got >= desired && target >= desired
    ensures NextTarget(target, got, desired) <= target
  {
    var x := (target * desired) as real;
    ProductAtMost(target, desired, got);
    QuotientAtMost(x, got as real, target as real);
    CorrectionAtMost(x / got as real, target, desired);
  }

  lemma CorrectionAtMost(q: real, target: int, desired: int)
    requires desired > 0 && target >= desired && q <= target as real
    ensures MaxReal(desired as real * 0.25, MinReal(4.0 * desired as real, q)).Floor <= target
  {
  }

  lemma ProductAtMost(x: int, y: int, z: int)
    requires 0 <= x && y <= z
    ensures (x * y) as real <= x as real * z as real
  {
    assert x * y <= x * z;
    assert (x * z) as real == x as real * z as real;
  }

  lemma QuotientAtMost(x: real, y: real, bound: real)
    requires y > 0.0 && x <= bound * y
    ensures x / y <= bound
  {
    var q := x / y;
    assert q * y == x;
    assert (bound - q) * y >= 0.0;
  }

  /** Requests start at the desired count, rise strictly, and never pass four times it; so there
      are at most 3 * desired + 1 of them, whatever the iteration cap. */
  lemma {:induction false} RequestsRise<P>(attempts: seq<Attempt<P>>, probe: Probe<P>, desired: int, tol: real, i: nat)
    requires desired > 0 && Follows(attempts, probe, desired, tol) && i < |attempts|
    ensures desired + i <= attempts[i].target <= 4 * desired
    ensures i > 0 ==> attempts[i - 1].target < attempts[i].target
  {
    if i > 0 {
      RequestsRise(attempts, probe, desired, tol, i - 1);
      NextTargetBounds(attempts[i - 1].target, attempts[i - 1].got, desired);
    }
  }

  /** No probe follows one that reached the desired count. */
  lemma NoProbeAfterOvershoot<P>(attempts: seq<Attempt<P>>, probe: Probe<P>, desired: int, tol: real, i: nat)
    requires desired > 0 && Follows(attempts, probe, desired, tol) && i < |attempts| && attempts[i].got >= desired
    ensures i == |attempts| - 1
  {
    if i < |attempts| - 1 {
      RequestsRise(attempts, probe, desired, tol, i);
      OvershootStops(attempts[i].target, attempts[i].got, desired);
      assert false;
    }
  }

  /** `first` times 1.02 to the power of `n`. */
  function Grown(first: int, n: nat): real {
    if n == 0 then first as real else Grown(first, n - 1) * 1.02
  }

  lemma RaisedEnough<P>(attempts: seq<Attempt<P>>, probe: Probe<P>, desired: int, tol: real, i: nat)
    requires desired > 0 && Follows(attempts, probe, desired, tol) && i < |attempts| - 1
    ensures 0 < attempts[i].got < desired
    ensures i > 0 ==> attempts[i].got as real > attempts[i - 1].got as real * 1.02
  {
    assert Continues(attempts[i], Previous(attempts, i), desired, tol);
    if i > 0 {
      assert Continues(attempts[i - 1], Previous(attempts, i - 1), desired, tol);
    }
    if attempts[i].got >= desired {
      NoProbeAfterOvershoot(attempts, probe, desired, tol, i);
      assert false;
    }
  }

  /** Every attempt that is followed by another has raised the count by more than two per cent
      over the one before it, and stayed below the desired count. So the number of probes is
      logarithmic, whatever the iteration cap. */
  lemma {:induction false} CountsGrow<P>(attempts: seq<Attempt<P>>, probe: Probe<P>, desired: int, tol: real, i: nat)
    requires desired > 0 && Follows(attempts, probe, desired, tol) && i < |attempts| - 1
    ensures attempts[0].got > 0
    ensures Grown(attempts[0].got, i) <= attempts[i].got as real < desired as real
  {
    RaisedEnough(attempts, probe, desired, tol, i);
    if i > 0 {
      CountsGrow(attempts, probe, desired, tol, i - 1);
    }
  }

  lemma FollowsOn<P>(attempts: seq<Attempt<P>>, a: Attempt<P>, probe: Probe<P>, desired: int, tol: real)
    requires desired > 0 && Follows(attempts, probe, desired, tol)
    requires probe(|attempts|, a.target) == (a.payload, a.got)
    requires Expected(attempts, a.target, desired, tol)
    ensures Follows(attempts + [a], probe, desired, tol)
  {
    var all := attempts + [a];
    forall i | 0 <= i < |all| - 1
      ensures Continues(all[i], Previous(all, i), desired, tol)
      ensures all[i + 1].target == NextTarget(all[i].target, all[i].got, desired)
    {
      assert Previous(all, i) == Previous(attempts, i);
      assert i < |attempts| - 1 ==> Continues(attempts[i], Previous(attempts, i), desired, tol);
    }
  }

  /** The request that the rules demand after these attempts. */
  predicate Expected<P>(attempts: seq<Attempt<P>>, target: int, desired: int, tol: real)
    requires desired > 0
  {
    if attempts == [] then target == desired
    else
      var last := attempts[|attempts| - 1];
      Continues(last, Previous(attempts, |attempts| - 1), desired, tol) &&
      target == NextTarget(last.target, last.got, desired)
  }

  lemma FailureKeepsBest<P>(attempts: seq<Attempt<P>>, a: Attempt<P>, desired: int, best: Option<P>, bestErr: real)
    requires desired > 0 && BestSoFar(attempts, desired, best, bestErr) && !Succeeded(a)
    ensures IsBest(attempts + [a], desired, best)
  {
    if best.Some? {
      var i :| BestAt(attempts, desired, best, i);
      assert BestAt(attempts + [a], desired, best, i);
    }
  }

  ghost predicate BestSoFar<P>(attempts: seq<Attempt<P>>, desired: int, best: Option<P>, bestErr: real)
    requires desired > 0
  {
    if best.None? then forall i :: 0 <= i < |attempts| ==> !Succeeded(attempts[i])
    else exists i :: BestAt(attempts, desired, best, i) && bestErr == Error(attempts[i].got, desired)
  }

  /** Keeping the better of the best so far and a new success, the older one on a tie. */
  lemma SuccessUpdatesBest<P>(attempts: seq<Attempt<P>>, a: Attempt<P>, desired: int, best: Option<P>, bestErr: real)
    requires desired > 0 && BestSoFar(attempts, desired, best, bestErr) && Succeeded(a)
    ensures var err := Error(a.got, desired);
      var better := best.None? || err < bestErr;
      var all := attempts + [a];
      BestSoFar(all, desired, if better then a.payload else best, if better then err else bestErr)
  {
    var err, all := Error(a.got, desired), attempts + [a];
    if best.None? || err < bestErr {
      if best.Some? {
        var i :| BestAt(attempts, desired, best, i) && bestErr == Error(attempts[i].got, desired);
      }
      assert BestAt(all, desired, a.payload, |attempts|);
    } else {
      var i :| BestAt(attempts, desired, best, i) && bestErr == Error(attempts[i].got, desired);
      assert BestAt(all, desired, best, i);
    }
  }

  /** An attempt within the tolerance is better than all before it, which were not. */
  lemma WithinToleranceIsBest<P>(attempts: seq<Attempt<P>>, a: Attempt<P>, probe: Probe<P>, desired: int, tol: real,
                                 best: Option<P>, bestErr: real)
    requires desired > 0 && Follows(attempts + [a], probe, desired, tol)
    requires BestSoFar(attempts, desired, best, bestErr) && Succeeded(a) && Error(a.got, desired) <= tol
    ensures best.None? || Error(a.got, desired) < bestErr
  {
    if best.Some? {
      var i :| BestAt(attempts, desired, best, i) && bestErr == Error(attempts[i].got, desired);
      assert Continues((attempts + [a])[i], Previous(attempts + [a], i), desired, tol);
    }
  }

  /** A success replaces the best so far if it is better, and is what the search returns if it is
      within the tolerance. */
  ghost predicate Keeps<P>(a: Attempt<P>, desired: int, tol: real, best: Option<P>, bestErr: real,
                           best': Option<P>, bestErr': real)
    requires desired > 0
  {
    if !Succeeded(a) then best' == best
    else
      var err := Error(a.got, desired);
      var better := best.None? || err < bestErr;
      best' == (if better || err <= tol then a.payload else best) && bestErr' == if better then err else bestErr
  }

  /** What one round of the loop decides once the probe has answered. */
  method Judge<P>(a: Attempt<P>, prevGot: int, desired: int, tol: real, best: Option<P>, bestErr: real)
      returns (stop: bool, best': Option<P>, bestErr': real, next: int)
    requires desired > 0
    ensures stop <==> !Continues(a, prevGot, desired, tol)
    ensures !stop ==> next == NextTarget(a.target, a.got, desired)
    ensures Keeps(a, desired, tol, best, bestErr, best', bestErr')
  {
    stop, best', bestErr', next := true, best, bestErr, 0;
    if a.payload.None? || a.got <= 0 {
      return;
    }
    var err := Error(a.got, desired);
    if best.None? || err < bestErr {
      best', bestErr' := a.payload, err;
    }
    if err <= tol {
      best' := a.payload;
      return;
    }
    if prevGot != 0 && a.got as real <= prevGot as real * 1.02 {
      return;
    }
    next := NextTarget(a.target, a.got, desired);
    stop := next <= a.target;
  }

  ghost predicate Finished<P>(attempts: seq<Attempt<P>>, desired: int, tol: real)
    requires desired > 0
  {
    attempts != [] && !Continues(attempts[|attempts| - 1], Previous(attempts, |attempts| - 1), desired, tol)
  }

  /** One round keeps the best so far, and a round that ends the search leaves the best overall. */
  lemma RoundIsRight<P>(attempts: seq<Attempt<P>>, a: Attempt<P>, probe: Probe<P>, desired: int, tol: real,
                        best: Option<P>, bestErr: real, best': Option<P>, bestErr': real)
    requires desired > 0 && Follows(attempts + [a], probe, desired, tol) && BestSoFar(attempts, desired, best, bestErr)
    requires Keeps(a, desired, tol, best, bestErr, best', bestErr')
    ensures IsBest(attempts + [a], desired, best')
    ensures Succeeded(a) ==> BestSoFar(attempts + [a], desired, best', bestErr')
  {
    if !Succeeded(a) {
      FailureKeepsBest(attempts, a, desired, best, bestErr);
    } else {
      SuccessUpdatesBest(attempts, a, desired, best, bestErr);
      if Error(a.got, desired) <= tol {
        WithinToleranceIsBest(attempts, a, probe, desired, tol, best, bestErr);
      }
    }
  }

  /** How often `range(iters)` goes round. */
  function Cap(iters: int): nat {
    if iters < 0 then 0 else iters
  }

  /** The state of the loop: the probes made so far followed the rules, `target` is the request
      they lead to, and `best` is the best of them. */
  ghost predicate Searching<P>(attempts: seq<Attempt<P>>, probe: Probe<P>, desired: int, tol: real,
                               target: int, prevGot: int, best: Option<P>, bestErr: real)
    requires desired > 0
  {
    && desired <= target <= 4 * desired && Expected(attempts, target, desired, tol)
    && prevGot == Previous(attempts, |attempts|)
    && Follows(attempts, probe, desired, tol)
    && BestSoFar(attempts, desired, best, bestErr)
  }

  lemma LastDecides<P>(attempts: seq<Attempt<P>>, a: Attempt<P>, desired: int, tol: real)
    requires desired > 0
    ensures var all, goesOn := attempts + [a], Continues(a, Previous(attempts, |attempts|), desired, tol);
      && Previous(all, |all|) == a.got
      && (goesOn ==> Expected(all, NextTarget(a.target, a.got, desired), desired, tol))
      && (!goesOn ==> Finished(all, desired, tol))
  {
    assert Previous(attempts + [a], |attempts|) == Previous(attempts, |attempts|);
  }

  /** One round: the search ends with the best of all probes, or goes on with a higher request. */
  lemma Round<P>(attempts: seq<Attempt<P>>, a: Attempt<P>, probe: Probe<P>, desired: int, tol: real,
                 prevGot: int, best: Option<P>, bestErr: real, best': Option<P>, bestErr': real)
    requires desired > 0 && Searching(attempts, probe, desired, tol, a.target, prevGot, best, bestErr)
    requires probe(|attempts|, a.target) == (a.payload, a.got)
    requires Keeps(a, desired, tol, best, bestErr, best', bestErr')
    ensures Follows(attempts + [a], probe, desired, tol) && IsBest(attempts + [a], desired, best')
    ensures !Continues(a, prevGot, desired, tol) ==> Finished(attempts + [a], desired, tol)
    ensures Continues(a, prevGot, desired, tol) ==>
      var next := NextTarget(a.target, a.got, desired);
      next > a.target && Searching(attempts + [a], probe, desired, tol, next, a.got, best', bestErr')
  {
    FollowsOn(attempts, a, probe, desired, tol);
    RoundIsRight(attempts, a, probe, desired, tol, best, bestErr, best', bestErr');
    LastDecides(attempts, a, desired, tol);
    if Continues(a, prevGot, desired, tol) {
      NextTargetBounds(a.target, a.got, desired);
    }
  }

  /** The search, and the probes it made. It ends by the distance to the ceiling alone; the cap
      only ends it sooner. */
  method SearchMatchedCount<P>(probe: Probe<P>, desired: int, tol: real, iters: int)
      returns (result: Option<P>, attempts: seq<Attempt<P>>)
    requires desired > 0
    ensures Follows(attempts, probe, desired, tol)
    ensures IsBest(attempts, desired, result)
    ensures |attempts| <= Cap(iters)
    ensures |attempts| == Cap(iters) || Finished(attempts, desired, tol)
  {
    attempts := [];
    var target, best, bestErr, prevGot := desired, None, 0.0, 0;
    while |attempts| < iters
      invariant |attempts| <= Cap(iters)
      invariant Searching(attempts, probe, desired, tol, target, prevGot, best, bestErr)
      invariant IsBest(attempts, desired, best)
      decreases 4 * desired - target
    {
      var (payload, got) := probe(|attempts|, target);
      var a := Attempt(target, payload, got);
      var stop, best', bestErr', next := Judge(a, prevGot, desired, tol, best, bestErr);
      Round(attempts, a, probe, desired, tol, prevGot, best, bestErr, best', bestErr');
      attempts := attempts + [a];
      if stop {
        return best', attempts;
      }
      best, bestErr, prevGot, target := best', bestErr', got, next;
    }
    return best, attempts;
  }
}
