/** The guarantees of the solve guards, for every schedule of any number of threads. */
module SolveTheorems {
  import opened Consoles
  import opened SolveMachine
  import opened Options
  import opened SolveSafety

  /** `s` is what some schedule leads to from a process whose streams hold the host's buffers. */
  ghost predicate Reached(n: nat, verbose: bool, out: Buffer, err: Buffer, es: seq<Event>, s: State) {
    !out.Filter? && !err.Filter? && Run(Start(n, verbose, out, err), es) == Some(s)
  }

  lemma StartIsSafe(n: nat, verbose: bool, out: Buffer, err: Buffer)
    requires !out.Filter? && !err.Filter?
    ensures Inv(Start(n, verbose, out, err))
  {
    QuietTotals(Start(n, verbose, out, err).threads);
  }

  /** The last step of a schedule. */
  lemma LastStep(n: nat, verbose: bool, out: Buffer, err: Buffer, es: seq<Event>, s: State)
      returns (before: State, e: Event)
    requires Reached(n, verbose, out, err, es, s) && es != []
    ensures e == es[|es| - 1] && Reached(n, verbose, out, err, es[..|es| - 1], before)
    ensures |before.issued| == |before.threads| && Enabled(before, e) && s == Apply(before, e)
  {
    e := es[|es| - 1];
    before := Run(Start(n, verbose, out, err), es[..|es| - 1]).value;
  }

  lemma {:induction false} ReachedIsSafe(n: nat, verbose: bool, out: Buffer, err: Buffer, es: seq<Event>, s: State)
    requires Reached(n, verbose, out, err, es, s)
    ensures Inv(s) && |s.threads| == n && s.shared.verbose == verbose
    decreases |es|
  {
    if es == [] {
      StartIsSafe(n, verbose, out, err);
    } else {
      var before, e := LastStep(n, verbose, out, err, es, s);
      ReachedIsSafe(n, verbose, out, err, es[..|es| - 1], before);
      StepKeepsInv(before, e, s);
    }
  }

  // ---------------------------------------------------------------- the host's choices

  function RedirectsOf(es: seq<Event>, st: Stream): seq<Buffer> {
    if es == [] then []
    else
      var e := es[|es| - 1];
      RedirectsOf(es[..|es| - 1], st) +
      if e.HostRedirect? && e.stream == st then [e.buffer] else []
  }

  lemma HistoryStep(s: State, e: Event, st: Stream)
    requires Enabled(s, e) && |s.issued| == |s.threads|
    ensures var c, c' := s.shared.On(st), Apply(s, e).shared.On(st);
      var redirects := e.HostRedirect? && e.stream == st;
      && c'.history == c.history + (if redirects then [e.buffer] else [])
      && (c'.redirected ==> c.redirected || redirects)
  {
  }

  /** The recorded history is the original buffer followed by the host's redirects, in order. */
  lemma {:induction false} HistoryIsTheHosts(n: nat, verbose: bool, out: Buffer, err: Buffer, es: seq<Event>, s: State,
                                             st: Stream)
    requires Reached(n, verbose, out, err, es, s)
    ensures s.shared.On(st).history == [if st.Out? then out else err] + RedirectsOf(es, st)
    ensures RedirectsOf(es, st) == [] ==> !s.shared.On(st).redirected
    decreases |es|
  {
    if es != [] {
      var before, e := LastStep(n, verbose, out, err, es, s);
      HistoryIsTheHosts(n, verbose, out, err, es[..|es| - 1], before, st);
      HistoryStep(before, e, st);
    }
  }

  // ---------------------------------------------------------------- host writes

  /** Every host write is delivered exactly once and in its thread's order, to a buffer that was
      the host's choice at some moment between the write's fetch and its delivery, even when it
      fetched a filter that the last guard has since taken off. */
  lemma HostWritesReachTheHost(n: nat, verbose: bool, out: Buffer, err: Buffer, es: seq<Event>, s: State)
    requires Reached(n, verbose, out, err, es, s)
    ensures |s.issued| == |s.threads| == n
    ensures forall t :: 0 <= t < n ==> s.issued[t] == HostPayloads(s.log, t) + InFlight(s.threads[t])
    ensures forall i :: 0 <= i < |s.log| && s.log[i].kind.HostWrite? ==>
      var d := s.log[i];
      && d.outcome.To? && !d.outcome.buffer.Filter?
      && ChosenBetween(s.shared.On(d.stream), d.since, d.until, d.outcome.buffer)
  {
    ReachedIsSafe(n, verbose, out, err, es, s);
    forall t | 0 <= t < n
      ensures s.issued[t] == HostPayloads(s.log, t) + InFlight(s.threads[t])
    {
      assert InOrder(s, t);
    }
    assert forall i :: 0 <= i < |s.log| ==> DeliveryOk(s.shared, s.log[i]);
  }

  /** When the host leaves a stream alone, its writes go to the buffer it started with, the
      solver's go nowhere, and once no solve is in flight the stream is as it was. */
  lemma UndisturbedStream(n: nat, out: Buffer, err: Buffer, es: seq<Event>, s: State, st: Stream)
    requires Reached(n, false, out, err, es, s) && RedirectsOf(es, st) == []
    ensures var original := if st.Out? then out else err;
      && (forall i :: 0 <= i < |s.log| && s.log[i].stream == st && s.log[i].kind.HostWrite? ==>
            s.log[i].outcome == To(original))
      && (forall i :: 0 <= i < |s.log| && s.log[i].stream == st && s.log[i].kind.SolverWrite? ==>
            s.log[i].outcome == Dropped)
      && (NoSolveInFlight(s.threads) ==> s.shared.consoles.On(st).current == original)
  {
    ReachedIsSafe(n, false, out, err, es, s);
    HistoryIsTheHosts(n, false, out, err, es, s, st);
    NeverMarked(n, out, err, es, s, st);
    if NoSolveInFlight(s.threads) {
      QuietTotals(s.threads);
    }
    assert forall i :: 0 <= i < |s.log| ==> DeliveryOk(s.shared, s.log[i]);
  }

  /** No write on the stream, in flight or delivered, saw a redirect at its fetch. */
  ghost predicate Unmarked(s: State, st: Stream) {
    && (forall t :: 0 <= t < |s.threads| && s.threads[t].act.Writing? && s.threads[t].act.stream == st ==>
          !s.threads[t].act.redirected)
    && (forall i :: 0 <= i < |s.log| && s.log[i].stream == st ==> !s.log[i].redirected)
  }

  lemma UnmarkedStep(s: State, e: Event, st: Stream)
    requires Enabled(s, e) && |s.issued| == |s.threads|
    requires Unmarked(s, st) && !s.shared.On(st).redirected
    ensures Unmarked(Apply(s, e), st)
  {
  }

  lemma {:induction false} NeverMarked(n: nat, out: Buffer, err: Buffer, es: seq<Event>, s: State, st: Stream)
    requires Reached(n, false, out, err, es, s) && RedirectsOf(es, st) == []
    ensures Unmarked(s, st)
    decreases |es|
  {
    if es != [] {
      var before, e := LastStep(n, false, out, err, es, s);
      NeverMarked(n, out, err, es[..|es| - 1], before, st);
      HistoryIsTheHosts(n, false, out, err, es[..|es| - 1], before, st);
      UnmarkedStep(before, e, st);
    }
  }

  // ---------------------------------------------------------------- solver writes

  /** A silenced solver's write is dropped exactly when the host had not redirected the stream
      between the filters going on and the write's fetch. */
  lemma SolverWritesAreDropped(n: nat, out: Buffer, err: Buffer, es: seq<Event>, s: State)
    requires Reached(n, false, out, err, es, s)
    ensures forall i :: 0 <= i < |s.log| && s.log[i].kind.SolverWrite? ==>
      (s.log[i].outcome == Dropped <==> !s.log[i].redirected)
  {
    ReachedIsSafe(n, false, out, err, es, s);
    assert forall i :: 0 <= i < |s.log| ==> DeliveryOk(s.shared, s.log[i]);
  }

  /** With the traces wanted, the streams are never touched and no write of any thread is lost. */
  lemma VerboseTouchesNothing(n: nat, out: Buffer, err: Buffer, es: seq<Event>, s: State, st: Stream)
    requires Reached(n, true, out, err, es, s)
    ensures s.shared.consoles.On(st).current == s.shared.On(st).Latest()
    ensures forall i :: 0 <= i < |s.log| ==>
      var d := s.log[i];
      d.outcome.To? && ChosenBetween(s.shared.On(d.stream), d.since, d.until, d.outcome.buffer)
  {
    ReachedIsSafe(n, true, out, err, es, s);
    assert forall i :: 0 <= i < |s.log| ==> DeliveryOk(s.shared, s.log[i]);
  }

  // ---------------------------------------------------------------- the shared depth

  /** The depth counts the live engaged guards; while it is positive each filter's target is the
      saved buffer, and the stream holds the filter or else what the host put there since; at
      depth 0 the stream holds the host's latest choice and never a filter. */
  lemma DepthAndStreams(n: nat, verbose: bool, out: Buffer, err: Buffer, es: seq<Event>, s: State, st: Stream)
    requires Reached(n, verbose, out, err, es, s)
    ensures var c, choice := s.shared.consoles.On(st), s.shared.On(st);
      && s.shared.consoles.depth == (if verbose then 0 else TotalSilencers(s.threads))
      && !choice.Latest().Filter?
      && (s.shared.consoles.depth == 0 ==> c.current == choice.Latest())
      && (s.shared.consoles.depth > 0 ==>
            c.target == c.saved && c.current == if choice.redirected then choice.Latest() else Filter(st))
  {
    ReachedIsSafe(n, verbose, out, err, es, s);
  }

  /** Step `j` of the schedule is an outermost entry, taken in state `before`, and since then the
      depth has been positive. */
  ghost predicate OutermostEntry(start: State, es: seq<Event>, j: nat, before: State)
    requires |start.issued| == |start.threads|
  {
    && j < |es| && es[j].Install?
    && Run(start, es[..j]) == Some(before) && before.shared.consoles.depth == 0
    && forall k :: j < k <= |es| ==> Engaged(start, es[..k])
  }

  ghost predicate Engaged(start: State, es: seq<Event>)
    requires |start.issued| == |start.threads|
  {
    Run(start, es).Some? && Run(start, es).value.shared.consoles.depth > 0
  }

  /** A step from depth 0 to a positive depth saves what the stream held, the host's latest
      choice; every other step that leaves the depth positive keeps the saved buffer. */
  lemma SavedByEntry(sh: Shared, th: Thread, e: Event, st: Stream)
    requires StreamOk(sh.consoles.depth, sh.consoles.On(st), sh.On(st), st)
    requires e.Uninstall? ==> sh.verbose || sh.consoles.depth > 0
    requires StepShared(sh, th, e).consoles.depth > 0
    ensures var c, c' := sh.consoles.On(st), StepShared(sh, th, e).consoles.On(st);
      if sh.consoles.depth == 0 then
        e.Install? && c'.saved == c.current && c.current == sh.On(st).Latest() && !c.current.Filter?
      else c'.saved == c.saved
  {
  }

  lemma SavedStep(s: State, e: Event, s': State, st: Stream)
    requires Inv(s) && Enabled(s, e) && s' == Apply(s, e) && s'.shared.consoles.depth > 0
    ensures var c, c' := s.shared.consoles.On(st), s'.shared.consoles.On(st);
      if s.shared.consoles.depth == 0 then
        e.Install? && c'.saved == c.current && c.current == s.shared.On(st).Latest() && !c.current.Filter?
      else c'.saved == c.saved
  {
    var th := Actor(s, e);
    if !e.HostRedirect? {
      ActorDepth(s, e, th);
    }
    SavedByEntry(s.shared, th, e, st);
  }

  lemma EntryOfLonger(start: State, es: seq<Event>, j: nat, before: State)
    requires |start.issued| == |start.threads| && es != []
    requires OutermostEntry(start, es[..|es| - 1], j, before) && Engaged(start, es)
    ensures OutermostEntry(start, es, j, before)
  {
    var init := es[..|es| - 1];
    assert es[..j] == init[..j] && es[..|es|] == es;
    forall k | j < k <= |es|
      ensures Engaged(start, es[..k])
    {
      if k < |es| {
        assert es[..k] == init[..k];
      }
    }
  }

  /** While the depth is positive, the saved buffer and the filter's target are what the stream
      held at the outermost entry: the host's own choice at that moment. */
  lemma {:induction false} SavedByOutermostEntry(n: nat, verbose: bool, out: Buffer, err: Buffer, es: seq<Event>,
                                                 s: State,
                                                 st: Stream)
      returns (j: nat, before: State)
    requires Reached(n, verbose, out, err, es, s) && s.shared.consoles.depth > 0
    ensures OutermostEntry(Start(n, verbose, out, err), es, j, before)
    ensures var c, held := s.shared.consoles.On(st), before.shared.consoles.On(st).current;
      c.saved == held && c.target == held && held == before.shared.On(st).Latest() && !held.Filter?
    decreases |es|
  {
    var start, init := Start(n, verbose, out, err), es[..|es| - 1];
    var last, e := LastStep(n, verbose, out, err, es, s);
    DepthAndStreams(n, verbose, out, err, es, s, st);
    ReachedIsSafe(n, verbose, out, err, init, last);
    SavedStep(last, e, s, st);
    if last.shared.consoles.depth == 0 {
      j, before := |es| - 1, last;
      LastIsEntry(start, es, last);
    } else {
      j, before := SavedByOutermostEntry(n, verbose, out, err, init, last, st);
      EntryOfLonger(start, es, j, before);
    }
  }

  lemma LastIsEntry(start: State, es: seq<Event>, before: State)
    requires |start.issued| == |start.threads| && es != [] && es[|es| - 1].Install? && Engaged(start, es)
    requires Run(start, es[..|es| - 1]) == Some(before) && before.shared.consoles.depth == 0
    ensures OutermostEntry(start, es, |es| - 1, before)
  {
    assert es[..|es|] == es;
  }

  /** No counter is ever decremented at zero. */
  lemma CountersNeverWrap(n: nat, verbose: bool, out: Buffer, err: Buffer, es: seq<Event>, s: State, e: Event)
    requires Reached(n, verbose, out, err, es, s) && Enabled(s, e)
    ensures e.Uninstall? && !verbose ==> s.shared.consoles.depth > 0
    ensures e.Finish? ==> s.shared.citationDepth > 0
    ensures e.End? ==> s.threads[e.t].solveDepth > 0
  {
    ReachedIsSafe(n, verbose, out, err, es, s);
    if !e.HostRedirect? {
      SilencersUpdate(s.threads, e.t, s.threads[e.t]);
      RunningUpdate(s.threads, e.t, s.threads[e.t]);
    }
  }

  // ---------------------------------------------------------------- citations

  /** While the citation list is being reset, no thread is citing and none could start to: not a
      solve, not a worker of one, not the one-time initialisation. */
  lemma ResetNeverOverlapsCite(n: nat, verbose: bool, out: Buffer, err: Buffer, es: seq<Event>, s: State, t: nat)
    requires Reached(n, verbose, out, err, es, s)
    requires s.shared.resetting.Some? && t < n
    ensures !s.threads[t].act.Citing? && !CanCite(s.threads[t])
  {
    ReachedIsSafe(n, verbose, out, err, es, s);
    var r := s.shared.resetting.value;
    assert s.threads[r].stage.Resetting? && PastInit(s.threads[r]) by {
      assert ThreadOk(s.shared, s.threads[r], r);
    }
    if CanCite(s.threads[t]) {
      CitingIsCovered(s, t);
      assert false;
    }
  }

  /** After some solve has completed, the list is empty whenever no solve is in flight. */
  lemma CitationsReclaimed(n: nat, verbose: bool, out: Buffer, err: Buffer, es: seq<Event>, s: State)
    requires Reached(n, verbose, out, err, es, s)
    requires s.shared.completed > 0 && NoSolveInFlight(s.threads)
    ensures s.shared.citations == 0
  {
    ReachedIsSafe(n, verbose, out, err, es, s);
    QuietTotals(s.threads);
    if s.shared.resetting.Some? {
      ResetterIsInFlight(s);
      assert false;
    }
  }

  lemma ResetterIsInFlight(s: State)
    requires Inv(s) && s.shared.resetting.Some?
    ensures !NoSolveInFlight(s.threads)
  {
    var r := s.shared.resetting.value;
    assert s.threads[r].stage.Resetting?;
  }
}
