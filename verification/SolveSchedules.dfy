/** What a reached state says of the schedule that led to it: citations, solve depths and the fate
    of writes, counted on the events alone. */
module SolveSchedules {
  import opened Consoles
  import opened SolveMachine
  import opened Options
  import opened SolveSafety
  import opened SolveTheorems

  // ---------------------------------------------------------------- citations

  /** Citations finished since the last reset. */
  function CitationsSince(es: seq<Event>): nat {
    if es == [] then 0
    else
      var e, before := es[|es| - 1], CitationsSince(es[..|es| - 1]);
      if e.ResetEnd? then 0 else if e.CiteEnd? then before + 1 else before
  }

  /** The list holds one record for each citation since it was last emptied. */
  lemma {:induction false} CitationsAreCounted(n: nat, verbose: bool, out: Buffer, err: Buffer, es: seq<Event>,
                                               s: State)
    requires Reached(n, verbose, out, err, es, s)
    ensures s.shared.citations == CitationsSince(es)
    decreases |es|
  {
    if es != [] {
      var before, e := LastStep(n, verbose, out, err, es, s);
      CitationsAreCounted(n, verbose, out, err, es[..|es| - 1], before);
    }
  }

  // ---------------------------------------------------------------- threads

  /** Solves that thread `t` has begun and not ended. */
  function OpenSolves(es: seq<Event>, t: nat): int {
    if es == [] then 0
    else
      var e, before := es[|es| - 1], OpenSolves(es[..|es| - 1], t);
      if e == Begin(t) then before + 1 else if e == End(t) then before - 1 else before
  }

  /** Whether thread `t` holds a worker slot or runs at an OpenMP level. */
  function HoldsSlot(es: seq<Event>, t: nat): bool {
    if es == [] then false
    else
      var e, before := es[|es| - 1], HoldsSlot(es[..|es| - 1], t);
      if e.Help? && e.t == t then true
      else if e == Release(t) then false
      else if e.Pool? && e.t == t then e.slot
      else before
  }

  /** Whether thread `t` is working for another thread's solve. */
  function Helps(es: seq<Event>, t: nat): bool {
    if es == [] then false
    else
      var e, before := es[|es| - 1], Helps(es[..|es| - 1], t);
      if e.Help? && e.t == t then true else if e == Release(t) then false else before
  }

  lemma ThreadStep(sh: Shared, th: Thread, e: Event)
    requires !e.HostRedirect? && Can(sh, th, e)
    requires e.End? ==> th.solveDepth > 0
    ensures var th' := StepThread(sh, th, e);
      && th'.solveDepth as int == th.solveDepth + (if e.Begin? then 1 else if e.End? then -1 else 0)
      && th'.helping.Some? == (if e.Help? then true else if e.Release? then false else th.helping.Some?)
      && th'.slot == if e.Help? then true else if e.Release? then false else if e.Pool? then e.slot else th.slot
  {
  }

  lemma {:induction false} ThreadOnSchedule(n: nat, verbose: bool, out: Buffer, err: Buffer, es: seq<Event>,
                                            s: State, t: nat)
    requires Reached(n, verbose, out, err, es, s) && t < n
    ensures |s.threads| == n && s.threads[t].solveDepth == OpenSolves(es, t)
    ensures s.threads[t].slot == HoldsSlot(es, t) && s.threads[t].helping.Some? == Helps(es, t)
    decreases |es|
  {
    ReachedIsSafe(n, verbose, out, err, es, s);
    if es != [] {
      var before, e := LastStep(n, verbose, out, err, es, s);
      ThreadOnSchedule(n, verbose, out, err, es[..|es| - 1], before, t);
      CountersNeverWrap(n, verbose, out, err, es[..|es| - 1], before, e);
      if !e.HostRedirect? && e.t == t {
        ThreadStep(before.shared, before.threads[t], e);
      }
    }
  }

  // ---------------------------------------------------------------- writes

  /** Thread `t` is in the write it fetched the buffer for at step `j`, in state `before`. */
  ghost predicate FetchedAt(start: State, es: seq<Event>, t: nat, j: nat, before: State, act: Activity)
    requires |start.issued| == |start.threads|
  {
    && j < |es| && es[j].Fetch? && es[j].t == t && Run(start, es[..j]) == Some(before)
    && (forall k :: j < k < |es| ==> es[k] != Deliver(t))
    && act.Writing? && act.stream == es[j].stream && act.payload == es[j].payload
    && act.via == before.shared.consoles.On(es[j].stream).current
  }

  lemma ActivityStep(sh: Shared, th: Thread, e: Event)
    requires !e.HostRedirect? && Can(sh, th, e) && StepThread(sh, th, e).act.Writing?
    ensures !e.Deliver?
    ensures if e.Fetch? then
        var act := StepThread(sh, th, e).act;
        act.stream == e.stream && act.payload == e.payload && act.via == sh.consoles.On(e.stream).current
      else StepThread(sh, th, e).act == th.act
  {
  }

  lemma {:induction false} WriteWasFetched(n: nat, verbose: bool, out: Buffer, err: Buffer, es: seq<Event>, s: State,
                                           t: nat)
      returns (j: nat, before: State)
    requires Reached(n, verbose, out, err, es, s) && t < |s.threads| && s.threads[t].act.Writing?
    ensures FetchedAt(Start(n, verbose, out, err), es, t, j, before, s.threads[t].act)
    decreases |es|
  {
    var start, init := Start(n, verbose, out, err), es[..|es| - 1];
    var last, e := LastStep(n, verbose, out, err, es, s);
    if !e.HostRedirect? && e.t == t {
      ActivityStep(last.shared, last.threads[t], e);
    }
    if e.Fetch? && e.t == t {
      j, before := |es| - 1, last;
    } else {
      assert last.threads[t].act == s.threads[t].act;
      j, before := WriteWasFetched(n, verbose, out, err, init, last, t);
      assert init[j] == es[j] && init[..j] == es[..j];
      forall k | j < k < |es|
        ensures es[k] != Deliver(t)
      {
        if k < |es| - 1 {
          assert init[k] == es[k];
        }
      }
    }
  }

  /** A write counts as the solver's while its thread has a solve open or holds a slot. */
  function FromSolve(es: seq<Event>, t: nat): bool {
    OpenSolves(es, t) != 0 || HoldsSlot(es, t)
  }

  lemma KindOnSchedule(n: nat, verbose: bool, out: Buffer, err: Buffer, es: seq<Event>, s: State, t: nat)
    requires Reached(n, verbose, out, err, es, s) && t < n
    ensures |s.threads| == n
    ensures WritingFromSolve(s.threads[t]) <==> FromSolve(es, t)
    ensures KindOf(s.threads[t]).HostWrite? <==> !FromSolve(es, t)
    ensures KindOf(s.threads[t]).SolverWrite? <==> OpenSolves(es, t) != 0 || Helps(es, t)
  {
    ReachedIsSafe(n, verbose, out, err, es, s);
    ThreadOnSchedule(n, verbose, out, err, es, s, t);
    assert ThreadOk(s.shared, s.threads[t], t);
  }

  /** The payloads of the writes that thread `t` started while it was the host's. */
  function HostFetches(es: seq<Event>, t: nat): seq<int> {
    if es == [] then []
    else
      var e, before := es[|es| - 1], es[..|es| - 1];
      HostFetches(before, t) + if e.Fetch? && e.t == t && !FromSolve(before, t) then [e.payload] else []
  }

  /** What is recorded as issued is what the schedule says the host's threads wrote. */
  lemma {:induction false} IssuedOnSchedule(n: nat, verbose: bool, out: Buffer, err: Buffer, es: seq<Event>,
                                            s: State, t: nat)
    requires Reached(n, verbose, out, err, es, s) && t < n
    ensures |s.issued| == n && s.issued[t] == HostFetches(es, t)
    decreases |es|
  {
    ReachedIsSafe(n, verbose, out, err, es, s);
    if es != [] {
      var before, e := LastStep(n, verbose, out, err, es, s);
      IssuedOnSchedule(n, verbose, out, err, es[..|es| - 1], before, t);
      KindOnSchedule(n, verbose, out, err, es[..|es| - 1], before, t);
    }
  }

  /** The fate of every write: it goes to the buffer the stream held at the fetch; if that was a
      filter, it is dropped when it is the solver's at the delivery, and goes to the filter's
      target otherwise. */
  lemma WriteFate(n: nat, verbose: bool, out: Buffer, err: Buffer, es: seq<Event>, s: State, t: nat)
      returns (j: nat, before: State)
    requires Reached(n, verbose, out, err, es, s) && |s.issued| == |s.threads| && Enabled(s, Deliver(t))
    ensures FetchedAt(Start(n, verbose, out, err), es, t, j, before, s.threads[t].act)
    ensures var d, st := Apply(s, Deliver(t)).log[|s.log|], es[j].stream;
      var fetched := before.shared.consoles.On(st).current;
      && Apply(s, Deliver(t)).log == s.log + [d]
      && d.thread == t && d.stream == st && d.payload == es[j].payload
      && (d.kind.HostWrite? <==> !FromSolve(es, t))
      && (d.kind.SolverWrite? <==> OpenSolves(es, t) != 0 || Helps(es, t))
      && d.outcome == if !fetched.Filter? then To(fetched)
                      else if FromSolve(es, t) then Dropped
                      else To(s.shared.consoles.On(fetched.stream).target)
  {
    j, before := WriteWasFetched(n, verbose, out, err, es, s, t);
    ReachedIsSafe(n, verbose, out, err, es, s);
    KindOnSchedule(n, verbose, out, err, es, s, t);
  }

  /** A write from a solve or a worker slot that was fetched while the filters were on, with the
      stream not redirected since, reaches no buffer: not even the host's own on that thread. */
  lemma WritesFromSolvesAreDropped(n: nat, out: Buffer, err: Buffer, es: seq<Event>, s: State, t: nat)
      returns (j: nat, before: State)
    requires Reached(n, false, out, err, es, s) && |s.issued| == |s.threads| && Enabled(s, Deliver(t))
    requires FromSolve(es, t)
    ensures FetchedAt(Start(n, false, out, err), es, t, j, before, s.threads[t].act)
    ensures before.shared.consoles.depth > 0 && !before.shared.On(es[j].stream).redirected ==>
      var log := Apply(s, Deliver(t)).log;
      |log| == |s.log| + 1 && log[..|s.log|] == s.log && log[|s.log|].outcome == Dropped
  {
    j, before := WriteFate(n, false, out, err, es, s, t);
    DepthAndStreams(n, false, out, err, es[..j], before, es[j].stream);
  }

  // ---------------------------------------------------------------- what can always happen

  /** The environment is not held back: the host may redirect its streams at any time, an idle
      thread may write, start a solve or help a running one, whoever works on a solve may cite,
      and whatever is under way may be finished. */
  lemma StepsOffered(s: State, t: nat)
    requires t < |s.threads|
    ensures forall st: Stream, b: Buffer :: !b.Filter? ==> Enabled(s, HostRedirect(st, b))
    ensures s.threads[t].act.Writing? ==> Enabled(s, Deliver(t))
    ensures s.threads[t].act.Citing? ==> Enabled(s, CiteEnd(t))
    ensures s.threads[t].act.Idle? && s.threads[t].stage.Ready? ==>
      Enabled(s, Begin(t)) && forall st: Stream, payload: int :: Enabled(s, Fetch(t, st, payload))
  {
  }

  lemma WorkersOffered(s: State, t: nat)
    requires t < |s.threads| && s.threads[t].act.Idle? && s.threads[t].stage.Ready?
    ensures s.threads[t].running > 0 || s.threads[t].helping.Some? ==> Enabled(s, CiteBegin(t))
    ensures s.threads[t].running == 0 && s.threads[t].helping.Some? ==> Enabled(s, Release(t))
    ensures s.threads[t].running == 0 && s.threads[t].helping.None? ==>
      forall o: nat :: o < |s.threads| && s.threads[o].running > 0 ==> Enabled(s, Help(t, o))
    ensures s.threads[t].running == 0 && s.threads[t].helping.None? ==>
      forall slot: bool :: Enabled(s, Pool(t, slot))
  {
  }

  /** A step that ends an activity or moves a thread through its guards. */
  predicate Advances(e: Event) {
    e.Deliver? || e.CiteEnd? || e.Install? || e.InitBegin? || e.InitEnd? || e.InitSkip? || e.Reclaim? ||
    e.ResetEnd? || e.End? || e.Uninstall?
  }

  /** No thread is stuck in its guards: it can advance, or it waits for a thread that can, the one
      that resets the list with the lock held or the one inside the one-time initialisation. */
  lemma NobodyIsStuck(n: nat, verbose: bool, out: Buffer, err: Buffer, es: seq<Event>, s: State,
                      t: nat) returns (e: Event)
    requires Reached(n, verbose, out, err, es, s) && t < n
    requires |s.threads| == n ==> !s.threads[t].stage.Ready?
    ensures Enabled(s, e) && Advances(e)
    ensures e.t == t || s.shared.resetting == Some(e.t) || s.shared.once == InProgress(e.t)
  {
    ReachedIsSafe(n, verbose, out, err, es, s);
    assert ThreadOk(s.shared, s.threads[t], t);
    var u := t;
    if s.threads[t].stage.Silenced? && s.shared.once.InProgress? {
      u := s.shared.once.thread;
    } else if s.threads[t].stage.Initialized? && s.shared.resetting.Some? {
      u := s.shared.resetting.value;
    }
    assert ThreadOk(s.shared, s.threads[u], u);
    e := NextStep(s, u);
  }

  function NextStep(s: State, u: nat): Event
    requires u < |s.threads|
  {
    var th := s.threads[u];
    if th.act.Writing? then Deliver(u)
    else if th.act.Citing? then CiteEnd(u)
    else
      match th.stage
      case Entering => Install(u)
      case Silenced => if s.shared.once.NotRun? then InitBegin(u) else InitSkip(u)
      case Initializing => InitEnd(u)
      case Initialized => Reclaim(u)
      case Resetting => ResetEnd(u)
      case Reclaimed => End(u)
      case _ => Uninstall(u)
  }

  // ---------------------------------------------------------------- a solve from beginning to end

  function One(sh: Shared, th: Thread): State {
    State(sh, [th], [], [[]])
  }

  lemma OneStep(start: State, es: seq<Event>, sh: Shared, th: Thread, e: Event)
    requires |start.issued| == |start.threads| && Run(start, es) == Some(One(sh, th))
    requires !e.HostRedirect? && !e.Help? && !e.Fetch? && !e.Deliver? && e.t == 0 && Can(sh, th, e)
    requires th.helping.None?
    ensures Run(start, es + [e]) == Some(One(StepShared(sh, th, e), StepThread(sh, th, e)))
  {
    var s := One(sh, th);
    assert (es + [e])[..|es|] == es;
    assert Enabled(s, e);
    assert [th][0 := StepThread(sh, th, e)] == [StepThread(sh, th, e)];
  }

  lemma Then(start: State, es: seq<Event>, sh: Shared, th: Thread, e: Event)
      returns (sh': Shared, th': Thread, es': seq<Event>)
    requires |start.issued| == |start.threads| && Run(start, es) == Some(One(sh, th))
    requires !e.HostRedirect? && !e.Help? && !e.Fetch? && !e.Deliver? && e.t == 0 && Can(sh, th, e)
    requires th.helping.None?
    ensures sh' == StepShared(sh, th, e) && th' == StepThread(sh, th, e) && es' == es + [e]
    ensures Run(start, es') == Some(One(sh', th'))
  {
    OneStep(start, es, sh, th, e);
    sh', th', es' := StepShared(sh, th, e), StepThread(sh, th, e), es + [e];
  }

  const OPENING := [Begin(0), Install(0), InitBegin(0), CiteBegin(0), CiteEnd(0)]
  const MIDDLE := [InitEnd(0), Reclaim(0), CiteBegin(0), CiteEnd(0)]
  const CLOSING := [Finish(0), ResetEnd(0), End(0), Uninstall(0)]

  /** The globals while the filters are on for one solve. */
  function Filtering(out: Buffer, err: Buffer, once: Once, reclaimers: nat, citations: nat): Shared {
    Shared(false, Consoles(1, Console(Filter(Out), out, out), Console(Filter(Err), err, err)),
           Choice([out], false), Choice([err], false), once, reclaimers, None, citations, false, 0)
  }

  lemma Entering(out: Buffer, err: Buffer)
    ensures Run(Start(1, false, out, err), OPENING[..2]) ==
            Some(One(Filtering(out, err, NotRun, 0, 0), Thread(1, 0, Silenced, Idle, None, false)))
  {
    var start, th := Start(1, false, out, err), Nobody();
    var sh, es: seq<Event> := start.shared, [];
    assert start == One(sh, th);
    sh, th, es := Then(start, es, sh, th, Begin(0));
    sh, th, es := Then(start, es, sh, th, Install(0));
    assert es == OPENING[..2];
  }

  lemma Opening(out: Buffer, err: Buffer)
    ensures Run(Start(1, false, out, err), OPENING) ==
            Some(One(Filtering(out, err, InProgress(0), 0, 1), Thread(1, 0, Initializing, Idle, None, false)))
  {
    Entering(out, err);
    var start, th := Start(1, false, out, err), Thread(1, 0, Silenced, Idle, None, false);
    var sh, es := Filtering(out, err, NotRun, 0, 0), OPENING[..2];
    sh, th, es := Then(start, es, sh, th, InitBegin(0));
    sh, th, es := Then(start, es, sh, th, CiteBegin(0));
    sh, th, es := Then(start, es, sh, th, CiteEnd(0));
    assert es == OPENING;
  }

  lemma Solving(out: Buffer, err: Buffer)
    ensures Run(Start(1, false, out, err), OPENING + MIDDLE[..2]) ==
            Some(One(Filtering(out, err, Done, 1, 1), Thread(1, 1, Ready, Idle, None, false)))
  {
    Opening(out, err);
    var start, th := Start(1, false, out, err), Thread(1, 0, Initializing, Idle, None, false);
    var sh, es := Filtering(out, err, InProgress(0), 0, 1), OPENING;
    sh, th, es := Then(start, es, sh, th, InitEnd(0));
    sh, th, es := Then(start, es, sh, th, Reclaim(0));
    assert es == OPENING + MIDDLE[..2];
  }

  lemma Middle(out: Buffer, err: Buffer)
    ensures Run(Start(1, false, out, err), OPENING + MIDDLE) ==
            Some(One(Filtering(out, err, Done, 1, 2), Thread(1, 1, Ready, Idle, None, false)))
  {
    Solving(out, err);
    var start, th := Start(1, false, out, err), Thread(1, 1, Ready, Idle, None, false);
    var sh, es := Filtering(out, err, Done, 1, 1), OPENING + MIDDLE[..2];
    sh, th, es := Then(start, es, sh, th, CiteBegin(0));
    sh, th, es := Then(start, es, sh, th, CiteEnd(0));
    assert es == OPENING + MIDDLE;
  }

  lemma Reclaiming(out: Buffer, err: Buffer)
    ensures Run(Start(1, false, out, err), OPENING + MIDDLE + CLOSING[..2]) ==
            Some(One(Filtering(out, err, Done, 0, 0).(released := true), Thread(1, 0, Reclaimed, Idle, None, false)))
  {
    Middle(out, err);
    var start, th := Start(1, false, out, err), Thread(1, 1, Ready, Idle, None, false);
    var sh, es := Filtering(out, err, Done, 1, 2), OPENING + MIDDLE;
    sh, th, es := Then(start, es, sh, th, Finish(0));
    sh, th, es := Then(start, es, sh, th, ResetEnd(0));
    assert es == OPENING + MIDDLE + CLOSING[..2];
  }

  lemma Closing(out: Buffer, err: Buffer) returns (done: State)
    ensures Run(Start(1, false, out, err), OPENING + MIDDLE + CLOSING) == Some(done)
    ensures done.shared.completed == 1 && done.shared.citations == 0
    ensures done.shared.consoles == Consoles(0, Console(out, out, out), Console(err, err, err))
  {
    Reclaiming(out, err);
    var start, th := Start(1, false, out, err), Thread(1, 0, Reclaimed, Idle, None, false);
    var sh, es := Filtering(out, err, Done, 0, 0).(released := true), OPENING + MIDDLE + CLOSING[..2];
    sh, th, es := Then(start, es, sh, th, End(0));
    sh, th, es := Then(start, es, sh, th, Uninstall(0));
    done := One(sh, th);
    assert es == OPENING + MIDDLE + CLOSING;
  }

  /** The first solve of a process can run: the citation of its initialisation is on the list,
      then that of the solve too, and after the whole of it the list is empty and the streams are
      the host's again. */
  lemma LoneSolve(out: Buffer, err: Buffer) returns (solving: State, done: State)
    requires !out.Filter? && !err.Filter?
    ensures Reached(1, false, out, err, OPENING + MIDDLE, solving)
    ensures solving.shared.citations == 2 && solving.shared.consoles.out.current == Filter(Out)
    ensures Reached(1, false, out, err, OPENING + MIDDLE + CLOSING, done)
    ensures done.shared.completed == 1 && done.shared.citations == 0
    ensures done.shared.consoles.out.current == out && done.shared.consoles.err.current == err
  {
    Middle(out, err);
    solving := One(Filtering(out, err, Done, 1, 2), Thread(1, 1, Ready, Idle, None, false));
    done := Closing(out, err);
  }
}
