/** What holds in every reachable state of the step system. */
module SolveSafety {
  import opened Consoles
  import opened SolveMachine
  import opened Options

  // ---------------------------------------------------------------- counting guards

  /** Live silencers of a thread. */
  function Silencers(th: Thread): nat {
    th.running + if th.stage.Ready? || th.stage.Entering? then 0 else 1
  }

  function TotalSilencers(ths: seq<Thread>): nat {
    if ths == [] then 0 else TotalSilencers(ths[..|ths| - 1]) + Silencers(ths[|ths| - 1])
  }

  /** Live citation reclaimers of all threads: one for each running solve. */
  function TotalRunning(ths: seq<Thread>): nat {
    if ths == [] then 0 else TotalRunning(ths[..|ths| - 1]) + ths[|ths| - 1].running
  }

  lemma {:induction false} SilencersUpdate(ths: seq<Thread>, t: nat, th: Thread)
    requires t < |ths|
    ensures TotalSilencers(ths[t := th]) == TotalSilencers(ths) - Silencers(ths[t]) + Silencers(th)
    ensures TotalSilencers(ths) >= Silencers(ths[t])
  {
    var last := |ths| - 1;
    if t == last {
      assert ths[t := th][..last] == ths[..last];
    } else {
      assert ths[t := th][..last] == ths[..last][t := th];
      SilencersUpdate(ths[..last], t, th);
    }
  }

  lemma {:induction false} RunningUpdate(ths: seq<Thread>, t: nat, th: Thread)
    requires t < |ths|
    ensures TotalRunning(ths[t := th]) == TotalRunning(ths) - ths[t].running + th.running
    ensures TotalRunning(ths) >= ths[t].running
  {
    var last := |ths| - 1;
    if t == last {
      assert ths[t := th][..last] == ths[..last];
    } else {
      assert ths[t := th][..last] == ths[..last][t := th];
      RunningUpdate(ths[..last], t, th);
    }
  }

  /** No thread is inside a solve, its guards included. */
  predicate NoSolveInFlight(ths: seq<Thread>) {
    forall t :: 0 <= t < |ths| ==> ths[t].running == 0 && ths[t].stage.Ready?
  }

  lemma {:induction false} QuietTotals(ths: seq<Thread>)
    requires NoSolveInFlight(ths)
    ensures TotalSilencers(ths) == 0 && TotalRunning(ths) == 0
  {
    if ths != [] {
      QuietTotals(ths[..|ths| - 1]);
    }
  }

  // ---------------------------------------------------------------- the invariant

  predicate PastInit(th: Thread) {
    th.running > 0 || th.stage.Initialized? || th.stage.Resetting? || th.stage.Reclaimed? ||
    th.stage.Leaving?
  }

  /** One thread's own counters and the shared facts its position implies. */
  predicate ThreadOk(sh: Shared, th: Thread, t: nat) {
    && th.solveDepth == th.running +
         (if th.stage.Ready? || th.stage.Leaving? then 0 else 1)
    && (th.helping.Some? ==> th.slot)
    && (th.stage.Initializing? <==> sh.once == InProgress(t))
    && (PastInit(th) ==> sh.once.Done?)
    && (th.stage.Resetting? <==> sh.resetting == Some(t))
    && (th.stage.Resetting? || th.stage.Reclaimed? || th.stage.Leaving? ==> sh.released)
    && (th.act.Writing? ==> th.stage.Ready? || th.stage.Initializing?)
    && (th.act.Citing? ==> CanCite(th))
  }

  /** The stream, its saved buffer and its filter's target against the host's own choices. */
  predicate StreamOk(depth: nat, c: Console, choice: Choice, st: Stream) {
    && choice.history != []
    && (forall i :: 0 <= i < |choice.history| ==> !choice.history[i].Filter?)
    && (if depth == 0 then c.current == choice.Latest()
        else
          && c.target == c.saved
          && c.saved in choice.history
          && (if choice.redirected then c.current == choice.Latest()
              else c.current == Filter(st) && c.saved == choice.Latest()))
  }

  /** The buffer was the host's choice at some moment between a fetch that saw `since` choices
      and a delivery that saw `until` of them. */
  predicate ChosenBetween(choice: Choice, since: nat, until: nat, b: Buffer) {
    1 <= since <= until <= |choice.history| && exists i :: since - 1 <= i < until && choice.history[i] == b
  }

  /** A write in flight is bound for a buffer the host chose since the fetch, and a solver's
      write holds the filter unless the host had redirected the stream. */
  predicate WriteOk(sh: Shared, th: Thread) {
    th.act.Writing? ==>
      var st, via, since := th.act.stream, th.act.via, th.act.since;
      var until := |sh.On(st).history|;
      && (if via.Filter? then
            via == Filter(st) && ChosenBetween(sh.On(st), since, until, sh.consoles.On(st).target)
          else ChosenBetween(sh.On(st), since, until, via))
      && (sh.verbose ==> !via.Filter?)
      && (InSolve(th) && !sh.verbose ==> (via.Filter? <==> !th.act.redirected))
  }

  predicate DeliveryOk(sh: Shared, d: Delivery) {
    && (d.kind.HostWrite? || sh.verbose ==>
          d.outcome.To? && ChosenBetween(sh.On(d.stream), d.since, d.until, d.outcome.buffer))
    && (d.kind.SolverWrite? && !sh.verbose ==> (d.outcome.Dropped? <==> !d.redirected))
  }

  /** The payloads of thread `t`'s delivered host writes, in delivery order. */
  function HostPayloads(log: seq<Delivery>, t: nat): seq<int> {
    if log == [] then []
    else
      var d := log[|log| - 1];
      HostPayloads(log[..|log| - 1], t) + if d.thread == t && d.kind.HostWrite? then [d.payload] else []
  }

  function InFlight(th: Thread): seq<int> {
    if th.act.Writing? && KindOf(th).HostWrite? then [th.act.payload] else []
  }

  /** A thread's host writes are delivered once each, in the order it issued them. */
  predicate InOrder(s: State, t: nat)
    requires t < |s.threads| && t < |s.issued|
  {
    s.issued[t] == HostPayloads(s.log, t) + InFlight(s.threads[t])
  }

  ghost predicate ThreadsOk(s: State) {
    forall t :: 0 <= t < |s.threads| ==> ThreadOk(s.shared, s.threads[t], t)
  }

  /** A helper's owner is inside the solve it is helped with. */
  ghost predicate HelpersOk(ths: seq<Thread>) {
    forall t :: 0 <= t < |ths| && ths[t].helping.Some? ==>
      ths[t].helping.value < |ths| && ths[ths[t].helping.value].running > 0
  }

  /** The citation globals, given the number of live reclaimers and of threads. */
  predicate CitesOk(sh: Shared, live: nat, n: nat) {
    && sh.citationDepth == live
    && (sh.resetting.Some? ==> live == 0 && sh.resetting.value < n)
    && (sh.once.InProgress? ==> sh.once.thread < n)
    && (sh.released ==> sh.once.Done?)
    && (sh.released && live == 0 && sh.resetting.None? ==> sh.citations == 0)
    && (sh.completed > 0 ==> sh.released)
  }

  predicate CitationsOk(s: State) {
    CitesOk(s.shared, TotalRunning(s.threads), |s.threads|)
  }

  ghost predicate ConsolesOk(s: State) {
    && s.shared.consoles.depth == (if s.shared.verbose then 0 else TotalSilencers(s.threads))
    && StreamOk(s.shared.consoles.depth, s.shared.consoles.out, s.shared.out, Out)
    && StreamOk(s.shared.consoles.depth, s.shared.consoles.err, s.shared.err, Err)
  }

  ghost predicate WritesOk(s: State) {
    && |s.issued| == |s.threads|
    && (forall t :: 0 <= t < |s.threads| ==> WriteOk(s.shared, s.threads[t]))
    && (forall i :: 0 <= i < |s.log| ==> DeliveryOk(s.shared, s.log[i]))
    && (forall t :: 0 <= t < |s.threads| ==> InOrder(s, t))
  }

  ghost predicate Inv(s: State) {
    ThreadsOk(s) && HelpersOk(s.threads) && CitationsOk(s) && ConsolesOk(s) && WritesOk(s)
  }

  // ---------------------------------------------------------------- threads

  lemma ActorThread(sh: Shared, th: Thread, e: Event)
    requires !e.HostRedirect? && Can(sh, th, e) && ThreadOk(sh, th, e.t)
    requires e.Finish? ==> sh.citationDepth > 0
    ensures ThreadOk(StepShared(sh, th, e), StepThread(sh, th, e), e.t)
  {
  }

  lemma OtherThread(sh: Shared, th: Thread, e: Event, u: nat, other: Thread)
    requires !e.HostRedirect? && Can(sh, th, e) && ThreadOk(sh, th, e.t)
    requires ThreadOk(sh, other, u) && u != e.t
    ensures ThreadOk(StepShared(sh, th, e), other, u)
  {
  }

  lemma StepThreads(s: State, e: Event)
    requires Enabled(s, e) && |s.issued| == |s.threads| && ThreadsOk(s) && CitationsOk(s)
    ensures ThreadsOk(Apply(s, e))
  {
    var s' := Apply(s, e);
    forall u | 0 <= u < |s'.threads|
      ensures ThreadOk(s'.shared, s'.threads[u], u)
    {
      if !e.HostRedirect? {
        RunningUpdate(s.threads, e.t, s.threads[e.t]);
        if u == e.t {
          ActorThread(s.shared, s.threads[u], e);
        } else {
          OtherThread(s.shared, s.threads[e.t], e, u, s.threads[u]);
        }
      }
    }
  }

  lemma HelpersUpdate(ths: seq<Thread>, t: nat, th: Thread)
    requires HelpersOk(ths) && t < |ths|
    requires th.helping.Some? && th.helping != ths[t].helping ==>
      th.helping.value < |ths| && th.helping.value != t && ths[th.helping.value].running > 0
    requires th.running > 0 || ths[t].running == 0 ||
      forall w :: 0 <= w < |ths| ==> ths[w].helping != Some(t)
    ensures HelpersOk(ths[t := th])
  {
  }

  lemma StepHelpers(s: State, e: Event)
    requires Enabled(s, e) && |s.issued| == |s.threads| && HelpersOk(s.threads)
    ensures HelpersOk(Apply(s, e).threads)
  {
    if !e.HostRedirect? {
      HelpersUpdate(s.threads, e.t, StepThread(s.shared, s.threads[e.t], e));
    }
  }

  // ---------------------------------------------------------------- citations

  /** A thread that can cite belongs to the one-time initialisation or to a running solve. */
  lemma CitingIsCovered(s: State, t: nat)
    requires ThreadsOk(s) && HelpersOk(s.threads) && CitationsOk(s)
    requires t < |s.threads| && CanCite(s.threads[t])
    ensures s.shared.once == InProgress(t) || s.shared.citationDepth > 0
  {
    var th := s.threads[t];
    if th.stage.Ready? {
      var owner := if th.running > 0 then t else th.helping.value;
      RunningUpdate(s.threads, owner, s.threads[owner]);
    }
  }

  lemma CitesStep(sh: Shared, th: Thread, e: Event, live: nat, n: nat)
    requires !e.HostRedirect? && e.t < n && Can(sh, th, e) && ThreadOk(sh, th, e.t)
    requires CitesOk(sh, live, n) && th.running <= live
    requires e.CiteEnd? ==> sh.once == InProgress(e.t) || live > 0
    ensures CitesOk(StepShared(sh, th, e), live - th.running + StepThread(sh, th, e).running, n)
  {
  }

  lemma ActorCitations(s: State, e: Event, th: Thread)
    requires !e.HostRedirect? && e.t < |s.threads| && th == s.threads[e.t] && Can(s.shared, th, e)
    requires ThreadsOk(s) && HelpersOk(s.threads) && CitationsOk(s)
    ensures CitesOk(StepShared(s.shared, th, e),
                    TotalRunning(s.threads[e.t := StepThread(s.shared, th, e)]), |s.threads|)
  {
    var th' := StepThread(s.shared, th, e);
    RunningUpdate(s.threads, e.t, th');
    assert e.CiteEnd? ==> s.shared.once == InProgress(e.t) || TotalRunning(s.threads) > 0 by {
      if e.CiteEnd? {
        CitingIsCovered(s, e.t);
      }
    }
    CitesStep(s.shared, th, e, TotalRunning(s.threads), |s.threads|);
  }

  lemma RedirectCites(sh: Shared, th: Thread, e: Event, live: nat, n: nat)
    requires e.HostRedirect? && CitesOk(sh, live, n)
    ensures CitesOk(StepShared(sh, th, e), live, n)
  {
  }

  lemma StepCitations(s: State, e: Event)
    requires Enabled(s, e) && |s.issued| == |s.threads|
    requires ThreadsOk(s) && HelpersOk(s.threads) && CitationsOk(s)
    ensures CitesOk(StepShared(s.shared, Actor(s, e), e), TotalRunning(ThreadsAfter(s, e)), |s.threads|)
  {
    if e.HostRedirect? {
      RedirectCites(s.shared, Actor(s, e), e, TotalRunning(s.threads), |s.threads|);
    } else {
      ActorCitations(s, e, s.threads[e.t]);
    }
  }

  // ---------------------------------------------------------------- consoles

  /** The shared depth moves exactly as the acting thread's live silencers do. */
  lemma DepthFollowsThread(sh: Shared, th: Thread, e: Event)
    requires !e.HostRedirect? && Can(sh, th, e) && ThreadOk(sh, th, e.t) && !sh.verbose
    requires sh.consoles.depth >= Silencers(th)
    ensures StepShared(sh, th, e).consoles.depth - sh.consoles.depth ==
            Silencers(StepThread(sh, th, e)) - Silencers(th)
  {
  }

  lemma StreamStep(sh: Shared, th: Thread, e: Event, st: Stream)
    requires StreamOk(sh.consoles.depth, sh.consoles.On(st), sh.On(st), st)
    requires e.HostRedirect? ==> !e.buffer.Filter?
    requires e.Uninstall? ==> sh.verbose || sh.consoles.depth > 0
    ensures var sh' := StepShared(sh, th, e);
      StreamOk(sh'.consoles.depth, sh'.consoles.On(st), sh'.On(st), st)
  {
  }

  lemma ActorDepth(s: State, e: Event, th: Thread)
    requires !e.HostRedirect? && e.t < |s.threads| && th == s.threads[e.t] && Can(s.shared, th, e)
    requires ThreadsOk(s) && ConsolesOk(s)
    ensures StepShared(s.shared, th, e).consoles.depth ==
            if s.shared.verbose then 0
            else TotalSilencers(s.threads[e.t := StepThread(s.shared, th, e)])
    ensures e.Uninstall? ==> s.shared.verbose || s.shared.consoles.depth > 0
  {
    SilencersUpdate(s.threads, e.t, StepThread(s.shared, th, e));
    if !s.shared.verbose {
      DepthFollowsThread(s.shared, th, e);
    }
  }

  lemma StepConsoles(s: State, e: Event)
    requires Enabled(s, e) && |s.issued| == |s.threads| && ThreadsOk(s) && ConsolesOk(s)
    ensures ConsolesOk(Apply(s, e))
  {
    var th := Actor(s, e);
    if !e.HostRedirect? {
      ActorDepth(s, e, th);
    }
    StreamStep(s.shared, th, e, Out);
    StreamStep(s.shared, th, e, Err);
  }

  // ---------------------------------------------------------------- writes

  /** A thread inside a solve keeps the filters on: its own silencer is live, or its owner's. */
  lemma SolverIsCovered(s: State, t: nat)
    requires ThreadsOk(s) && HelpersOk(s.threads) && ConsolesOk(s) && !s.shared.verbose
    requires t < |s.threads| && InSolve(s.threads[t]) && !s.threads[t].stage.Entering?
    ensures s.shared.consoles.depth > 0
  {
    var th := s.threads[t];
    var owner := if th.solveDepth != 0 then t else th.helping.value;
    SilencersUpdate(s.threads, owner, s.threads[owner]);
  }

  predicate StreamsOk(sh: Shared) {
    StreamOk(sh.consoles.depth, sh.consoles.out, sh.out, Out) &&
    StreamOk(sh.consoles.depth, sh.consoles.err, sh.err, Err)
  }

  lemma FetchedWrite(sh: Shared, th: Thread, e: Event)
    requires e.Fetch? && Can(sh, th, e) && StreamsOk(sh)
    requires InSolve(th) && !sh.verbose ==> sh.consoles.depth > 0
    requires sh.verbose ==> sh.consoles.depth == 0
    ensures WriteOk(sh, StepThread(sh, th, e))
  {
  }

  lemma ChoicesGrow(sh: Shared, th: Thread, e: Event, st: Stream)
    ensures sh.On(st).history <= StepShared(sh, th, e).On(st).history
    ensures StepShared(sh, th, e).verbose == sh.verbose
  {
  }

  /** A filter's target moves only when the filters go on again. */
  lemma TargetMoves(sh: Shared, th: Thread, e: Event, st: Stream)
    requires StreamOk(sh.consoles.depth, sh.consoles.On(st), sh.On(st), st)
    ensures var target := StepShared(sh, th, e).consoles.On(st).target;
      target == sh.consoles.On(st).target || target == sh.On(st).Latest()
  {
  }

  lemma ChosenStays(c: Choice, c': Choice, since: nat, until: nat, until': nat, b: Buffer)
    requires ChosenBetween(c, since, until, b) && c.history <= c'.history
    requires until <= until' <= |c'.history|
    ensures ChosenBetween(c', since, until', b)
  {
    var i :| since - 1 <= i < until && c.history[i] == b;
    assert c'.history[i] == b;
  }

  /** Another thread's write stays well-bound: choices only grow, and a filter that goes on
      again takes the host's latest choice as its target. */
  lemma WriteKept(sh: Shared, th: Thread, e: Event, other: Thread)
    requires StreamsOk(sh) && WriteOk(sh, other)
    ensures WriteOk(StepShared(sh, th, e), other)
  {
    if other.act.Writing? {
      var sh', st := StepShared(sh, th, e), other.act.stream;
      var c, c', since := sh.On(st), sh'.On(st), other.act.since;
      var until, until' := |c.history|, |c'.history|;
      ChoicesGrow(sh, th, e, st);
      TargetMoves(sh, th, e, st);
      if other.act.via.Filter? {
        var b := sh'.consoles.On(st).target;
        if b == c.Latest() {
          assert c.history[until - 1] == b;
        }
        ChosenStays(c, c', since, until, until', b);
      } else {
        ChosenStays(c, c', since, until, until', other.act.via);
      }
    }
  }

  lemma DeliveryKept(sh: Shared, th: Thread, e: Event, d: Delivery)
    requires DeliveryOk(sh, d)
    ensures DeliveryOk(StepShared(sh, th, e), d)
  {
    ChoicesGrow(sh, th, e, d.stream);
    if d.kind.HostWrite? || sh.verbose {
      ChosenStays(sh.On(d.stream), StepShared(sh, th, e).On(d.stream), d.since, d.until, d.until, d.outcome.buffer);
    }
  }

  lemma NewDelivery(sh: Shared, th: Thread, t: nat)
    requires ThreadOk(sh, th, t) && th.act.Writing? && WriteOk(sh, th)
    ensures DeliveryOk(sh, Delivered(sh, th, t))
  {
  }

  lemma WriteAfter(s: State, e: Event, t: nat)
    requires Enabled(s, e) && Inv(s) && t < |s.threads|
    ensures WriteOk(StepShared(s.shared, Actor(s, e), e), ThreadsAfter(s, e)[t])
  {
    var th := Actor(s, e);
    if e.Fetch? && t == e.t {
      if InSolve(th) && !s.shared.verbose {
        SolverIsCovered(s, t);
      }
      FetchedWrite(s.shared, th, e);
    } else if ThreadsAfter(s, e)[t].act.Writing? {
      WriteKept(s.shared, th, e, s.threads[t]);
    }
  }

  lemma StepInFlight(s: State, e: Event)
    requires Enabled(s, e) && Inv(s)
    ensures var s' := Apply(s, e);
      forall t :: 0 <= t < |s'.threads| ==> WriteOk(s'.shared, s'.threads[t])
  {
    forall t | 0 <= t < |s.threads|
      ensures WriteOk(Apply(s, e).shared, Apply(s, e).threads[t])
    {
      WriteAfter(s, e, t);
    }
  }

  lemma StepLog(s: State, e: Event)
    requires Enabled(s, e) && Inv(s)
    ensures var s' := Apply(s, e);
      forall i :: 0 <= i < |s'.log| ==> DeliveryOk(s'.shared, s'.log[i])
  {
    var s' := Apply(s, e);
    forall i | 0 <= i < |s'.log|
      ensures DeliveryOk(s'.shared, s'.log[i])
    {
      var th := if e.HostRedirect? then Nobody() else s.threads[e.t];
      if i < |s.log| {
        DeliveryKept(s.shared, th, e, s.log[i]);
      } else {
        NewDelivery(s.shared, th, e.t);
      }
    }
  }

  lemma InFlightKept(sh: Shared, th: Thread, e: Event)
    requires !e.HostRedirect? && !e.Fetch? && !e.Deliver? && Can(sh, th, e)
    ensures InFlight(StepThread(sh, th, e)) == InFlight(th)
  {
  }

  lemma StepOrder(s: State, e: Event, t: nat)
    requires Enabled(s, e) && |s.issued| == |s.threads| && t < |s.threads|
    requires InOrder(s, t)
    ensures IssuedAfter(s, e)[t] == HostPayloads(LogAfter(s, e), t) + InFlight(ThreadsAfter(s, e)[t])
  {
    if e.Deliver? {
      assert LogAfter(s, e)[..|s.log|] == s.log;
    } else if !e.HostRedirect? && !e.Fetch? && e.t == t {
      InFlightKept(s.shared, s.threads[t], e);
    }
  }

  lemma StepKeepsInv(s: State, e: Event, s': State)
    requires Inv(s) && Enabled(s, e) && s' == Apply(s, e)
    ensures Inv(s') && s'.shared.verbose == s.shared.verbose && |s'.threads| == |s.threads|
  {
    ChoicesGrow(s.shared, Actor(s, e), e, Out);
    StepThreads(s, e);
    StepHelpers(s, e);
    StepCitations(s, e);
    StepConsoles(s, e);
    StepInFlight(s, e);
    StepLog(s, e);
    forall t | 0 <= t < |s.threads|
      ensures InOrder(Apply(s, e), t)
    {
      StepOrder(s, e, t);
    }
  }
}
