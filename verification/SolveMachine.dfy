/** Any number of threads solving, helping a solve, writing to the host's streams and citing,
    as a step system. Each locked region is one step; a stream write and a citation are two
    steps each, because other threads can run in between. */
module SolveMachine {
  import opened Consoles
  import opened Options

  /** Where a thread stands in `solveSeamlessUv`. `Ready` is code outside the guards: host code
      when no solve is running on the thread, the vendored solver otherwise. */
  datatype Stage =
    | Ready
    | Entering      // t_solveDepth raised, the silencer's lock not yet taken
    | Silenced      // the silencer is constructed
    | Initializing  // inside std::call_once
    | Initialized   // past std::call_once, no reclaimer yet
    | Resetting     // last reclaimer out, inside reset_citations() with the lock held
    | Reclaimed     // the reclaimer is gone
    | Leaving       // t_solveDepth lowered, the silencer's lock not yet taken

  /** An unfinished unsynchronised action. A write remembers the buffer it fetched, the position
      of the host's choice in force at that moment, and whether the host had redirected the
      stream since the filters went on. */
  datatype Activity =
    | Idle
    | Writing(stream: Stream, via: Buffer, payload: int, since: nat, redirected: bool)
    | Citing

  /** `running` counts the solves of this thread that are past their guards (a thread that waits
      inside one solve may start another); `slot` is a pool worker slot or an OpenMP level. */
  datatype Thread = Thread(
    solveDepth: nat, running: nat, stage: Stage, act: Activity, helping: Option<nat>, slot: bool)

  datatype Once = NotRun | InProgress(thread: nat) | Done

  datatype Kind = HostWrite | SolverWrite | PoolWrite

  /** A finished write. The host's choices numbered `since` up to, not including, `until` are
      those that were in force at some moment between the fetch and the delivery. */
  datatype Delivery = Delivery(
    thread: nat, kind: Kind, stream: Stream, payload: int, outcome: Outcome,
    since: nat, until: nat, redirected: bool)

  /** Every buffer the host has had on a stream, oldest first, and whether it changed the stream
      since the filters went on. */
  datatype Choice = Choice(history: seq<Buffer>, redirected: bool) {
    function Latest(): Buffer {
      if history == [] then NoBuffer else history[|history| - 1]
    }
    function Add(b: Buffer): Choice {
      Choice(history + [b], true)
    }
  }

  /** The process globals, and what has been observed of them. `released` says that some solve
      has given up its reclaimer, `completed` counts the solves that have ended. */
  datatype Shared = Shared(
    verbose: bool,
    consoles: Consoles,
    out: Choice,
    err: Choice,
    once: Once,
    citationDepth: nat,
    resetting: Option<nat>,
    citations: nat,
    released: bool,
    completed: nat)
  {
    function On(st: Stream): Choice {
      if st.Out? then out else err
    }
  }

  datatype State = State(shared: Shared, threads: seq<Thread>, log: seq<Delivery>, issued: seq<seq<int>>)

  datatype Event =
    | Begin(t: nat)
    | Install(t: nat)
    | InitBegin(t: nat)
    | InitEnd(t: nat)
    | InitSkip(t: nat)
    | Reclaim(t: nat)
    | Finish(t: nat)
    | ResetEnd(t: nat)
    | End(t: nat)
    | Uninstall(t: nat)
    | Help(t: nat, owner: nat)
    | Release(t: nat)
    | Pool(t: nat, slot: bool)
    | Fetch(t: nat, stream: Stream, payload: int)
    | Deliver(t: nat)
    | CiteBegin(t: nat)
    | CiteEnd(t: nat)
    | HostRedirect(stream: Stream, buffer: Buffer)

  // ---------------------------------------------------------------- steps

  /** `writingFromSolve()`. */
  predicate WritingFromSolve(th: Thread) {
    th.solveDepth != 0 || th.slot
  }

  predicate InSolve(th: Thread) {
    th.solveDepth != 0 || th.helping.Some?
  }

  function KindOf(th: Thread): Kind {
    if InSolve(th) then SolverWrite else if th.slot then PoolWrite else HostWrite
  }

  predicate CanCite(th: Thread) {
    th.stage.Initializing? || (th.stage.Ready? && (th.running > 0 || th.helping.Some?))
  }

  /** Whether thread `t`, in state `th`, can take the step, as far as it alone can tell. */
  predicate Can(sh: Shared, th: Thread, e: Event) {
    match e
    case Begin(_) => th.act.Idle? && th.stage.Ready?
    case Install(_) => th.act.Idle? && th.stage.Entering?
    case InitBegin(_) => th.act.Idle? && th.stage.Silenced? && sh.once.NotRun?
    case InitEnd(_) => th.act.Idle? && th.stage.Initializing?
    case InitSkip(_) => th.act.Idle? && th.stage.Silenced? && sh.once.Done?
    case Reclaim(_) => th.act.Idle? && th.stage.Initialized? && sh.resetting.None?
    case Finish(_) => th.act.Idle? && th.stage.Ready? && th.running > 0 && sh.resetting.None?
    case ResetEnd(_) => th.act.Idle? && th.stage.Resetting?
    case End(_) => th.act.Idle? && th.stage.Reclaimed?
    case Uninstall(_) => th.act.Idle? && th.stage.Leaving?
    case Help(_, _) => th.act.Idle? && th.stage.Ready? && th.running == 0 && th.helping.None?
    case Release(_) => th.act.Idle? && th.stage.Ready? && th.running == 0 && th.helping.Some?
    case Pool(_, _) => th.act.Idle? && th.stage.Ready? && th.running == 0 && th.helping.None?
    case Fetch(_, _, _) => th.act.Idle? && (th.stage.Ready? || th.stage.Initializing?)
    case Deliver(_) => th.act.Writing?
    case CiteBegin(_) => th.act.Idle? && CanCite(th)
    case CiteEnd(_) => th.act.Citing?
    case HostRedirect(_, _) => false
  }

  predicate Enabled(s: State, e: Event) {
    if e.HostRedirect? then !e.buffer.Filter?
    else
      && e.t < |s.threads|
      && Can(s.shared, s.threads[e.t], e)
      && (e.Help? ==> e.owner < |s.threads| && s.threads[e.owner].running > 0)
      // remesh() of the outermost solve has returned: no worker is still inside; those of an
      // outer solve may be when an inner one ends
      && (e.Finish? && s.threads[e.t].running == 1 ==>
            forall w :: 0 <= w < |s.threads| ==> s.threads[w].helping != Some(e.t))
  }

  /** The acting thread after its step. */
  function StepThread(sh: Shared, th: Thread, e: Event): Thread {
    match e
    case Begin(_) => th.(stage := Entering, solveDepth := th.solveDepth + 1)
    case Install(_) => th.(stage := Silenced)
    case InitBegin(_) => th.(stage := Initializing)
    case InitEnd(_) => th.(stage := Initialized)
    case InitSkip(_) => th.(stage := Initialized)
    case Reclaim(_) => th.(stage := Ready, running := th.running + 1)
    case Finish(_) =>
      th.(stage := if Decrement(sh.citationDepth) == 0 then Resetting else Reclaimed,
          running := Decrement(th.running))
    case ResetEnd(_) => th.(stage := Reclaimed)
    case End(_) => th.(stage := Leaving, solveDepth := Decrement(th.solveDepth))
    case Uninstall(_) => th.(stage := Ready)
    case Help(_, owner) => th.(helping := Some(owner), slot := true)
    case Release(_) => th.(helping := None, slot := false)
    case Pool(_, slot) => th.(slot := slot)
    case Fetch(_, st, payload) =>
      th.(act := Writing(st, sh.consoles.On(st).current, payload, |sh.On(st).history|, sh.On(st).redirected))
    case Deliver(_) => th.(act := Idle)
    case CiteBegin(_) => th.(act := Citing)
    case CiteEnd(_) => th.(act := Idle)
    case HostRedirect(_, _) => th
  }

  /** The globals after a step of a thread that was in state `th`. */
  function StepShared(sh: Shared, th: Thread, e: Event): Shared {
    match e
    case Install(_) =>
      if sh.verbose then sh
      else if sh.consoles.depth == 0 then
        sh.(consoles := Engage(sh.consoles),
            out := sh.out.(redirected := false), err := sh.err.(redirected := false))
      else sh.(consoles := Engage(sh.consoles))
    case InitBegin(t) => sh.(once := InProgress(t))
    case InitEnd(_) => sh.(once := Done)
    case Reclaim(_) => sh.(citationDepth := sh.citationDepth + 1)
    case Finish(t) =>
      var depth := Decrement(sh.citationDepth);
      sh.(citationDepth := depth, resetting := if depth == 0 then Some(t) else None, released := true)
    case ResetEnd(_) => sh.(resetting := None, citations := 0)
    case Uninstall(_) =>
      if sh.verbose then sh.(completed := sh.completed + 1)
      else sh.(consoles := Disengage(sh.consoles), completed := sh.completed + 1)
    case CiteEnd(_) => sh.(citations := sh.citations + 1)
    case HostRedirect(st, b) =>
      if st.Out? then sh.(consoles := Redirect(sh.consoles, st, b), out := sh.out.Add(b))
      else sh.(consoles := Redirect(sh.consoles, st, b), err := sh.err.Add(b))
    case _ => sh
  }

  /** The record of the write that a `Deliver` step finishes. */
  function Delivered(sh: Shared, th: Thread, t: nat): Delivery
    requires th.act.Writing?
  {
    Delivery(t, KindOf(th), th.act.stream, th.act.payload,
             Route(sh.consoles, th.act.via, WritingFromSolve(th)),
             th.act.since, |sh.On(th.act.stream).history|, th.act.redirected)
  }

  function Actor(s: State, e: Event): Thread
    requires Enabled(s, e)
  {
    if e.HostRedirect? then Nobody() else s.threads[e.t]
  }

  function ThreadsAfter(s: State, e: Event): seq<Thread>
    requires Enabled(s, e)
  {
    if e.HostRedirect? then s.threads else s.threads[e.t := StepThread(s.shared, Actor(s, e), e)]
  }

  function LogAfter(s: State, e: Event): seq<Delivery>
    requires Enabled(s, e)
  {
    if e.Deliver? then s.log + [Delivered(s.shared, Actor(s, e), e.t)] else s.log
  }

  function IssuedAfter(s: State, e: Event): seq<seq<int>>
    requires Enabled(s, e) && |s.issued| == |s.threads|
  {
    if e.Fetch? && KindOf(Actor(s, e)).HostWrite? then s.issued[e.t := s.issued[e.t] + [e.payload]]
    else s.issued
  }

  function Apply(s: State, e: Event): State
    requires Enabled(s, e) && |s.issued| == |s.threads|
  {
    State(StepShared(s.shared, Actor(s, e), e), ThreadsAfter(s, e), LogAfter(s, e), IssuedAfter(s, e))
  }

  function Nobody(): Thread {
    Thread(0, 0, Ready, Idle, None, false)
  }

  /** The process before the first solve: `n` threads, two streams with the host's buffers. */
  function Start(n: nat, verbose: bool, out: Buffer, err: Buffer): State {
    State(Shared(verbose,
                 Consoles(0, Console(out, NoBuffer, NoBuffer), Console(err, NoBuffer, NoBuffer)),
                 Choice([out], false), Choice([err], false), NotRun, 0, None, 0, false, 0),
          seq(n, _ => Nobody()), [], seq(n, _ => []))
  }

  /** The state after a schedule, or None when the schedule takes a step that is not enabled. */
  function Run(s: State, es: seq<Event>): (r: Option<State>)
    requires |s.issued| == |s.threads|
    ensures r.Some? ==> |r.value.issued| == |r.value.threads| == |s.threads|
  {
    if es == [] then Some(s)
    else
      var last := |es| - 1;
      var r := Run(s, es[..last]);
      if r.Some? && Enabled(r.value, es[last]) then Some(Apply(r.value, es[last])) else None
  }
}
