/** The two guards of `solveSeamlessUv` as the objects they are, proved against the functions of
    `Consoles` that the step system of `SolveMachine` takes its locked regions from. */
module SolveGuards {
  import opened Consoles

  /** std::cout, std::cerr, the two leaked filters and the globals under consoleMutex(). */
  class ProcessConsole {
    var depth: nat
    var coutBuffer: Buffer
    var cerrBuffer: Buffer
    var savedOut: Buffer
    var savedErr: Buffer
    var outTarget: Buffer
    var errTarget: Buffer

    constructor (cout: Buffer, cerr: Buffer)
      ensures View() == Consoles(0, Console(cout, NoBuffer, NoBuffer), Console(cerr, NoBuffer, NoBuffer))
    {
      depth, coutBuffer, cerrBuffer := 0, cout, cerr;
      savedOut, savedErr, outTarget, errTarget := NoBuffer, NoBuffer, NoBuffer, NoBuffer;
    }

    function View(): Consoles
      reads this
    {
      Consoles(depth, Console(coutBuffer, savedOut, outTarget), Console(cerrBuffer, savedErr, errTarget))
    }

    /** `SolveFilterBuffer::xsputn` behind the buffer a write fetched; `overflow` and `sync` take
        the same decision. */
    method Put(via: Buffer, fromSolve: bool) returns (outcome: Outcome)
      ensures outcome == Route(View(), via, fromSolve)
    {
      if via.Filter? {
        if fromSolve {
          return Dropped;
        }
        outcome := To(if via.stream.Out? then outTarget else errTarget);
      } else {
        outcome := To(via);
      }
    }
  }

  class ThreadLocals {
    var solveDepth: nat

    constructor ()
      ensures solveDepth == 0
    {
      solveDepth := 0;
    }
  }

  class ConsoleSilencer {
    const engaged: bool
    const console: ProcessConsole
    const thread: ThreadLocals

    constructor (outputWanted: bool, console: ProcessConsole, thread: ThreadLocals)
      modifies console, thread
      ensures this.console == console && this.thread == thread && engaged == !outputWanted
      ensures thread.solveDepth == old(thread.solveDepth) + 1
      ensures console.View() == if outputWanted then old(console.View()) else Engage(old(console.View()))
    {
      engaged := !outputWanted;
      this.console := console;
      this.thread := thread;
      new;
      thread.solveDepth := thread.solveDepth + 1;
      if engaged {
        var before := console.depth;
        console.depth := console.depth + 1;
        if before == 0 {
          console.savedOut := console.coutBuffer;
          console.savedErr := console.cerrBuffer;
          console.outTarget := console.savedOut;
          console.errTarget := console.savedErr;
          console.coutBuffer := Filter(Out);
          console.cerrBuffer := Filter(Err);
        }
      }
    }

    /** The destructor. */
    method Destroy()
      requires thread.solveDepth > 0
      modifies console, thread
      ensures thread.solveDepth == old(thread.solveDepth) - 1
      ensures console.View() == if engaged then Disengage(old(console.View())) else old(console.View())
    {
      thread.solveDepth := thread.solveDepth - 1;
      if !engaged {
        return;
      }
      console.depth := Decrement(console.depth);
      if console.depth != 0 {
        return;
      }
      if console.coutBuffer == Filter(Out) {
        console.coutBuffer := console.savedOut;
      }
      if console.cerrBuffer == Filter(Err) {
        console.cerrBuffer := console.savedErr;
      }
    }
  }

  /** Geogram's registry and the globals under citationMutex() and the once flag. */
  class CitationRegistry {
    var depth: nat
    var records: nat
    var initialized: bool

    constructor ()
      ensures depth == 0 && records == 0 && !initialized
    {
      depth, records, initialized := 0, 0, false;
    }

    /** `ensureGeogramInitialized`: the initialisation cites too, `startup` times, and runs once. */
    method EnsureInitialized(startup: nat)
      modifies this
      ensures initialized && depth == old(depth)
      ensures records == old(records) + if old(initialized) then 0 else startup
    {
      if !initialized {
        records := records + startup;
        initialized := true;
      }
    }
  }

  class CitationReclaimer {
    const registry: CitationRegistry

    constructor (registry: CitationRegistry)
      modifies registry
      ensures this.registry == registry
      ensures registry.depth == old(registry.depth) + 1
      ensures registry.records == old(registry.records) && registry.initialized == old(registry.initialized)
    {
      this.registry := registry;
      new;
      registry.depth := registry.depth + 1;
    }

    method Destroy()
      requires registry.depth > 0
      modifies registry
      ensures registry.depth == old(registry.depth) - 1 && registry.initialized == old(registry.initialized)
      ensures registry.records == if registry.depth == 0 then 0 else old(registry.records)
    {
      registry.depth := Decrement(registry.depth);
      if registry.depth == 0 {
        registry.records := 0;
      }
    }
  }

  /** A guarded region that nothing interrupts gives the streams back as they were. */
  lemma EngageThenDisengage(c: Consoles)
    ensures var c' := Disengage(Engage(c));
      c'.depth == c.depth && forall st :: c'.On(st).current == c.On(st).current
  {
    if c.depth > 0 {
      assert Disengage(Engage(c)) == c;
    }
  }

  /** The guard order of `solveSeamlessUv` on one thread, with a solve that cites `cites` times.
      An empty mesh is refused before any guard; otherwise the streams come back as they were,
      and an outermost solve leaves no record behind, those of the initialisation included. */
  method SolveSeamlessUv(vertices: nat, triangles: nat, outputWanted: bool, startup: nat, cites: nat,
                         console: ProcessConsole, thread: ThreadLocals, registry: CitationRegistry)
    modifies console, thread, registry
    ensures thread.solveDepth == old(thread.solveDepth) && registry.depth == old(registry.depth)
    ensures console.View().depth == old(console.View()).depth
    ensures forall st :: console.View().On(st).current == old(console.View()).On(st).current
    ensures vertices == 0 || triangles == 0 ==>
      registry.records == old(registry.records) && registry.initialized == old(registry.initialized)
    ensures vertices > 0 && triangles > 0 ==>
      registry.initialized &&
      registry.records == if registry.depth == 0 then 0
                          else old(registry.records) + cites + if old(registry.initialized) then 0 else startup
  {
    if vertices == 0 || triangles == 0 {
      return;
    }
    EngageThenDisengage(console.View());
    var silence := new ConsoleSilencer(outputWanted, console, thread);
    registry.EnsureInitialized(startup);
    var citations := new CitationReclaimer(registry);
    registry.records := registry.records + cites;
    citations.Destroy();
    silence.Destroy();
  }
}
