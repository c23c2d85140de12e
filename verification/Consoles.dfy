/** The state that concurrent solves share over std::cout and std::cerr, and the two locked
    regions of `ConsoleSilencer` as functions on it. */
module Consoles {

  datatype Stream = Out | Err

  /** A stream buffer: a host's own buffer, no buffer at all, or one of the two leaked filters. */
  datatype Buffer = NoBuffer | HostBuffer(id: int) | Filter(stream: Stream)

  /** `rdbuf()`, the `g_saved...` global and the filter's atomic target, for one stream. */
  datatype Console = Console(current: Buffer, saved: Buffer, target: Buffer)

  datatype Consoles = Consoles(depth: nat, out: Console, err: Console) {
    function On(st: Stream): Console {
      if st.Out? then out else err
    }
  }

  function PutOnFilter(c: Console, st: Stream): Console {
    Console(Filter(st), c.current, c.current)
  }

  function TakeOffFilter(c: Console, st: Stream): Console {
    if c.current == Filter(st) then c.(current := c.saved) else c
  }

  /** The locked region of the silencer's constructor: only the outermost guard interposes. */
  function Engage(c: Consoles): Consoles {
    if c.depth == 0 then
      Consoles(1, PutOnFilter(c.out, Out), PutOnFilter(c.err, Err))
    else
      c.(depth := c.depth + 1)
  }

  /** The locked region of the silencer's destructor: only the last guard un-interposes. */
  function Disengage(c: Consoles): Consoles {
    var depth := Decrement(c.depth);
    if depth == 0 then
      Consoles(0, TakeOffFilter(c.out, Out), TakeOffFilter(c.err, Err))
    else
      c.(depth := depth)
  }

  /** `--depth` on a 64-bit std::size_t. */
  function Decrement(depth: nat): nat {
    if depth == 0 then 0xFFFF_FFFF_FFFF_FFFF else depth - 1
  }

  /** The host calls `rdbuf(b)` on one of its streams. */
  function Redirect(c: Consoles, st: Stream, b: Buffer): Consoles {
    if st.Out? then c.(out := c.out.(current := b)) else c.(err := c.err.(current := b))
  }

  datatype Outcome = Dropped | To(buffer: Buffer)

  /** Where a write ends up that goes through the buffer `via` it fetched from the stream. A
      filter drops the solver's writes and forwards the others to its present target. */
  function Route(c: Consoles, via: Buffer, fromSolve: bool): Outcome {
    if via.Filter? then
      if fromSolve then Dropped else To(c.On(via.stream).target)
    else
      To(via)
  }
}
