/** The bridge client's transport: a 4-byte big-endian length, then that many payload bytes. */
module Bridge {
  import opened Sequences

  newtype byte = b: int | 0 <= b < 256

  const MAX_MESSAGE_BYTES: nat := 256 * 1024 * 1024

  datatype Error = NotConnected | ConnectionClosed | TooLong(length: nat) | Unpackable | Malformed

  datatype Result<T> = Ok(value: T) | Err(error: Error)

  // ---------------------------------------------------------------- the length prefix

  /** `struct.pack(">I", n)`. */
  function Pack(n: nat): (r: seq<byte>)
    requires n < 0x1_0000_0000
    ensures |r| == 4
  {
    [(n / 0x100_0000) as byte, (n / 0x1_0000 % 0x100) as byte, (n / 0x100 % 0x100) as byte, (n % 0x100) as byte]
  }

  /** `struct.unpack(">I", b)`. */
  function Unpack(b: seq<byte>): (n: nat)
    requires |b| == 4
    ensures n < 0x1_0000_0000
  {
    b[0] as int * 0x100_0000 + b[1] as int * 0x1_0000 + b[2] as int * 0x100 + b[3] as int
  }

  /** The first byte that differs decides which length is greater: the most significant byte comes
      first. */
  lemma FirstByteDecides(b: seq<byte>, c: seq<byte>, i: nat)
    requires |b| == |c| == 4 && i < 4 && b[..i] == c[..i] && b[i] < c[i]
    ensures Unpack(b) < Unpack(c)
  {
    assert forall j :: 0 <= j < i ==> b[j] == b[..i][j] == c[..i][j] == c[j];
  }

  lemma UnpackOfPack(n: nat)
    requires n < 0x1_0000_0000
    ensures Unpack(Pack(n)) == n
  {
    assert n == 0x100 * (n / 0x100) + n % 0x100;
    assert n / 0x100 == 0x100 * (n / 0x1_0000) + n / 0x100 % 0x100;
    assert n / 0x1_0000 == 0x100 * (n / 0x100_0000) + n / 0x1_0000 % 0x100;
  }

  lemma PackOfUnpack(b: seq<byte>)
    requires |b| == 4
    ensures Pack(Unpack(b)) == b
  {
    var n := Unpack(b);
    assert n % 0x100 == b[3] as int && n / 0x100 == b[0] as int * 0x1_0000 + b[1] as int * 0x100 + b[2] as int;
    assert n / 0x100 % 0x100 == b[2] as int && n / 0x1_0000 == b[0] as int * 0x100 + b[1] as int;
    assert n / 0x1_0000 % 0x100 == b[1] as int && n / 0x100_0000 == b[0] as int;
  }

  // ---------------------------------------------------------------- frames on the wire

  function Frame(payload: seq<byte>): seq<byte>
    requires |payload| < 0x1_0000_0000
  {
    Pack(|payload|) + payload
  }

  function Frames(payloads: seq<seq<byte>>): seq<byte>
    requires forall i :: 0 <= i < |payloads| ==> |payloads[i]| <= MAX_MESSAGE_BYTES
  {
    if payloads == [] then [] else Frame(payloads[0]) + Frames(payloads[1..])
  }

  /** What reading one reply off these bytes gives, and the bytes it leaves. */
  function ReadFrame(incoming: seq<byte>): (Result<seq<byte>>, seq<byte>) {
    if |incoming| < 4 then (Err(ConnectionClosed), [])
    else
      var length, rest := Unpack(incoming[..4]), incoming[4..];
      if length > 0x1000_0000 then (Err(TooLong(length)), rest)
      else if |rest| < length then (Err(ConnectionClosed), [])
      else (Ok(rest[..length]), rest[length..])
  }

  /** A framed payload is read back whole, and reading stops at the next frame boundary. */
  lemma ReadFrameOfFrame(payload: seq<byte>, rest: seq<byte>)
    requires |payload| <= MAX_MESSAGE_BYTES
    ensures ReadFrame(Frame(payload) + rest) == (Ok(payload), rest)
  {
    var all := Frame(payload) + rest;
    assert all[..4] == Pack(|payload|) && all[4..] == payload + rest;
    UnpackOfPack(|payload|);
    assert (payload + rest)[..|payload|] == payload && (payload + rest)[|payload|..] == rest;
  }

  /** Conversely, a reply that is read is the frame that was on the wire. */
  lemma FrameOfReadFrame(incoming: seq<byte>)
    requires ReadFrame(incoming).0.Ok?
    ensures var (reply, rest) := ReadFrame(incoming);
      |reply.value| <= MAX_MESSAGE_BYTES && incoming == Frame(reply.value) + rest
  {
    PackOfUnpack(incoming[..4]);
    assert incoming == incoming[..4] + incoming[4..];
  }

  lemma SplitsAt<T>(a: seq<T>, b: seq<T>, n: nat)
    requires n == |a|
    ensures (a + b)[..n] == a && (a + b)[n..] == b
  {
  }

  // ---------------------------------------------------------------- the socket

  /** A connected stream socket: `incoming` is all the peer will still send before it closes. */
  class Socket {
    var incoming: seq<byte>
    var sent: seq<byte>
    var open: bool

    /** Delivers any non-empty piece of at most `n` bytes, or nothing once the peer has closed:
        how the bytes are split into pieces is left open. */
    method Recv(n: nat) returns (chunk: seq<byte>)
      requires n > 0
      modifies this`incoming
      ensures chunk + incoming == old(incoming) && |chunk| <= n
      ensures chunk == [] <==> old(incoming) == []
    {
      if incoming == [] {
        return [];
      }
      var k :| 1 <= k <= n && k <= |incoming|;
      chunk := incoming[..k];
      incoming := incoming[k..];
    }
  }

  // ---------------------------------------------------------------- the client

  class Client {
    var sock: Socket?

    constructor ()
      ensures sock == null
    {
      sock := null;
    }

    method Close()
      modifies this, sock
      ensures sock == null
      ensures old(sock) != null ==>
        !old(sock).open && old(sock).incoming == old(sock.incoming) && old(sock).sent == old(sock.sent)
    {
      if sock != null {
        sock.open := false;
        sock := null;
      }
    }

    method ReadExact(n: nat) returns (r: Result<seq<byte>>)
      requires sock != null
      modifies sock`incoming
      ensures |old(sock.incoming)| >= n ==>
        r == Ok(old(sock.incoming)[..n]) && sock.incoming == old(sock.incoming)[n..]
      ensures |old(sock.incoming)| < n ==> r == Err(ConnectionClosed) && sock.incoming == []
    {
      var chunks: seq<byte>, remaining := [], n;
      while remaining > 0
        invariant remaining >= 0 && |chunks| + remaining == n
        invariant chunks + sock.incoming == old(sock.incoming)
        decreases remaining
      {
        var chunk := sock.Recv(remaining);
        if chunk == [] {
          return Err(ConnectionClosed);
        }
        Associate(chunks, chunk, sock.incoming);
        chunks := chunks + chunk;
        remaining := remaining - |chunk|;
      }
      SplitsAt(chunks, sock.incoming, n);
      r := Ok(chunks);
    }

    /** Sends one request and reads one reply; `decode` is JSON decoding to an object. An
        over-long reply closes the connection before any of its payload is read. */
    method Exchange<R>(data: seq<byte>, decode: seq<byte> -> Result<R>) returns (r: Result<R>)
      modifies this, sock
      ensures old(sock) == null ==> r == Err(NotConnected) && sock == null
      ensures old(sock) != null && |data| >= 0x1_0000_0000 ==>
        r == Err(Unpackable) && sock == old(sock) && sock.sent == old(sock.sent) && sock.incoming == old(sock.incoming)
      ensures old(sock) != null && |data| < 0x1_0000_0000 ==>
        var (reply, rest) := ReadFrame(old(sock.incoming));
        && old(sock).sent == old(sock.sent) + Frame(data)
        && old(sock).incoming == rest
        && r == (if reply.Ok? then decode(reply.value) else Err(reply.error))
        && sock == (if reply.Err? && reply.error.TooLong? then null else old(sock))
    {
      if sock == null {
        return Err(NotConnected);
      }
      if |data| >= 0x1_0000_0000 {
        return Err(Unpackable);
      }
      sock.sent := sock.sent + (Pack(|data|) + data);
      var prefix := ReadExact(4);
      if prefix.Err? {
        return Err(prefix.error);
      }
      var length := Unpack(prefix.value);
      if length > MAX_MESSAGE_BYTES {
        Close();
        return Err(TooLong(length));
      }
      var payload := ReadExact(length);
      if payload.Err? {
        return Err(payload.error);
      }
      r := decode(payload.value);
    }

    /** Successive exchanges against a peer that sends well-formed replies return them in order,
        whatever the pieces they arrive in, and leave the stream on the next frame boundary. */
    method ExchangeAll<R>(requests: seq<seq<byte>>, decode: seq<byte> -> Result<R>,
                          ghost payloads: seq<seq<byte>>, ghost rest: seq<byte>)
        returns (replies: seq<Result<R>>)
      requires sock != null && |payloads| == |requests|
      requires forall i :: 0 <= i < |requests| ==> |requests[i]| < 0x1_0000_0000
      requires forall i :: 0 <= i < |payloads| ==> |payloads[i]| <= MAX_MESSAGE_BYTES
      requires sock.incoming == Frames(payloads) + rest
      modifies this, sock
      ensures |replies| == |payloads| && forall i :: 0 <= i < |replies| ==> replies[i] == decode(payloads[i])
      ensures sock == old(sock) && sock.incoming == rest
    {
      replies := [];
      for k := 0 to |requests|
        invariant sock == old(sock) && sock.incoming == Frames(payloads[k..]) + rest
        invariant |replies| == k && forall i :: 0 <= i < k ==> replies[i] == decode(payloads[i])
      {
        assert payloads[k..][1..] == payloads[k + 1..];
        Associate(Frame(payloads[k]), Frames(payloads[k + 1..]), rest);
        ReadFrameOfFrame(payloads[k], Frames(payloads[k + 1..]) + rest);
        var reply := Exchange(requests[k], decode);
        replies := replies + [reply];
      }
      assert payloads[|requests|..] == [];
    }
  }

  /** Reads replies until one fails. */
  function ReadFrames(incoming: seq<byte>, count: nat): (seq<seq<byte>>, seq<byte>) {
    if count == 0 then ([], incoming)
    else
      var (reply, rest) := ReadFrame(incoming);
      if reply.Err? then ([], rest)
      else
        var (more, left) := ReadFrames(rest, count - 1);
        ([reply.value] + more, left)
  }

  /** The wire format is self-delimiting: any sequence of payloads is read back as it was sent. */
  lemma {:induction false} ReadFramesOfFrames(payloads: seq<seq<byte>>, rest: seq<byte>)
    requires forall i :: 0 <= i < |payloads| ==> |payloads[i]| <= MAX_MESSAGE_BYTES
    ensures ReadFrames(Frames(payloads) + rest, |payloads|) == (payloads, rest)
  {
    if payloads == [] {
      assert Frames(payloads) + rest == rest;
    } else {
      var tail := Frames(payloads[1..]) + rest;
      Associate(Frame(payloads[0]), Frames(payloads[1..]), rest);
      ReadFrameOfFrame(payloads[0], tail);
      ReadFramesOfFrames(payloads[1..], rest);
      assert payloads == [payloads[0]] + payloads[1..];
    }
  }
}
