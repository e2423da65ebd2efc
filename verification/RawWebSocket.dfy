/** The receive loop over a chunked stream (RawWebSocket.recv in forwarder/app/ws/raw_ws.py). */
module RawWebSocket {
  import opened Common
  import opened Frames
  import Utf8

  datatype Received = Message(text: string) | NoMessage | Raised

  /** A data frame is returned as text; bytes that are not UTF-8 raise. */
  function Text(payload: Bytes): Received {
    match Utf8.Decode(payload)
    case None => Raised
    case Some(text) => Message(text)
  }

  /** What recv returns, the chunks it has not read, what it wrote, whether it closed. */
  datatype Outcome = Outcome(received: Received, unread: seq<Bytes>, written: seq<Bytes>, closed: bool)

  function Wrote(frame: Bytes, o: Outcome): Outcome {
    o.(written := [frame] + o.written)
  }

  /** The chunks are the successive results of read(4096); an empty chunk, or none left, is the end
      of the stream. `buf` holds the bytes of an incomplete frame. */
  function RecvFrom(chunks: seq<Bytes>, buf: Bytes): Outcome {
    if chunks == [] then Outcome(NoMessage, [], [], true)
    else if chunks[0] == [] then Outcome(NoMessage, chunks[1..], [], true)
    else
      match Decode(buf + chunks[0])
      case Incomplete => RecvFrom(chunks[1..], buf + chunks[0])
      case Invalid => Outcome(Raised, chunks[1..], [], false)
      case Frame(op, payload) =>
        DecodedLength(buf + chunks[0]);
        match op
        case CLOSE => Outcome(NoMessage, chunks[1..], [], true)
        case PING => Wrote(Encode(payload, PONG), RecvFrom(chunks[1..], []))
        case PONG => RecvFrom(chunks[1..], [])
        case _ => Outcome(Text(payload), chunks[1..], [], false)
  }

  class Socket {
    var incoming: seq<Bytes>
    var outgoing: seq<Bytes>
    var closed: bool

    constructor (chunks: seq<Bytes>)
      ensures incoming == chunks && outgoing == [] && !closed
    {
      incoming, outgoing, closed := chunks, [], false;
    }

    method Read() returns (chunk: Bytes)
      modifies this`incoming
      ensures if old(incoming) == [] then chunk == [] && incoming == []
              else chunk == old(incoming)[0] && incoming == old(incoming)[1..]
    {
      if incoming == [] {
        return [];
      }
      chunk := incoming[0];
      incoming := incoming[1..];
    }

    /** A socket that was closed before is read all the same. */
    method Recv() returns (r: Received)
      modifies this
      ensures var o := RecvFrom(old(incoming), []);
              && r == o.received && incoming == o.unread && outgoing == old(outgoing) + o.written
              && closed == (old(closed) || o.closed)
    {
      var buf: Bytes := [];
      ghost var all := RecvFrom(incoming, []);
      ghost var before := outgoing;
      while true
        invariant closed == old(closed) && |before| <= |outgoing|
        invariant before + all.written == outgoing + RecvFrom(incoming, buf).written
        invariant RecvFrom(incoming, buf).(written := []) == all.(written := [])
        decreases |incoming|
      {
        var chunk := Read();
        if chunk == [] {
          closed := true;
          return NoMessage;
        }
        buf := buf + chunk;
        var result := DecodeFrame(buf);
        match result
        case Incomplete =>
        case Invalid =>
          return Raised;
        case Frame(op, payload) =>
          DecodedLength(buf);
          if op == CLOSE {
            closed := true;
            return NoMessage;
          } else if op == PING {
            var pong := EncodeFrame(payload, PONG);
            outgoing := outgoing + [pong];
            buf := [];
          } else if op == TEXT || op == BINARY {
            return Text(payload);
          } else {
            buf := [];
          }
      }
    }
  }

  // ---- Independence of the cuts -----------------------------------------------------------------

  datatype Sent = Sent(op: Opcode, payload: Bytes, mask: Option<Key>)

  predicate Sendable(f: Sent) {
    |f.payload| < MAX64
  }

  function Flatten<T>(parts: seq<seq<T>>): seq<T> {
    if parts == [] then [] else parts[0] + Flatten(parts[1..])
  }

  /** A frame and the reads in which it arrives: non-empty, and none reaching into another frame. */
  datatype CutFrame = CutFrame(frame: Sent, chunks: seq<Bytes>)

  predicate Cut(c: CutFrame) {
    && Sendable(c.frame) && c.chunks != [] && (forall i :: 0 <= i < |c.chunks| ==> c.chunks[i] != [])
    && Flatten(c.chunks) == Wire(c.frame.op, c.frame.payload, c.frame.mask)
  }

  predicate Control(c: CutFrame) {
    Cut(c) && (c.frame.op == PING || c.frame.op == PONG)
  }

  lemma FlattenLast(chunks: seq<Bytes>)
    requires |chunks| > 1
    ensures |Flatten(chunks[1..])| >= |chunks[|chunks| - 1]|
  {
    if |chunks| > 2 {
      FlattenLast(chunks[1..]);
    }
  }

  /** What the arrival of a frame makes of the rest. */
  function Acted(f: Sent, rest: seq<Bytes>): Outcome
    requires Sendable(f)
  {
    match f.op
    case CLOSE => Outcome(NoMessage, rest, [], true)
    case PING => Wrote(Encode(f.payload, PONG), RecvFrom(rest, []))
    case PONG => RecvFrom(rest, [])
    case _ => Outcome(Text(f.payload), rest, [], false)
  }

  /** The reads in which a frame arrives, not empty, and of which the last may bring `surplus` bytes of
      what follows the frame. */
  predicate Brings(chunks: seq<Bytes>, buf: Bytes, f: Sent, surplus: Bytes) {
    && Sendable(f) && chunks != [] && (forall i :: 0 <= i < |chunks| ==> chunks[i] != [])
    && buf + Flatten(chunks) == Wire(f.op, f.payload, f.mask) + surplus
    && |surplus| < |chunks[|chunks| - 1]|
  }

  lemma SharedPrefix(a: Bytes, b: Bytes, c: Bytes, d: Bytes)
    requires a + b == c + d && |a| <= |c|
    ensures a == c[..|a|]
  {
    assert a == (a + b)[..|a|] == (c + d)[..|a|];
  }

  lemma BringsLater(chunks: seq<Bytes>, buf: Bytes, f: Sent, surplus: Bytes)
    requires Brings(chunks, buf, f, surplus) && |chunks| > 1
    ensures Brings(chunks[1..], buf + chunks[0], f, surplus)
    ensures Decode(buf + chunks[0]) == Incomplete
  {
    var whole, next, later := Wire(f.op, f.payload, f.mask), buf + chunks[0], Flatten(chunks[1..]);
    FlattenLast(chunks);
    assert next + later == buf + (chunks[0] + later);
    assert |next| + |later| == |whole| + |surplus|;
    SharedPrefix(next, later, whole, surplus);
    PrefixIncomplete(f.op, f.payload, f.mask, |next|);
  }

  lemma BringsNow(chunk: Bytes, buf: Bytes, f: Sent, surplus: Bytes)
    requires Brings([chunk], buf, f, surplus)
    ensures Decode(buf + chunk) == Frame(f.op, f.payload)
  {
    assert Flatten([chunk]) == chunk;
    DecodeWire(f.op, f.payload, f.mask, surplus);
  }

  /** Reading chunk by chunk ends with the whole frame in the buffer; whatever the last read brings
      beyond the frame is dropped, for every frame, every cut and every surplus. */
  lemma {:induction false} ReadOneFrame(chunks: seq<Bytes>, buf: Bytes, f: Sent, surplus: Bytes, rest: seq<Bytes>)
    requires Brings(chunks, buf, f, surplus)
    ensures RecvFrom(chunks + rest, buf) == Acted(f, rest)
    decreases |chunks|
  {
    assert (chunks + rest)[1..] == chunks[1..] + rest;
    if |chunks| == 1 {
      assert chunks == [chunks[0]];
      BringsNow(chunks[0], buf, f, surplus);
      assert chunks[1..] + rest == rest;
    } else {
      BringsLater(chunks, buf, f, surplus);
      ReadOneFrame(chunks[1..], buf + chunks[0], f, surplus, rest);
    }
  }

  /** The reads bring a part of a frame, not all of it. */
  predicate Inside(chunks: seq<Bytes>, buf: Bytes, f: Sent) {
    && Sendable(f) && (forall i :: 0 <= i < |chunks| ==> chunks[i] != [])
    && |buf + Flatten(chunks)| < |Wire(f.op, f.payload, f.mask)|
    && buf + Flatten(chunks) == Wire(f.op, f.payload, f.mask)[..|buf + Flatten(chunks)|]
  }

  lemma InsideLater(chunks: seq<Bytes>, buf: Bytes, f: Sent)
    requires Inside(chunks, buf, f) && chunks != []
    ensures Inside(chunks[1..], buf + chunks[0], f) && Decode(buf + chunks[0]) == Incomplete
  {
    var whole, next, later := Wire(f.op, f.payload, f.mask), buf + chunks[0], Flatten(chunks[1..]);
    assert next + later == buf + (chunks[0] + later);
    assert next == (next + later)[..|next|];
    assert whole[..|next + later|][..|next|] == whole[..|next|];
    PrefixIncomplete(f.op, f.payload, f.mask, |next|);
  }

  lemma ReadsAfter(chunks: seq<Bytes>, rest: seq<Bytes>)
    requires chunks != []
    ensures (chunks + [[]] + rest)[0] == chunks[0] && (chunks + [[]] + rest)[1..] == chunks[1..] + [[]] + rest
  {
  }

  /** A stream that ends before the frame does closes the connection, without a message; so does an empty
      read, whatever was to follow. */
  lemma {:induction false} EndInsideFrame(chunks: seq<Bytes>, buf: Bytes, f: Sent, rest: seq<Bytes>)
    requires Inside(chunks, buf, f)
    ensures RecvFrom(chunks, buf) == Outcome(NoMessage, [], [], true)
    ensures RecvFrom(chunks + [[]] + rest, buf) == Outcome(NoMessage, rest, [], true)
    decreases |chunks|
  {
    if chunks == [] {
      assert (chunks + [[]] + rest)[0] == [] && (chunks + [[]] + rest)[1..] == rest;
    } else {
      InsideLater(chunks, buf, f);
      ReadsAfter(chunks, rest);
      EndInsideFrame(chunks[1..], buf + chunks[0], f, rest);
    }
  }

  /** Bytes that start a frame of an unknown opcode raise as soon as they are two. */
  lemma UnknownOpcodeRaises(chunk: Bytes, buf: Bytes, rest: seq<Bytes>)
    requires chunk != [] && |buf + chunk| >= 2 && (buf + chunk)[0] % 16 !in [1, 2, 8, 9, 10]
    ensures RecvFrom([chunk] + rest, buf) == Outcome(Raised, rest, [], false)
  {
    DecodesExactly(buf + chunk);
    assert ([chunk] + rest)[1..] == rest;
  }

  function Chunks(frames: seq<CutFrame>): seq<Bytes> {
    if frames == [] then [] else frames[0].chunks + Chunks(frames[1..])
  }

  lemma ChunksStep(frames: seq<CutFrame>, last: seq<Bytes>, rest: seq<Bytes>)
    requires frames != []
    ensures Chunks(frames) + last + rest == frames[0].chunks + (Chunks(frames[1..]) + last + rest)
  {
    Regrouped(frames[0].chunks, Chunks(frames[1..]), last, rest);
  }

  lemma Regrouped<T>(a: seq<T>, b: seq<T>, c: seq<T>, d: seq<T>)
    ensures a + b + c + d == a + (b + c + d)
  {
    assert a + b + c == a + (b + c);
  }

  /** The pongs owed to a list of control frames. */
  function Pongs(frames: seq<CutFrame>): seq<Bytes>
    requires forall c :: c in frames ==> Control(c)
  {
    if frames == [] then []
    else
      assert Control(frames[0]);
      (if frames[0].frame.op == PING then [Encode(frames[0].frame.payload, PONG)] else []) + Pongs(frames[1..])
  }

  lemma ReadCut(c: CutFrame, rest: seq<Bytes>)
    requires Cut(c)
    ensures RecvFrom(c.chunks + rest, []) == Acted(c.frame, rest)
  {
    var wire := Wire(c.frame.op, c.frame.payload, c.frame.mask);
    assert [] + Flatten(c.chunks) == wire && wire + [] == wire;
    ReadOneFrame(c.chunks, [], c.frame, [], rest);
  }

  /** Any PING and PONG frames followed by one data frame, cut in any way into reads of their own:
      recv writes one PONG a PING, in order and with its payload, and returns the data, whatever the
      cuts; the reads after the data frame are left alone. */
  lemma {:induction false} RecvIgnoresCuts(controls: seq<CutFrame>, data: CutFrame, rest: seq<Bytes>)
    requires (forall c :: c in controls ==> Control(c)) && Cut(data) && data.frame.op in {TEXT, BINARY}
    ensures RecvFrom(Chunks(controls) + data.chunks + rest, [])
         == Outcome(Text(data.frame.payload), rest, Pongs(controls), false)
  {
    if controls == [] {
      ReadCut(data, rest);
      assert [] + data.chunks == data.chunks;
    } else {
      var tail := Chunks(controls[1..]) + data.chunks + rest;
      assert Control(controls[0]);
      ReadCut(controls[0], tail);
      ChunksStep(controls, data.chunks, rest);
      RecvIgnoresCuts(controls[1..], data, rest);
    }
  }

  /** What send puts into a frame, recv takes out again; and recv returns a text for no other bytes. */
  lemma TextArrivesExactly(data: CutFrame, text: string)
    requires Cut(data) && data.frame.op in {TEXT, BINARY}
    ensures RecvFrom(data.chunks, []).received == Message(text) <==> data.frame.payload == Utf8.Encode(text)
  {
    ReadCut(data, []);
    assert data.chunks + [] == data.chunks;
    Utf8.DecodesExactly(data.frame.payload, text);
  }

  /** A read that spans two frames loses what it brings of the second: the outcome is what it would be
      if those bytes had never been sent. */
  lemma SpanningReadLosesFrame(c: CutFrame, chunks: seq<Bytes>, surplus: Bytes, rest: seq<Bytes>)
    requires Cut(c) && Brings(chunks, [], c.frame, surplus)
    ensures RecvFrom(chunks + rest, []) == RecvFrom(c.chunks + rest, [])
  {
    ReadCut(c, rest);
    ReadOneFrame(chunks, [], c.frame, surplus, rest);
  }

  /** So a text that comes whole in one read with a PING is never returned. */
  lemma TextAfterPingIsLost(ping: Sent, text: Sent)
    requires Sendable(ping) && Sendable(text) && ping.op == PING
    ensures var chunk := Wire(ping.op, ping.payload, ping.mask) + Wire(text.op, text.payload, text.mask);
            RecvFrom([chunk], []) == Outcome(NoMessage, [], [Encode(ping.payload, PONG)], true)
  {
    var wire, surplus := Wire(ping.op, ping.payload, ping.mask), Wire(text.op, text.payload, text.mask);
    var chunk := wire + surplus;
    assert Flatten([chunk]) == chunk && [] + chunk == chunk;
    ReadOneFrame([chunk], [], ping, surplus, []);
    assert [chunk] + [] == [chunk];
  }
}
