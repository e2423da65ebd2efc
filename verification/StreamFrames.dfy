/** Frames over a blocking socket (_send_frame and _recv_frame in forwarder/app/ws/manual_server.py). */
module StreamFrames {
  import opened Common
  import opened Frames

  // ---- Sending ------------------------------------------------------------------------------------

  /** None stands for the OverflowError of a length that does not fit two bytes. */
  method SendFrame(payload: Bytes, op: Opcode) returns (sent: Option<Bytes>)
    ensures |payload| < MAX16 ==> sent == Some(Encode(payload, op))
    ensures |payload| >= MAX16 ==> sent == None
  {
    var frame: Bytes := [0x80 + Code(op)];
    var length := |payload|;
    if length < 126 {
      frame := frame + [length];
    } else {
      frame := frame + [126];
      if length >= 65536 {
        return None;
      }
      frame := frame + BigEndian(length, 2);
    }
    assert |payload| < MAX16 ==> frame == [0x80 + Code(op)] + LengthField(|payload|, 0);
    frame := frame + payload;
    return Some(frame);
  }

  // ---- Receiving ----------------------------------------------------------------------------------

  /** Raised stands for the IndexError of a masking key that is shorter than the payload needs. */
  datatype Received = NoFrame | Raised | Got(op: Byte, payload: Bytes)

  datatype Outcome = Outcome(received: Received, rest: Bytes)

  /** How many bytes the network is ready to give to the three header reads; a read gets at least one
      byte as long as there is any. */
  datatype Ready = Ready(head: nat, length: nat, key: nat)

  /** How many bytes a read of up to `n` takes. */
  function Served(data: Bytes, n: nat, ready: nat): (k: nat)
    ensures k <= |data| && k <= n
  {
    Min(Min(n, |data|), Max(1, ready))
  }

  /** The bytes of the extended length that are read; none for a short frame. */
  function LengthServed(second: Byte, tail: Bytes, ready: nat): (k: nat)
    ensures k <= |tail| && k <= LengthBytes(second)
  {
    Served(tail, LengthBytes(second), ready)
  }

  /** The length that is understood; a read that is cut short makes it smaller. */
  function LengthRead(second: Byte, read: Bytes): nat {
    if LengthBytes(second) == 0 then second % 128 else FromBigEndian(read)
  }

  /** What follows the length: the key, which is read whether or not the mask bit is set, and the
      payload. */
  function RecvBody(op: Byte, length: nat, data: Bytes, ready: nat): Outcome {
    var k := Served(data, 4, ready);
    var key, body := data[..k], data[k..];
    if |body| < length then Outcome(NoFrame, [])
    else if k < length && k < 4 then Outcome(Raised, body[length..])
    else Outcome(Got(op, Masked(body[..length], key)), body[length..])
  }

  /** _recv_frame on a byte stream. */
  function RecvFrom(data: Bytes, ready: Ready): Outcome {
    if Served(data, 2, ready.head) < 2 then Outcome(NoFrame, data[Served(data, 2, ready.head)..])
    else
      var second, tail := data[1], data[2..];
      var l := LengthServed(second, tail, ready.length);
      RecvBody(data[0] % 16, LengthRead(second, tail[..l]), tail[l..], ready.key)
  }

  class Socket {
    var data: Bytes

    constructor (data: Bytes)
      ensures this.data == data
    {
      this.data := data;
    }

    method Recv(n: nat, ready: nat) returns (chunk: Bytes)
      modifies this
      ensures var k := Served(old(data), n, ready);
              chunk == old(data)[..k] && data == old(data)[k..]
    {
      var k := Min(Min(n, |data|), Max(1, ready));
      chunk := data[..k];
      data := data[k..];
    }
  }

  /** Payload reads may return any number of bytes from one to what was asked: `cut(i)` is what the
      network is ready to give to read i. None is the end of the stream. */
  method RecvPayload(sock: Socket, length: nat, cut: nat -> nat) returns (r: Option<Bytes>)
    modifies sock
    ensures |old(sock.data)| < length ==> r == None && sock.data == []
    ensures |old(sock.data)| >= length ==> r == Some(old(sock.data)[..length]) && sock.data == old(sock.data)[length..]
  {
    ghost var body := sock.data;
    var payload: Bytes := [];
    var served := 3;
    while |payload| < length
      invariant |payload| <= length && body == payload + sock.data
      decreases length - |payload|
    {
      var chunk := sock.Recv(Min(length - |payload|, 16384), cut(served));
      served := served + 1;
      if chunk == [] {
        return None;
      }
      payload := payload + chunk;
    }
    return Some(payload);
  }

  /** The key, the payload and the unmasking loop. */
  method ReceiveBody(sock: Socket, op: Byte, length: nat, cut: nat -> nat) returns (r: Received)
    modifies sock
    ensures Outcome(r, sock.data) == RecvBody(op, length, old(sock.data), cut(2))
  {
    var key := sock.Recv(4, cut(2));
    var payload := RecvPayload(sock, length, cut);
    if payload.None? {
      return NoFrame;
    }
    if |key| < length && |key| < 4 {
      return Raised;
    }
    var copy := new Byte[length](i requires 0 <= i < length => payload.value[i]);
    assert copy[..] == payload.value;
    Unmask(copy, key);
    return Got(op, copy[..]);
  }

  /** `cut(0)`, `cut(1)` and `cut(2)` are for the header, the extended length and the key. */
  method RecvFrame(sock: Socket, cut: nat -> nat) returns (r: Received)
    modifies sock
    ensures Outcome(r, sock.data) == RecvFrom(old(sock.data), Ready(cut(0), cut(1), cut(2)))
  {
    var data := sock.Recv(2, cut(0));
    if |data| < 2 {
      return NoFrame;
    }
    var op := data[0] % 16;
    var second := data[1];
    var length: nat := second % 128;
    if length == 126 {
      data := sock.Recv(2, cut(1));
      length := FromBigEndian(data);
    } else if length == 127 {
      data := sock.Recv(8, cut(1));
      length := FromBigEndian(data);
    }
    r := ReceiveBody(sock, op, length, cut);
  }

  // ---- Agreement with the buffer decoder ------------------------------------------------------------

  function FrameSize(data: Bytes): nat
    requires Decode(data).Frame?
  {
    BodyStart(data) + (if IsMasked(data[1]) then 4 else 0) + PayloadLength(data)
  }

  /** The streaming decoder gives the answer of the buffer decoder and consumes exactly that frame. */
  predicate Agrees(data: Bytes, ready: Ready)
    requires Decode(data).Frame?
  {
    RecvFrom(data, ready)
    == Outcome(Got(Code(Decode(data).op), Decode(data).payload), data[Min(FrameSize(data), |data|)..])
  }

  /** The header reads get all that they ask for. */
  predicate Whole(data: Bytes, ready: Ready)
    requires |data| >= 2
  {
    ready.head >= 2 && ready.length >= LengthBytes(data[1]) && ready.key >= 4
  }

  lemma {:induction false} CutLengthIsSmaller(s: Bytes, k: nat)
    requires k <= |s|
    ensures FromBigEndian(s[..k]) <= FromBigEndian(s)
  {
    if k < |s| {
      CutLengthIsSmaller(s[..|s| - 1], k);
      assert s[..|s| - 1][..k] == s[..k];
    } else {
      assert s[..k] == s;
    }
  }

  lemma FrameFits(data: Bytes)
    requires Decode(data).Frame?
    ensures FrameSize(data) <= |data| && OpcodeOf(data[0] % 16) == Some(Decode(data).op)
    ensures Code(Decode(data).op) == data[0] % 16
  {
  }

  /** With whole header reads the length is the frame's, and the rest is read from where it ends. */
  lemma SameHeader(data: Bytes, ready: Ready)
    requires |data| >= 2 && |data| >= BodyStart(data) && ready.head >= 2 && ready.length >= LengthBytes(data[1])
    ensures RecvFrom(data, ready) == RecvBody(data[0] % 16, PayloadLength(data), data[BodyStart(data)..], ready.key)
  {
    var tail, l := data[2..], LengthBytes(data[1]);
    assert tail[..l] == data[2..BodyStart(data)];
    assert tail[l..] == data[BodyStart(data)..];
  }

  lemma WholeHeader(data: Bytes, ready: Ready)
    requires |data| >= 2 && |data| >= BodyStart(data) && Whole(data, ready)
    ensures RecvFrom(data, ready) == RecvBody(data[0] % 16, PayloadLength(data), data[BodyStart(data)..], ready.key)
  {
    SameHeader(data, ready);
  }

  lemma BodyOfMasked(data: Bytes, ready: nat)
    requires Decode(data).Frame? && IsMasked(data[1]) && ready >= 4
    ensures RecvBody(data[0] % 16, PayloadLength(data), data[BodyStart(data)..], ready)
         == Outcome(Got(data[0] % 16, Decode(data).payload), data[FrameSize(data)..])
  {
    var start, length := BodyStart(data), PayloadLength(data);
    var rest := data[start..];
    assert rest[..4] == data[start..start + 4];
    assert rest[4..][..length] == data[start + 4..start + 4 + length];
    assert rest[4..][length..] == data[start + 4 + length..];
  }

  /** On a masked frame with whole header reads the decoders agree, whatever follows the frame. */
  lemma RefinesDecode(data: Bytes, ready: Ready)
    requires Decode(data).Frame? && IsMasked(data[1]) && Whole(data, ready)
    ensures FrameSize(data) <= |data| && Agrees(data, ready)
  {
    FrameFits(data);
    WholeHeader(data, ready);
    BodyOfMasked(data, ready.key);
  }

  lemma BodyRest(op: Byte, length: nat, data: Bytes, ready: nat)
    requires RecvBody(op, length, data, ready).received.Got?
    ensures |RecvBody(op, length, data, ready).rest| == |data| - Served(data, 4, ready) - length
  {
  }

  lemma NothingLeft(op: Byte, ready: nat)
    ensures RecvBody(op, 0, [], ready) == Outcome(Got(op, []), [])
  {
    assert Served([], 4, ready) == 0;
    assert Masked([], []) == [];
  }

  lemma HeaderOnly(data: Bytes, ready: Ready)
    requires Decode(data).Frame? && !IsMasked(data[1]) && Whole(data, ready) && |data| == BodyStart(data)
    ensures Agrees(data, ready)
  {
    FrameFits(data);
    WholeHeader(data, ready);
    NothingLeft(data[0] % 16, ready.key);
    assert data[BodyStart(data)..] == [] && data[FrameSize(data)..] == [];
    assert Decode(data).payload == [];
  }

  /** Without the mask bit the key is taken from the payload, so with whole header reads the decoders
      agree on a complete frame if and only if it is masked or the buffer ends with its header. */
  lemma WholeReadsAgreeExactly(data: Bytes, ready: Ready)
    requires Decode(data).Frame? && Whole(data, ready)
    ensures Agrees(data, ready) <==> IsMasked(data[1]) || |data| == BodyStart(data)
  {
    FrameFits(data);
    if IsMasked(data[1]) {
      RefinesDecode(data, ready);
    } else {
      var start, length := BodyStart(data), PayloadLength(data);
      var o := RecvBody(data[0] % 16, length, data[start..], ready.key);
      WholeHeader(data, ready);
      if |data| == start {
        HeaderOnly(data, ready);
      } else if o.received.Got? {
        BodyRest(data[0] % 16, length, data[start..], ready.key);
        assert |o.rest| < |data| - FrameSize(data);
      }
    }
  }

  /** The length that is understood when `l` bytes of it are read. */
  lemma LengthIsNotLarger(data: Bytes, l: nat)
    requires |data| >= 2 && |data| >= BodyStart(data) && l <= LengthBytes(data[1])
    ensures LengthRead(data[1], data[2..][..l]) <= PayloadLength(data)
  {
    var field := data[2..BodyStart(data)];
    assert data[2..][..l] == field[..l];
    CutLengthIsSmaller(field, l);
  }

  /** A header read that is cut short takes too little from the stream. */
  lemma CutShort(data: Bytes, ready: Ready)
    requires Decode(data).Frame? && IsMasked(data[1]) && !Whole(data, ready)
    ensures RecvFrom(data, ready).received.Got? ==> |RecvFrom(data, ready).rest| > |data| - FrameSize(data)
  {
    FrameFits(data);
    if RecvFrom(data, ready).received.Got? {
      var tail := data[2..];
      var l := LengthServed(data[1], tail, ready.length);
      var k := Served(tail[l..], 4, ready.key);
      var length := LengthRead(data[1], tail[..l]);
      LengthIsNotLarger(data, l);
      BodyRest(data[0] % 16, length, tail[l..], ready.key);
      assert l < LengthBytes(data[1]) || k < 4;
    }
  }

  /** A complete masked frame is understood if and only if no header read is cut short. */
  lemma MaskedAgreesExactly(data: Bytes, ready: Ready)
    requires Decode(data).Frame? && IsMasked(data[1])
    ensures Agrees(data, ready) <==> Whole(data, ready)
  {
    FrameFits(data);
    if Whole(data, ready) {
      RefinesDecode(data, ready);
    } else {
      CutShort(data, ready);
    }
  }

  lemma CutKeyBody(op: Byte, n: nat, data: Bytes, ready: nat)
    requires ready < 4 && |data| >= 4 + n
    ensures var k, o := Max(1, ready), RecvBody(op, n, data, ready);
            && o.rest == data[k..][n..] && (o.received == Raised <==> n > k)
            && (n <= k ==> o.received == Got(op, Masked(data[k..][..n], data[..k])))
  {
    assert Served(data, 4, ready) == Max(1, ready);
  }

  lemma MaskedFrameFits(data: Bytes)
    requires Decode(data).Frame? && IsMasked(data[1])
    ensures BodyStart(data) + 4 + PayloadLength(data) <= |data|
  {
  }

  /** A key that is cut short to k bytes, on a complete masked frame: a longer payload raises, and a shorter
      one is combined with what there is of the key; both start where the key was cut. */
  lemma CutKeyExactly(data: Bytes, ready: Ready)
    requires Decode(data).Frame? && IsMasked(data[1])
    requires ready.head >= 2 && ready.length >= LengthBytes(data[1]) && ready.key < 4
    ensures var rest, n, k := data[BodyStart(data)..], PayloadLength(data), Max(1, ready.key);
            var o := RecvFrom(data, ready);
            && k + n <= |rest| && o.rest == rest[k..][n..]
            && (o.received == Raised <==> n > k)
            && (n <= k ==> o.received == Got(data[0] % 16, Masked(rest[k..][..n], rest[..k])))
  {
    MaskedFrameFits(data);
    SameHeader(data, ready);
    CutKeyBody(data[0] % 16, PayloadLength(data), data[BodyStart(data)..], ready.key);
  }

  datatype Sent = Sent(op: Opcode, payload: Bytes, key: Key)

  function Stream(frames: seq<Sent>): Bytes
    requires forall i :: 0 <= i < |frames| ==> |frames[i].payload| < MAX64
  {
    if frames == [] then []
    else Wire(frames[0].op, frames[0].payload, Some(frames[0].key)) + Stream(frames[1..])
  }

  /** Repeated receiving, once for each entry of `ready`. */
  function RecvMany(data: Bytes, ready: seq<Ready>): (seq<Received>, Bytes)
    decreases |ready|
  {
    if ready == [] then ([], data)
    else
      var o := RecvFrom(data, ready[0]);
      var (more, rest) := RecvMany(o.rest, ready[1..]);
      ([o.received] + more, rest)
  }

  /** Header reads that are never cut short. */
  predicate AlwaysWhole(ready: Ready) {
    ready.head >= 2 && ready.length >= 8 && ready.key >= 4
  }

  lemma WireSize(f: Sent, more: Bytes)
    requires |f.payload| < MAX64
    ensures var wire := Wire(f.op, f.payload, Some(f.key));
            && Decode(wire + more) == Frame(f.op, f.payload)
            && IsMasked((wire + more)[1]) && FrameSize(wire + more) == |wire|
  {
    var head := [0x80 + Code(f.op)] + LengthField(|f.payload|, 128);
    DecodeWire(f.op, f.payload, Some(f.key), more);
    Regroup(head, f.key, Masked(f.payload, f.key), more);
    WireHeader(f.op, |f.payload|, 128, f.key + Masked(f.payload, f.key) + more);
  }

  /** The buffer decoder's answer on the bytes of one frame. */
  function BufferAnswer(f: Sent): Received
    requires |f.payload| < MAX64
  {
    match Decode(Wire(f.op, f.payload, Some(f.key)))
    case Frame(op, payload) => Got(Code(op), payload)
    case _ => NoFrame
  }

  function BufferAnswers(frames: seq<Sent>): seq<Received>
    requires forall i :: 0 <= i < |frames| ==> |frames[i].payload| < MAX64
  {
    if frames == [] then [] else [BufferAnswer(frames[0])] + BufferAnswers(frames[1..])
  }

  lemma FirstFrame(f: Sent, more: Bytes, ready: Ready)
    requires |f.payload| < MAX64 && AlwaysWhole(ready)
    ensures BufferAnswer(f) == Got(Code(f.op), f.payload)
    ensures RecvFrom(Wire(f.op, f.payload, Some(f.key)) + more, ready) == Outcome(BufferAnswer(f), more)
  {
    var wire := Wire(f.op, f.payload, Some(f.key));
    WireSize(f, more);
    WireSize(f, []);
    assert wire + [] == wire;
    RefinesDecode(wire + more, ready);
    assert (wire + more)[|wire|..] == more;
  }

  /** On a concatenation of masked frames each receive takes one frame, and the answers are those
      that the buffer decoder gives frame by frame. */
  lemma {:induction false} StreamRefinesBuffer(frames: seq<Sent>, rest: Bytes, ready: seq<Ready>)
    requires forall i :: 0 <= i < |frames| ==> |frames[i].payload| < MAX64
    requires |ready| == |frames| && forall i :: 0 <= i < |ready| ==> AlwaysWhole(ready[i])
    ensures RecvMany(Stream(frames) + rest, ready) == (BufferAnswers(frames), rest)
  {
    if frames == [] {
      assert Stream(frames) + rest == rest;
    } else {
      var wire := Wire(frames[0].op, frames[0].payload, Some(frames[0].key));
      var more := Stream(frames[1..]) + rest;
      assert Stream(frames) + rest == wire + more;
      FirstFrame(frames[0], more, ready[0]);
      StreamRefinesBuffer(frames[1..], rest, ready[1..]);
    }
  }

  /** A stream that breaks off inside a frame still yields a frame, an empty one, exactly when
      the length that could be read is zero; otherwise it yields nothing. */
  lemma BrokenStreamExactly(data: Bytes, ready: Ready)
    requires Decode(data) == Incomplete && |data| >= 2 && Whole(data, ready)
    ensures var read := data[2..Min(BodyStart(data), |data|)];
            RecvFrom(data, ready).received
            == if LengthRead(data[1], read) == 0 then Got(data[0] % 16, []) else NoFrame
  {
    var tail := data[2..];
    var l := LengthServed(data[1], tail, ready.length);
    assert tail[..l] == data[2..Min(BodyStart(data), |data|)];
    if |data| >= BodyStart(data) {
      WholeHeader(data, ready);
    } else {
      assert tail[l..] == [];
    }
  }

  /** For example a text of five bytes without a mask. */
  lemma UnmaskedIsMisread()
    ensures var data := [0x81, 5, 1, 2, 3, 4, 5];
            Decode(data) == Frame(TEXT, [1, 2, 3, 4, 5]) && RecvFrom(data, Ready(2, 8, 4)).received == NoFrame
  {
    var data: Bytes := [0x81, 5, 1, 2, 3, 4, 5];
    assert data[2..7] == [1, 2, 3, 4, 5];
  }
}
