/** WebSocket frames over a byte buffer (forwarder/app/ws/raw_ws.py; section 5.2 of RFC 6455). */
module Frames {
  import opened Common

  datatype Opcode = TEXT | BINARY | CLOSE | PING | PONG

  function Code(op: Opcode): Byte {
    match op
    case TEXT => 1
    case BINARY => 2
    case CLOSE => 8
    case PING => 9
    case PONG => 10
  }

  /** None stands for the ValueError of an unknown opcode. */
  function OpcodeOf(nibble: int): Option<Opcode> {
    if nibble == 1 then Some(TEXT)
    else if nibble == 2 then Some(BINARY)
    else if nibble == 8 then Some(CLOSE)
    else if nibble == 9 then Some(PING)
    else if nibble == 10 then Some(PONG)
    else None
  }

  // ---- Exclusive or --------------------------------------------------------------------------

  function Pow2(k: nat): (r: nat)
    ensures r > 0
  {
    if k == 0 then 1 else 2 * Pow2(k - 1)
  }

  function XorBit(a: nat, b: nat): nat {
    if a % 2 == b % 2 then 0 else 1
  }

  function XorBits(a: nat, b: nat, k: nat): (r: nat)
    ensures r < Pow2(k)
  {
    if k == 0 then 0 else XorBit(a, b) + 2 * XorBits(a / 2, b / 2, k - 1)
  }

  lemma Pow2Of8()
    ensures Pow2(8) == 256
  {
    assert Pow2(4) == 16;
  }

  function Xor(a: Byte, b: Byte): Byte {
    Pow2Of8();
    XorBits(a, b, 8)
  }

  /** One step of applying the same key bit twice. */
  lemma BitTwice(a: nat, b: nat, high: nat)
    ensures var x := XorBit(a, b) + 2 * high;
            x / 2 == high && XorBit(x, b) == a % 2
  {
  }

  lemma {:induction false} XorBitsTwice(a: nat, b: nat, k: nat)
    requires a < Pow2(k)
    ensures XorBits(XorBits(a, b, k), b, k) == a
  {
    if k > 0 {
      var high := XorBits(a / 2, b / 2, k - 1);
      var x := XorBit(a, b) + 2 * high;
      BitTwice(a, b, high);
      XorBitsTwice(a / 2, b / 2, k - 1);
      assert XorBits(x, b, k) == a % 2 + 2 * XorBits(high, b / 2, k - 1);
    }
  }

  // ---- Bits --------------------------------------------------------------------------------------

  /** Bit k of a number, counted from the least significant. */
  function Bit(a: nat, k: nat): nat {
    a / Pow2(k) % 2
  }

  lemma FarFromZero(z: int, d: int)
    requires d > 0
    ensures z >= 1 ==> z * d >= d
    ensures z <= -1 ==> z * d <= -d
  {
    if z >= 1 {
      assert z * d == d + (z - 1) * d;
    }
    if z <= -1 {
      assert z * d == -d + (z + 1) * d;
    }
  }

  lemma QuotientIs(a: int, d: int, q: int, r: int)
    requires 0 <= r < d && a == q * d + r
    ensures a / d == q
  {
    var p := a / d;
    assert a == p * d + a % d;
    assert (q - p) * d == q * d - p * d;
    FarFromZero(q - p, d);
  }

  lemma {:induction false} HalveTwice(a: nat, m: nat)
    requires m > 0
    ensures a / (2 * m) == a / 2 / m
  {
    var q, r := a / 2 / m, a / 2 % m;
    assert a / 2 == q * m + r;
    assert q * (2 * m) == 2 * (q * m);
    QuotientIs(a, 2 * m, q, 2 * r + a % 2);
  }

  lemma BitOfHalf(a: nat, k: nat)
    requires k > 0
    ensures Bit(a, k) == Bit(a / 2, k - 1)
  {
    HalveTwice(a, Pow2(k - 1));
  }

  lemma LowBit(a: nat)
    ensures Bit(a, 0) == a % 2
  {
  }

  /** The lowest bit of an exclusive or, and its higher bits. */
  lemma XorBitsStep(a: nat, b: nat, n: nat)
    requires n > 0
    ensures XorBits(a, b, n) / 2 == XorBits(a / 2, b / 2, n - 1)
    ensures Bit(XorBits(a, b, n), 0) == (Bit(a, 0) + Bit(b, 0)) % 2
  {
    BitTwice(a, b, XorBits(a / 2, b / 2, n - 1));
    LowBit(XorBits(a, b, n));
    LowBit(a);
    LowBit(b);
  }

  /** Exclusive or, bit by bit: the sum without carry. */
  lemma {:induction false} XorBitsAre(a: nat, b: nat, n: nat, k: nat)
    requires k < n
    ensures Bit(XorBits(a, b, n), k) == (Bit(a, k) + Bit(b, k)) % 2
  {
    XorBitsStep(a, b, n);
    if k > 0 {
      XorBitsAre(a / 2, b / 2, n - 1, k - 1);
      HigherBits(XorBits(a, b, n), a, b, k);
    }
  }

  lemma HigherBits(x: nat, a: nat, b: nat, k: nat)
    requires k > 0 && Bit(x / 2, k - 1) == (Bit(a / 2, k - 1) + Bit(b / 2, k - 1)) % 2
    ensures Bit(x, k) == (Bit(a, k) + Bit(b, k)) % 2
  {
    BitOfHalf(x, k);
    BitOfHalf(a, k);
    BitOfHalf(b, k);
  }

  lemma XorIsBitwise(a: Byte, b: Byte)
    ensures forall k :: 0 <= k < 8 ==> Bit(Xor(a, b), k) == (Bit(a, k) + Bit(b, k)) % 2
  {
    forall k | 0 <= k < 8
      ensures Bit(Xor(a, b), k) == (Bit(a, k) + Bit(b, k)) % 2
    {
      XorBitsAre(a, b, 8, k);
    }
  }

  /** Byte i is combined with key[i % 4]; a key that was cut short reaches only as far as it goes. */
  function Masked(payload: Bytes, key: Bytes): (r: Bytes)
    requires |key| == 4 || |payload| <= |key| < 4
    ensures |r| == |payload|
  {
    seq(|payload|, i requires 0 <= i < |payload| => Xor(payload[i], key[i % 4]))
  }

  /** Each bit of a masked byte is that of the payload, turned over where the key's byte has a 1; the key is
      used from its start again after every four bytes. */
  lemma MaskedIsBitwise(payload: Bytes, key: Bytes)
    requires |key| == 4 || |payload| <= |key| < 4
    ensures forall i, k :: 0 <= i < |payload| && 0 <= k < 8 ==>
              Bit(Masked(payload, key)[i], k) == (Bit(payload[i], k) + Bit(key[i % 4], k)) % 2
  {
    forall i, k | 0 <= i < |payload| && 0 <= k < 8
      ensures Bit(Masked(payload, key)[i], k) == (Bit(payload[i], k) + Bit(key[i % 4], k)) % 2
    {
      XorIsBitwise(payload[i], key[i % 4]);
    }
  }

  lemma MaskedTwice(payload: Bytes, key: Bytes)
    requires |key| == 4
    ensures Masked(Masked(payload, key), key) == payload
  {
    Pow2Of8();
    forall i | 0 <= i < |payload|
      ensures Masked(Masked(payload, key), key)[i] == payload[i]
    {
      XorBitsTwice(payload[i], key[i % 4], 8);
    }
  }

  /** The unmasking loop, in place. */
  method Unmask(a: array<Byte>, key: Bytes)
    requires |key| == 4 || a.Length <= |key| < 4
    modifies a
    ensures a[..] == Masked(old(a[..]), key)
  {
    var i := 0;
    while i < a.Length
      invariant 0 <= i <= a.Length
      invariant forall j :: 0 <= j < i ==> a[j] == Xor(old(a[j]), key[j % 4])
      invariant forall j :: i <= j < a.Length ==> a[j] == old(a[j])
    {
      a[i] := Xor(a[i], key[i % 4]);
      i := i + 1;
    }
  }

  // ---- Lengths, most significant byte first ---------------------------------------------------

  function Pow256(w: nat): nat {
    if w == 0 then 1 else 256 * Pow256(w - 1)
  }

  const MAX16 := 65536
  const MAX64 := 0x1_0000_0000_0000_0000

  function BigEndian(n: nat, w: nat): (r: Bytes)
    ensures |r| == w
  {
    if w == 0 then [] else BigEndian(n / 256, w - 1) + [n % 256]
  }

  function FromBigEndian(s: Bytes): (n: nat)
    ensures n < Pow256(|s|)
  {
    if s == [] then 0 else FromBigEndian(s[..|s| - 1]) * 256 + s[|s| - 1]
  }

  lemma Pow256Of8()
    ensures Pow256(2) == MAX16 && Pow256(8) == MAX64
  {
    assert Pow256(4) == 0x1_0000_0000;
    assert Pow256(6) == 0x1_0000_0000_0000;
  }

  lemma {:induction false} BigEndianRoundTrip(n: nat, w: nat)
    requires n < Pow256(w)
    ensures FromBigEndian(BigEndian(n, w)) == n
  {
    if w > 0 {
      BigEndianRoundTrip(n / 256, w - 1);
      assert BigEndian(n, w)[..w - 1] == BigEndian(n / 256, w - 1);
    }
  }

  // ---- Encoding ---------------------------------------------------------------------------------

  /** The length with its 7-bit first byte; `maskBit` is 0 or 128. */
  function LengthField(n: nat, maskBit: int): Bytes
    requires n < MAX64 && (maskBit == 0 || maskBit == 128)
  {
    if n < 126 then [n + maskBit]
    else if n < MAX16 then [126 + maskBit] + BigEndian(n, 2)
    else [127 + maskBit] + BigEndian(n, 8)
  }

  /** A server frame: final, unmasked. */
  function Encode(payload: Bytes, op: Opcode): Bytes
    requires |payload| < MAX64
  {
    [0x80 + Code(op)] + LengthField(|payload|, 0) + payload
  }

  method EncodeFrame(payload: Bytes, op: Opcode) returns (frame: Bytes)
    requires |payload| < MAX64
    ensures frame == Encode(payload, op)
  {
    frame := [];
    frame := frame + [0x80 + Code(op)];
    var length := |payload|;
    if length < 126 {
      frame := frame + [length];
    } else if length < 65536 {
      frame := frame + [126];
      frame := frame + BigEndian(length, 2);
    } else {
      frame := frame + [127];
      frame := frame + BigEndian(length, 8);
    }
    frame := frame + payload;
  }

  type Key = k: Bytes | |k| == 4 witness [0, 0, 0, 0]

  /** A final frame as either side may send it: with a masking key or without. */
  function Wire(op: Opcode, payload: Bytes, mask: Option<Key>): Bytes
    requires |payload| < MAX64
  {
    match mask
    case None => [0x80 + Code(op)] + LengthField(|payload|, 0) + payload
    case Some(key) => [0x80 + Code(op)] + LengthField(|payload|, 128) + key + Masked(payload, key)
  }

  // ---- Decoding ---------------------------------------------------------------------------------

  datatype Decoded = Incomplete | Invalid | Frame(op: Opcode, payload: Bytes)

  function LengthBytes(second: Byte): nat {
    if second % 128 == 126 then 2 else if second % 128 == 127 then 8 else 0
  }

  function IsMasked(second: Byte): bool {
    second >= 128
  }

  /** Where the masking key or else the payload starts. */
  function BodyStart(data: Bytes): nat
    requires |data| >= 2
  {
    2 + LengthBytes(data[1])
  }

  function PayloadLength(data: Bytes): nat
    requires |data| >= 2 && |data| >= BodyStart(data)
  {
    if LengthBytes(data[1]) == 0 then data[1] % 128 else FromBigEndian(data[2..BodyStart(data)])
  }

  function Decode(data: Bytes): Decoded {
    if |data| < 2 then Incomplete
    else
      var op := OpcodeOf(data[0] % 16);
      if op.None? then Invalid
      else if |data| < BodyStart(data) then Incomplete
      else
        var length := PayloadLength(data);
        var start := BodyStart(data);
        if IsMasked(data[1]) then
          if |data| < start + 4 + length then Incomplete
          else Frame(op.value, Masked(data[start + 4..start + 4 + length], data[start..start + 4]))
        else if |data| < start + length then Incomplete
        else Frame(op.value, data[start..start + length])
  }

  method DecodeFrame(data: Bytes) returns (r: Decoded)
    ensures r == Decode(data)
  {
    if |data| < 2 {
      return Incomplete;
    }
    var op := OpcodeOf(data[0] % 16);
    if op.None? {
      return Invalid;
    }
    var masked := data[1] >= 128;
    var length: nat := data[1] % 128;
    var pos := 2;
    if length == 126 {
      if |data| < 4 {
        return Incomplete;
      }
      length := FromBigEndian(data[2..4]);
      pos := 4;
    } else if length == 127 {
      if |data| < 10 {
        return Incomplete;
      }
      length := FromBigEndian(data[2..10]);
      pos := 10;
    }
    var key: Bytes := [];
    if masked {
      if |data| < pos + 4 {
        return Incomplete;
      }
      key := data[pos..pos + 4];
      pos := pos + 4;
    }
    if |data| < pos + length {
      return Incomplete;
    }
    var payload := TakePayload(data[pos..pos + length], key);
    return Frame(op.value, payload);
  }

  /** Copies the payload out of the buffer and unmasks the copy when there is a key. */
  method TakePayload(source: Bytes, key: Bytes) returns (payload: Bytes)
    requires key == [] || |key| == 4
    ensures payload == if key == [] then source else Masked(source, key)
  {
    var copy := new Byte[|source|](i requires 0 <= i < |source| => source[i]);
    assert copy[..] == source;
    if key != [] {
      Unmask(copy, key);
    }
    payload := copy[..];
  }

  // ---- Round trip, self-delimitation, stability ------------------------------------------------

  lemma LengthFieldReads(n: nat, maskBit: int)
    requires n < MAX64 && (maskBit == 0 || maskBit == 128)
    ensures var field := LengthField(n, maskBit);
            && |field| == 1 + LengthBytes(field[0]) && IsMasked(field[0]) == (maskBit == 128)
            && n == if LengthBytes(field[0]) == 0 then field[0] % 128 else FromBigEndian(field[1..])
  {
    Pow256Of8();
    if n >= MAX16 {
      BigEndianRoundTrip(n, 8);
      assert LengthField(n, maskBit)[1..] == BigEndian(n, 8);
    } else if n >= 126 {
      BigEndianRoundTrip(n, 2);
      assert LengthField(n, maskBit)[1..] == BigEndian(n, 2);
    }
  }

  lemma OpcodeReads(op: Opcode)
    ensures OpcodeOf((0x80 + Code(op)) % 16) == Some(op)
  {
  }

  /** What a wire frame looks like to the decoder, whatever follows its length field. */
  lemma WireHeader(op: Opcode, n: nat, maskBit: int, body: Bytes)
    requires n < MAX64 && (maskBit == 0 || maskBit == 128)
    ensures var data := [0x80 + Code(op)] + LengthField(n, maskBit) + body;
            && |data| >= 2 && OpcodeOf(data[0] % 16) == Some(op) && IsMasked(data[1]) == (maskBit == 128)
            && BodyStart(data) == 1 + |LengthField(n, maskBit)|
            && PayloadLength(data) == n
            && data[BodyStart(data)..] == body
  {
    var field := LengthField(n, maskBit);
    var data := [0x80 + Code(op)] + field + body;
    OpcodeReads(op);
    LengthFieldReads(n, maskBit);
    assert data[1] == field[0] && data[0] == 0x80 + Code(op);
    assert data[2..BodyStart(data)] == field[1..];
  }

  lemma DecodeUnmasked(data: Bytes, op: Opcode, payload: Bytes, rest: Bytes)
    requires |data| >= 2 && OpcodeOf(data[0] % 16) == Some(op) && !IsMasked(data[1])
    requires |data| >= BodyStart(data) && PayloadLength(data) == |payload| && data[BodyStart(data)..] == payload + rest
    ensures Decode(data) == Frame(op, payload)
  {
    assert data[BodyStart(data)..BodyStart(data) + |payload|] == data[BodyStart(data)..][..|payload|];
  }

  lemma DecodeMasked(data: Bytes, op: Opcode, key: Key, payload: Bytes, rest: Bytes)
    requires |data| >= 2 && OpcodeOf(data[0] % 16) == Some(op) && IsMasked(data[1])
    requires |data| >= BodyStart(data) && PayloadLength(data) == |payload|
    requires data[BodyStart(data)..] == key + Masked(payload, key) + rest
    ensures Decode(data) == Frame(op, payload)
  {
    var start, body := BodyStart(data), data[BodyStart(data)..];
    assert data[start..start + 4] == body[..4] == key;
    assert data[start + 4..start + 4 + |payload|] == body[4..4 + |payload|] == Masked(payload, key);
    MaskedTwice(payload, key);
  }

  lemma Regroup(head: Bytes, key: Bytes, body: Bytes, rest: Bytes)
    ensures head + key + body + rest == head + (key + body + rest)
    ensures head + body + rest == head + (body + rest)
  {
  }

  lemma DecodeWireUnmasked(op: Opcode, payload: Bytes, rest: Bytes)
    requires |payload| < MAX64
    ensures Decode(Wire(op, payload, None) + rest) == Frame(op, payload)
  {
    var head := [0x80 + Code(op)] + LengthField(|payload|, 0);
    Regroup(head, [], payload, rest);
    WireHeader(op, |payload|, 0, payload + rest);
    DecodeUnmasked(head + (payload + rest), op, payload, rest);
  }

  lemma DecodeWireMasked(op: Opcode, payload: Bytes, key: Key, rest: Bytes)
    requires |payload| < MAX64
    ensures Decode(Wire(op, payload, Some(key)) + rest) == Frame(op, payload)
  {
    var head := [0x80 + Code(op)] + LengthField(|payload|, 128);
    var body := key + Masked(payload, key) + rest;
    Regroup(head, key, Masked(payload, key), rest);
    WireHeader(op, |payload|, 128, body);
    DecodeMasked(head + body, op, key, payload, rest);
  }

  /** Decoding a frame followed by anything gives back its opcode and payload. */
  lemma DecodeWire(op: Opcode, payload: Bytes, mask: Option<Key>, rest: Bytes)
    requires |payload| < MAX64
    ensures Decode(Wire(op, payload, mask) + rest) == Frame(op, payload)
  {
    match mask
    case None => DecodeWireUnmasked(op, payload, rest);
    case Some(key) => DecodeWireMasked(op, payload, key, rest);
  }

  lemma SameSlice(data: Bytes, k: nat, i: nat, j: nat)
    requires i <= j <= k <= |data|
    ensures data[..k][i..j] == data[i..j]
  {
  }

  /** No proper prefix of a frame decodes to anything. */
  lemma PrefixIncomplete(op: Opcode, payload: Bytes, mask: Option<Key>, k: nat)
    requires |payload| < MAX64 && k < |Wire(op, payload, mask)|
    ensures Decode(Wire(op, payload, mask)[..k]) == Incomplete
  {
    var whole := Wire(op, payload, mask);
    var data := whole[..k];
    var maskBit := if mask.None? then 0 else 128;
    var body := if mask.None? then payload else mask.value + Masked(payload, mask.value);
    assert whole == [0x80 + Code(op)] + LengthField(|payload|, maskBit) + body;
    WireHeader(op, |payload|, maskBit, body);
    if k >= 2 && k >= BodyStart(whole) {
      SameSlice(whole, k, 2, BodyStart(whole));
    }
  }

  /** An answer, once given, does not change when more bytes arrive. */
  lemma DecodeStable(data: Bytes, more: Bytes)
    requires Decode(data) != Incomplete
    ensures Decode(data + more) == Decode(data)
  {
    var all := data + more;
    if Decode(data).Frame? {
      var start := BodyStart(data);
      assert all[2..start] == data[2..start];
      var length := PayloadLength(data);
      if IsMasked(data[1]) {
        assert all[start..start + 4] == data[start..start + 4];
        assert all[start + 4..start + 4 + length] == data[start + 4..start + 4 + length];
      } else {
        assert all[start..start + length] == data[start..start + length];
      }
    }
  }

  /** encode_frame picks the shortest length form: no bytes that decode to this frame are fewer. */
  lemma EncodeIsShortest(data: Bytes, payload: Bytes, op: Opcode)
    requires Decode(data) == Frame(op, payload)
    ensures |payload| < MAX64 && |Encode(payload, op)| <= |data| && Decode(Encode(payload, op)) == Frame(op, payload)
  {
    DecodedLength(data);
    DecodeWire(op, payload, None, []);
    assert Wire(op, payload, None) + [] == Encode(payload, op);
  }

  // ---- What the decoder says of a buffer -----------------------------------------------------------

  /** The numbers of section 5.2 of RFC 6455. */
  predicate Numbered(op: Opcode, n: int) {
    match op
    case TEXT => n == 1
    case BINARY => n == 2
    case CLOSE => n == 8
    case PING => n == 9
    case PONG => n == 10
  }

  /** The length field reads `n`, and ends before `start`: 7 bits, or 16 after 126, or 64 after 127. */
  ghost predicate HeaderSays(data: Bytes, n: nat, start: nat) {
    && 2 <= start <= |data|
    && if data[1] % 128 == 126 then start == 4 && n == data[2] as int * 256 + data[3]
       else if data[1] % 128 == 127 then start == 10 && BigEndian(n, 8) == data[2..10] && n < MAX64
       else start == 2 && n == data[1] % 128
  }

  /** The payload stands after the header, or after the key that follows it, bit by bit. */
  ghost predicate Carries(data: Bytes, start: nat, payload: Bytes)
    requires 2 <= start <= |data|
  {
    if data[1] >= 128 then
      && start + 4 + |payload| <= |data|
      && forall i, k :: 0 <= i < |payload| && 0 <= k < 8 ==>
           Bit(payload[i], k) == (Bit(data[start + 4 + i], k) + Bit(data[start + i % 4], k)) % 2
    else start + |payload| <= |data| && payload == data[start..start + |payload|]
  }

  lemma TwoBytes(a: Byte, b: Byte)
    ensures FromBigEndian([a, b]) == a as int * 256 + b
  {
    assert [a, b][..1] == [a] && [a][..0] == [];
  }

  lemma {:induction false} BigEndianOf(s: Bytes)
    ensures BigEndian(FromBigEndian(s), |s|) == s
  {
    if s != [] {
      BigEndianOf(s[..|s| - 1]);
      assert FromBigEndian(s) / 256 == FromBigEndian(s[..|s| - 1]);
    }
  }

  lemma HeaderRead(data: Bytes)
    requires |data| >= 2 && |data| >= BodyStart(data)
    ensures HeaderSays(data, PayloadLength(data), BodyStart(data))
    ensures forall n: nat, start: nat :: HeaderSays(data, n, start) ==>
              n == PayloadLength(data) && start == BodyStart(data)
  {
    Pow256Of8();
    if data[1] % 128 == 126 {
      assert data[2..4] == [data[2], data[3]];
      TwoBytes(data[2], data[3]);
    } else if data[1] % 128 == 127 {
      BigEndianOf(data[2..10]);
      forall n: nat, start: nat | HeaderSays(data, n, start)
        ensures n == PayloadLength(data) && start == BodyStart(data)
      {
        BigEndianRoundTrip(n, 8);
      }
    }
  }

  lemma {:induction false} SameBits(a: nat, b: nat, n: nat)
    requires a < Pow2(n) && b < Pow2(n) && forall k :: 0 <= k < n ==> Bit(a, k) == Bit(b, k)
    ensures a == b
  {
    if n > 0 {
      assert Bit(a, 0) == Bit(b, 0);
      forall k | 0 <= k < n - 1
        ensures Bit(a / 2, k) == Bit(b / 2, k)
      {
        BitOfHalf(a, k + 1);
        BitOfHalf(b, k + 1);
      }
      SameBits(a / 2, b / 2, n - 1);
    }
  }

  lemma SameBytes(a: Bytes, b: Bytes)
    requires |a| == |b| && forall i, k :: 0 <= i < |a| && 0 <= k < 8 ==> Bit(a[i], k) == Bit(b[i], k)
    ensures a == b
  {
    Pow2Of8();
    forall i | 0 <= i < |a|
      ensures a[i] == b[i]
    {
      SameBits(a[i], b[i], 8);
    }
  }

  /** Exactly when the decoder raises, and exactly which frame it gives: the opcode of the first byte and the
      payload that the header measures, unmasked bit by bit. Otherwise it asks for more. */
  lemma DecodesExactly(data: Bytes)
    ensures Decode(data) == Invalid <==> |data| >= 2 && data[0] % 16 !in [1, 2, 8, 9, 10]
    ensures forall op, payload :: Decode(data) == Frame(op, payload) <==>
              |data| >= 2 && Numbered(op, data[0] % 16)
              && exists start :: HeaderSays(data, |payload|, start) && Carries(data, start, payload)
  {
    forall op, payload
      ensures Decode(data) == Frame(op, payload) <==>
                |data| >= 2 && Numbered(op, data[0] % 16)
                && exists start :: HeaderSays(data, |payload|, start) && Carries(data, start, payload)
    {
      if |data| >= 2 && |data| >= BodyStart(data) {
        HeaderRead(data);
        CarriedIsDecoded(data, op, payload);
      }
    }
  }

  lemma Unmasked(data: Bytes, start: nat, payload: Bytes)
    requires 2 <= start && start + 4 + |payload| <= |data| && data[1] >= 128
    ensures Carries(data, start, payload)
       <==> payload == Masked(data[start + 4..start + 4 + |payload|], data[start..start + 4])
  {
    var masked, key := data[start + 4..start + 4 + |payload|], data[start..start + 4];
    MaskedIsBitwise(masked, key);
    if Carries(data, start, payload) {
      forall i, k | 0 <= i < |payload| && 0 <= k < 8
        ensures Bit(payload[i], k) == Bit(Masked(masked, key)[i], k)
      {
        assert masked[i] == data[start + 4 + i] && key[i % 4] == data[start + i % 4];
      }
      SameBytes(payload, Masked(masked, key));
    }
    if payload == Masked(masked, key) {
      forall i, k | 0 <= i < |payload| && 0 <= k < 8
        ensures Bit(payload[i], k) == (Bit(data[start + 4 + i], k) + Bit(data[start + i % 4], k)) % 2
      {
        assert masked[i] == data[start + 4 + i] && key[i % 4] == data[start + i % 4];
      }
    }
  }

  lemma NumberedExactly(op: Opcode, nibble: int)
    ensures OpcodeOf(nibble) == Some(op) <==> Numbered(op, nibble)
  {
  }

  lemma CarriedPlain(data: Bytes, op: Opcode, payload: Bytes)
    requires |data| >= 2 && |data| >= BodyStart(data) && !IsMasked(data[1])
    ensures Decode(data) == Frame(op, payload) <==>
              OpcodeOf(data[0] % 16) == Some(op) && |payload| == PayloadLength(data)
              && Carries(data, BodyStart(data), payload)
  {
  }

  lemma CarriedMasked(data: Bytes, op: Opcode, payload: Bytes)
    requires |data| >= 2 && |data| >= BodyStart(data) && IsMasked(data[1])
    ensures Decode(data) == Frame(op, payload) <==>
              OpcodeOf(data[0] % 16) == Some(op) && |payload| == PayloadLength(data)
              && BodyStart(data) + 4 + |payload| <= |data|
              && payload == Masked(data[BodyStart(data) + 4..BodyStart(data) + 4 + |payload|],
                                   data[BodyStart(data)..BodyStart(data) + 4])
  {
  }

  lemma CarriedIsDecoded(data: Bytes, op: Opcode, payload: Bytes)
    requires |data| >= 2 && |data| >= BodyStart(data)
    ensures Decode(data) == Frame(op, payload) <==>
              Numbered(op, data[0] % 16) && |payload| == PayloadLength(data) && Carries(data, BodyStart(data), payload)
  {
    NumberedExactly(op, data[0] % 16);
    if !IsMasked(data[1]) {
      CarriedPlain(data, op, payload);
    } else {
      CarriedMasked(data, op, payload);
      if BodyStart(data) + 4 + |payload| <= |data| {
        Unmasked(data, BodyStart(data), payload);
      }
    }
  }

  /** A server frame is final, unmasked and has its opcode's number. */
  lemma EncodedHeader(payload: Bytes, op: Opcode)
    requires |payload| < MAX64
    ensures var frame := Encode(payload, op);
            |frame| >= 2 && frame[0] >= 128 && Numbered(op, frame[0] - 128) && frame[1] < 128
  {
  }

  lemma DecodedLength(data: Bytes)
    requires Decode(data).Frame?
    ensures |Decode(data).payload| < MAX64
  {
    Pow256Of8();
  }
}
