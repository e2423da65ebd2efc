/** The validation pipeline of one end of the channel (forwarder/app/crypto/codec.py and its C++
    twin), and what a network that reorders, repeats, alters and invents envelopes can make of it. */
module Codec {
  import opened Common
  import opened Envelope
  import opened Primitives
  import B64 = Base64
  import RG = ReplayGuard

  // ---- Random and clock inputs of one encryption ------------------------------------------

  datatype Draw = Draw(uuid: Bytes, now: int, nonce: Bytes, iv: Bytes, coin: nat)

  predicate ValidDraw(d: Draw) {
    |d.uuid| == 16 && |d.nonce| == 16 && |d.iv| == IV_SIZE
  }

  function HexDigit(v: int): char
    requires 0 <= v < 16
  {
    if v < 10 then '0' + v as char else 'a' + (v - 10) as char
  }

  function HexText(data: Bytes): string {
    if data == [] then "" else [HexDigit(data[0] / 16), HexDigit(data[0] % 16)] + HexText(data[1..])
  }

  /** Version 4: byte 6 carries the version and byte 8 the variant. */
  function GenerateUuid(rb: Bytes): string
    requires |rb| == 16
  {
    HexText(rb[..4]) + "-" + HexText(rb[4..6]) + "-"
    + HexText([rb[6] % 16 + 64, rb[7]]) + "-" + HexText([rb[8] % 64 + 128, rb[9]]) + "-" + HexText(rb[10..])
  }

  lemma {:induction false} HexTextPlain(data: Bytes)
    ensures |HexText(data)| == 2 * |data|
    ensures '|' !in HexText(data)
  {
    if data != [] {
      HexTextPlain(data[1..]);
    }
  }

  lemma UuidShape(rb: Bytes)
    requires |rb| == 16
    ensures |GenerateUuid(rb)| == 36 && '|' !in GenerateUuid(rb)
  {
    HexTextPlain(rb[..4]);
    HexTextPlain(rb[4..6]);
    HexTextPlain([rb[6] % 16 + 64, rb[7]]);
    HexTextPlain([rb[8] % 64 + 128, rb[9]]);
    HexTextPlain(rb[10..]);
  }

  function Unhex(c: char): int {
    if '0' <= c <= '9' then c as int - '0' as int
    else if 'a' <= c <= 'f' then c as int - 'a' as int + 10
    else -1
  }

  lemma UnhexDigit(v: int)
    requires 0 <= v < 16
    ensures Unhex(HexDigit(v)) == v
  {
  }

  /** Two lower-case hexadecimal digits a byte, the high half first. */
  lemma {:induction false} HexReadsBack(data: Bytes)
    ensures |HexText(data)| == 2 * |data|
    ensures forall k :: 0 <= k < |data| ==>
              data[k] == Unhex(HexText(data)[2 * k]) * 16 + Unhex(HexText(data)[2 * k + 1])
    ensures forall k :: 0 <= k < |HexText(data)| ==> 0 <= Unhex(HexText(data)[k]) < 16
  {
    if data != [] {
      HexReadsBack(data[1..]);
      UnhexDigit(data[0] / 16);
      UnhexDigit(data[0] % 16);
      var text, rest := HexText(data), HexText(data[1..]);
      assert text == [HexDigit(data[0] / 16), HexDigit(data[0] % 16)] + rest;
      forall k | 0 <= k < |data|
        ensures data[k] == Unhex(text[2 * k]) * 16 + Unhex(text[2 * k + 1])
      {
        if k > 0 {
          assert text[2 * k] == rest[2 * (k - 1)] && text[2 * k + 1] == rest[2 * (k - 1) + 1];
        }
      }
    }
  }

  lemma HexInjective(a: Bytes, b: Bytes)
    requires HexText(a) == HexText(b)
    ensures a == b
  {
    HexReadsBack(a);
    HexReadsBack(b);
  }

  /** The 122 bits that a version-4 id carries: all but those of its version and its variant. */
  function IdBytes(rb: Bytes): Bytes
    requires |rb| == 16
  {
    rb[..6] + [rb[6] % 16 + 0x40, rb[7], rb[8] % 64 + 0x80] + rb[9..]
  }

  lemma {:induction false} HexAppend(a: Bytes, b: Bytes)
    ensures HexText(a + b) == HexText(a) + HexText(b)
  {
    if a == [] {
      assert a + b == b;
    } else {
      assert (a + b)[1..] == a[1..] + b;
      HexAppend(a[1..], b);
    }
  }

  lemma FivePieces(a: string, b: string, c: string, d: string, e: string)
    requires |a| == 8 && |b| == |c| == |d| == 4
    ensures var all := a + b + c + d + e;
            all[..8] == a && all[8..12] == b && all[12..16] == c && all[16..20] == d && all[20..] == e
  {
  }

  /** The text of 32 characters with dashes before the places 8, 12, 16 and 20. */
  function Dashed(hex: string): string
    requires |hex| == 32
  {
    hex[..8] + "-" + hex[8..12] + "-" + hex[12..16] + "-" + hex[16..20] + "-" + hex[20..]
  }

  lemma DashedAt(hex: string, k: nat)
    requires |hex| == 32 && k < 32
    ensures |Dashed(hex)| == 36
    ensures hex[k] == Dashed(hex)[if k < 8 then k else if k < 12 then k + 1 else if k < 16 then k + 2
                                  else if k < 20 then k + 3 else k + 4]
  {
  }

  lemma DashedInjective(x: string, y: string)
    requires |x| == |y| == 32 && Dashed(x) == Dashed(y)
    ensures x == y
  {
    forall k | 0 <= k < 32
      ensures x[k] == y[k]
    {
      DashedAt(x, k);
      DashedAt(y, k);
    }
  }

  /** The text of an id: its bytes in hexadecimal, with dashes before bytes 4, 6, 8 and 10. */
  lemma UuidIs(rb: Bytes)
    requires |rb| == 16
    ensures |HexText(IdBytes(rb))| == 32 && GenerateUuid(rb) == Dashed(HexText(IdBytes(rb)))
  {
    var a, b, e := rb[..4], rb[4..6], rb[10..];
    var c, d: Bytes := [rb[6] % 16 + 64, rb[7]], [rb[8] % 64 + 128, rb[9]];
    assert IdBytes(rb) == a + b + c + d + e;
    HexAppend(a + b + c + d, e);
    HexAppend(a + b + c, d);
    HexAppend(a + b, c);
    HexAppend(a, b);
    HexTextPlain(a);
    HexTextPlain(b);
    HexTextPlain(c);
    HexTextPlain(d);
    HexTextPlain(e);
    FivePieces(HexText(a), HexText(b), HexText(c), HexText(d), HexText(e));
  }

  /** Ids are the same only when these bits are. */
  lemma UuidInjective(a: Bytes, b: Bytes)
    requires |a| == |b| == 16
    ensures GenerateUuid(a) == GenerateUuid(b) <==> IdBytes(a) == IdBytes(b)
  {
    UuidIs(a);
    UuidIs(b);
    if GenerateUuid(a) == GenerateUuid(b) {
      DashedInjective(HexText(IdBytes(a)), HexText(IdBytes(b)));
      HexInjective(IdBytes(a), IdBytes(b));
    }
  }

  // ---- The pipeline as functions ------------------------------------------------------------

  /** What a codec is built from: its session key, its own signing key, the key of its peer. */
  datatype Endpoint = Endpoint(prims: Primitives, key: Bytes, signKey: string, peerPem: string, windowSeconds: int)

  function Unsigned(ep: Endpoint, plaintext: Bytes, mtype: MessageType, d: Draw): CryptoEnvelope
    requires ValidDraw(d)
  {
    var (ciphertext, tag) := ep.prims.seal(ep.key, d.iv, plaintext);
    CryptoEnvelope(GenerateUuid(d.uuid), d.now, B64.Encode(d.nonce), ToString(mtype),
                   B64.Encode(d.iv), B64.Encode(ciphertext), B64.Encode(tag), "")
  }

  function Encrypted(ep: Endpoint, plaintext: Bytes, mtype: MessageType, d: Draw): CryptoEnvelope
    requires ValidDraw(d)
  {
    var env := Unsigned(ep, plaintext, mtype, d);
    env.(signature := B64.Encode(ep.prims.sign(ep.signKey, SigningPayload(env), d.coin)))
  }

  datatype Reason = OutsideWindow | Replay | BadSignature | BadCipher

  /** Raised stands for the exception of a field that is not base64. */
  datatype Outcome = Accepted(plaintext: Bytes) | Rejected(reason: Reason) | Raised

  function SignatureAccepted(ep: Endpoint, env: CryptoEnvelope): bool {
    var signature := B64.Decode(env.signature);
    signature.Some? && ep.prims.verify(ep.peerPem, SigningPayload(env), signature.value)
  }

  function CipherOutcome(ep: Endpoint, env: CryptoEnvelope): Outcome {
    var ciphertext, iv, tag := B64.Decode(env.ciphertext), B64.Decode(env.iv), B64.Decode(env.tag);
    if ciphertext.None? || iv.None? || tag.None? then Raised
    else if |iv.value| != IV_SIZE || |tag.value| != TAG_SIZE then Rejected(BadCipher)
    else
      match ep.prims.open(ep.key, iv.value, ciphertext.value, tag.value)
      case None => Rejected(BadCipher)
      case Some(plaintext) => Accepted(plaintext)
  }

  function Verdict(ep: Endpoint, cache: RG.Cache, env: CryptoEnvelope, now: int): Outcome {
    if !RG.WithinWindow(ep.windowSeconds, env.timestamp, now) then Rejected(OutsideWindow)
    else if env.nonce in cache then Rejected(Replay)
    else if B64.Decode(env.signature).None? then Raised
    else if !SignatureAccepted(ep, env) then Rejected(BadSignature)
    else CipherOutcome(ep, env)
  }

  // ---- What a verdict says ------------------------------------------------------------------

  /** Dated at most the window before or after the clock read. */
  predicate Timely(ep: Endpoint, env: CryptoEnvelope, now: int) {
    now - ep.windowSeconds * 1000 <= env.timestamp <= now + ep.windowSeconds * 1000
  }

  /** The signature is one of the peer on the seven fields in their order. */
  predicate SignedByPeer(ep: Endpoint, env: CryptoEnvelope) {
    B64.Decode(env.signature).Some? && ep.prims.verify(ep.peerPem, Concatenated(env), B64.Decode(env.signature).value)
  }

  predicate Readable(env: CryptoEnvelope) {
    B64.Decode(env.ciphertext).Some? && B64.Decode(env.iv).Some? && B64.Decode(env.tag).Some?
  }

  /** The plaintext under the session's key, for an iv of 12 and a tag of 16 bytes. */
  function Unsealed(ep: Endpoint, env: CryptoEnvelope): Option<Bytes>
    requires Readable(env)
  {
    var iv, ciphertext, tag := B64.Decode(env.iv).value, B64.Decode(env.ciphertext).value, B64.Decode(env.tag).value;
    if |iv| == 12 && |tag| == 16 then ep.prims.open(ep.key, iv, ciphertext, tag) else None
  }

  /** Each answer of the pipeline, exactly: a message is refused for the first of these that it fails,
      and accepted, with its plaintext, when it fails none. */
  lemma VerdictExactly(ep: Endpoint, cache: RG.Cache, env: CryptoEnvelope, now: int)
    ensures var v := Verdict(ep, cache, env, now);
            && (v == Rejected(OutsideWindow) <==> !Timely(ep, env, now))
            && (v == Rejected(Replay) <==> Timely(ep, env, now) && env.nonce in cache)
            && (v == Rejected(BadSignature) <==>
                  && Timely(ep, env, now) && env.nonce !in cache
                  && B64.Decode(env.signature).Some? && !SignedByPeer(ep, env))
            && (v == Raised <==>
                  && Timely(ep, env, now) && env.nonce !in cache
                  && (B64.Decode(env.signature).None? || (SignedByPeer(ep, env) && !Readable(env))))
            && (v == Rejected(BadCipher) <==>
                  && Timely(ep, env, now) && env.nonce !in cache && SignedByPeer(ep, env)
                  && Readable(env) && Unsealed(ep, env) == None)
            && (forall plaintext :: v == Accepted(plaintext) <==>
                  && Timely(ep, env, now) && env.nonce !in cache && SignedByPeer(ep, env)
                  && Readable(env) && Unsealed(ep, env) == Some(plaintext))
  {
    TwinsSignTheSame(env);
  }

  class CryptoCodec {
    const ep: Endpoint
    const guard: RG.Guard

    constructor (ep: Endpoint)
      ensures this.ep == ep && fresh(guard)
      ensures guard.windowSeconds == ep.windowSeconds && guard.nonces == map[]
    {
      this.ep := ep;
      this.guard := new RG.Guard(ep.windowSeconds);
    }

    method Encrypt(plaintext: Bytes, mtype: MessageType, d: Draw) returns (env: CryptoEnvelope)
      requires ValidDraw(d)
      ensures env == Encrypted(ep, plaintext, mtype, d)
    {
      env := CryptoEnvelope("", 0, "", "", "", "", "", "");
      env := env.(msgId := GenerateUuid(d.uuid), timestamp := d.now, nonce := B64.Encode(d.nonce));
      env := env.(mtype := ToString(mtype));
      var (ciphertext, tag) := ep.prims.seal(ep.key, d.iv, plaintext);
      env := env.(iv := B64.Encode(d.iv));
      env := env.(ciphertext := B64.Encode(ciphertext));
      env := env.(tag := B64.Encode(tag));
      var payload := SigningPayload(env);
      env := env.(signature := B64.Encode(ep.prims.sign(ep.signKey, payload, d.coin)));
    }

    method Decrypt(env: CryptoEnvelope, t1: int, t2: int) returns (r: Outcome)
      requires guard.windowSeconds == ep.windowSeconds
      modifies guard
      ensures r == Verdict(ep, old(guard.nonces), env, t1)
      ensures guard.nonces == if r.Accepted? then RG.Recorded(ep.windowSeconds, old(guard.nonces), env.nonce, t2)
                              else old(guard.nonces)
    {
      var inside := guard.IsWithinWindow(env.timestamp, t1);
      if !inside {
        return Rejected(OutsideWindow);
      }
      var seen := guard.IsReplay(env.nonce);
      if seen {
        return Rejected(Replay);
      }
      var signature := B64.Decode(env.signature);
      if signature.None? {
        return Raised;
      }
      if !ep.prims.verify(ep.peerPem, SigningPayload(env), signature.value) {
        return Rejected(BadSignature);
      }
      r := CipherOutcome(ep, env);
      if r.Accepted? {
        guard.RecordNonce(env.nonce, t2);
      }
    }
  }

  // ---- A receiver over a run ------------------------------------------------------------------

  /** An envelope as it arrives, with the two clock reads of its decryption. */
  datatype Delivery = Delivery(env: CryptoEnvelope, t1: int, t2: int)

  datatype Receipt = Receipt(env: CryptoEnvelope, plaintext: Bytes)

  datatype Receiver = Receiver(cache: RG.Cache, accepted: seq<Receipt>)

  function Absorb(windowSeconds: int, r: Receiver, d: Delivery, outcome: Outcome): Receiver {
    match outcome
    case Accepted(plaintext) =>
      Receiver(RG.Recorded(windowSeconds, r.cache, d.env.nonce, d.t2), r.accepted + [Receipt(d.env, plaintext)])
    case _ => r
  }

  function Receive(ep: Endpoint, r: Receiver, d: Delivery): Receiver {
    Absorb(ep.windowSeconds, r, d, Verdict(ep, r.cache, d.env, d.t1))
  }

  // ---- Everything the peer's signing key ever signs -------------------------------------------

  datatype Signed =
    | InSession(mtype: MessageType, plaintext: Bytes, env: CryptoEnvelope)
    | OtherSession(key: Bytes, mtype: MessageType, plaintext: Bytes, env: CryptoEnvelope)
    | HandshakeText(text: string)

  function SignedText(s: Signed): string {
    match s
    case HandshakeText(text) => text
    case _ => SigningPayload(s.env)
  }

  ghost predicate EncryptedBy(ep: Endpoint, plaintext: Bytes, mtype: MessageType, env: CryptoEnvelope) {
    exists d :: ValidDraw(d) && env == Encrypted(ep, plaintext, mtype, d)
  }

  /** The text is not the signing payload of anything that opens under the session's key. */
  ghost predicate NoMessage(ep: Endpoint, text: string) {
    forall env: CryptoEnvelope :: SigningPayload(env) == text ==> !CipherOutcome(ep, env).Accepted?
  }

  /** The peer signs what its codecs produce; other sessions use other keys; a handshake text is not
      itself a sealed message of this session. */
  ghost predicate Honest(peer: Endpoint, s: Signed) {
    match s
    case InSession(mtype, plaintext, env) => EncryptedBy(peer, plaintext, mtype, env)
    case OtherSession(key, mtype, plaintext, env) =>
      |key| == KEY_SIZE && key != peer.key && EncryptedBy(peer.(key := key), plaintext, mtype, env)
    case HandshakeText(text) => NoMessage(peer, text)
  }

  datatype Event = PeerSigns(s: Signed) | Arrives(d: Delivery)

  datatype World = World(signed: seq<Signed>, receiver: Receiver)

  function After(us: Endpoint, events: seq<Event>): World {
    if events == [] then World([], Receiver(map[], []))
    else
      var w := After(us, events[..|events| - 1]);
      match events[|events| - 1]
      case PeerSigns(s) => w.(signed := w.signed + [s])
      case Arrives(d) => w.(receiver := Receive(us, w.receiver, d))
  }

  /** Ideal signatures: a signature that verifies is on a text the peer has signed before. The
      signature bytes themselves are up to the network. */
  ghost predicate Unforgeable(us: Endpoint, events: seq<Event>) {
    forall i :: 0 <= i < |events| && events[i].Arrives? && SignatureAccepted(us, events[i].d.env) ==>
      PeerSigned(events, i, SigningPayload(events[i].d.env))
  }

  /** The peer signed this text before event i. */
  ghost predicate PeerSigned(events: seq<Event>, i: int, text: string) {
    exists j :: 0 <= j < i && j < |events| && events[j].PeerSigns? && SignedText(events[j].s) == text
  }

  ghost predicate HonestRun(us: Endpoint, peer: Endpoint, events: seq<Event>) {
    && (forall i :: 0 <= i < |events| && events[i].PeerSigns? ==> Honest(peer, events[i].s))
    && Unforgeable(us, events)
  }

  ghost predicate Session(us: Endpoint, peer: Endpoint) {
    && us.prims == peer.prims && us.key == peer.key && |us.key| == KEY_SIZE
    && CipherCorrect(us.prims) && KeysSeparate(us.prims)
  }

  lemma EncryptedIsBarFree(ep: Endpoint, plaintext: Bytes, mtype: MessageType, d: Draw)
    requires ValidDraw(d)
    ensures BarFree(Encrypted(ep, plaintext, mtype, d))
  {
    var (ciphertext, tag) := ep.prims.seal(ep.key, d.iv, plaintext);
    UuidShape(d.uuid);
    B64.EncodeHasNoBar(d.nonce);
    ParseExactlyInvertsToString("", mtype);
    B64.EncodeHasNoBar(d.iv);
    B64.EncodeHasNoBar(ciphertext);
    B64.EncodeHasNoBar(tag);
  }

  /** A text that no envelope has as its payload is harmless, whatever the keys. */
  lemma NoEnvelopeNoMessage(ep: Endpoint, text: string)
    requires !ReadsAsEnvelope(text)
    ensures NoMessage(ep, text)
  {
    ReadsAsEnvelopeExactly(text);
  }

  /** The cipher stage on the signed fields of a sealed message. */
  lemma CipherOutcomeOf(us: Endpoint, key: Bytes, env: CryptoEnvelope, mtype: MessageType, plaintext: Bytes, d: Draw)
    requires |us.key| == |key| == KEY_SIZE && CipherCorrect(us.prims) && KeysSeparate(us.prims) && ValidDraw(d)
    requires SameSigned(env, Encrypted(us.(key := key), plaintext, mtype, d))
    ensures CipherOutcome(us, env) == if key == us.key then Accepted(plaintext) else Rejected(BadCipher)
  {
    var (ciphertext, tag) := us.prims.seal(key, d.iv, plaintext);
    B64.RoundTrip(d.iv);
    B64.RoundTrip(ciphertext);
    B64.RoundTrip(tag);
    assert Reopens(us.prims, key, d.iv, plaintext);
    if key != us.key {
      assert StaysShut(us.prims, us.key, key, d.iv, plaintext);
    }
  }

  /** An accepted envelope whose payload the peer signed is one the peer sent in this session. */
  lemma AcceptedWasSent(us: Endpoint, peer: Endpoint, env: CryptoEnvelope, plaintext: Bytes, s: Signed)
    requires Session(us, peer) && Honest(peer, s)
    requires SignedText(s) == SigningPayload(env)
    requires CipherOutcome(us, env) == Accepted(plaintext)
    ensures Origin(Receipt(env, plaintext), s)
  {
    assert CipherOutcome(peer, env) == CipherOutcome(us, env);
    if !s.HandshakeText? {
      var key := if s.InSession? then peer.key else s.key;
      var maker := peer.(key := key);
      assert EncryptedBy(maker, s.plaintext, s.mtype, s.env);
      var d :| ValidDraw(d) && s.env == Encrypted(maker, s.plaintext, s.mtype, d);
      EncryptedIsBarFree(maker, s.plaintext, s.mtype, d);
      PayloadUnambiguous(s.env, env);
      CipherOutcomeOf(us, key, env, s.mtype, s.plaintext, d);
      ParseExactlyInvertsToString(env.mtype, s.mtype);
    }
  }

  /** Receipt `r` is the delivery of what the peer sent as `s`. */
  predicate Origin(r: Receipt, s: Signed) {
    && s.InSession? && SameSigned(r.env, s.env)
    && Parse(r.env.mtype) == Some(s.mtype) && r.plaintext == s.plaintext
  }

  ghost predicate HasOrigin(r: Receipt, signed: seq<Signed>) {
    exists k :: 0 <= k < |signed| && Origin(r, signed[k])
  }

  ghost predicate Traceable(w: World) {
    var accepted := w.receiver.accepted;
    && (forall i :: 0 <= i < |accepted| ==> accepted[i].env.nonce in w.receiver.cache)
    && (forall i, j :: 0 <= i < j < |accepted| ==> accepted[i].env.nonce != accepted[j].env.nonce)
    && (forall i :: 0 <= i < |accepted| ==> HasOrigin(accepted[i], w.signed))
  }

  /** A one-to-one map `f` from the accepted messages into the peer's messages of this session. */
  ghost predicate InjectsInto(accepted: seq<Receipt>, signed: seq<Signed>, f: seq<nat>) {
    && |f| == |accepted| && Distinct(f)
    && forall i :: 0 <= i < |f| ==> f[i] < |signed| && Origin(accepted[i], signed[f[i]])
  }

  ghost predicate Agrees(w: World) {
    exists f: seq<nat> :: InjectsInto(w.receiver.accepted, w.signed, f)
  }

  lemma TraceableSign(w: World, s: Signed)
    requires Traceable(w)
    ensures Traceable(w.(signed := w.signed + [s]))
  {
    var signed' := w.signed + [s];
    forall i | 0 <= i < |w.receiver.accepted|
      ensures HasOrigin(w.receiver.accepted[i], signed')
    {
      assert HasOrigin(w.receiver.accepted[i], w.signed);
      var k :| 0 <= k < |w.signed| && Origin(w.receiver.accepted[i], w.signed[k]);
      assert signed'[k] == w.signed[k];
    }
  }

  lemma TraceableAbsorb(w: World, windowSeconds: int, d: Delivery, outcome: Outcome)
    requires Traceable(w)
    requires outcome.Accepted? ==>
               d.env.nonce !in w.receiver.cache && HasOrigin(Receipt(d.env, outcome.plaintext), w.signed)
    ensures Traceable(w.(receiver := Absorb(windowSeconds, w.receiver, d, outcome)))
  {
  }

  lemma AcceptedVerdict(ep: Endpoint, cache: RG.Cache, env: CryptoEnvelope, now: int)
    requires Verdict(ep, cache, env, now).Accepted?
    ensures env.nonce !in cache && SignatureAccepted(ep, env) && CipherOutcome(ep, env) == Verdict(ep, cache, env, now)
  {
  }

  lemma HonestRunPrefix(us: Endpoint, peer: Endpoint, events: seq<Event>)
    requires events != [] && HonestRun(us, peer, events)
    ensures HonestRun(us, peer, events[..|events| - 1])
  {
    var before := events[..|events| - 1];
    forall i | 0 <= i < |before| && before[i].PeerSigns?
      ensures Honest(peer, before[i].s)
    {
      assert before[i] == events[i];
    }
    UnforgeablePrefix(us, events);
  }

  lemma UnforgeablePrefix(us: Endpoint, events: seq<Event>)
    requires events != [] && Unforgeable(us, events)
    ensures Unforgeable(us, events[..|events| - 1])
  {
    var before := events[..|events| - 1];
    forall i | 0 <= i < |before| && before[i].Arrives? && SignatureAccepted(us, before[i].d.env)
      ensures PeerSigned(before, i, SigningPayload(before[i].d.env))
    {
      assert events[i] == before[i] && PeerSigned(events, i, SigningPayload(events[i].d.env));
      var j :| 0 <= j < i && events[j].PeerSigns? && SignedText(events[j].s) == SigningPayload(events[i].d.env);
      assert before[j] == events[j];
    }
  }

  /** Every signing event of the run is in the log. */
  lemma {:induction false} LogHas(us: Endpoint, events: seq<Event>, j: nat) returns (k: nat)
    requires j < |events| && events[j].PeerSigns?
    ensures k < |After(us, events).signed| && After(us, events).signed[k] == events[j].s
  {
    var before := events[..|events| - 1];
    if j < |before| {
      k := LogHas(us, before, j);
    } else {
      k := |After(us, before).signed|;
    }
  }

  lemma SignedEarlier(us: Endpoint, events: seq<Event>) returns (j: nat)
    requires Unforgeable(us, events) && events != [] && events[|events| - 1].Arrives?
    requires SignatureAccepted(us, events[|events| - 1].d.env)
    ensures j < |events| - 1 && events[j].PeerSigns?
    ensures SignedText(events[j].s) == SigningPayload(events[|events| - 1].d.env)
  {
    var i := |events| - 1;
    assert PeerSigned(events, i, SigningPayload(events[i].d.env));
    j :| 0 <= j < i && events[j].PeerSigns? && SignedText(events[j].s) == SigningPayload(events[i].d.env);
  }

  /** A message accepted at the end of a run is in the log of what the peer had sent. */
  lemma LastArrival(us: Endpoint, peer: Endpoint, events: seq<Event>, cache: RG.Cache)
    requires Session(us, peer) && HonestRun(us, peer, events) && events != [] && events[|events| - 1].Arrives?
    requires var d := events[|events| - 1].d; Verdict(us, cache, d.env, d.t1).Accepted?
    ensures var d := events[|events| - 1].d;
            && d.env.nonce !in cache
            && HasOrigin(Receipt(d.env, Verdict(us, cache, d.env, d.t1).plaintext),
                         After(us, events[..|events| - 1]).signed)
  {
    var before, d := events[..|events| - 1], events[|events| - 1].d;
    var plaintext := Verdict(us, cache, d.env, d.t1).plaintext;
    AcceptedVerdict(us, cache, d.env, d.t1);
    var j := SignedEarlier(us, events);
    var k := LogHas(us, before, j);
    AcceptedWasSent(us, peer, d.env, plaintext, events[j].s);
    assert Origin(Receipt(d.env, plaintext), After(us, before).signed[k]);
  }

  lemma {:induction false} RunIsTraceable(us: Endpoint, peer: Endpoint, events: seq<Event>)
    requires Session(us, peer) && HonestRun(us, peer, events)
    ensures Traceable(After(us, events))
  {
    if events != [] {
      var before, last := events[..|events| - 1], events[|events| - 1];
      HonestRunPrefix(us, peer, events);
      RunIsTraceable(us, peer, before);
      var w := After(us, before);
      match last
      case PeerSigns(s) =>
        TraceableSign(w, s);
      case Arrives(d) =>
        var verdict := Verdict(us, w.receiver.cache, d.env, d.t1);
        if verdict.Accepted? {
          LastArrival(us, peer, events, w.receiver.cache);
        }
        TraceableAbsorb(w, us.windowSeconds, d, verdict);
    }
  }

  lemma ChooseOrigins(w: World) returns (f: seq<nat>)
    requires Traceable(w)
    ensures InjectsInto(w.receiver.accepted, w.signed, f)
  {
    var accepted := w.receiver.accepted;
    f := [];
    while |f| < |accepted|
      invariant |f| <= |accepted|
      invariant forall i :: 0 <= i < |f| ==> f[i] < |w.signed| && Origin(accepted[i], w.signed[f[i]])
    {
      assert HasOrigin(accepted[|f|], w.signed);
      var k :| 0 <= k < |w.signed| && Origin(accepted[|f|], w.signed[k]);
      f := f + [k];
    }
    forall i, j | 0 <= i < j < |f|
      ensures f[i] != f[j]
    {
      assert accepted[i].env.nonce != accepted[j].env.nonce;
    }
  }

  /** Injective agreement: whatever the network does and whatever the clocks read, the accepted
      messages map one-to-one into the messages the peer sent in this session, types and plaintexts
      intact. */
  lemma InjectiveAgreement(us: Endpoint, peer: Endpoint, events: seq<Event>)
    requires Session(us, peer) && HonestRun(us, peer, events)
    ensures Agrees(After(us, events))
  {
    RunIsTraceable(us, peer, events);
    var f := ChooseOrigins(After(us, events));
  }

  lemma AbsorbGrows(windowSeconds: int, r: Receiver, d: Delivery, outcome: Outcome)
    requires |r.cache| == |r.accepted|
    requires outcome.Accepted? ==> d.env.nonce !in r.cache
    ensures var next := Absorb(windowSeconds, r, d, outcome);
            |next.cache| == |next.accepted| && r.cache.Keys <= next.cache.Keys
  {
    if outcome.Accepted? {
      var next := Absorb(windowSeconds, r, d, outcome);
      assert next.cache.Keys == r.cache.Keys + {d.env.nonce};
      assert |next.cache.Keys| == |r.cache.Keys| + 1;
    }
  }

  /** The codec's cache is never purged: it has one entry for each message ever accepted, however old. */
  lemma {:induction false} CodecNeverForgets(us: Endpoint, events: seq<Event>)
    ensures |After(us, events).receiver.cache| == |After(us, events).receiver.accepted|
    ensures forall n: nat :: n <= |events| ==>
              After(us, events[..n]).receiver.cache.Keys <= After(us, events).receiver.cache.Keys
  {
    if events != [] {
      var before, last := events[..|events| - 1], events[|events| - 1];
      CodecNeverForgets(us, before);
      var r := After(us, before).receiver;
      if last.Arrives? {
        var verdict := Verdict(us, r.cache, last.d.env, last.d.t1);
        if verdict.Accepted? {
          AcceptedVerdict(us, r.cache, last.d.env, last.d.t1);
        }
        AbsorbGrows(us.windowSeconds, r, last.d, verdict);
      }
      forall n: nat | n <= |events|
        ensures After(us, events[..n]).receiver.cache.Keys <= After(us, events).receiver.cache.Keys
      {
        assert events[..n] == if n < |events| then before[..n] else events;
      }
    } else {
      assert forall n: nat :: n <= |events| ==> events[..n] == events;
    }
  }

  /** Receipt `r` is that of an arrival in the run which was timely when it was read, signed by the peer and
      sealed under the session's key. */
  predicate Arrived(us: Endpoint, event: Event, r: Receipt) {
    && event.Arrives? && event.d.env == r.env
    && Timely(us, r.env, event.d.t1) && SignedByPeer(us, r.env)
    && Readable(r.env) && Unsealed(us, r.env) == Some(r.plaintext)
  }

  /** Whatever the network does, nothing is accepted that is outside the window at its own clock read, or
      unsigned, or not sealed under the session's key. */
  lemma {:induction false} AcceptedArrived(us: Endpoint, events: seq<Event>, i: nat)
    requires i < |After(us, events).receiver.accepted|
    ensures exists j :: 0 <= j < |events| && Arrived(us, events[j], After(us, events).receiver.accepted[i])
  {
    var before, last := events[..|events| - 1], events[|events| - 1];
    var r := After(us, before).receiver;
    if i < |r.accepted| {
      AcceptedArrived(us, before, i);
      var j :| 0 <= j < |before| && Arrived(us, before[j], r.accepted[i]);
      assert events[j] == before[j];
    } else {
      VerdictExactly(us, r.cache, last.d.env, last.d.t1);
      assert Arrived(us, events[|before|], After(us, events).receiver.accepted[i]);
    }
  }
}
