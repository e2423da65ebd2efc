/** The plaintext handshake (forwarder/app/ws/agent_handler.py, agent/ws_client/src/ws_client.cpp)
    and what a session built by it delivers. */
module Handshake {
  import opened Common
  import opened Envelope
  import opened Primitives
  import opened Codec
  import B64 = Base64
  import RG = ReplayGuard

  const WINDOW_SECONDS := 300

  // ---- Messages -----------------------------------------------------------------------------

  /** A parsed JSON object; None is an absent member. */
  datatype InitJson = InitJson(
    jsonType: Option<string>, agentId: Option<string>, projects: Option<seq<string>>,
    ecdhPem: Option<string>, ecdsaPem: Option<string>, signature: Option<string>)

  datatype Init = Init(agentId: string, projects: seq<string>, ecdhPem: string, ecdsaPem: string, signature: string)

  datatype AckJson = AckJson(
    status: string, error: Option<string>,
    ecdhPem: Option<string>, ecdsaPem: Option<string>, signature: Option<string>)

  datatype HandshakeError =
    | InvalidJson
    | MissingField(name: string)
    | WrongType
    | UnreadableKey
    | InvalidBase64
    | SignatureFailed
    | BadKeySize

  function InitText(agentId: string, ecdhPem: string, ecdsaPem: string): string {
    Join([agentId, ecdhPem, ecdsaPem], "|")
  }

  function AckText(ecdhPem: string, ecdsaPem: string): string {
    Join([ecdhPem, ecdsaPem], "|")
  }

  // ---- Forwarder side -----------------------------------------------------------------------

  /** Fields are looked for in this order, and the type only after all of them. */
  function ParseInit(raw: Option<InitJson>): Result<Init, HandshakeError> {
    if raw.None? then Err(InvalidJson)
    else
      var j := raw.value;
      if j.agentId.None? then Err(MissingField("agent_id"))
      else if j.projects.None? then Err(MissingField("projects"))
      else if j.ecdhPem.None? then Err(MissingField("ecdh_pub_pem"))
      else if j.ecdsaPem.None? then Err(MissingField("ecdsa_pub_pem"))
      else if j.signature.None? then Err(MissingField("signature"))
      else if j.jsonType != Some("HANDSHAKE_INIT") then Err(WrongType)
      else Ok(Init(j.agentId.value, j.projects.value, j.ecdhPem.value, j.ecdsaPem.value, j.signature.value))
  }

  /** The forwarder's own identity and its choices for one connection. */
  datatype Party = Party(privateKey: string, publicPem: string, ecdhSecret: nat, coin: nat)

  datatype Reply = NoReply | Sent(ack: AckJson)

  datatype ForwarderResult = ForwarderResult(reply: Reply, session: Result<(Init, Endpoint), HandshakeError>)

  const ERROR_ACK := AckJson("ERROR", Some("Signature verification failed"), None, None, None)

  function ForwarderHandshake(p: Primitives, raw: Option<InitJson>, self: Party): ForwarderResult {
    match ParseInit(raw)
    case Err(e) => ForwarderResult(NoReply, Err(e))
    case Ok(init) =>
      var signature := B64.Decode(init.signature);
      if !p.loads(init.ecdsaPem) then ForwarderResult(NoReply, Err(UnreadableKey))
      else if signature.None? then ForwarderResult(NoReply, Err(InvalidBase64))
      else if !p.verify(init.ecdsaPem, InitText(init.agentId, init.ecdhPem, init.ecdsaPem), signature.value) then
        ForwarderResult(Sent(ERROR_ACK), Err(SignatureFailed))
      else
        var key := p.derive(self.ecdhSecret, init.ecdhPem);
        if key.None? then ForwarderResult(NoReply, Err(UnreadableKey))
        else
          var ecdhPem := p.ecdhPem(self.ecdhSecret);
          var sig := p.sign(self.privateKey, AckText(ecdhPem, self.publicPem), self.coin);
          var ack := AckJson("OK", None, Some(ecdhPem), Some(self.publicPem), Some(B64.Encode(sig)));
          if |key.value| != KEY_SIZE then ForwarderResult(Sent(ack), Err(BadKeySize))
          else
            var session := Endpoint(p, key.value, self.privateKey, init.ecdsaPem, WINDOW_SECONDS);
            ForwarderResult(Sent(ack), Ok((init, session)))
  }

  // ---- Agent side ---------------------------------------------------------------------------

  function AgentInit(p: Primitives, agentId: string, projects: seq<string>, self: Party): InitJson {
    var ecdhPem := p.ecdhPem(self.ecdhSecret);
    var sig := p.sign(self.privateKey, InitText(agentId, ecdhPem, self.publicPem), self.coin);
    InitJson(Some("HANDSHAKE_INIT"), Some(agentId), Some(projects), Some(ecdhPem), Some(self.publicPem),
             Some(B64.Encode(sig)))
  }

  /** Parsing the reply throws when a key or the signature is absent, before its status is read. */
  function AgentFinish(p: Primitives, ack: AckJson, self: Party): Option<Endpoint> {
    if ack.ecdhPem.None? || ack.ecdsaPem.None? || ack.signature.None? then None
    else if ack.status != "OK" then None
    else
      var signature := B64.Decode(ack.signature.value);
      if !p.loads(ack.ecdsaPem.value) || signature.None? then None
      else if !p.verify(ack.ecdsaPem.value, AckText(ack.ecdhPem.value, ack.ecdsaPem.value), signature.value) then None
      else
        match p.derive(self.ecdhSecret, ack.ecdhPem.value)
        case None => None
        case Some(key) =>
          if |key| != KEY_SIZE then None
          else Some(Endpoint(p, key, self.privateKey, ack.ecdsaPem.value, WINDOW_SECONDS))
  }

  // ---- An honest handshake ------------------------------------------------------------------

  ghost predicate Lawful(p: Primitives) {
    SignaturesCorrect(p) && CipherCorrect(p) && EcdhCommutes(p)
  }

  predicate OwnKeys(p: Primitives, party: Party) {
    party.publicPem == p.publicPem(party.privateKey)
  }

  /** Two endpoints that can read each other. */
  ghost predicate Paired(a: Endpoint, b: Endpoint) {
    && a.prims == b.prims && a.key == b.key && |a.key| == KEY_SIZE && a.windowSeconds == b.windowSeconds
    && a.peerPem == b.prims.publicPem(b.signKey) && b.peerPem == a.prims.publicPem(a.signKey)
  }

  /** When both sides follow the protocol both get a session, with the same key and with each
      other's signing key. */
  lemma HonestHandshake(p: Primitives, agentId: string, projects: seq<string>, agent: Party, forwarder: Party)
    requires Lawful(p) && OwnKeys(p, agent) && OwnKeys(p, forwarder)
    ensures var f := ForwarderHandshake(p, Some(AgentInit(p, agentId, projects, agent)), forwarder);
            && f.session.Ok? && f.session.value.0.agentId == agentId && f.session.value.0.projects == projects
            && f.reply.Sent? && AgentFinish(p, f.reply.ack, agent).Some?
            && Paired(AgentFinish(p, f.reply.ack, agent).value, f.session.value.1)
  {
    assert SharesKey(p, agent.ecdhSecret, forwarder.ecdhSecret);
    assert SharesKey(p, forwarder.ecdhSecret, agent.ecdhSecret);
    var initText := InitText(agentId, p.ecdhPem(agent.ecdhSecret), agent.publicPem);
    var ackText := AckText(p.ecdhPem(forwarder.ecdhSecret), forwarder.publicPem);
    B64.RoundTrip(p.sign(agent.privateKey, initText, agent.coin));
    B64.RoundTrip(p.sign(forwarder.privateKey, ackText, forwarder.coin));
    assert p.verify(agent.publicPem, initText, p.sign(agent.privateKey, initText, agent.coin));
    assert p.verify(forwarder.publicPem, ackText, p.sign(forwarder.privateKey, ackText, forwarder.coin));
    assert p.loads(agent.publicPem) && p.loads(forwarder.publicPem);
  }

  /** A forwarder that opens no session leaves the agent without one; only when the key it derived had the
      wrong size has it answered OK before, and then the agent's own key was altered on the way. */
  lemma RefusalReachesAgent(p: Primitives, raw: Option<InitJson>, forwarder: Party, agent: Party)
    requires EcdhCommutes(p) && ForwarderHandshake(p, raw, forwarder).session.Err?
    ensures var f := ForwarderHandshake(p, raw, forwarder);
            f.reply.Sent? && AgentFinish(p, f.reply.ack, agent).Some? ==>
              f.session.error == BadKeySize && raw.Some? && raw.value.ecdhPem != Some(p.ecdhPem(agent.ecdhSecret))
  {
    assert SharesKey(p, forwarder.ecdhSecret, agent.ecdhSecret);
  }

  /** No later segment of the agent id with two or more after it reads as a number. An id with at most
      three separators has no such segment. */
  ghost predicate PlainId(agentId: string) {
    forall i :: 1 <= i && i + 3 < |Split(agentId)| ==> !DecimalText(Split(agentId)[i])
  }

  lemma HandshakeSegments(agentId: string, ecdhPem: string, ecdsaPem: string)
    requires '|' !in ecdhPem && '|' !in ecdsaPem
    ensures Split(InitText(agentId, ecdhPem, ecdsaPem)) == Split(agentId) + [ecdhPem, ecdsaPem]
    ensures Split(AckText(ecdhPem, ecdsaPem)) == [ecdhPem, ecdsaPem]
  {
    var init, ack := [agentId, ecdhPem, ecdsaPem], [ecdhPem, ecdsaPem];
    assert init[1..] == ack && ack[1..] == [ecdsaPem];
    SplitJoin(init);
    SplitJoin(ack);
    SplitAllCounts(ack);
    assert SplitAll(init) == Split(agentId) + SplitAll(ack);
  }

  /** A handshake text reads as an envelope if and only if the agent id is not plain; a reply never
      does. */
  lemma HandshakeReadsAsEnvelopeExactly(agentId: string, ecdhPem: string, ecdsaPem: string)
    requires '|' !in ecdhPem && '|' !in ecdsaPem
    ensures ReadsAsEnvelope(InitText(agentId, ecdhPem, ecdsaPem)) <==> !PlainId(agentId)
    ensures !ReadsAsEnvelope(AckText(ecdhPem, ecdsaPem))
  {
    HandshakeSegments(agentId, ecdhPem, ecdsaPem);
    var segments, own := Split(InitText(agentId, ecdhPem, ecdsaPem)), Split(agentId);
    if PlainId(agentId) {
      forall i | 1 <= i && i + 5 < |segments|
        ensures !DecimalText(segments[i])
      {
        assert segments[i] == own[i];
      }
    } else {
      var i :| 1 <= i && i + 3 < |own| && DecimalText(own[i]);
      assert segments[i] == own[i];
    }
  }

  /** So the handshakes of plain ids are harmless, whatever the keys. */
  lemma HandshakeTextsAreHarmless(peer: Endpoint, agentId: string, ecdhPem: string, ecdsaPem: string)
    requires PlainId(agentId) && '|' !in ecdhPem && '|' !in ecdsaPem
    ensures Honest(peer, HandshakeText(InitText(agentId, ecdhPem, ecdsaPem)))
    ensures Honest(peer, HandshakeText(AckText(ecdhPem, ecdsaPem)))
  {
    HandshakeReadsAsEnvelopeExactly(agentId, ecdhPem, ecdsaPem);
    NoEnvelopeNoMessage(peer, InitText(agentId, ecdhPem, ecdsaPem));
    NoEnvelopeNoMessage(peer, AckText(ecdhPem, ecdsaPem));
  }

  /** The peer signs a text outside the session, then one envelope arrives. */
  function SignThenArrive(text: string, d: Delivery): seq<Event> {
    [PeerSigns(HandshakeText(text)), Arrives(d)]
  }

  lemma AfterSignThenArrive(us: Endpoint, text: string, d: Delivery)
    ensures After(us, SignThenArrive(text, d))
         == World([HandshakeText(text)], Receive(us, Receiver(map[], []), d))
  {
    var first: seq<Event> := [PeerSigns(HandshakeText(text))];
    assert first[..0] == [] && SignThenArrive(text, d)[..1] == first;
    assert After(us, first) == World([HandshakeText(text)], Receiver(map[], []));
  }

  lemma WithoutOrigin(w: World)
    requires w.receiver.accepted != []
    requires forall k :: 0 <= k < |w.signed| ==> !Origin(w.receiver.accepted[0], w.signed[k])
    ensures !Agrees(w)
  {
    forall f: seq<nat> | |f| == |w.receiver.accepted|
      ensures !InjectsInto(w.receiver.accepted, w.signed, f)
    {
      assert f[0] < |w.signed| ==> !Origin(w.receiver.accepted[0], w.signed[f[0]]);
    }
  }

  /** A sealed message in a signed handshake text is accepted, though the peer never sent it. */
  lemma MessageInHandshake(us: Endpoint, peer: Endpoint, env: CryptoEnvelope) returns (d: Delivery)
    requires us.prims == peer.prims && SignaturesCorrect(us.prims) && us.windowSeconds >= 0
    requires us.peerPem == us.prims.publicPem(peer.signKey) && CipherOutcome(us, env).Accepted?
    ensures SigningPayload(d.env) == SigningPayload(env)
    ensures !Agrees(After(us, SignThenArrive(SigningPayload(env), d)))
  {
    var signature := us.prims.sign(peer.signKey, SigningPayload(env), 0);
    d := Delivery(env.(signature := B64.Encode(signature)), env.timestamp, env.timestamp);
    assert SignedFields(d.env) == SignedFields(env);
    B64.RoundTrip(signature);
    AfterSignThenArrive(us, SigningPayload(env), d);
    WithoutOrigin(After(us, SignThenArrive(SigningPayload(env), d)));
  }

  /** What InjectiveAgreement assumes of handshake texts is exactly what it needs: signing a text leaves
      agreement intact, whatever arrives on its signature, if and only if the text is no sealed message
      of the session. */
  lemma HarmlessTextExactly(us: Endpoint, peer: Endpoint, text: string)
    requires Session(us, peer) && SignaturesCorrect(us.prims) && us.windowSeconds >= 0
    requires us.peerPem == us.prims.publicPem(peer.signKey)
    ensures (forall d: Delivery :: SigningPayload(d.env) == text ==> Agrees(After(us, SignThenArrive(text, d))))
       <==> NoMessage(peer, text)
  {
    if NoMessage(peer, text) {
      forall d: Delivery | SigningPayload(d.env) == text
        ensures Agrees(After(us, SignThenArrive(text, d)))
      {
        AfterSignThenArrive(us, text, d);
        assert CipherOutcome(us, d.env) == CipherOutcome(peer, d.env);
        var w := After(us, SignThenArrive(text, d));
        assert w.receiver.accepted == [];
        assert InjectsInto(w.receiver.accepted, w.signed, []);
      }
    } else {
      var env :| SigningPayload(env) == text && CipherOutcome(peer, env).Accepted?;
      assert CipherOutcome(us, env) == CipherOutcome(peer, env);
      var d := MessageInHandshake(us, peer, env);
    }
  }

  // ---- Exact delivery -----------------------------------------------------------------------

  datatype Message = Message(mtype: MessageType, plaintext: Bytes, draw: Draw)

  predicate DistinctNonces(sent: seq<Message>) {
    && (forall i :: 0 <= i < |sent| ==> ValidDraw(sent[i].draw))
    && (forall i, j :: 0 <= i < j < |sent| ==> sent[i].draw.nonce != sent[j].draw.nonce)
  }

  /** Delivery number k carries message `index`, read at the clock times t1 and t2. */
  datatype Hop = Hop(index: nat, t1: int, t2: int)

  predicate InWindow(windowSeconds: int, sent: seq<Message>, hops: seq<Hop>) {
    forall k :: 0 <= k < |hops| ==>
      && hops[k].index < |sent|
      && RG.WithinWindow(windowSeconds, sent[hops[k].index].draw.now, hops[k].t1)
  }

  function Carry(from: Endpoint, to: Endpoint, sent: seq<Message>, hops: seq<Hop>): Receiver
    requires DistinctNonces(sent) && InWindow(to.windowSeconds, sent, hops)
  {
    if hops == [] then Receiver(map[], [])
    else
      var hop := hops[|hops| - 1];
      var m := sent[hop.index];
      var env := Encrypted(from, m.plaintext, m.mtype, m.draw);
      Receive(to, Carry(from, to, sent, hops[..|hops| - 1]), Delivery(env, hop.t1, hop.t2))
  }

  /** The delivered indices in order, every later repeat left out. */
  function FirstVisits(hops: seq<Hop>): seq<nat> {
    if hops == [] then []
    else
      var before := FirstVisits(hops[..|hops| - 1]);
      var index := hops[|hops| - 1].index;
      if index in before then before else before + [index]
  }

  predicate Shows(r: Receipt, m: Message) {
    Parse(r.env.mtype) == Some(m.mtype) && r.plaintext == m.plaintext
  }

  /** The cache holds the nonces of the visited messages and nothing else. */
  predicate CacheMatches(sent: seq<Message>, visits: seq<nat>, cache: RG.Cache) {
    && (forall k :: 0 <= k < |visits| ==> visits[k] < |sent|)
    && (forall i :: 0 <= i < |sent| ==> (B64.Encode(sent[i].draw.nonce) in cache <==> i in visits))
  }

  lemma GenuineVerdict(from: Endpoint, to: Endpoint, m: Message, cache: RG.Cache, t1: int)
    requires Paired(from, to) && SignaturesCorrect(to.prims) && CipherCorrect(to.prims) && ValidDraw(m.draw)
    requires RG.WithinWindow(to.windowSeconds, m.draw.now, t1)
    ensures Verdict(to, cache, Encrypted(from, m.plaintext, m.mtype, m.draw), t1)
         == if B64.Encode(m.draw.nonce) in cache then Rejected(Replay) else Accepted(m.plaintext)
  {
    var env := Encrypted(from, m.plaintext, m.mtype, m.draw);
    var bare := Unsigned(from, m.plaintext, m.mtype, m.draw);
    var (ciphertext, tag) := from.prims.seal(from.key, m.draw.iv, m.plaintext);
    var signature := from.prims.sign(from.signKey, SigningPayload(bare), m.draw.coin);
    assert SignedFields(env) == SignedFields(bare);
    B64.RoundTrip(signature);
    assert from.prims.verify(to.peerPem, SigningPayload(bare), signature);
    B64.RoundTrip(m.draw.iv);
    B64.RoundTrip(ciphertext);
    B64.RoundTrip(tag);
    assert Reopens(to.prims, to.key, m.draw.iv, m.plaintext);
  }

  lemma VisitStep(sent: seq<Message>, visits: seq<nat>, cache: RG.Cache, index: nat, windowSeconds: int, t2: int)
    requires DistinctNonces(sent) && CacheMatches(sent, visits, cache) && index < |sent|
    ensures var nonce := B64.Encode(sent[index].draw.nonce);
            if index in visits then CacheMatches(sent, visits, cache)
            else CacheMatches(sent, visits + [index], RG.Recorded(windowSeconds, cache, nonce, t2))
  {
    forall i | 0 <= i < |sent| && i != index
      ensures B64.Encode(sent[i].draw.nonce) != B64.Encode(sent[index].draw.nonce)
    {
      if B64.Encode(sent[i].draw.nonce) == B64.Encode(sent[index].draw.nonce) {
        B64.EncodeInjective(sent[i].draw.nonce, sent[index].draw.nonce);
      }
    }
  }

  /** What the receiver has after these visits: their nonces, and their messages in order. */
  predicate Matches(sent: seq<Message>, visits: seq<nat>, r: Receiver) {
    && CacheMatches(sent, visits, r.cache)
    && |r.accepted| == |visits|
    && forall k :: 0 <= k < |visits| ==> Shows(r.accepted[k], sent[visits[k]])
  }

  lemma MatchesStep(sent: seq<Message>, visits: seq<nat>, r: Receiver, index: nat, windowSeconds: int, d: Delivery)
    requires DistinctNonces(sent) && index < |sent| && Matches(sent, visits, r)
    requires d.env.nonce == B64.Encode(sent[index].draw.nonce) && Parse(d.env.mtype) == Some(sent[index].mtype)
    ensures var outcome := if d.env.nonce in r.cache then Rejected(Replay) else Accepted(sent[index].plaintext);
            Matches(sent, if index in visits then visits else visits + [index], Absorb(windowSeconds, r, d, outcome))
  {
    VisitStep(sent, visits, r.cache, index, windowSeconds, d.t2);
    assert Shows(Receipt(d.env, sent[index].plaintext), sent[index]);
  }

  lemma DeliveryStep(from: Endpoint, to: Endpoint, sent: seq<Message>, visits: seq<nat>, r: Receiver, hop: Hop)
    requires Paired(from, to) && SignaturesCorrect(to.prims) && CipherCorrect(to.prims)
    requires DistinctNonces(sent) && hop.index < |sent| && Matches(sent, visits, r)
    requires RG.WithinWindow(to.windowSeconds, sent[hop.index].draw.now, hop.t1)
    ensures var m := sent[hop.index];
            var r' := Receive(to, r, Delivery(Encrypted(from, m.plaintext, m.mtype, m.draw), hop.t1, hop.t2));
            Matches(sent, if hop.index in visits then visits else visits + [hop.index], r')
  {
    var m := sent[hop.index];
    var env := Encrypted(from, m.plaintext, m.mtype, m.draw);
    GenuineVerdict(from, to, m, r.cache, hop.t1);
    ParseExactlyInvertsToString(ToString(m.mtype), m.mtype);
    MatchesStep(sent, visits, r, hop.index, to.windowSeconds, Delivery(env, hop.t1, hop.t2));
  }

  /** Exact delivery: genuine messages with distinct nonces, delivered inside the window in any order
      and with any repeats, come out as exactly the delivery list without later repeats, types and
      bytes intact. */
  lemma {:induction false} ExactDelivery(from: Endpoint, to: Endpoint, sent: seq<Message>, hops: seq<Hop>)
    requires Paired(from, to) && SignaturesCorrect(to.prims) && CipherCorrect(to.prims)
    requires DistinctNonces(sent) && InWindow(to.windowSeconds, sent, hops)
    ensures Matches(sent, FirstVisits(hops), Carry(from, to, sent, hops))
  {
    if hops != [] {
      var before, hop := hops[..|hops| - 1], hops[|hops| - 1];
      ExactDelivery(from, to, sent, before);
      DeliveryStep(from, to, sent, FirstVisits(before), Carry(from, to, sent, before), hop);
    }
  }

  /** FirstVisits names every delivered message once, in the order of first delivery. */
  lemma {:induction false} FirstVisitsShape(hops: seq<Hop>)
    ensures Distinct(FirstVisits(hops))
    ensures forall index :: index in FirstVisits(hops) <==> exists k :: 0 <= k < |hops| && hops[k].index == index
  {
    if hops != [] {
      var before, last := hops[..|hops| - 1], hops[|hops| - 1];
      FirstVisitsShape(before);
      assert hops == before + [last];
      forall index
        ensures index in FirstVisits(hops) <==> exists k :: 0 <= k < |hops| && hops[k].index == index
      {
        assert index in FirstVisits(hops) <==> index in FirstVisits(before) || index == last.index;
        if k :| 0 <= k < |before| && before[k].index == index {
          assert hops[k].index == index;
        }
        if k :| 0 <= k < |hops| && hops[k].index == index {
          assert k < |before| ==> before[k].index == index;
        }
      }
    }
  }

  // ---- Genuine runs are honest ---------------------------------------------------------------

  function SignedOf(from: Endpoint, m: Message): Signed
    requires ValidDraw(m.draw)
  {
    InSession(m.mtype, m.plaintext, Encrypted(from, m.plaintext, m.mtype, m.draw))
  }

  /** The peer signs all its messages, then the network delivers them in its own order. */
  function GenuineEvents(from: Endpoint, sent: seq<Message>, hops: seq<Hop>): seq<Event>
    requires DistinctNonces(sent) && forall k :: 0 <= k < |hops| ==> hops[k].index < |sent|
  {
    if hops == [] then seq(|sent|, i requires 0 <= i < |sent| => PeerSigns(SignedOf(from, sent[i])))
    else
      var hop := hops[|hops| - 1];
      GenuineEvents(from, sent, hops[..|hops| - 1])
      + [Arrives(Delivery(SignedOf(from, sent[hop.index]).env, hop.t1, hop.t2))]
  }

  lemma {:induction false} SigningComesFirst(from: Endpoint, sent: seq<Message>, hops: seq<Hop>, i: nat)
    requires DistinctNonces(sent) && (forall k :: 0 <= k < |hops| ==> hops[k].index < |sent|) && i < |sent|
    ensures |GenuineEvents(from, sent, hops)| == |sent| + |hops|
    ensures GenuineEvents(from, sent, hops)[i] == PeerSigns(SignedOf(from, sent[i]))
  {
    if hops != [] {
      SigningComesFirst(from, sent, hops[..|hops| - 1], i);
    }
  }

  lemma {:induction false} NothingArrived(us: Endpoint, events: seq<Event>)
    requires forall i :: 0 <= i < |events| ==> events[i].PeerSigns?
    ensures After(us, events).receiver == Receiver(map[], [])
  {
    if events != [] {
      NothingArrived(us, events[..|events| - 1]);
    }
  }

  lemma SignedIsHonest(from: Endpoint, m: Message)
    requires ValidDraw(m.draw)
    ensures Honest(from, SignedOf(from, m))
  {
    assert EncryptedBy(from, m.plaintext, m.mtype, SignedOf(from, m).env);
  }

  lemma UnforgeableExtends(us: Endpoint, events: seq<Event>, d: Delivery, j: nat)
    requires Unforgeable(us, events)
    requires j < |events| && events[j].PeerSigns? && SignedText(events[j].s) == SigningPayload(d.env)
    ensures Unforgeable(us, events + [Arrives(d)])
  {
    var more := events + [Arrives(d)];
    forall i | 0 <= i < |more| && more[i].Arrives? && SignatureAccepted(us, more[i].d.env)
      ensures PeerSigned(more, i, SigningPayload(more[i].d.env))
    {
      if i < |events| {
        assert events[i] == more[i] && PeerSigned(events, i, SigningPayload(events[i].d.env));
        var k :| 0 <= k < i && events[k].PeerSigns? && SignedText(events[k].s) == SigningPayload(events[i].d.env);
        assert more[k] == events[k];
      } else {
        assert more[j] == events[j];
      }
    }
  }

  lemma HonestRunExtends(us: Endpoint, peer: Endpoint, events: seq<Event>, d: Delivery, j: nat)
    requires HonestRun(us, peer, events)
    requires j < |events| && events[j].PeerSigns? && SignedText(events[j].s) == SigningPayload(d.env)
    ensures HonestRun(us, peer, events + [Arrives(d)])
  {
    UnforgeableExtends(us, events, d, j);
    forall i | 0 <= i < |events + [Arrives(d)]| && (events + [Arrives(d)])[i].PeerSigns?
      ensures Honest(peer, (events + [Arrives(d)])[i].s)
    {
      assert (events + [Arrives(d)])[i] == events[i];
    }
  }

  lemma SigningIsHonest(from: Endpoint, to: Endpoint, sent: seq<Message>)
    requires DistinctNonces(sent)
    ensures HonestRun(to, from, GenuineEvents(from, sent, []))
  {
    var events := GenuineEvents(from, sent, []);
    forall i | 0 <= i < |events|
      ensures Honest(from, events[i].s)
    {
      SignedIsHonest(from, sent[i]);
    }
  }

  /** Every delivery of genuine messages, in any order and with any repeats, is a run on an honest
      channel. */
  lemma {:induction false} GenuineRunIsHonest(from: Endpoint, to: Endpoint, sent: seq<Message>, hops: seq<Hop>)
    requires DistinctNonces(sent) && forall k :: 0 <= k < |hops| ==> hops[k].index < |sent|
    ensures HonestRun(to, from, GenuineEvents(from, sent, hops))
  {
    if hops == [] {
      SigningIsHonest(from, to, sent);
    } else {
      var before, hop := hops[..|hops| - 1], hops[|hops| - 1];
      var signed := SignedOf(from, sent[hop.index]);
      GenuineRunIsHonest(from, to, sent, before);
      SigningComesFirst(from, sent, before, hop.index);
      HonestRunExtends(to, from, GenuineEvents(from, sent, before), Delivery(signed.env, hop.t1, hop.t2), hop.index);
    }
  }

  /** Its receiver is the one that ExactDelivery describes. */
  lemma {:induction false} GenuineRunDelivers(from: Endpoint, to: Endpoint, sent: seq<Message>, hops: seq<Hop>)
    requires DistinctNonces(sent) && InWindow(to.windowSeconds, sent, hops)
    ensures After(to, GenuineEvents(from, sent, hops)).receiver == Carry(from, to, sent, hops)
  {
    var events := GenuineEvents(from, sent, hops);
    if hops == [] {
      NothingArrived(to, events);
    } else {
      GenuineRunDelivers(from, to, sent, hops[..|hops| - 1]);
      assert events[..|events| - 1] == GenuineEvents(from, sent, hops[..|hops| - 1]);
    }
  }

  /** The whole channel, both ways: handshake, then exact delivery in each direction. */
  lemma HonestSessionDelivers(p: Primitives, agentId: string, projects: seq<string>, agent: Party, forwarder: Party,
                              sent: seq<Message>, hops: seq<Hop>)
    requires Lawful(p) && OwnKeys(p, agent) && OwnKeys(p, forwarder)
    requires DistinctNonces(sent) && InWindow(WINDOW_SECONDS, sent, hops)
    ensures var f := ForwarderHandshake(p, Some(AgentInit(p, agentId, projects, agent)), forwarder);
            f.session.Ok? && f.reply.Sent? && AgentFinish(p, f.reply.ack, agent).Some?
            && var fwd, agt := f.session.value.1, AgentFinish(p, f.reply.ack, agent).value;
               && Matches(sent, FirstVisits(hops), Carry(agt, fwd, sent, hops))
               && Matches(sent, FirstVisits(hops), Carry(fwd, agt, sent, hops))
  {
    HonestHandshake(p, agentId, projects, agent, forwarder);
    var f := ForwarderHandshake(p, Some(AgentInit(p, agentId, projects, agent)), forwarder);
    var fwd, agt := f.session.value.1, AgentFinish(p, f.reply.ack, agent).value;
    ExactDelivery(agt, fwd, sent, hops);
    ExactDelivery(fwd, agt, sent, hops);
  }

  const TOY_END := Endpoint(TOY, ZERO_KEY, "k", "k", WINDOW_SECONDS)

  /** All that InjectiveAgreement assumes can hold at once, on a run that accepts a message. */
  lemma AssumptionsAreMet() returns (events: seq<Event>)
    ensures Session(TOY_END, TOY_END) && HonestRun(TOY_END, TOY_END, events)
    ensures |After(TOY_END, events).receiver.accepted| == 1
  {
    LawsAreConsistent();
    var bytes: Bytes := seq(16, i => 0);
    var sent := [Message(HEARTBEAT, [], Draw(bytes, 0, bytes, seq(IV_SIZE, i => 0), 0))];
    var hops := [Hop(0, 0, 0)];
    events := GenuineEvents(TOY_END, sent, hops);
    GenuineRunIsHonest(TOY_END, TOY_END, sent, hops);
    GenuineRunDelivers(TOY_END, TOY_END, sent, hops);
    ExactDelivery(TOY_END, TOY_END, sent, hops);
    assert hops[..0] == [];
    assert FirstVisits(hops) == [0];
  }
}
