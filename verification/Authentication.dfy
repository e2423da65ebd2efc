/** What each end of the handshake demands before it opens a session, and what a session therefore says
    about the other end (forwarder/app/ws/agent_handler.py, agent/ws_client/src/ws_client.cpp). */
module Authentication {
  import opened Common
  import opened Envelope
  import opened Primitives
  import opened Codec
  import opened Handshake
  import B64 = Base64

  // ---- The forwarder ----------------------------------------------------------------------------

  /** Every required member is there, and the type is right. */
  predicate Complete(raw: Option<InitJson>) {
    && raw.Some? && raw.value.agentId.Some? && raw.value.projects.Some? && raw.value.ecdhPem.Some?
    && raw.value.ecdsaPem.Some? && raw.value.signature.Some? && raw.value.jsonType == Some("HANDSHAKE_INIT")
  }

  /** The signature is one of the offered key on "agent_id|ecdh_pub_pem|ecdsa_pub_pem". */
  predicate InitSigned(p: Primitives, j: InitJson)
    requires Complete(Some(j))
  {
    var text := j.agentId.value + "|" + j.ecdhPem.value + "|" + j.ecdsaPem.value;
    B64.Decode(j.signature.value).Some? && p.verify(j.ecdsaPem.value, text, B64.Decode(j.signature.value).value)
  }

  predicate Derives(p: Primitives, self: Party, ecdhPem: string) {
    p.derive(self.ecdhSecret, ecdhPem).Some? && |p.derive(self.ecdhSecret, ecdhPem).value| == 32
  }

  lemma TextsAre(agentId: string, ecdhPem: string, ecdsaPem: string)
    ensures InitText(agentId, ecdhPem, ecdsaPem) == agentId + "|" + ecdhPem + "|" + ecdsaPem
    ensures AckText(ecdhPem, ecdsaPem) == ecdhPem + "|" + ecdsaPem
  {
    JoinSnoc([ecdhPem], ecdsaPem);
    JoinSnoc([agentId], ecdhPem);
    JoinSnoc([agentId, ecdhPem], ecdsaPem);
    assert [ecdhPem] + [ecdsaPem] == [ecdhPem, ecdsaPem] && [agentId] + [ecdhPem] == [agentId, ecdhPem];
    assert [agentId, ecdhPem] + [ecdsaPem] == [agentId, ecdhPem, ecdsaPem];
  }

  /** A session is opened exactly for a complete init whose key loads and signed it, when a key of 32 bytes
      comes of the agreement; its peer is the key that signed. */
  lemma SessionExactly(p: Primitives, raw: Option<InitJson>, self: Party)
    ensures var session := ForwarderHandshake(p, raw, self).session;
            && (session.Ok? <==>
                  && Complete(raw) && p.loads(raw.value.ecdsaPem.value) && InitSigned(p, raw.value)
                  && Derives(p, self, raw.value.ecdhPem.value))
            && (session.Ok? ==>
                  var j := raw.value;
                  && session.value.0 == Init(j.agentId.value, j.projects.value, j.ecdhPem.value, j.ecdsaPem.value,
                                             j.signature.value)
                  && session.value.1 == Endpoint(p, p.derive(self.ecdhSecret, j.ecdhPem.value).value, self.privateKey,
                                                 j.ecdsaPem.value, 300))
  {
    if Complete(raw) {
      TextsAre(raw.value.agentId.value, raw.value.ecdhPem.value, raw.value.ecdsaPem.value);
    }
  }

  /** The init can be judged: its key loads and its signature is base64. */
  predicate Judged(p: Primitives, raw: Option<InitJson>) {
    Complete(raw) && p.loads(raw.value.ecdsaPem.value) && B64.Decode(raw.value.signature.value).Some?
  }

  /** ERROR is answered exactly to a judged init that its key did not sign, and OK, with the forwarder's own
      keys and its signature on them, exactly to one that it did sign and whose ECDH key is readable;
      otherwise there is no answer. */
  lemma ReplyExactly(p: Primitives, raw: Option<InitJson>, self: Party)
    ensures var reply := ForwarderHandshake(p, raw, self).reply;
            var ecdhPem := p.ecdhPem(self.ecdhSecret);
            var signature := p.sign(self.privateKey, ecdhPem + "|" + self.publicPem, self.coin);
            && (reply.Sent? && reply.ack.status == "ERROR" <==> Judged(p, raw) && !InitSigned(p, raw.value))
            && (reply.Sent? && reply.ack.status == "OK" <==>
                  && Judged(p, raw) && InitSigned(p, raw.value)
                  && p.derive(self.ecdhSecret, raw.value.ecdhPem.value).Some?)
            && (reply.Sent? ==>
                  || reply.ack == AckJson("ERROR", Some("Signature verification failed"), None, None, None)
                  || reply.ack == AckJson("OK", None, Some(ecdhPem), Some(self.publicPem), Some(B64.Encode(signature))))
  {
    TextsAre("", p.ecdhPem(self.ecdhSecret), self.publicPem);
    assert "ERROR"[0] == 'E' && "OK"[0] == 'O';
    if Complete(raw) {
      TextsAre(raw.value.agentId.value, raw.value.ecdhPem.value, raw.value.ecdsaPem.value);
    }
  }

  /** The required members in the order in which they are looked for. */
  const REQUIRED := ["agent_id", "projects", "ecdh_pub_pem", "ecdsa_pub_pem", "signature"]

  function Present(j: InitJson): (r: seq<bool>)
    ensures |r| == |REQUIRED|
  {
    [j.agentId.Some?, j.projects.Some?, j.ecdhPem.Some?, j.ecdsaPem.Some?, j.signature.Some?]
  }

  predicate AllPresent(j: InitJson) {
    forall k :: 0 <= k < |REQUIRED| ==> Present(j)[k]
  }

  /** Member i is the first one that is missing. */
  predicate FirstMissing(j: InitJson, i: nat) {
    i < |REQUIRED| && !Present(j)[i] && forall k :: 0 <= k < i ==> Present(j)[k]
  }

  /** Each refusal, exactly. */
  lemma RefusedExactly(p: Primitives, raw: Option<InitJson>, self: Party)
    ensures var session := ForwarderHandshake(p, raw, self).session;
            && (session == Err(InvalidJson) <==> raw == None)
            && (forall i: nat :: raw.Some? && FirstMissing(raw.value, i) ==> session == Err(MissingField(REQUIRED[i])))
            && (session == Err(WrongType) <==>
                  raw.Some? && AllPresent(raw.value) && raw.value.jsonType != Some("HANDSHAKE_INIT"))
            && (session == Err(InvalidBase64) <==>
                  && Complete(raw) && p.loads(raw.value.ecdsaPem.value)
                  && B64.Decode(raw.value.signature.value).None?)
            && (session == Err(SignatureFailed) <==> Judged(p, raw) && !InitSigned(p, raw.value))
            && (session == Err(UnreadableKey) <==>
                  && Complete(raw)
                  && (!p.loads(raw.value.ecdsaPem.value)
                      || (InitSigned(p, raw.value) && p.derive(self.ecdhSecret, raw.value.ecdhPem.value).None?)))
  {
    if Complete(raw) {
      TextsAre(raw.value.agentId.value, raw.value.ecdhPem.value, raw.value.ecdsaPem.value);
    }
    if raw.Some? {
      var present := Present(raw.value);
      assert AllPresent(raw.value) ==> present[0] && present[1] && present[2] && present[3] && present[4];
      forall i: nat | FirstMissing(raw.value, i)
        ensures ForwarderHandshake(p, raw, self).session == Err(MissingField(REQUIRED[i]))
      {
        assert forall k :: 0 <= k < i ==> present[k];
        assert i == 0 || i == 1 || i == 2 || i == 3 || i == 4;
        assert i > 0 ==> present[0];
        assert i > 1 ==> present[1];
        assert i > 2 ==> present[2];
        assert i > 3 ==> present[3];
      }
    }
  }

  // ---- The agent ----------------------------------------------------------------------------------

  predicate AckComplete(ack: AckJson) {
    ack.ecdhPem.Some? && ack.ecdsaPem.Some? && ack.signature.Some? && ack.status == "OK"
  }

  /** The signature is one of the offered key on "ecdh_pub_pem|ecdsa_pub_pem". */
  predicate AckSigned(p: Primitives, ack: AckJson)
    requires AckComplete(ack)
  {
    var signature := B64.Decode(ack.signature.value);
    signature.Some? && p.verify(ack.ecdsaPem.value, ack.ecdhPem.value + "|" + ack.ecdsaPem.value, signature.value)
  }

  lemma AgentSessionExactly(p: Primitives, ack: AckJson, self: Party)
    ensures var session := AgentFinish(p, ack, self);
            && (session.Some? <==>
                  && AckComplete(ack) && p.loads(ack.ecdsaPem.value) && AckSigned(p, ack)
                  && Derives(p, self, ack.ecdhPem.value))
            && (session.Some? ==>
                  session.value == Endpoint(p, p.derive(self.ecdhSecret, ack.ecdhPem.value).value, self.privateKey,
                                            ack.ecdsaPem.value, 300))
  {
    if AckComplete(ack) {
      TextsAre("", ack.ecdhPem.value, ack.ecdsaPem.value);
    }
  }

  // ---- Authentication over runs ------------------------------------------------------------------

  /** What the owner of a key signs in handshakes. */
  datatype Hello = SaysInit(agentId: string, ecdhPem: string) | SaysAck(ecdhPem: string)

  function TextOf(pem: string, hello: Hello): string {
    match hello
    case SaysInit(agentId, ecdhPem) => agentId + "|" + ecdhPem + "|" + pem
    case SaysAck(ecdhPem) => ecdhPem + "|" + pem
  }

  datatype Moment =
    | Signs(pem: string, hello: Hello)
    | AtForwarder(raw: Option<InitJson>, self: Party)
    | AtAgent(ack: AckJson, self: Party)

  /** The owner of `pem` signed this text before moment j. */
  ghost predicate SignedBefore(moments: seq<Moment>, j: nat, pem: string, text: string) {
    exists i :: 0 <= i < j && i < |moments| && moments[i].Signs? && moments[i].pem == pem
                && TextOf(pem, moments[i].hello) == text
  }

  /** Signatures of the owned keys verify only on texts that their owners signed before. */
  ghost predicate Unforged(p: Primitives, owned: set<string>, moments: seq<Moment>) {
    && (forall j :: 0 <= j < |moments| && moments[j].AtForwarder? && Complete(moments[j].raw)
                    && moments[j].raw.value.ecdsaPem.value in owned && InitSigned(p, moments[j].raw.value) ==>
          var m := moments[j].raw.value;
          SignedBefore(moments, j, m.ecdsaPem.value,
                       m.agentId.value + "|" + m.ecdhPem.value + "|" + m.ecdsaPem.value))
    && (forall j :: 0 <= j < |moments| && moments[j].AtAgent? && AckComplete(moments[j].ack)
                    && moments[j].ack.ecdsaPem.value in owned && AckSigned(p, moments[j].ack) ==>
          var m := moments[j].ack;
          SignedBefore(moments, j, m.ecdsaPem.value, m.ecdhPem.value + "|" + m.ecdsaPem.value))
  }

  /** Key texts hold no separator. */
  predicate PlainKeys(moments: seq<Moment>) {
    forall i :: 0 <= i < |moments| && moments[i].Signs? ==>
      '|' !in moments[i].pem && '|' !in moments[i].hello.ecdhPem
  }

  lemma DropEnd(a: string, b: string, end: string)
    requires a + end == b + end
    ensures a == b
  {
    assert |a| == |b|;
    assert a == (a + end)[..|a|] && b == (b + end)[..|b|];
  }

  lemma BarsAround(a: string, e: string)
    ensures |Split(a + "|" + e)| == |Split(a)| + |Split(e)|
  {
    SplitAtBar(a, e);
  }

  /** An agent id and a key before one and the same pair: the same pair, if the signed id has no
      separator. */
  lemma SamePair(a: string, e: string, a': string, e': string)
    requires a + "|" + e == a' + "|" + e' && '|' !in e' && '|' !in a'
    ensures a == a' && e == e'
  {
    SplitAtBar(a, e);
    SplitAtBar(a', e');
    SplitSegments(a');
    SplitSegments(e');
    SplitSegments(a);
    SplitSegments(e);
    assert Split(a) + Split(e) == [a'] + [e'];
    assert |Split(a)| == 1 && |Split(e)| == 1;
    assert (Split(a) + Split(e))[0] == a && (Split(a) + Split(e))[1] == e;
  }

  /** What a signed text says when it is that of an init. */
  lemma TextOfInit(pem: string, hello: Hello, agentId: string, ecdhPem: string)
    requires '|' !in hello.ecdhPem && TextOf(pem, hello) == agentId + "|" + ecdhPem + "|" + pem
    ensures hello.SaysInit? && hello.agentId + "|" + hello.ecdhPem == agentId + "|" + ecdhPem
    ensures '|' !in hello.agentId ==> hello == SaysInit(agentId, ecdhPem)
  {
    var pair, end := agentId + "|" + ecdhPem, "|" + pem;
    assert agentId + "|" + ecdhPem + "|" + pem == pair + end && pair[|agentId|] == '|';
    match hello
    case SaysAck(e) =>
      assert e + "|" + pem == e + end;
      DropEnd(e, pair, end);
    case SaysInit(a, e) =>
      assert a + "|" + e + "|" + pem == (a + "|" + e) + end;
      DropEnd(a + "|" + e, pair, end);
      if '|' !in a {
        SamePair(agentId, ecdhPem, a, e);
      }
  }

  /** Whom a session is with: the forwarder opens a session under an owned key only after its owner signed
      an init whose id and ECDH key join to those of the session, and they are those of the session if
      the signed id has no separator. */
  lemma ForwarderAuthenticates(p: Primitives, owned: set<string>, moments: seq<Moment>, j: nat) returns (i: nat)
    requires Unforged(p, owned, moments) && PlainKeys(moments)
    requires j < |moments| && moments[j].AtForwarder?
    requires ForwarderHandshake(p, moments[j].raw, moments[j].self).session.Ok?
    requires ForwarderHandshake(p, moments[j].raw, moments[j].self).session.value.0.ecdsaPem in owned
    ensures var init := ForwarderHandshake(p, moments[j].raw, moments[j].self).session.value.0;
            && i < j && moments[i].Signs? && moments[i].pem == init.ecdsaPem && moments[i].hello.SaysInit?
            && moments[i].hello.agentId + "|" + moments[i].hello.ecdhPem == init.agentId + "|" + init.ecdhPem
            && ('|' !in moments[i].hello.agentId ==> moments[i].hello == SaysInit(init.agentId, init.ecdhPem))
  {
    SessionExactly(p, moments[j].raw, moments[j].self);
    var m := moments[j].raw.value;
    var text := m.agentId.value + "|" + m.ecdhPem.value + "|" + m.ecdsaPem.value;
    assert SignedBefore(moments, j, m.ecdsaPem.value, text);
    i :| 0 <= i < j && i < |moments| && moments[i].Signs? && moments[i].pem == m.ecdsaPem.value
         && TextOf(m.ecdsaPem.value, moments[i].hello) == text;
    TextOfInit(m.ecdsaPem.value, moments[i].hello, m.agentId.value, m.ecdhPem.value);
  }

  /** The id is authenticated exactly when it has no separator: only then does the signed text belong to no
      other pair of id and key. */
  lemma IdAuthenticatedExactly(agentId: string, ecdhPem: string, pem: string)
    requires '|' !in ecdhPem
    ensures (forall a: string, e: string :: a + "|" + e + "|" + pem == agentId + "|" + ecdhPem + "|" + pem ==>
               a == agentId && e == ecdhPem)
       <==> '|' !in agentId
  {
    if '|' in agentId {
      var k :| 0 <= k < |agentId| && agentId[k] == '|';
      var a, e := agentId[..k], agentId[k + 1..] + "|" + ecdhPem;
      var x := agentId[k + 1..];
      assert agentId == a + "|" + x;
      assert a + "|" + (x + "|" + ecdhPem) == (a + "|" + x) + "|" + ecdhPem;
      assert a + "|" + e + "|" + pem == agentId + "|" + ecdhPem + "|" + pem;
      assert |a| < |agentId|;
    } else {
      forall a: string, e: string | a + "|" + e + "|" + pem == agentId + "|" + ecdhPem + "|" + pem
        ensures a == agentId && e == ecdhPem
      {
        assert a + "|" + e + "|" + pem == (a + "|" + e) + ("|" + pem);
        assert agentId + "|" + ecdhPem + "|" + pem == (agentId + "|" + ecdhPem) + ("|" + pem);
        DropEnd(a + "|" + e, agentId + "|" + ecdhPem, "|" + pem);
        SamePair(a, e, agentId, ecdhPem);
      }
    }
  }

  /** The agent likewise: an owned key's owner signed a reply with the session's ECDH key, or else an init
      of its own which that very text joins to. */
  lemma AgentAuthenticates(p: Primitives, owned: set<string>, moments: seq<Moment>, j: nat) returns (i: nat)
    requires Unforged(p, owned, moments)
    requires j < |moments| && moments[j].AtAgent? && AgentFinish(p, moments[j].ack, moments[j].self).Some?
    requires AgentFinish(p, moments[j].ack, moments[j].self).value.peerPem in owned
    ensures var ack := moments[j].ack;
            && AckComplete(ack) && i < j && moments[i].Signs? && moments[i].pem == ack.ecdsaPem.value
            && match moments[i].hello
               case SaysAck(ecdhPem) => ecdhPem == ack.ecdhPem.value
               case SaysInit(agentId, ecdhPem) => agentId + "|" + ecdhPem == ack.ecdhPem.value
  {
    AgentSessionExactly(p, moments[j].ack, moments[j].self);
    var pem, ecdhPem := moments[j].ack.ecdsaPem.value, moments[j].ack.ecdhPem.value;
    assert SignedBefore(moments, j, pem, ecdhPem + "|" + pem);
    i :| 0 <= i < j && i < |moments| && moments[i].Signs? && moments[i].pem == pem
         && TextOf(pem, moments[i].hello) == ecdhPem + "|" + pem;
    assert ecdhPem + "|" + pem == ecdhPem + ("|" + pem);
    match moments[i].hello
    case SaysAck(e) =>
      assert e + "|" + pem == e + ("|" + pem);
      DropEnd(e, ecdhPem, "|" + pem);
    case SaysInit(agentId, e) =>
      assert agentId + "|" + e + "|" + pem == (agentId + "|" + e) + ("|" + pem);
      DropEnd(agentId + "|" + e, ecdhPem, "|" + pem);
  }
}
