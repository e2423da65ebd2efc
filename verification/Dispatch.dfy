/** The receive loops of both ends of an established session: handle_agent_connection in
    forwarder/app/ws/agent_handler.py and WsClient::io_loop in agent/ws_client/src/ws_client.cpp. */
module Dispatch {
  import opened Common
  import opened Envelope
  import opened Primitives
  import opened Codec
  import B64 = Base64
  import RG = ReplayGuard
  import Utf8

  datatype Side = Forwarder | Agent

  datatype Ack = HeartbeatAck | TriggerAck(msgId: string)

  /** What a loop does to the world: it attempts an ACK, or it calls the user's callback. */
  datatype Effect = SendAck(ack: Ack) | Callback(mtype: MessageType, plaintext: Bytes)

  /** One text frame: an envelope with the clock reads of its decryption, or text that is not one. */
  datatype Inbound = Envelope(d: Delivery) | Garbage

  datatype Stop = Running | NotAnEnvelope | NotBase64 | UnknownType

  datatype Served = Served(receiver: Receiver, effects: seq<Effect>, stop: Stop)

  const NOTHING_SERVED := Served(Receiver(map[], []), [], Running)

  function Acknowledged(env: CryptoEnvelope): seq<Effect> {
    match Parse(env.mtype)
    case Some(HEARTBEAT) => [SendAck(HeartbeatAck)]
    case Some(BUILD_TRIGGER) => [SendAck(TriggerAck(env.msgId))]
    case _ => []
  }

  predicate IsText(data: Bytes) {
    Utf8.Decode(data).Some?
  }

  /** Only the forwarder decodes UTF-8 before its callback; a message that does not decode is logged and
      dropped. */
  function Called(side: Side, r: Receipt): seq<Effect> {
    match Parse(r.env.mtype)
    case None => []
    case Some(HEARTBEAT) => []
    case Some(ACK) => []
    case Some(mtype) => if side == Forwarder && !IsText(r.plaintext) then [] else [Callback(mtype, r.plaintext)]
  }

  function Dispatched(side: Side, r: Receipt): seq<Effect> {
    Acknowledged(r.env) + Called(side, r)
  }

  /** One turn of the loop. An accepted message of unknown type is skipped by the forwarder and ends
      the agent; a field that is not base64 ends the forwarder's loop only. */
  function Serve1(side: Side, ep: Endpoint, s: Served, input: Inbound): Served {
    match input
    case Garbage => s.(stop := NotAnEnvelope)
    case Envelope(d) =>
      match Verdict(ep, s.receiver.cache, d.env, d.t1)
      case Raised => if side == Forwarder then s.(stop := NotBase64) else s
      case Rejected(_) => s
      case Accepted(plaintext) =>
        Served(Receive(ep, s.receiver, d), s.effects + Dispatched(side, Receipt(d.env, plaintext)),
               if side == Agent && Parse(d.env.mtype).None? then UnknownType else Running)
  }

  function Serve(side: Side, ep: Endpoint, inbox: seq<Inbound>): Served {
    if inbox == [] then NOTHING_SERVED
    else
      var s := Serve(side, ep, inbox[..|inbox| - 1]);
      if s.stop != Running then s else Serve1(side, ep, s, inbox[|inbox| - 1])
  }

  lemma {:induction false} StoppedForGood(side: Side, ep: Endpoint, inbox: seq<Inbound>, n: nat)
    requires n <= |inbox| && Serve(side, ep, inbox[..n]).stop != Running
    ensures Serve(side, ep, inbox) == Serve(side, ep, inbox[..n])
  {
    if n < |inbox| {
      var before := inbox[..|inbox| - 1];
      assert before[..n] == inbox[..n];
      StoppedForGood(side, ep, before, n);
    } else {
      assert inbox[..n] == inbox;
    }
  }

  /** Answers one accepted message. */
  method React(side: Side, env: CryptoEnvelope, plaintext: Bytes)
      returns (effects: seq<Effect>, known: bool)
    ensures effects == Dispatched(side, Receipt(env, plaintext))
    ensures known <==> Parse(env.mtype).Some?
  {
    effects, known := [], true;
    match Parse(env.mtype)
    case None =>
      known := false;
    case Some(mtype) =>
      if mtype == HEARTBEAT {
        effects := [SendAck(HeartbeatAck)];
      } else if mtype != ACK {
        if mtype == BUILD_TRIGGER {
          effects := [SendAck(TriggerAck(env.msgId))];
        }
        if side == Agent || IsText(plaintext) {
          effects := effects + [Callback(mtype, plaintext)];
        }
      }
  }

  /** Reads frames until one of them ends the loop. */
  method IoLoop(side: Side, codec: CryptoCodec, inbox: seq<Inbound>)
      returns (effects: seq<Effect>, stop: Stop)
    requires codec.guard.windowSeconds == codec.ep.windowSeconds && codec.guard.nonces == map[]
    modifies codec.guard
    ensures var s := Serve(side, codec.ep, inbox);
            effects == s.effects && stop == s.stop && codec.guard.nonces == s.receiver.cache
  {
    effects, stop := [], Running;
    for i := 0 to |inbox|
      invariant codec.guard.windowSeconds == codec.ep.windowSeconds && stop == Running
      invariant var s := Serve(side, codec.ep, inbox[..i]);
                effects == s.effects && stop == s.stop && codec.guard.nonces == s.receiver.cache
    {
      assert inbox[..i + 1][..i] == inbox[..i];
      if inbox[i].Garbage? {
        stop := NotAnEnvelope;
        StoppedForGood(side, codec.ep, inbox, i + 1);
        return;
      }
      var d := inbox[i].d;
      var result := codec.Decrypt(d.env, d.t1, d.t2);
      if result.Raised? && side == Forwarder {
        stop := NotBase64;
        StoppedForGood(side, codec.ep, inbox, i + 1);
        return;
      }
      if result.Accepted? {
        var more, known := React(side, d.env, result.plaintext);
        effects := effects + more;
        if side == Agent && !known {
          stop := UnknownType;
          StoppedForGood(side, codec.ep, inbox, i + 1);
          return;
        }
      }
    }
    assert inbox[..|inbox|] == inbox;
  }

  // ---- What ends a loop ---------------------------------------------------------------------------

  predicate KnownName(mtype: string) {
    || mtype == "BUILD_TRIGGER" || mtype == "BUILD_RESULT" || mtype == "SENSITIVE_REVIEW_REQ"
    || mtype == "SECOND_REVIEW_RESULT" || mtype == "HEARTBEAT" || mtype == "ACK"
  }

  /** A fresh message which the peer signed. */
  predicate FreshAndSigned(ep: Endpoint, cache: RG.Cache, d: Delivery) {
    Timely(ep, d.env, d.t1) && d.env.nonce !in cache && SignedByPeer(ep, d.env)
  }

  /** Why a frame ends the loop, if it does: it is no envelope; for the forwarder, a field that has to be
      decoded is not base64; for the agent, an acceptable message has an unknown type. */
  function Ending(side: Side, ep: Endpoint, cache: RG.Cache, input: Inbound): Stop {
    match input
    case Garbage => NotAnEnvelope
    case Envelope(d) =>
      var isNew := Timely(ep, d.env, d.t1) && d.env.nonce !in cache;
      if side == Forwarder && isNew && B64.Decode(d.env.signature).None? then NotBase64
      else if side == Forwarder && FreshAndSigned(ep, cache, d) && !Readable(d.env) then NotBase64
      else if side == Agent && FreshAndSigned(ep, cache, d) && Readable(d.env) && Unsealed(ep, d.env).Some?
              && !KnownName(d.env.mtype) then UnknownType
      else Running
  }

  lemma KnownExactly(mtype: string)
    ensures Parse(mtype).Some? <==> KnownName(mtype)
  {
  }

  /** Which frame ends which loop, exactly. Every rejected message leaves both running and changes nothing; so
      does, for the forwarder, an accepted one of unknown type but for its receipt. */
  lemma TurnEndsExactly(side: Side, ep: Endpoint, s: Served, input: Inbound)
    requires s.stop == Running
    ensures Serve1(side, ep, s, input).stop == Ending(side, ep, s.receiver.cache, input)
    ensures input.Envelope? && !Verdict(ep, s.receiver.cache, input.d.env, input.d.t1).Accepted? ==>
              Serve1(side, ep, s, input).(stop := Running) == s
    ensures input.Envelope? && !KnownName(input.d.env.mtype) ==> Serve1(side, ep, s, input).effects == s.effects
  {
    if input.Envelope? {
      VerdictExactly(ep, s.receiver.cache, input.d.env, input.d.t1);
      KnownExactly(input.d.env.mtype);
    }
  }

  /** No frame of the inbox ends the loop, given what was received before it. */
  predicate NoneEnds(side: Side, ep: Endpoint, inbox: seq<Inbound>) {
    inbox == [] ||
      (var before, last := inbox[..|inbox| - 1], inbox[|inbox| - 1];
       && NoneEnds(side, ep, before)
       && Ending(side, ep, Serve(side, ep, before).receiver.cache, last) == Running)
  }

  /** A loop runs on if and only if no frame so far ended it. */
  lemma {:induction false} RunsOnExactly(side: Side, ep: Endpoint, inbox: seq<Inbound>)
    ensures Serve(side, ep, inbox).stop == Running <==> NoneEnds(side, ep, inbox)
  {
    if inbox != [] {
      var before := inbox[..|inbox| - 1];
      RunsOnExactly(side, ep, before);
      if Serve(side, ep, before).stop == Running {
        TurnEndsExactly(side, ep, Serve(side, ep, before), inbox[|inbox| - 1]);
      }
    }
  }

  // ---- What the callback sees and what is acknowledged -------------------------------------------

  function Callbacks(effects: seq<Effect>): seq<(MessageType, Bytes)> {
    if effects == [] then []
    else
      var before := Callbacks(effects[..|effects| - 1]);
      match effects[|effects| - 1]
      case Callback(mtype, plaintext) => before + [(mtype, plaintext)]
      case SendAck(_) => before
  }

  function Acks(effects: seq<Effect>): seq<Ack> {
    if effects == [] then []
    else
      var before := Acks(effects[..|effects| - 1]);
      match effects[|effects| - 1]
      case Callback(_, _) => before
      case SendAck(ack) => before + [ack]
  }

  predicate Business(side: Side, r: Receipt) {
    && Parse(r.env.mtype) !in [None, Some(ACK), Some(HEARTBEAT)]
    && (side == Forwarder ==> IsText(r.plaintext))
  }

  /** The accepted business messages, in order. */
  function BusinessOf(side: Side, accepted: seq<Receipt>): seq<(MessageType, Bytes)> {
    if accepted == [] then []
    else
      var last := accepted[|accepted| - 1];
      BusinessOf(side, accepted[..|accepted| - 1])
      + if Business(side, last) then [(Parse(last.env.mtype).value, last.plaintext)] else []
  }

  /** One entry for each accepted HEARTBEAT or BUILD_TRIGGER, in order. */
  function Due(accepted: seq<Receipt>): seq<Ack> {
    if accepted == [] then []
    else
      var env := accepted[|accepted| - 1].env;
      Due(accepted[..|accepted| - 1])
      + if env.mtype == "HEARTBEAT" then [HeartbeatAck]
        else if env.mtype == "BUILD_TRIGGER" then [TriggerAck(env.msgId)]
        else []
  }

  lemma {:induction false} CallbacksAppend(a: seq<Effect>, b: seq<Effect>)
    ensures Callbacks(a + b) == Callbacks(a) + Callbacks(b)
  {
    if b == [] {
      assert a + b == a;
    } else {
      var before := b[..|b| - 1];
      CallbacksAppend(a, before);
      assert a + b == (a + before) + [b[|b| - 1]];
      assert (a + b)[..|a + b| - 1] == a + before;
    }
  }

  lemma {:induction false} AcksAppend(a: seq<Effect>, b: seq<Effect>)
    ensures Acks(a + b) == Acks(a) + Acks(b)
  {
    if b == [] {
      assert a + b == a;
    } else {
      var before := b[..|b| - 1];
      AcksAppend(a, before);
      assert a + b == (a + before) + [b[|b| - 1]];
      assert (a + b)[..|a + b| - 1] == a + before;
    }
  }

  lemma EffectsAppend(a: seq<Effect>, b: seq<Effect>)
    ensures Callbacks(a + b) == Callbacks(a) + Callbacks(b) && Acks(a + b) == Acks(a) + Acks(b)
  {
    CallbacksAppend(a, b);
    AcksAppend(a, b);
  }

  lemma OneEffect(effect: Effect)
    ensures Callbacks([effect]) == if effect.Callback? then [(effect.mtype, effect.plaintext)] else []
    ensures Acks([effect]) == if effect.SendAck? then [effect.ack] else []
  {
    assert [effect][..0] == [];
  }

  lemma AcknowledgedShape(env: CryptoEnvelope)
    ensures Callbacks(Acknowledged(env)) == []
    ensures Acks(Acknowledged(env))
         == if env.mtype == "HEARTBEAT" then [HeartbeatAck]
            else if env.mtype == "BUILD_TRIGGER" then [TriggerAck(env.msgId)] else []
  {
    ParseExactlyInvertsToString(env.mtype, HEARTBEAT);
    ParseExactlyInvertsToString(env.mtype, BUILD_TRIGGER);
    if Acknowledged(env) != [] {
      OneEffect(Acknowledged(env)[0]);
    }
  }

  lemma CalledShape(side: Side, r: Receipt)
    ensures Acks(Called(side, r)) == []
    ensures Callbacks(Called(side, r))
         == if Business(side, r) then [(Parse(r.env.mtype).value, r.plaintext)] else []
  {
    if Called(side, r) != [] {
      OneEffect(Called(side, r)[0]);
    }
  }

  lemma DispatchedShape(side: Side, r: Receipt)
    ensures Callbacks(Dispatched(side, r))
         == if Business(side, r) then [(Parse(r.env.mtype).value, r.plaintext)] else []
    ensures Acks(Dispatched(side, r))
         == if r.env.mtype == "HEARTBEAT" then [HeartbeatAck]
            else if r.env.mtype == "BUILD_TRIGGER" then [TriggerAck(r.env.msgId)] else []
  {
    EffectsAppend(Acknowledged(r.env), Called(side, r));
    AcknowledgedShape(r.env);
    CalledShape(side, r);
  }

  ghost predicate Accounted(side: Side, s: Served) {
    && Callbacks(s.effects) == BusinessOf(side, s.receiver.accepted)
    && Acks(s.effects) == Due(s.receiver.accepted)
  }

  lemma Serve1Accounts(side: Side, ep: Endpoint, s: Served, input: Inbound)
    requires Accounted(side, s)
    ensures Accounted(side, Serve1(side, ep, s, input))
  {
    if input.Envelope? && Verdict(ep, s.receiver.cache, input.d.env, input.d.t1).Accepted? {
      var r := Receipt(input.d.env, Verdict(ep, s.receiver.cache, input.d.env, input.d.t1).plaintext);
      var accepted := s.receiver.accepted + [r];
      assert accepted[..|accepted| - 1] == s.receiver.accepted;
      assert Receive(ep, s.receiver, input.d).accepted == accepted;
      EffectsAppend(s.effects, Dispatched(side, r));
      DispatchedShape(side, r);
    }
  }

  /** The callback sees exactly the accepted messages that are neither ACK nor HEARTBEAT, in order, and
      there is exactly one ACK for each accepted HEARTBEAT or BUILD_TRIGGER, in order, and no other. */
  lemma {:induction false} DispatchIsExact(side: Side, ep: Endpoint, inbox: seq<Inbound>)
    ensures Accounted(side, Serve(side, ep, inbox))
  {
    if inbox != [] {
      var before := inbox[..|inbox| - 1];
      DispatchIsExact(side, ep, before);
      Serve1Accounts(side, ep, Serve(side, ep, before), inbox[|inbox| - 1]);
    }
  }

  /** The effects of the accepted messages, one message after the other. */
  function Played(side: Side, accepted: seq<Receipt>): seq<Effect> {
    if accepted == [] then []
    else Played(side, accepted[..|accepted| - 1]) + Dispatched(side, accepted[|accepted| - 1])
  }

  lemma Serve1Plays(side: Side, ep: Endpoint, s: Served, input: Inbound)
    requires s.effects == Played(side, s.receiver.accepted)
    ensures Serve1(side, ep, s, input).effects == Played(side, Serve1(side, ep, s, input).receiver.accepted)
  {
    if input.Envelope? && Verdict(ep, s.receiver.cache, input.d.env, input.d.t1).Accepted? {
      var r := Receipt(input.d.env, Verdict(ep, s.receiver.cache, input.d.env, input.d.t1).plaintext);
      var accepted := s.receiver.accepted + [r];
      assert accepted[..|accepted| - 1] == s.receiver.accepted;
      assert Receive(ep, s.receiver, input.d).accepted == accepted;
    }
  }

  lemma {:induction false} EffectsArePlayed(side: Side, ep: Endpoint, inbox: seq<Inbound>)
    ensures Serve(side, ep, inbox).effects == Played(side, Serve(side, ep, inbox).receiver.accepted)
  {
    if inbox != [] {
      var before := inbox[..|inbox| - 1];
      EffectsArePlayed(side, ep, before);
      Serve1Plays(side, ep, Serve(side, ep, before), inbox[|inbox| - 1]);
    }
  }

  /** Effect k is the callback of the accepted message i, a BUILD_TRIGGER, and the effect before it is the
      ACK of that very message. */
  predicate CalledAfterAck(side: Side, effects: seq<Effect>, accepted: seq<Receipt>, i: int, k: int) {
    && 0 <= i < |accepted| && 0 < k < |effects| && k == |Played(side, accepted[..i])| + 1
    && Parse(accepted[i].env.mtype) == Some(BUILD_TRIGGER)
    && effects[k] == Callback(BUILD_TRIGGER, accepted[i].plaintext)
    && effects[k - 1] == SendAck(TriggerAck(accepted[i].env.msgId))
  }

  ghost predicate AckedFirst(side: Side, effects: seq<Effect>, accepted: seq<Receipt>) {
    forall k :: 0 <= k < |effects| && effects[k].Callback? && effects[k].mtype == BUILD_TRIGGER ==>
      exists i :: CalledAfterAck(side, effects, accepted, i, k)
  }

  lemma CalledEarlier(side: Side, effects: seq<Effect>, more: seq<Effect>, accepted: seq<Receipt>, r: Receipt,
                      i: int, k: int)
    requires CalledAfterAck(side, effects, accepted, i, k)
    ensures CalledAfterAck(side, effects + more, accepted + [r], i, k)
  {
    assert (accepted + [r])[..i] == accepted[..i];
  }

  lemma CalledLast(side: Side, before: seq<Receipt>, r: Receipt, k: int)
    requires |Played(side, before)| <= k < |Played(side, before) + Dispatched(side, r)|
    requires var effect := (Played(side, before) + Dispatched(side, r))[k];
             effect.Callback? && effect.mtype == BUILD_TRIGGER
    ensures CalledAfterAck(side, Played(side, before) + Dispatched(side, r), before + [r], |before|, k)
  {
    assert (before + [r])[..|before|] == before;
    assert Called(side, r) == [Callback(BUILD_TRIGGER, r.plaintext)];
    assert Acknowledged(r.env) == [SendAck(TriggerAck(r.env.msgId))];
  }

  lemma {:induction false} PlayedAcksFirst(side: Side, accepted: seq<Receipt>)
    ensures AckedFirst(side, Played(side, accepted), accepted)
  {
    if accepted != [] {
      var before, last := accepted[..|accepted| - 1], accepted[|accepted| - 1];
      var effects := Played(side, accepted);
      PlayedAcksFirst(side, before);
      assert accepted == before + [last];
      forall k | 0 <= k < |effects| && effects[k].Callback? && effects[k].mtype == BUILD_TRIGGER
        ensures exists i :: CalledAfterAck(side, effects, accepted, i, k)
      {
        if k < |Played(side, before)| {
          var i :| CalledAfterAck(side, Played(side, before), before, i, k);
          CalledEarlier(side, Played(side, before), Dispatched(side, last), before, last, i, k);
        } else {
          CalledLast(side, before, last, k);
        }
      }
    }
  }

  /** A build is acknowledged, under its own message id, before the callback hears of it. */
  lemma TriggersAreAckedFirst(side: Side, ep: Endpoint, inbox: seq<Inbound>)
    ensures var s := Serve(side, ep, inbox); AckedFirst(side, s.effects, s.receiver.accepted)
  {
    EffectsArePlayed(side, ep, inbox);
    PlayedAcksFirst(side, Serve(side, ep, inbox).receiver.accepted);
  }

  // ---- The loop on an honest channel --------------------------------------------------------------

  /** The frames of a run, in order of arrival. */
  function Arrivals(events: seq<Event>): seq<Inbound> {
    if events == [] then []
    else
      Arrivals(events[..|events| - 1])
      + match events[|events| - 1] { case Arrives(d) => [Envelope(d)] case PeerSigns(_) => [] }
  }

  lemma ArrivalsStep(events: seq<Event>)
    requires events != []
    ensures var before, last := Arrivals(events[..|events| - 1]), events[|events| - 1];
            if last.PeerSigns? then Arrivals(events) == before
            else Arrivals(events) != [] && Arrivals(events)[..|Arrivals(events)| - 1] == before
                 && Arrivals(events)[|Arrivals(events)| - 1] == Envelope(last.d)
  {
  }

  /** What an end of an honest channel has after its loop has seen a run: while the loop runs, exactly
      what its codec accepts. */
  ghost predicate ServesRun(side: Side, s: Served, w: World) {
    && (s.stop == Running ==> s.receiver == w.receiver)
    && (side == Agent ==> s.stop == Running)
    && Traceable(World(w.signed, s.receiver))
  }

  lemma TurnServesRun(side: Side, us: Endpoint, s: Served, w: World, d: Delivery)
    requires s.stop == Running && ServesRun(side, s, w)
    requires Traceable(w.(receiver := Receive(us, w.receiver, d)))
    ensures ServesRun(side, Serve1(side, us, s, Envelope(d)), w.(receiver := Receive(us, w.receiver, d)))
  {
    var next := Receive(us, w.receiver, d);
    if Verdict(us, s.receiver.cache, d.env, d.t1).Accepted? {
      var last := next.accepted[|next.accepted| - 1];
      assert last.env == d.env;
      assert HasOrigin(last, w.signed);
    }
  }

  /** On an honest channel every accepted message has a known type, whatever the network does, so the
      agent's loop never ends because of one; either loop receives what the codec accepts. */
  lemma {:induction false} LoopServesRun(side: Side, us: Endpoint, peer: Endpoint, events: seq<Event>)
    requires Session(us, peer) && HonestRun(us, peer, events)
    ensures ServesRun(side, Serve(side, us, Arrivals(events)), After(us, events))
  {
    if events != [] {
      var before, last := events[..|events| - 1], events[|events| - 1];
      HonestRunPrefix(us, peer, events);
      LoopServesRun(side, us, peer, before);
      RunIsTraceable(us, peer, events);
      ArrivalsStep(events);
      var s, w := Serve(side, us, Arrivals(before)), After(us, before);
      match last
      case PeerSigns(signed) =>
        TraceableSign(World(w.signed, s.receiver), signed);
      case Arrives(d) =>
        if s.stop == Running {
          TurnServesRun(side, us, s, w, d);
        }
    }
  }

  /** The calls name, one to one, business messages that the peer sent in this session. */
  ghost predicate Names(calls: seq<(MessageType, Bytes)>, signed: seq<Signed>, g: seq<nat>) {
    && |g| == |calls| && Distinct(g)
    && forall i :: 0 <= i < |g| ==> g[i] < |signed| && signed[g[i]].InSession?
                                    && calls[i] == (signed[g[i]].mtype, signed[g[i]].plaintext)
  }

  lemma {:induction false} SelectOrigins(side: Side, accepted: seq<Receipt>, signed: seq<Signed>,
                                         f: seq<nat>) returns (g: seq<nat>)
    requires InjectsInto(accepted, signed, f)
    ensures Names(BusinessOf(side, accepted), signed, g)
    ensures forall i :: 0 <= i < |g| ==> g[i] in f
  {
    g := [];
    if accepted != [] {
      var last := |accepted| - 1;
      g := SelectOrigins(side, accepted[..last], signed, f[..last]);
      if Business(side, accepted[last]) {
        assert Origin(accepted[last], signed[f[last]]);
        assert f[last] !in f[..last];
        g := g + [f[last]];
      }
    }
  }

  /** End to end: whatever the network does, the callback's calls map one to one into the business
      messages the peer sent in this session, types and plaintexts intact. */
  lemma CallbacksWereSent(side: Side, us: Endpoint, peer: Endpoint, events: seq<Event>)
    requires Session(us, peer) && HonestRun(us, peer, events)
    ensures exists g :: Names(Callbacks(Serve(side, us, Arrivals(events)).effects), After(us, events).signed, g)
  {
    LoopServesRun(side, us, peer, events);
    DispatchIsExact(side, us, Arrivals(events));
    var s := Serve(side, us, Arrivals(events));
    var w := World(After(us, events).signed, s.receiver);
    var f := ChooseOrigins(w);
    var g := SelectOrigins(side, w.receiver.accepted, w.signed, f);
  }
}
