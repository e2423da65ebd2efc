/** Both ends of one session and the messages between them: the automatic ACKs of
    forwarder/app/ws/agent_handler.py and agent/ws_client/src/ws_client.cpp on a network that reorders,
    loses and invents. */
module Traffic {
  import opened Common
  import opened Envelope
  import opened Primitives
  import opened Codec
  import opened Dispatch
  import B64 = Base64
  import RG = ReplayGuard
  import HS = Handshake

  /** The two codecs, and how the sides' JSON libraries print an ACK. */
  datatype Config = Config(forwarder: Endpoint, agent: Endpoint, ackText: (Side, Ack) -> Bytes)

  datatype Flight = Flight(to: Side, env: CryptoEnvelope)

  datatype System = System(forwarder: Served, agent: Served, inFlight: seq<Flight>)

  const QUIET := System(NOTHING_SERVED, NOTHING_SERVED, [])

  function Other(side: Side): Side {
    if side == Forwarder then Agent else Forwarder
  }

  function EndpointOf(cfg: Config, side: Side): Endpoint {
    if side == Forwarder then cfg.forwarder else cfg.agent
  }

  function At(sys: System, side: Side): Served {
    if side == Forwarder then sys.forwarder else sys.agent
  }

  function Without<T>(s: seq<T>, k: nat): seq<T>
    requires k < |s|
  {
    s[..k] + s[k + 1..]
  }

  /** Sends covers business messages and the forwarder's periodic HEARTBEAT. */
  datatype Step =
    | Sends(from: Side, mtype: MessageType, plaintext: Bytes, draw: Draw)
    | Delivers(k: nat, t1: int, t2: int, draw: Draw)
    | Loses(k: nat)
    | Invents(flight: Flight)

  predicate Enabled(sys: System, step: Step) {
    match step
    case Sends(_, _, _, draw) => ValidDraw(draw)
    case Delivers(k, _, _, draw) => k < |sys.inFlight| && ValidDraw(draw) && At(sys, sys.inFlight[k].to).stop == Running
    case Loses(k) => k < |sys.inFlight|
    case Invents(_) => true
  }

  function Sent(cfg: Config, from: Side, mtype: MessageType, plaintext: Bytes, draw: Draw): Flight
    requires ValidDraw(draw)
  {
    Flight(Other(from), Encrypted(EndpointOf(cfg, from), plaintext, mtype, draw))
  }

  predicate Answers(effects: seq<Effect>) {
    effects != [] && effects[0].SendAck?
  }

  function AckFlight(cfg: Config, from: Side, ack: Ack, draw: Draw): Flight
    requires ValidDraw(draw)
  {
    Sent(cfg, from, ACK, cfg.ackText(from, ack), draw)
  }

  /** What one turn of the loop sends back. */
  function Replies(cfg: Config, from: Side, effects: seq<Effect>, draw: Draw): seq<Flight>
    requires ValidDraw(draw)
  {
    if Answers(effects) then [AckFlight(cfg, from, effects[0].ack, draw)] else []
  }

  function Turn(cfg: Config, sys: System, flight: Flight, t1: int, t2: int): Served {
    Serve1(flight.to, EndpointOf(cfg, flight.to), At(sys, flight.to), Envelope(Delivery(flight.env, t1, t2)))
  }

  function Next(cfg: Config, sys: System, step: Step): System
    requires Enabled(sys, step)
  {
    match step
    case Sends(from, mtype, plaintext, draw) =>
      sys.(inFlight := sys.inFlight + [Sent(cfg, from, mtype, plaintext, draw)])
    case Delivers(k, t1, t2, draw) =>
      var flight := sys.inFlight[k];
      var before, after := At(sys, flight.to), Turn(cfg, sys, flight, t1, t2);
      TurnGrows(cfg, sys, flight, t1, t2);
      var inFlight := Without(sys.inFlight, k) + Replies(cfg, flight.to, after.effects[|before.effects|..], draw);
      if flight.to == Forwarder then System(after, sys.agent, inFlight) else System(sys.forwarder, after, inFlight)
    case Loses(k) => sys.(inFlight := Without(sys.inFlight, k))
    case Invents(flight) => sys.(inFlight := sys.inFlight + [flight])
  }

  /** Steps that are not possible when their turn comes are skipped, so every step list is a run. */
  function Run(cfg: Config, steps: seq<Step>): System {
    if steps == [] then QUIET
    else
      var sys, last := Run(cfg, steps[..|steps| - 1]), steps[|steps| - 1];
      if Enabled(sys, last) then Next(cfg, sys, last) else sys
  }

  /** A turn's effects: those of the message it accepts, if it accepts one. */
  function Fresh(cfg: Config, sys: System, flight: Flight, t1: int): seq<Effect> {
    match Verdict(EndpointOf(cfg, flight.to), At(sys, flight.to).receiver.cache, flight.env, t1)
    case Accepted(plaintext) => Dispatched(flight.to, Receipt(flight.env, plaintext))
    case _ => []
  }

  lemma TurnGrows(cfg: Config, sys: System, flight: Flight, t1: int, t2: int)
    ensures Turn(cfg, sys, flight, t1, t2).effects == At(sys, flight.to).effects + Fresh(cfg, sys, flight, t1)
  {
  }

  // ---- Automatic traffic drains --------------------------------------------------------------------

  /** Whether a message of this type is answered. */
  predicate Asks(mtype: string) {
    mtype == "HEARTBEAT" || mtype == "BUILD_TRIGGER"
  }

  function Weight(flight: Flight): nat {
    if Asks(flight.env.mtype) then 2 else 1
  }

  function Load(inFlight: seq<Flight>): nat {
    if inFlight == [] then 0 else Weight(inFlight[0]) + Load(inFlight[1..])
  }

  /** The weight that users and the network have put in. */
  function Offered(cfg: Config, steps: seq<Step>): nat {
    if steps == [] then 0
    else
      var last := steps[|steps| - 1];
      Offered(cfg, steps[..|steps| - 1])
      + match last
        case Sends(from, mtype, plaintext, draw) =>
          if ValidDraw(draw) then Weight(Sent(cfg, from, mtype, plaintext, draw)) else 0
        case Invents(flight) => Weight(flight)
        case _ => 0
  }

  function Deliveries(cfg: Config, steps: seq<Step>): nat {
    if steps == [] then 0
    else
      var before, last := steps[..|steps| - 1], steps[|steps| - 1];
      Deliveries(cfg, before) + if last.Delivers? && Enabled(Run(cfg, before), last) then 1 else 0
  }

  lemma {:induction false} LoadAppend(a: seq<Flight>, b: seq<Flight>)
    ensures Load(a + b) == Load(a) + Load(b)
  {
    if a == [] {
      assert a + b == b;
    } else {
      assert (a + b)[1..] == a[1..] + b;
      LoadAppend(a[1..], b);
    }
  }

  lemma LoadOne(flight: Flight)
    ensures Load([flight]) == Weight(flight)
  {
  }

  lemma TakenApart<T>(s: seq<T>, k: nat)
    requires k < |s|
    ensures s == s[..k] + ([s[k]] + s[k + 1..])
  {
  }

  lemma LoadAround(front: seq<Flight>, flight: Flight, rest: seq<Flight>)
    ensures Load(front + ([flight] + rest)) == Load(front + rest) + Weight(flight)
  {
    LoadAppend(front, [flight] + rest);
    LoadAppend([flight], rest);
    LoadAppend(front, rest);
    LoadOne(flight);
  }

  lemma LoadWithout(inFlight: seq<Flight>, k: nat)
    requires k < |inFlight|
    ensures Load(inFlight) == Load(Without(inFlight, k)) + Weight(inFlight[k])
  {
    TakenApart(inFlight, k);
    LoadAround(inFlight[..k], inFlight[k], inFlight[k + 1..]);
  }

  lemma SentIs(cfg: Config, from: Side, mtype: MessageType, plaintext: Bytes, draw: Draw)
    requires ValidDraw(draw)
    ensures Sent(cfg, from, mtype, plaintext, draw).to == Other(from)
    ensures Sent(cfg, from, mtype, plaintext, draw).env.mtype == ToString(mtype)
    ensures Sent(cfg, from, mtype, plaintext, draw).env.nonce == B64.Encode(draw.nonce)
  {
  }

  /** An answer comes first, and there is one exactly when the message asks. */
  lemma AnswerComesFirst(side: Side, r: Receipt)
    ensures Answers(Dispatched(side, r)) <==> Asks(r.env.mtype)
  {
    ParseExactlyInvertsToString(r.env.mtype, HEARTBEAT);
    ParseExactlyInvertsToString(r.env.mtype, BUILD_TRIGGER);
  }

  lemma AckFlightIs(cfg: Config, from: Side, ack: Ack, draw: Draw)
    requires ValidDraw(draw)
    ensures AckFlight(cfg, from, ack, draw).to == Other(from)
    ensures AckFlight(cfg, from, ack, draw).env.mtype == "ACK"
    ensures AckFlight(cfg, from, ack, draw).env.nonce == B64.Encode(draw.nonce)
  {
    SentIs(cfg, from, ACK, cfg.ackText(from, ack), draw);
  }

  predicate AnswerOnly(replies: seq<Flight>, to: Side) {
    |replies| <= 1 && forall i :: 0 <= i < |replies| ==> replies[i].to == to && replies[i].env.mtype == "ACK"
  }

  lemma RepliesAre(cfg: Config, side: Side, effects: seq<Effect>, draw: Draw)
    requires ValidDraw(draw)
    ensures AnswerOnly(Replies(cfg, side, effects, draw), Other(side))
    ensures |Replies(cfg, side, effects, draw)| == if Answers(effects) then 1 else 0
  {
    if Answers(effects) {
      AckFlightIs(cfg, side, effects[0].ack, draw);
    }
  }

  lemma AnswerLoad(replies: seq<Flight>, to: Side)
    requires AnswerOnly(replies, to)
    ensures Load(replies) == |replies|
  {
    if replies != [] {
      LoadOne(replies[0]);
      assert replies == [replies[0]];
    }
  }

  lemma FreshAnswers(cfg: Config, sys: System, flight: Flight, t1: int)
    requires Answers(Fresh(cfg, sys, flight, t1))
    ensures Asks(flight.env.mtype)
  {
    var verdict := Verdict(EndpointOf(cfg, flight.to), At(sys, flight.to).receiver.cache, flight.env, t1);
    AnswerComesFirst(flight.to, Receipt(flight.env, verdict.plaintext));
  }

  lemma NextAfterDelivery(cfg: Config, sys: System, k: nat, t1: int, t2: int, draw: Draw)
    requires Enabled(sys, Delivers(k, t1, t2, draw))
    ensures var flight := sys.inFlight[k];
            Next(cfg, sys, Delivers(k, t1, t2, draw)).inFlight
            == Without(sys.inFlight, k) + Replies(cfg, flight.to, Fresh(cfg, sys, flight, t1), draw)
  {
    var flight := sys.inFlight[k];
    TurnGrows(cfg, sys, flight, t1, t2);
    var before, after := At(sys, flight.to), Turn(cfg, sys, flight, t1, t2);
    assert after.effects[|before.effects|..] == Fresh(cfg, sys, flight, t1);
  }

  /** Every delivery makes the traffic lighter, whatever is delivered. */
  lemma DeliveryLightens(cfg: Config, sys: System, k: nat, t1: int, t2: int, draw: Draw)
    requires Enabled(sys, Delivers(k, t1, t2, draw))
    ensures Load(Next(cfg, sys, Delivers(k, t1, t2, draw)).inFlight) < Load(sys.inFlight)
  {
    var flight := sys.inFlight[k];
    NextAfterDelivery(cfg, sys, k, t1, t2, draw);
    LoadWithout(sys.inFlight, k);
    LoadAppend(Without(sys.inFlight, k), Replies(cfg, flight.to, Fresh(cfg, sys, flight, t1), draw));
    RepliesAre(cfg, flight.to, Fresh(cfg, sys, flight, t1), draw);
    AnswerLoad(Replies(cfg, flight.to, Fresh(cfg, sys, flight, t1), draw), Other(flight.to));
    if Answers(Fresh(cfg, sys, flight, t1)) {
      FreshAnswers(cfg, sys, flight, t1);
    }
  }

  /** What each step does to the load: a message that leaves or is invented adds its weight, a loss or a
      delivery takes it away, and an answer adds 1. */
  lemma LoadMovesExactly(cfg: Config, sys: System, step: Step)
    requires Enabled(sys, step)
    ensures var after := Load(Next(cfg, sys, step).inFlight);
            match step
            case Sends(_, mtype, _, _) =>
              after == Load(sys.inFlight) + if mtype == HEARTBEAT || mtype == BUILD_TRIGGER then 2 else 1
            case Invents(flight) => after == Load(sys.inFlight) + Weight(flight)
            case Loses(k) => after + Weight(sys.inFlight[k]) == Load(sys.inFlight)
            case Delivers(k, t1, _, _) =>
              after + Weight(sys.inFlight[k])
              == Load(sys.inFlight) + if Answers(Fresh(cfg, sys, sys.inFlight[k], t1)) then 1 else 0
  {
    match step
    case Sends(from, mtype, plaintext, draw) =>
      var flight := Sent(cfg, from, mtype, plaintext, draw);
      SentIs(cfg, from, mtype, plaintext, draw);
      ParseExactlyInvertsToString(ToString(mtype), mtype);
      ParseExactlyInvertsToString(ToString(mtype), HEARTBEAT);
      ParseExactlyInvertsToString(ToString(mtype), BUILD_TRIGGER);
      LoadAppend(sys.inFlight, [flight]);
      LoadOne(flight);
    case Invents(flight) =>
      LoadAppend(sys.inFlight, [flight]);
      LoadOne(flight);
    case Loses(k) =>
      LoadWithout(sys.inFlight, k);
    case Delivers(k, t1, t2, draw) =>
      var flight := sys.inFlight[k];
      var replies := Replies(cfg, flight.to, Fresh(cfg, sys, flight, t1), draw);
      NextAfterDelivery(cfg, sys, k, t1, t2, draw);
      LoadWithout(sys.inFlight, k);
      LoadAppend(Without(sys.inFlight, k), replies);
      RepliesAre(cfg, flight.to, Fresh(cfg, sys, flight, t1), draw);
      AnswerLoad(replies, Other(flight.to));
  }

  /** Automatic traffic drains: over every run the deliveries, and what is still in flight, are paid
      for by what users sent and the network invented, 2 for a message that asks and 1 for any other. */
  lemma {:induction false} TrafficDrains(cfg: Config, steps: seq<Step>)
    ensures Deliveries(cfg, steps) + Load(Run(cfg, steps).inFlight) <= Offered(cfg, steps)
  {
    if steps != [] {
      var before, last := steps[..|steps| - 1], steps[|steps| - 1];
      TrafficDrains(cfg, before);
      var sys := Run(cfg, before);
      if Enabled(sys, last) {
        match last
        case Sends(from, mtype, plaintext, draw) =>
          var flight := Sent(cfg, from, mtype, plaintext, draw);
          LoadAppend(sys.inFlight, [flight]);
          LoadOne(flight);
        case Delivers(k, t1, t2, draw) =>
          DeliveryLightens(cfg, sys, k, t1, t2, draw);
        case Loses(k) =>
          LoadWithout(sys.inFlight, k);
        case Invents(flight) =>
          LoadAppend(sys.inFlight, [flight]);
          LoadOne(flight);
      }
    }
  }

  /** The loops' account holds on every run, disturbed or not: on both sides the callback sees exactly
      the accepted business messages, and exactly the accepted requests are acknowledged. */
  lemma {:induction false} BothEndsAccount(cfg: Config, steps: seq<Step>, side: Side)
    ensures Accounted(side, At(Run(cfg, steps), side))
  {
    if steps != [] {
      var before, last := steps[..|steps| - 1], steps[|steps| - 1];
      BothEndsAccount(cfg, before, side);
      var sys := Run(cfg, before);
      if Enabled(sys, last) && last.Delivers? && sys.inFlight[last.k].to == side {
        var input := Envelope(Delivery(sys.inFlight[last.k].env, last.t1, last.t2));
        Serve1Accounts(side, EndpointOf(cfg, side), At(sys, side), input);
      }
    }
  }
}
