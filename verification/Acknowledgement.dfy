/** An undisturbed session: every request reaches the other side, and its ACK comes back. The session is
    the one of module Traffic; here messages are not lost, invented or late. */
module Acknowledgement {
  import opened Common
  import opened Envelope
  import opened Primitives
  import opened Codec
  import opened Dispatch
  import opened Traffic
  import B64 = Base64
  import RG = ReplayGuard
  import HS = Handshake

  // ---- Undisturbed sessions -------------------------------------------------------------------------

  /** A nonce that neither the receiver nor the network knows. */
  predicate FreshNonce(sys: System, to: Side, draw: Draw) {
    NewNonce(At(sys, to).receiver.cache, sys.inFlight, to, B64.Encode(draw.nonce))
  }

  predicate NewNonce(cache: RG.Cache, inFlight: seq<Flight>, to: Side, nonce: string) {
    nonce !in cache && forall i :: 0 <= i < |inFlight| && inFlight[i].to == to ==> inFlight[i].env.nonce != nonce
  }

  /** A step of an undisturbed session: a message with a fresh nonce leaves, or any message under way
      arrives inside the window and its ACK, if there is one, gets a fresh nonce. */
  predicate Calm(cfg: Config, sys: System, step: Step) {
    && Enabled(sys, step)
    && match step
       case Sends(from, _, _, draw) => FreshNonce(sys, Other(from), draw)
       case Delivers(k, t1, _, draw) =>
         var flight := sys.inFlight[k];
         && FreshNonce(sys, Other(flight.to), draw)
         && RG.WithinWindow(EndpointOf(cfg, flight.to).windowSeconds, flight.env.timestamp, t1)
       case _ => false
  }

  predicate CalmRun(cfg: Config, steps: seq<Step>) {
    steps == [] || (CalmRun(cfg, steps[..|steps| - 1]) && Calm(cfg, Run(cfg, steps[..|steps| - 1]), steps[|steps| - 1]))
  }

  ghost predicate Genuine(cfg: Config, flight: Flight) {
    exists m: HS.Message :: ValidDraw(m.draw) && flight == Sent(cfg, Other(flight.to), m.mtype, m.plaintext, m.draw)
  }

  ghost predicate AllOf<T>(s: seq<T>, p: T -> bool) {
    forall i :: 0 <= i < |s| ==> p(s[i])
  }

  ghost function GenuineIn(cfg: Config): Flight -> bool {
    (flight: Flight) => Genuine(cfg, flight)
  }

  ghost predicate AllGenuine(cfg: Config, inFlight: seq<Flight>) {
    AllOf(inFlight, GenuineIn(cfg))
  }

  /** None of the messages under way to a side repeats a nonce it knows or that of another one. */
  predicate NewTo(cache: RG.Cache, inFlight: seq<Flight>, to: Side) {
    && (forall i :: 0 <= i < |inFlight| && inFlight[i].to == to ==> inFlight[i].env.nonce !in cache)
    && (forall i, j :: 0 <= i < j < |inFlight| && inFlight[i].to == to && inFlight[j].to == to ==>
          inFlight[i].env.nonce != inFlight[j].env.nonce)
  }

  ghost predicate Clean(cfg: Config, sys: System) {
    && sys.forwarder.stop == Running && sys.agent.stop == Running
    && AllGenuine(cfg, sys.inFlight)
    && NewTo(sys.forwarder.receiver.cache, sys.inFlight, Forwarder)
    && NewTo(sys.agent.receiver.cache, sys.inFlight, Agent)
  }

  ghost predicate PairedUp(cfg: Config) {
    && HS.Paired(cfg.forwarder, cfg.agent) && SignaturesCorrect(cfg.agent.prims) && CipherCorrect(cfg.agent.prims)
  }

  lemma SentIsGenuine(cfg: Config, from: Side, mtype: MessageType, plaintext: Bytes, draw: Draw)
    requires ValidDraw(draw)
    ensures Genuine(cfg, Sent(cfg, from, mtype, plaintext, draw))
  {
    var m := HS.Message(mtype, plaintext, draw);
    SentIs(cfg, from, mtype, plaintext, draw);
    assert ValidDraw(m.draw) && Other(Other(from)) == from;
    assert Sent(cfg, from, mtype, plaintext, draw) == Sent(cfg, Other(Other(from)), m.mtype, m.plaintext, m.draw);
  }

  /** A genuine message that is new and in the window is accepted. */
  lemma GenuineAccepted(cfg: Config, flight: Flight, cache: RG.Cache, t1: int)
    requires PairedUp(cfg) && Genuine(cfg, flight) && flight.env.nonce !in cache
    requires RG.WithinWindow(EndpointOf(cfg, flight.to).windowSeconds, flight.env.timestamp, t1)
    ensures Verdict(EndpointOf(cfg, flight.to), cache, flight.env, t1).Accepted?
    ensures Parse(flight.env.mtype).Some?
  {
    var m: HS.Message :| ValidDraw(m.draw) && flight == Sent(cfg, Other(flight.to), m.mtype, m.plaintext, m.draw);
    SentIs(cfg, Other(flight.to), m.mtype, m.plaintext, m.draw);
    ParseExactlyInvertsToString(ToString(m.mtype), m.mtype);
    HS.GenuineVerdict(EndpointOf(cfg, Other(flight.to)), EndpointOf(cfg, flight.to), m, cache, t1);
  }

  /** What acceptance does to a side. */
  predicate Took(before: Served, after: Served, flight: Flight) {
    && after.stop == Running
    && after.receiver.cache.Keys == before.receiver.cache.Keys + {flight.env.nonce}
    && |after.receiver.accepted| == |before.receiver.accepted| + 1
    && after.receiver.accepted[..|before.receiver.accepted|] == before.receiver.accepted
    && after.receiver.accepted[|before.receiver.accepted|].env == flight.env
  }

  lemma AcceptedTurn(cfg: Config, sys: System, flight: Flight, t1: int, t2: int)
    requires Verdict(EndpointOf(cfg, flight.to), At(sys, flight.to).receiver.cache, flight.env, t1).Accepted?
    requires Parse(flight.env.mtype).Some?
    ensures Took(At(sys, flight.to), Turn(cfg, sys, flight, t1, t2), flight)
    ensures Answers(Fresh(cfg, sys, flight, t1)) <==> Asks(flight.env.mtype)
  {
    var verdict := Verdict(EndpointOf(cfg, flight.to), At(sys, flight.to).receiver.cache, flight.env, t1);
    AnswerComesFirst(flight.to, Receipt(flight.env, verdict.plaintext));
  }

  lemma NewToAdd(cache: RG.Cache, inFlight: seq<Flight>, to: Side, flight: Flight)
    requires NewTo(cache, inFlight, to) && (flight.to == to ==> NewNonce(cache, inFlight, to, flight.env.nonce))
    ensures NewTo(cache, inFlight + [flight], to)
  {
  }

  /** A message has arrived, and `cache` may now know its nonce. */
  lemma NewToTake(cache: RG.Cache, cache': RG.Cache, inFlight: seq<Flight>, to: Side, k: nat)
    requires NewTo(cache, inFlight, to) && k < |inFlight|
    requires if inFlight[k].to == to then cache'.Keys == cache.Keys + {inFlight[k].env.nonce} else cache' == cache
    ensures NewTo(cache', Without(inFlight, k), to)
  {
    var rest := Without(inFlight, k);
    forall i | 0 <= i < |rest| && rest[i].to == to
      ensures rest[i].env.nonce !in cache'
    {
      assert rest[i] == inFlight[if i < k then i else i + 1];
    }
    forall i, j | 0 <= i < j < |rest| && rest[i].to == to && rest[j].to == to
      ensures rest[i].env.nonce != rest[j].env.nonce
    {
      assert rest[i] == inFlight[if i < k then i else i + 1] && rest[j] == inFlight[if j < k then j else j + 1];
    }
  }

  lemma AllWithout<T>(s: seq<T>, k: nat, p: T -> bool)
    requires k < |s| && AllOf(s, p)
    ensures AllOf(Without(s, k), p)
  {
    var rest := Without(s, k);
    forall i | 0 <= i < |rest|
      ensures p(rest[i])
    {
      assert rest[i] == s[if i < k then i else i + 1];
    }
  }

  lemma AllAppend<T>(a: seq<T>, b: seq<T>, p: T -> bool)
    requires AllOf(a, p) && AllOf(b, p)
    ensures AllOf(a + b, p)
  {
  }

  lemma NewNonceWithout(cache: RG.Cache, inFlight: seq<Flight>, k: nat, to: Side, nonce: string)
    requires k < |inFlight| && NewNonce(cache, inFlight, to, nonce)
    ensures NewNonce(cache, Without(inFlight, k), to, nonce)
  {
    var rest := Without(inFlight, k);
    forall i | 0 <= i < |rest| && rest[i].to == to
      ensures rest[i].env.nonce != nonce
    {
      assert rest[i] == inFlight[if i < k then i else i + 1];
    }
  }

  lemma CleanAdd(cfg: Config, sys: System, flight: Flight)
    requires Clean(cfg, sys) && GenuineIn(cfg)(flight)
    requires NewNonce(At(sys, flight.to).receiver.cache, sys.inFlight, flight.to, flight.env.nonce)
    ensures Clean(cfg, sys.(inFlight := sys.inFlight + [flight]))
  {
    NewToAdd(sys.forwarder.receiver.cache, sys.inFlight, Forwarder, flight);
    NewToAdd(sys.agent.receiver.cache, sys.inFlight, Agent, flight);
    AllAppend(sys.inFlight, [flight], GenuineIn(cfg));
  }

  lemma CalmSend(cfg: Config, sys: System, from: Side, mtype: MessageType, plaintext: Bytes, draw: Draw)
    requires Clean(cfg, sys) && ValidDraw(draw) && FreshNonce(sys, Other(from), draw)
    ensures Clean(cfg, sys.(inFlight := sys.inFlight + [Sent(cfg, from, mtype, plaintext, draw)]))
  {
    SentIs(cfg, from, mtype, plaintext, draw);
    SentIsGenuine(cfg, from, mtype, plaintext, draw);
    CleanAdd(cfg, sys, Sent(cfg, from, mtype, plaintext, draw));
  }

  /** The traffic after a delivery that was accepted. */
  lemma CleanReplies(cfg: Config, inFlight: seq<Flight>, forwarder: RG.Cache, agent: RG.Cache,
                     replies: seq<Flight>, to: Side)
    requires NewTo(forwarder, inFlight, Forwarder) && NewTo(agent, inFlight, Agent) && AllGenuine(cfg, inFlight)
    requires AnswerOnly(replies, to) && AllGenuine(cfg, replies)
    requires replies != [] ==>
               NewNonce(if to == Forwarder then forwarder else agent, inFlight, to, replies[0].env.nonce)
    ensures NewTo(forwarder, inFlight + replies, Forwarder) && NewTo(agent, inFlight + replies, Agent)
    ensures AllGenuine(cfg, inFlight + replies)
  {
    if replies == [] {
      assert inFlight + replies == inFlight;
    } else {
      assert replies == [replies[0]];
      NewToAdd(forwarder, inFlight, Forwarder, replies[0]);
      NewToAdd(agent, inFlight, Agent, replies[0]);
      AllAppend(inFlight, replies, GenuineIn(cfg));
    }
  }

  lemma GenuineReplies(cfg: Config, side: Side, effects: seq<Effect>, draw: Draw)
    requires ValidDraw(draw)
    ensures AllGenuine(cfg, Replies(cfg, side, effects, draw))
    ensures Answers(effects) ==> Replies(cfg, side, effects, draw)[0].env.nonce == B64.Encode(draw.nonce)
  {
    var replies := Replies(cfg, side, effects, draw);
    if Answers(effects) {
      AckFlightIs(cfg, side, effects[0].ack, draw);
      SentIsGenuine(cfg, side, ACK, cfg.ackText(side, effects[0].ack), draw);
      assert GenuineIn(cfg)(replies[0]);
    }
  }

  // ---- What messages say ------------------------------------------------------------------------------

  /** A message as both sides see it. The id of an ACK says nothing: it answers by its text. */
  datatype Content = Content(mtype: string, id: string, plaintext: Bytes)

  function ContentOf(env: CryptoEnvelope, plaintext: Bytes): Content {
    Content(env.mtype, if env.mtype == "ACK" then "" else env.msgId, plaintext)
  }

  /** How to look at messages under way, and at the answers that a side owes. */
  datatype View = View(content: Flight -> Content, answer: (Side, CryptoEnvelope) -> Content)

  function AckOf(mtype: string, id: string): Ack {
    if mtype == "HEARTBEAT" then HeartbeatAck else TriggerAck(id)
  }

  function Opened(cfg: Config, flight: Flight): Bytes {
    match CipherOutcome(EndpointOf(cfg, flight.to), flight.env)
    case Accepted(plaintext) => plaintext
    case _ => []
  }

  function AckContent(text: Bytes): Content {
    Content("ACK", "", text)
  }

  function ViewOf(cfg: Config): View {
    View((flight: Flight) => ContentOf(flight.env, Opened(cfg, flight)),
         (side: Side, env: CryptoEnvelope) => AckContent(cfg.ackText(side, AckOf(env.mtype, env.msgId))))
  }

  lemma SentOpens(cfg: Config, from: Side, mtype: MessageType, plaintext: Bytes, draw: Draw)
    requires PairedUp(cfg) && ValidDraw(draw)
    ensures Opened(cfg, Sent(cfg, from, mtype, plaintext, draw)) == plaintext
  {
    var ep := EndpointOf(cfg, from);
    var (ciphertext, tag) := ep.prims.seal(ep.key, draw.iv, plaintext);
    B64.RoundTrip(draw.iv);
    B64.RoundTrip(ciphertext);
    B64.RoundTrip(tag);
    assert Reopens(ep.prims, ep.key, draw.iv, plaintext);
  }

  function SendContent(step: Step): Content
    requires step.Sends? && ValidDraw(step.draw)
  {
    Content(ToString(step.mtype), if step.mtype == ACK then "" else GenerateUuid(step.draw.uuid), step.plaintext)
  }

  lemma SentContent(cfg: Config, step: Step)
    requires PairedUp(cfg) && step.Sends? && ValidDraw(step.draw)
    ensures ViewOf(cfg).content(Sent(cfg, step.from, step.mtype, step.plaintext, step.draw)) == SendContent(step)
  {
    var flight := Sent(cfg, step.from, step.mtype, step.plaintext, step.draw);
    SentOpens(cfg, step.from, step.mtype, step.plaintext, step.draw);
    ParseExactlyInvertsToString("ACK", step.mtype);
    assert flight.env.msgId == GenerateUuid(step.draw.uuid) && flight.env.mtype == ToString(step.mtype);
  }

  lemma AckFlightContent(cfg: Config, from: Side, ack: Ack, draw: Draw)
    requires PairedUp(cfg) && ValidDraw(draw)
    ensures ViewOf(cfg).content(AckFlight(cfg, from, ack, draw)) == AckContent(cfg.ackText(from, ack))
  {
    SentOpens(cfg, from, ACK, cfg.ackText(from, ack), draw);
    AckFlightIs(cfg, from, ack, draw);
  }

  // ---- A calm step, seen from outside -----------------------------------------------------------------

  /** What a delivery that is accepted does to the system. */
  predicate Exchanged(view: View, sys: System, next: System, k: nat, replies: seq<Flight>)
    requires k < |sys.inFlight|
  {
    var flight := sys.inFlight[k];
    && Took(At(sys, flight.to), At(next, flight.to), flight)
    && At(next, Other(flight.to)) == At(sys, Other(flight.to))
    && next.inFlight == Without(sys.inFlight, k) + replies
    && AnswerOnly(replies, Other(flight.to))
    && |replies| == (if Asks(flight.env.mtype) then 1 else 0)
    && ContentOf(flight.env, LastPlaintext(At(next, flight.to))) == view.content(flight)
    && (replies != [] ==> view.content(replies[0]) == view.answer(flight.to, flight.env))
  }

  function LastPlaintext(s: Served): Bytes
    requires s.receiver.accepted != []
  {
    s.receiver.accepted[|s.receiver.accepted| - 1].plaintext
  }

  lemma ExchangeIsClean(cfg: Config, sys: System, next: System, k: nat, replies: seq<Flight>,
                        nonce: string)
    requires k < |sys.inFlight| && Clean(cfg, sys) && Exchanged(ViewOf(cfg), sys, next, k, replies)
    requires AllGenuine(cfg, replies)
    requires var to := Other(sys.inFlight[k].to); NewNonce(At(sys, to).receiver.cache, sys.inFlight, to, nonce)
    requires replies != [] ==> replies[0].env.nonce == nonce
    ensures Clean(cfg, next)
  {
    var to := Other(sys.inFlight[k].to);
    NewToTake(sys.forwarder.receiver.cache, next.forwarder.receiver.cache, sys.inFlight, Forwarder, k);
    NewToTake(sys.agent.receiver.cache, next.agent.receiver.cache, sys.inFlight, Agent, k);
    NewNonceWithout(At(sys, to).receiver.cache, sys.inFlight, k, to, nonce);
    AllWithout(sys.inFlight, k, GenuineIn(cfg));
    CleanReplies(cfg, Without(sys.inFlight, k), next.forwarder.receiver.cache, next.agent.receiver.cache, replies, to);
  }

  /** An accepted turn receives the content of the message under way. */
  lemma TurnContent(cfg: Config, sys: System, flight: Flight, t1: int, t2: int)
    requires Verdict(EndpointOf(cfg, flight.to), At(sys, flight.to).receiver.cache, flight.env, t1).Accepted?
    ensures var after := Turn(cfg, sys, flight, t1, t2);
            && after.receiver.accepted != []
            && ContentOf(flight.env, LastPlaintext(after)) == ViewOf(cfg).content(flight)
  {
    AcceptedVerdict(EndpointOf(cfg, flight.to), At(sys, flight.to).receiver.cache, flight.env, t1);
  }

  lemma ReplyContent(cfg: Config, sys: System, flight: Flight, t1: int, draw: Draw)
    requires PairedUp(cfg) && ValidDraw(draw) && Answers(Fresh(cfg, sys, flight, t1))
    ensures ViewOf(cfg).content(Replies(cfg, flight.to, Fresh(cfg, sys, flight, t1), draw)[0])
         == ViewOf(cfg).answer(flight.to, flight.env)
  {
    var effects := Fresh(cfg, sys, flight, t1);
    AckFlightContent(cfg, flight.to, effects[0].ack, draw);
    FreshAck(cfg, sys, flight, t1);
  }

  lemma FreshAck(cfg: Config, sys: System, flight: Flight, t1: int)
    requires Answers(Fresh(cfg, sys, flight, t1))
    ensures Fresh(cfg, sys, flight, t1)[0].ack == AckOf(flight.env.mtype, flight.env.msgId)
  {
    ParseExactlyInvertsToString(flight.env.mtype, HEARTBEAT);
  }

  lemma CalmExchange(cfg: Config, sys: System, k: nat, t1: int, t2: int, draw: Draw) returns (replies: seq<Flight>)
    requires PairedUp(cfg) && Clean(cfg, sys) && Calm(cfg, sys, Delivers(k, t1, t2, draw))
    ensures Exchanged(ViewOf(cfg), sys, Next(cfg, sys, Delivers(k, t1, t2, draw)), k, replies)
    ensures AllGenuine(cfg, replies) && (replies != [] ==> replies[0].env.nonce == B64.Encode(draw.nonce))
  {
    var flight := sys.inFlight[k];
    assert GenuineIn(cfg)(flight);
    GenuineAccepted(cfg, flight, At(sys, flight.to).receiver.cache, t1);
    AcceptedTurn(cfg, sys, flight, t1, t2);
    TurnContent(cfg, sys, flight, t1, t2);
    var effects := Fresh(cfg, sys, flight, t1);
    replies := Replies(cfg, flight.to, effects, draw);
    RepliesAre(cfg, flight.to, effects, draw);
    GenuineReplies(cfg, flight.to, effects, draw);
    if Answers(effects) {
      ReplyContent(cfg, sys, flight, t1, draw);
    }
    NextAfterDelivery(cfg, sys, k, t1, t2, draw);
  }

  /** What a send does to the system. */
  predicate Departed(view: View, sys: System, next: System, step: Step, flight: Flight) {
    && step.Sends? && ValidDraw(step.draw) && flight.to == Other(step.from)
    && view.content(flight) == SendContent(step)
    && next == sys.(inFlight := sys.inFlight + [flight])
  }

  ghost predicate Moves(view: View, sys: System, next: System, step: Step) {
    if step.Delivers? then step.k < |sys.inFlight| && exists replies :: Exchanged(view, sys, next, step.k, replies)
    else exists flight :: Departed(view, sys, next, step, flight)
  }

  lemma CalmStepMoves(cfg: Config, sys: System, step: Step)
    requires PairedUp(cfg) && Clean(cfg, sys) && Calm(cfg, sys, step)
    ensures Clean(cfg, Next(cfg, sys, step)) && Moves(ViewOf(cfg), sys, Next(cfg, sys, step), step)
  {
    if step.Sends? {
      var flight := Sent(cfg, step.from, step.mtype, step.plaintext, step.draw);
      SentIs(cfg, step.from, step.mtype, step.plaintext, step.draw);
      SentContent(cfg, step);
      CalmSend(cfg, sys, step.from, step.mtype, step.plaintext, step.draw);
      assert Departed(ViewOf(cfg), sys, Next(cfg, sys, step), step, flight);
    } else {
      var replies := CalmExchange(cfg, sys, step.k, step.t1, step.t2, step.draw);
      ExchangeIsClean(cfg, sys, Next(cfg, sys, step), step.k, replies, B64.Encode(step.draw.nonce));
    }
  }

  /** The systems that steps lead through. */
  ghost predicate Trace(view: View, states: seq<System>, steps: seq<Step>) {
    && |states| == |steps| + 1 && states[0] == QUIET
    && forall i :: 0 <= i < |steps| ==> Moves(view, states[i], states[i + 1], steps[i])
  }

  lemma TraceExtends(view: View, states: seq<System>, steps: seq<Step>, next: System)
    requires steps != [] && Trace(view, states, steps[..|steps| - 1])
    requires Moves(view, states[|steps| - 1], next, steps[|steps| - 1])
    ensures Trace(view, states + [next], steps)
  {
    var longer, before := states + [next], steps[..|steps| - 1];
    forall i | 0 <= i < |steps|
      ensures Moves(view, longer[i], longer[i + 1], steps[i])
    {
      if i < |before| {
        assert Moves(view, states[i], states[i + 1], before[i]);
      }
    }
  }

  /** The last step of a calm run. */
  lemma CalmRunStep(cfg: Config, steps: seq<Step>, sys: System)
    requires PairedUp(cfg) && steps != [] && CalmRun(cfg, steps)
    requires sys == Run(cfg, steps[..|steps| - 1]) && Clean(cfg, sys)
    ensures Moves(ViewOf(cfg), sys, Run(cfg, steps), steps[|steps| - 1]) && Clean(cfg, Run(cfg, steps))
  {
    CalmStepMoves(cfg, sys, steps[|steps| - 1]);
  }

  lemma QuietTrace(cfg: Config, states: seq<System>)
    requires states == [QUIET]
    ensures Trace(ViewOf(cfg), states, []) && Clean(cfg, states[0]) && Run(cfg, []) == states[0]
  {
  }

  lemma {:induction false} CalmRunTrace(cfg: Config, steps: seq<Step>) returns (states: seq<System>)
    requires PairedUp(cfg) && CalmRun(cfg, steps)
    ensures Trace(ViewOf(cfg), states, steps) && states[|steps|] == Run(cfg, steps) && Clean(cfg, states[|steps|])
  {
    if steps == [] {
      states := [QUIET];
      QuietTrace(cfg, states);
    } else {
      states := CalmRunTrace(cfg, steps[..|steps| - 1]);
      CalmRunStep(cfg, steps, states[|steps| - 1]);
      TraceExtends(ViewOf(cfg), states, steps, Run(cfg, steps));
      states := states + [Run(cfg, steps)];
    }
  }

  // ---- The balance --------------------------------------------------------------------------------------

  /** Messages under way to a side, of those that `pick` picks. */
  function CountFlights(inFlight: seq<Flight>, to: Side, pick: Flight -> bool): nat {
    if inFlight == [] then 0
    else CountFlights(inFlight[1..], to, pick) + if inFlight[0].to == to && pick(inFlight[0]) then 1 else 0
  }

  function CountReceipts(accepted: seq<Receipt>, chosen: Content -> bool): nat {
    if accepted == [] then 0
    else
      var last := accepted[|accepted| - 1];
      CountReceipts(accepted[..|accepted| - 1], chosen) + if chosen(ContentOf(last.env, last.plaintext)) then 1 else 0
  }

  /** Messages that users send to a side. */
  function CountSends(steps: seq<Step>, to: Side, chosen: Content -> bool): nat {
    if steps == [] then 0
    else CountSends(steps[..|steps| - 1], to, chosen) + if Picked(steps[|steps| - 1], to, chosen) then 1 else 0
  }

  predicate Picked(step: Step, to: Side, chosen: Content -> bool) {
    step.Sends? && ValidDraw(step.draw) && step.from == Other(to) && chosen(SendContent(step))
  }

  /** Automatic ACKs that a side sends for what it has accepted. */
  function CountAnswers(view: View, side: Side, accepted: seq<Receipt>, chosen: Content -> bool): nat {
    if accepted == [] then 0
    else
      var env := accepted[|accepted| - 1].env;
      CountAnswers(view, side, accepted[..|accepted| - 1], chosen)
      + if Asks(env.mtype) && chosen(view.answer(side, env)) then 1 else 0
  }

  lemma {:induction false} CountAppend(a: seq<Flight>, b: seq<Flight>, to: Side, pick: Flight -> bool)
    ensures CountFlights(a + b, to, pick) == CountFlights(a, to, pick) + CountFlights(b, to, pick)
  {
    if a == [] {
      assert a + b == b;
    } else {
      assert (a + b)[1..] == a[1..] + b;
      CountAppend(a[1..], b, to, pick);
    }
  }

  function One(flight: Flight, to: Side, pick: Flight -> bool): nat {
    if flight.to == to && pick(flight) then 1 else 0
  }

  lemma CountOne(flight: Flight, to: Side, pick: Flight -> bool)
    ensures CountFlights([flight], to, pick) == One(flight, to, pick)
  {
  }

  lemma CountWithout(inFlight: seq<Flight>, k: nat, to: Side, pick: Flight -> bool)
    requires k < |inFlight|
    ensures CountFlights(inFlight, to, pick)
         == CountFlights(Without(inFlight, k), to, pick) + One(inFlight[k], to, pick)
  {
    var front, flight, rest := inFlight[..k], inFlight[k], inFlight[k + 1..];
    TakenApart(inFlight, k);
    CountAppend(front, [flight] + rest, to, pick);
    CountAppend([flight], rest, to, pick);
    CountAppend(front, rest, to, pick);
    CountOne(flight, to, pick);
  }

  function PickedBy(view: View, chosen: Content -> bool): Flight -> bool {
    flight => chosen(view.content(flight))
  }

  /** Everything a side was sent, automatic ACKs included, is under way to it or accepted by it. */
  predicate Balanced(view: View, sys: System, steps: seq<Step>, to: Side, chosen: Content -> bool) {
    CountSends(steps, to, chosen) + CountAnswers(view, Other(to), At(sys, Other(to)).receiver.accepted, chosen)
    == CountFlights(sys.inFlight, to, PickedBy(view, chosen)) + CountReceipts(At(sys, to).receiver.accepted, chosen)
  }

  lemma TookCounts(view: View, before: Served, after: Served, flight: Flight, side: Side, chosen: Content -> bool)
    requires Took(before, after, flight)
    ensures CountReceipts(after.receiver.accepted, chosen)
         == CountReceipts(before.receiver.accepted, chosen)
            + if chosen(ContentOf(flight.env, LastPlaintext(after))) then 1 else 0
    ensures CountAnswers(view, side, after.receiver.accepted, chosen)
         == CountAnswers(view, side, before.receiver.accepted, chosen)
            + if Asks(flight.env.mtype) && chosen(view.answer(side, flight.env)) then 1 else 0
  {
    var accepted := after.receiver.accepted;
    assert accepted[..|accepted| - 1] == before.receiver.accepted;
  }

  lemma AnswerCounts(replies: seq<Flight>, answerTo: Side, to: Side, pick: Flight -> bool)
    requires AnswerOnly(replies, answerTo)
    ensures CountFlights(replies, to, pick) == if to == answerTo && replies != [] && pick(replies[0]) then 1 else 0
  {
    if replies != [] {
      assert replies == [replies[0]];
      CountOne(replies[0], to, pick);
    }
  }

  lemma ExchangeBalances(view: View, sys: System, next: System, replies: seq<Flight>, steps: seq<Step>, step: Step,
                         to: Side, chosen: Content -> bool)
    requires step.Delivers? && step.k < |sys.inFlight| && Exchanged(view, sys, next, step.k, replies)
    requires Balanced(view, sys, steps, to, chosen)
    ensures Balanced(view, next, steps + [step], to, chosen)
  {
    var flight, pick := sys.inFlight[step.k], PickedBy(view, chosen);
    CountWithout(sys.inFlight, step.k, to, pick);
    CountAppend(Without(sys.inFlight, step.k), replies, to, pick);
    AnswerCounts(replies, Other(flight.to), to, pick);
    TookCounts(view, At(sys, flight.to), At(next, flight.to), flight, flight.to, chosen);
    assert (steps + [step])[..|steps|] == steps;
  }

  lemma DepartureBalances(view: View, sys: System, next: System, flight: Flight, steps: seq<Step>, step: Step,
                          to: Side, chosen: Content -> bool)
    requires Departed(view, sys, next, step, flight) && Balanced(view, sys, steps, to, chosen)
    ensures Balanced(view, next, steps + [step], to, chosen)
  {
    CountAppend(sys.inFlight, [flight], to, PickedBy(view, chosen));
    CountOne(flight, to, PickedBy(view, chosen));
    assert (steps + [step])[..|steps|] == steps;
  }

  lemma MoveBalances(view: View, sys: System, next: System, steps: seq<Step>, step: Step, to: Side,
                     chosen: Content -> bool)
    requires Moves(view, sys, next, step) && Balanced(view, sys, steps, to, chosen)
    ensures Balanced(view, next, steps + [step], to, chosen)
  {
    if step.Delivers? {
      var replies :| Exchanged(view, sys, next, step.k, replies);
      ExchangeBalances(view, sys, next, replies, steps, step, to, chosen);
    } else {
      var flight :| Departed(view, sys, next, step, flight);
      DepartureBalances(view, sys, next, flight, steps, step, to, chosen);
    }
  }

  lemma {:induction false} TraceBalances(view: View, states: seq<System>, steps: seq<Step>, to: Side,
                                         chosen: Content -> bool)
    requires Trace(view, states, steps)
    ensures Balanced(view, states[|steps|], steps, to, chosen)
  {
    if steps != [] {
      var before, last := steps[..|steps| - 1], steps[|steps| - 1];
      TraceBalances(view, states[..|steps|], before, to, chosen);
      MoveBalances(view, states[|before|], states[|before| + 1], before, last, to, chosen);
      assert before + [last] == steps;
    }
  }

  // ---- Every request is acknowledged --------------------------------------------------------------------

  /** The ACKs with a text of this kind. */
  function AcksSaying(kind: Bytes -> bool): Content -> bool {
    (c: Content) => c.mtype == "ACK" && kind(c.plaintext)
  }

  /** The requests that side `to` answers with a text of this kind. */
  function RequestsFor(cfg: Config, to: Side, kind: Bytes -> bool): Content -> bool {
    (c: Content) => Asks(c.mtype) && kind(cfg.ackText(to, AckOf(c.mtype, c.id)))
  }

  lemma AcksDoNotAsk()
    ensures !Asks("ACK")
  {
    assert "ACK"[0] == 'A' && "HEARTBEAT"[0] == 'H' && "BUILD_TRIGGER"[0] == 'B';
  }

  lemma {:induction false} AnswersAreRequests(cfg: Config, to: Side, accepted: seq<Receipt>, kind: Bytes -> bool)
    ensures CountAnswers(ViewOf(cfg), to, accepted, AcksSaying(kind))
         == CountReceipts(accepted, RequestsFor(cfg, to, kind))
    ensures CountAnswers(ViewOf(cfg), to, accepted, RequestsFor(cfg, Other(to), kind)) == 0
  {
    if accepted != [] {
      var last := accepted[|accepted| - 1];
      AnswersAreRequests(cfg, to, accepted[..|accepted| - 1], kind);
      AcksDoNotAsk();
      AnswerIsRequest(cfg, to, last, kind);
    }
  }

  lemma AnswerIsRequest(cfg: Config, to: Side, r: Receipt, kind: Bytes -> bool)
    ensures Asks(r.env.mtype) && AcksSaying(kind)(ViewOf(cfg).answer(to, r.env))
       <==> RequestsFor(cfg, to, kind)(ContentOf(r.env, r.plaintext))
    ensures !RequestsFor(cfg, Other(to), kind)(ViewOf(cfg).answer(to, r.env))
  {
    AcksDoNotAsk();
    var said := cfg.ackText(to, AckOf(r.env.mtype, r.env.msgId));
    var answer := ViewOf(cfg).answer(to, r.env);
    assert answer == AckContent(said) && answer.mtype == "ACK" && answer.plaintext == said;
    assert AcksSaying(kind)(answer) <==> kind(said);
    if r.env.mtype != "ACK" {
      assert ContentOf(r.env, r.plaintext).id == r.env.msgId;
    }
  }

  /** Once an undisturbed session has drained: for every kind of text, a side has accepted exactly as many
      requests that it answers so as were sent to it, and the sender holds exactly as many ACKs of that
      kind, besides those that users sent by hand. With every text that counts all requests and all
      ACKs, with one text those of one message id. */
  lemma EveryRequestIsAcknowledged(cfg: Config, steps: seq<Step>, to: Side, kind: Bytes -> bool)
    requires PairedUp(cfg) && CalmRun(cfg, steps) && Run(cfg, steps).inFlight == []
    ensures CountReceipts(At(Run(cfg, steps), to).receiver.accepted, RequestsFor(cfg, to, kind))
         == CountSends(steps, to, RequestsFor(cfg, to, kind))
    ensures CountReceipts(At(Run(cfg, steps), Other(to)).receiver.accepted, AcksSaying(kind))
         == CountSends(steps, to, RequestsFor(cfg, to, kind)) + CountSends(steps, Other(to), AcksSaying(kind))
  {
    var states := CalmRunTrace(cfg, steps);
    var sys := states[|steps|];
    TraceBalances(ViewOf(cfg), states, steps, to, RequestsFor(cfg, to, kind));
    TraceBalances(ViewOf(cfg), states, steps, Other(to), AcksSaying(kind));
    AnswersAreRequests(cfg, Other(to), At(sys, Other(to)).receiver.accepted, kind);
    AnswersAreRequests(cfg, to, At(sys, to).receiver.accepted, kind);
  }

  lemma {:induction false} CountOnlyOne(steps: seq<Step>, to: Side, chosen: Content -> bool, k: nat)
    requires forall j :: 0 <= j < |steps| && j != k ==> !Picked(steps[j], to, chosen)
    ensures CountSends(steps, to, chosen) == if k < |steps| && Picked(steps[k], to, chosen) then 1 else 0
  {
    if steps != [] {
      CountOnlyOne(steps[..|steps| - 1], to, chosen, k);
    }
  }

  function Exactly(text: Bytes): Bytes -> bool {
    (t: Bytes) => t == text
  }

  ghost predicate Injective(f: Ack -> Bytes) {
    forall a, b :: f(a) == f(b) ==> a == b
  }

  /** Step k is the only one that sends this BUILD_TRIGGER: no other one to that side has its id. */
  predicate OnlyTrigger(steps: seq<Step>, to: Side, k: nat) {
    && k < |steps| && steps[k].Sends? && ValidDraw(steps[k].draw) && steps[k].from == Other(to)
    && steps[k].mtype == BUILD_TRIGGER
    && forall j :: 0 <= j < |steps| && j != k && steps[j].Sends? && ValidDraw(steps[j].draw)
                   && steps[j].from == Other(to) && steps[j].mtype == BUILD_TRIGGER ==>
         GenerateUuid(steps[j].draw.uuid) != GenerateUuid(steps[k].draw.uuid)
  }

  /** So each BUILD_TRIGGER is answered by exactly one ACK that names it: when ACK texts tell ids apart, ids
      are not reused, and users send no ACK of that text by hand. */
  lemma TriggerIsAcknowledgedOnce(cfg: Config, steps: seq<Step>, to: Side, k: nat)
    requires PairedUp(cfg) && CalmRun(cfg, steps) && Run(cfg, steps).inFlight == []
    requires Injective((ack: Ack) => cfg.ackText(to, ack)) && OnlyTrigger(steps, to, k)
    requires var text := cfg.ackText(to, TriggerAck(GenerateUuid(steps[k].draw.uuid)));
             CountSends(steps, Other(to), AcksSaying(Exactly(text))) == 0
    ensures var text := cfg.ackText(to, TriggerAck(GenerateUuid(steps[k].draw.uuid)));
            CountReceipts(At(Run(cfg, steps), Other(to)).receiver.accepted, AcksSaying(Exactly(text))) == 1
  {
    var text := cfg.ackText(to, TriggerAck(GenerateUuid(steps[k].draw.uuid)));
    OnlyTriggerCounts(cfg, steps, to, k);
    EveryRequestIsAcknowledged(cfg, steps, to, Exactly(text));
  }

  lemma OnlyTriggerCounts(cfg: Config, steps: seq<Step>, to: Side, k: nat)
    requires Injective((ack: Ack) => cfg.ackText(to, ack)) && OnlyTrigger(steps, to, k)
    ensures var text := cfg.ackText(to, TriggerAck(GenerateUuid(steps[k].draw.uuid)));
            CountSends(steps, to, RequestsFor(cfg, to, Exactly(text))) == 1
  {
    var id := GenerateUuid(steps[k].draw.uuid);
    var chosen := RequestsFor(cfg, to, Exactly(cfg.ackText(to, TriggerAck(id))));
    var said := (ack: Ack) => cfg.ackText(to, ack);
    forall j | 0 <= j < |steps| && Picked(steps[j], to, chosen)
      ensures j == k
    {
      var c := SendContent(steps[j]);
      assert said(AckOf(c.mtype, c.id)) == said(TriggerAck(id));
      TypeOf(steps[j].mtype);
    }
    TypeOf(BUILD_TRIGGER);
    assert SendContent(steps[k]) == Content("BUILD_TRIGGER", id, steps[k].plaintext);
    assert AckOf("BUILD_TRIGGER", id) == TriggerAck(id);
    assert Picked(steps[k], to, chosen);
    CountOnlyOne(steps, to, chosen, k);
  }

  lemma TypeOf(mtype: MessageType)
    ensures ToString(mtype) == "HEARTBEAT" <==> mtype == HEARTBEAT
    ensures ToString(mtype) == "BUILD_TRIGGER" <==> mtype == BUILD_TRIGGER
    ensures ToString(mtype) == "ACK" <==> mtype == ACK
  {
    ParseExactlyInvertsToString(ToString(mtype), HEARTBEAT);
    ParseExactlyInvertsToString(ToString(mtype), BUILD_TRIGGER);
    ParseExactlyInvertsToString(ToString(mtype), ACK);
    ParseExactlyInvertsToString(ToString(mtype), mtype);
  }
}
