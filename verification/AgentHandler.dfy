/** Connections and the registry (handle_agent_connection in forwarder/app/ws/agent_handler.py).
    Between two awaits a connection runs alone, so a run is an interleaving of the steps below. */
module AgentHandler {
  import opened Common
  import opened AgentManager

  const UNKNOWN := "<unknown>"

  /** `registered` says whether the connection got as far as add_agent. */
  datatype Phase =
    | Connected
    | Shaken(agentId: string, projects: seq<string>)
    | Registered(agentId: string)
    | Closed(agentId: string, registered: bool)

  datatype System = System(registry: Registry, conns: map<nat, Phase>)

  const START := System(EMPTY, map[])

  datatype Step =
    | Connect(c: nat)
    | HandshakeOk(c: nat, agentId: string, projects: seq<string>)
    | HandshakeFails(c: nat)
    | Register(c: nat, now: int)
    | Leave(c: nat)   // the loop ended or something raised; this is the `finally` block
    | Shutdown

  /** The `finally` block skips the removal for these names. */
  predicate Unmanaged(agentId: string) {
    agentId == "" || agentId == UNKNOWN
  }

  predicate Enabled(s: System, step: Step) {
    match step
    case Connect(c) => c !in s.conns
    case HandshakeOk(c, _, _) => c in s.conns && s.conns[c].Connected?
    case HandshakeFails(c) => c in s.conns && s.conns[c].Connected?
    case Register(c, _) => c in s.conns && s.conns[c].Shaken?
    case Leave(c) => c in s.conns && (s.conns[c].Shaken? || s.conns[c].Registered?)
    case Shutdown => true
  }

  function OpsOf(s: System, step: Step): seq<Op>
    requires Enabled(s, step)
  {
    match step
    case Register(c, now) => [Add(AgentInfo(s.conns[c].agentId, s.conns[c].projects, now, c))]
    case Leave(c) => if Unmanaged(s.conns[c].agentId) then [] else [Remove(s.conns[c].agentId)]
    case Shutdown => [StopAll]
    case _ => []
  }

  function Next(s: System, step: Step): System
    requires Enabled(s, step)
  {
    var ops := OpsOf(s, step);
    var registry := if ops == [] then s.registry else Apply(s.registry, ops[0]);
    match step
    case Connect(c) => System(registry, s.conns[c := Connected])
    case HandshakeOk(c, agentId, projects) => System(registry, s.conns[c := Shaken(agentId, projects)])
    case HandshakeFails(c) => System(registry, s.conns[c := Closed(UNKNOWN, false)])
    case Register(c, _) => System(registry, s.conns[c := Registered(s.conns[c].agentId)])
    case Leave(c) => System(registry, s.conns[c := Closed(s.conns[c].agentId, s.conns[c].Registered?)])
    case Shutdown => System(registry, s.conns)
  }

  /** Steps that are not possible when their turn comes are skipped, so every step list is a run. */
  function Run(steps: seq<Step>): System {
    if steps == [] then START
    else
      var s := Run(steps[..|steps| - 1]);
      if Enabled(s, steps[|steps| - 1]) then Next(s, steps[|steps| - 1]) else s
  }

  /** The calls on the manager that a run makes, in order. */
  function Calls(steps: seq<Step>): seq<Op> {
    if steps == [] then []
    else
      var before, last := steps[..|steps| - 1], steps[|steps| - 1];
      Calls(before) + if Enabled(Run(before), last) then OpsOf(Run(before), last) else []
  }

  lemma {:induction false} RegistryIsHistory(steps: seq<Step>)
    ensures Run(steps).registry == After(Calls(steps))
  {
    if steps != [] {
      var before, last := steps[..|steps| - 1], steps[|steps| - 1];
      RegistryIsHistory(before);
      if Enabled(Run(before), last) {
        var ops := OpsOf(Run(before), last);
        if ops != [] {
          assert Calls(steps)[..|Calls(steps)| - 1] == Calls(before);
        } else {
          assert Calls(steps) == Calls(before);
        }
      } else {
        assert Calls(steps) == Calls(before);
      }
    }
  }

  /** An entry belongs to a connection that registered it and has not cleaned up, or that never
      cleans up because of its name. */
  predicate Owned(s: System, agentId: string)
    requires agentId in s.registry.byAgent
  {
    var info := s.registry.byAgent[agentId];
    && info.agentId == agentId && info.send in s.conns
    && (s.conns[info.send] == Registered(agentId)
        || (Unmanaged(agentId) && s.conns[info.send] == Closed(agentId, true)))
  }

  predicate Leaked(phase: Phase) {
    && (phase.Registered? || (phase.Closed? && phase.registered))
    && (phase.agentId == "" || phase.agentId == "<unknown>")
  }

  ghost predicate Inv(s: System) {
    && (forall a :: a in s.registry.byAgent ==> Owned(s, a))
    && (forall p :: p in s.registry.routes ==> s.registry.routes[p] in s.registry.byAgent)
    && (s.registry.stopped ==> s.registry.byAgent == map[] && s.registry.routes == map[])
    && (!s.registry.stopped ==>
          forall c :: c in s.conns && Leaked(s.conns[c]) ==> s.conns[c].agentId in s.registry.byAgent)
  }

  lemma InvStep(s: System, step: Step)
    requires Inv(s) && Enabled(s, step)
    ensures Inv(Next(s, step))
  {
    var s' := Next(s, step);
    forall a | a in s'.registry.byAgent
      ensures Owned(s', a)
    {
      if a in s.registry.byAgent {
        assert Owned(s, a);
      }
    }
  }

  lemma {:induction false} InvRun(steps: seq<Step>)
    ensures Inv(Run(steps))
  {
    if steps != [] {
      var s := Run(steps[..|steps| - 1]);
      InvRun(steps[..|steps| - 1]);
      if Enabled(s, steps[|steps| - 1]) {
        InvStep(s, steps[|steps| - 1]);
      }
    }
  }

  /** No dead registrations: in every interleaving, a registered callback belongs to a connection
      that has not completed its cleanup, unless its name is one the cleanup skips. */
  lemma NoDeadRegistrations(steps: seq<Step>, agentId: string)
    requires agentId in Run(steps).registry.byAgent && agentId != "" && agentId != "<unknown>"
    ensures var s := Run(steps);
            var c := s.registry.byAgent[agentId].send;
            c in s.conns && s.conns[c] == Registered(agentId)
  {
    InvRun(steps);
    assert Owned(Run(steps), agentId);
  }

  ghost predicate AllClosed(s: System) {
    forall c :: c in s.conns ==> s.conns[c].Closed?
  }

  /** When all connections have closed the registry is empty exactly if it was stopped or no
      connection registered under a name that the cleanup skips. */
  lemma EmptyAfterCloseExactly(steps: seq<Step>)
    requires AllClosed(Run(steps))
    ensures var s := Run(steps);
            s.registry.byAgent == map[] && s.registry.routes == map[]
            <==> s.registry.stopped || forall c :: c in s.conns ==> !Leaked(s.conns[c])
  {
    InvRun(steps);
    var s := Run(steps);
    if s.registry.byAgent == map[] {
      assert s.registry.routes == map[];
    }
  }

  /** What leaving does, whether or not the connection got as far as registering: its id, and every route
      to it, is gone, whoever registered it last; but for the two names nothing is touched. */
  lemma LeavingExactly(steps: seq<Step>, c: nat)
    requires Enabled(Run(steps), Leave(c))
    ensures var before, id := Run(steps), Run(steps).conns[c].agentId;
            var after := Next(before, Leave(c)).registry;
            if before.registry.stopped || id == "" || id == "<unknown>" then after == before.registry
            else
              && after.byAgent.Keys == before.registry.byAgent.Keys - {id}
              && (forall p :: p in after.routes <==> p in before.registry.routes && before.registry.routes[p] != id)
  {
  }

  /** What registering does: the agent is found under its id and under each of its projects, with this
      connection's callback. */
  lemma RegisteringExactly(steps: seq<Step>, c: nat, now: int)
    requires Enabled(Run(steps), Register(c, now))
    ensures var before, id := Run(steps), Run(steps).conns[c].agentId;
            var projects, after := before.conns[c].projects, Next(before, Register(c, now)).registry;
            if before.registry.stopped then after == before.registry
            else
              && ByAgent(after, id) == Some(AgentInfo(id, projects, now, c))
              && (forall p :: p in projects ==> ByProject(after, p) == Some(AgentInfo(id, projects, now, c)))
              && (forall other :: other != id ==> ByAgent(after, other) == ByAgent(before.registry, other))
  {
  }

  /** After a shutdown nobody is registered, whatever connections do. */
  lemma {:induction false} ShutdownIsFinal(steps: seq<Step>)
    requires Shutdown in steps
    ensures Run(steps).registry == Registry(map[], map[], true)
  {
    var before, last := steps[..|steps| - 1], steps[|steps| - 1];
    if Shutdown in before {
      ShutdownIsFinal(before);
    } else {
      assert last == Shutdown;
    }
  }

  /** Every connection can close at any time, whatever the others do. */
  lemma CanAlwaysClose(s: System, c: nat) returns (step: Step)
    requires c in s.conns && !s.conns[c].Closed?
    ensures Enabled(s, step) && Next(s, step).conns.Keys == s.conns.Keys && Next(s, step).conns[c].Closed?
    ensures forall d :: d in s.conns && d != c ==> Next(s, step).conns[d] == s.conns[d]
    ensures s.conns[c].Connected? ==> Next(s, step).registry == s.registry
  {
    step := if s.conns[c].Connected? then HandshakeFails(c) else Leave(c);
  }

  /** An agent that calls itself "" stays registered after its connection is gone. */
  lemma EmptyNameStaysRegistered()
    ensures var s := Run([Connect(1), HandshakeOk(1, "", ["p"]), Register(1, 0), Leave(1)]);
            && s.conns == map[1 := Closed("", true)]
            && ByProject(s.registry, "p") == Some(AgentInfo("", ["p"], 0, 1))
  {
    var steps := [Connect(1), HandshakeOk(1, "", ["p"]), Register(1, 0), Leave(1)];
    assert steps[..3] == [Connect(1), HandshakeOk(1, "", ["p"]), Register(1, 0)];
    assert steps[..3][..2] == [Connect(1), HandshakeOk(1, "", ["p"])];
    assert steps[..3][..2][..1] == [Connect(1)];
    assert Run([Connect(1)]) == System(EMPTY, map[1 := Connected]) by {
      assert [Connect(1)][..0] == [];
    }
    assert Run(steps[..3][..2]) == System(EMPTY, map[1 := Shaken("", ["p"])]);
    assert Run(steps[..3]).conns == map[1 := Registered("")];
    assert "p" in ["p"];
    assert Run(steps[..3]).registry.routes["p"] == "";
  }

  predicate About(op: Op, agentId: string) {
    Registers(op, agentId) || op == Remove(agentId)
  }

  /** The call that put connection `c` on the registry is the last one about its agent. */
  ghost predicate LastAbout(calls: seq<Op>, agentId: string, c: nat) {
    exists k :: 0 <= k < |calls| && Registers(calls[k], agentId) && calls[k].info.send == c
                && forall j :: k < j < |calls| ==> !About(calls[j], agentId)
  }

  lemma LastAboutIs(calls: seq<Op>, agentId: string, c: nat)
    ensures var k := LastRegistering(calls, agentId);
            LastAbout(calls, agentId, c) <==> k >= 0 && !RemovedAfter(calls, agentId, k) && calls[k].info.send == c
  {
    var k := LastRegistering(calls, agentId);
    if k >= 0 && !RemovedAfter(calls, agentId, k) {
      forall j | k < j < |calls|
        ensures !About(calls[j], agentId)
      {
        assert !Registers(calls[j], agentId);
      }
    }
    if i :| 0 <= i < |calls| && Registers(calls[i], agentId) && calls[i].info.send == c
            && forall j :: i < j < |calls| ==> !About(calls[j], agentId) {
      assert i <= k;
      assert i < k ==> About(calls[k], agentId);
    }
  }

  /** Messages for an agent reach connection `c` exactly when the registry was not stopped and the
      last call about that agent was the registration by `c`. */
  lemma ReachableExactly(steps: seq<Step>, agentId: string, c: nat)
    ensures var calls, info := Calls(steps), ByAgent(Run(steps).registry, agentId);
            info.Some? && info.value.send == c <==> StopAll !in calls && LastAbout(calls, agentId, c)
  {
    RegistryIsHistory(steps);
    AgentHistory(Calls(steps), agentId);
    LastAboutIs(Calls(steps), agentId, c);
  }

  lemma RunOne(before: seq<Step>, step: Step)
    requires Enabled(Run(before), step)
    ensures Run(before + [step]) == Next(Run(before), step)
  {
    assert (before + [step])[..|before|] == before;
  }

  /** Hence an older connection that closes late takes a live one with the same id off the registry:
      connection 2 is registered and served, and nobody can reach it. */
  lemma LateCloseHidesLive() returns (steps: seq<Step>)
    ensures Run(steps).conns == map[1 := Closed("a", true), 2 := Registered("a")]
    ensures ByAgent(Run(steps).registry, "a") == None && !Run(steps).registry.stopped
  {
    steps := [];
    RunOne(steps, Connect(1));
    steps := steps + [Connect(1)];
    RunOne(steps, HandshakeOk(1, "a", []));
    steps := steps + [HandshakeOk(1, "a", [])];
    RunOne(steps, Register(1, 0));
    steps := steps + [Register(1, 0)];
    RunOne(steps, Connect(2));
    steps := steps + [Connect(2)];
    RunOne(steps, HandshakeOk(2, "a", []));
    steps := steps + [HandshakeOk(2, "a", [])];
    RunOne(steps, Register(2, 1));
    steps := steps + [Register(2, 1)];
    RunOne(steps, Leave(1));
    steps := steps + [Leave(1)];
  }
}
