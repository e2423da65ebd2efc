/** The registry of connected agents (forwarder/app/ws/agent_manager.py). Each method holds the
    manager's lock for its whole body, so it is one atomic step. */
module AgentManager {
  import opened Common

  /** The send callback is identified by the number of the connection that made it. */
  datatype AgentInfo = AgentInfo(agentId: string, projects: seq<string>, connectedAt: int, send: nat)

  datatype Registry = Registry(byAgent: map<string, AgentInfo>, routes: map<string, string>, stopped: bool)

  const EMPTY := Registry(map[], map[], false)

  datatype Op = Add(info: AgentInfo) | Remove(agentId: string) | StopAll

  function Routed(routes: map<string, string>, projects: seq<string>, agentId: string): map<string, string> {
    routes + map p | p in projects :: agentId
  }

  lemma RoutedStep(routes: map<string, string>, projects: seq<string>, i: nat, agentId: string)
    requires i < |projects|
    ensures Routed(routes, projects[..i + 1], agentId) == Routed(routes, projects[..i], agentId)[projects[i] := agentId]
  {
    assert projects[..i + 1] == projects[..i] + [projects[i]];
  }

  function Apply(r: Registry, op: Op): Registry {
    match op
    case Add(info) =>
      if r.stopped then r
      else r.(byAgent := r.byAgent[info.agentId := info],
              routes := Routed(r.routes, info.projects, info.agentId))
    case Remove(agentId) =>
      if r.stopped then r
      else r.(byAgent := r.byAgent - {agentId},
              routes := map p | p in r.routes && r.routes[p] != agentId :: r.routes[p])
    case StopAll => Registry(map[], map[], true)
  }

  function ByAgent(r: Registry, agentId: string): Option<AgentInfo> {
    if agentId in r.byAgent then Some(r.byAgent[agentId]) else None
  }

  function ByProject(r: Registry, project: string): Option<AgentInfo> {
    if project in r.routes then ByAgent(r, r.routes[project]) else None
  }

  class Manager {
    var byAgent: map<string, AgentInfo>
    var routes: map<string, string>
    var stopped: bool

    function State(): Registry
      reads this
    {
      Registry(byAgent, routes, stopped)
    }

    constructor ()
      ensures State() == EMPTY
    {
      byAgent, routes, stopped := map[], map[], false;
    }

    method AddAgent(agentId: string, projects: seq<string>, now: int, send: nat)
      modifies this
      ensures State() == Apply(old(State()), Add(AgentInfo(agentId, projects, now, send)))
    {
      if stopped {
        return;
      }
      byAgent := byAgent[agentId := AgentInfo(agentId, projects, now, send)];
      RouteAll(projects, agentId);
    }

    /** The loop of AddAgent over the projects. */
    method RouteAll(projects: seq<string>, agentId: string)
      modifies this`routes
      ensures routes == Routed(old(routes), projects, agentId)
    {
      var i := 0;
      while i < |projects|
        invariant 0 <= i <= |projects| && routes == Routed(old(routes), projects[..i], agentId)
      {
        RoutedStep(old(routes), projects, i, agentId);
        routes := routes[projects[i] := agentId];
        i := i + 1;
      }
      assert projects[..i] == projects;
    }

    method RemoveAgent(agentId: string)
      modifies this
      ensures State() == Apply(old(State()), Remove(agentId))
    {
      if stopped {
        return;
      }
      byAgent := byAgent - {agentId};
      var toRemove := set p | p in routes && routes[p] == agentId;
      while toRemove != {}
        invariant forall p :: p in toRemove ==> p in old(routes) && old(routes)[p] == agentId
        invariant routes == map p | p in old(routes) && (p in toRemove || old(routes)[p] != agentId) :: old(routes)[p]
        invariant byAgent == old(byAgent) - {agentId} && !stopped
        decreases toRemove
      {
        var p :| p in toRemove;
        toRemove := toRemove - {p};
        routes := routes - {p};
      }
    }

    method GetByAgent(agentId: string) returns (info: Option<AgentInfo>)
      ensures info == ByAgent(State(), agentId)
    {
      info := if agentId in byAgent then Some(byAgent[agentId]) else None;
    }

    method GetByProject(project: string) returns (info: Option<AgentInfo>)
      ensures info == ByProject(State(), project)
    {
      if project !in routes {
        return None;
      }
      var agentId := routes[project];
      info := if agentId in byAgent then Some(byAgent[agentId]) else None;
    }

    method StopEverything()
      modifies this
      ensures State() == Apply(old(State()), StopAll)
    {
      stopped := true;
      byAgent := map[];
      routes := map[];
    }
  }

  // ---- The registry as a view of its history ------------------------------------------------

  function After(ops: seq<Op>): Registry {
    if ops == [] then EMPTY else Apply(After(ops[..|ops| - 1]), ops[|ops| - 1])
  }

  predicate Declares(op: Op, project: string) {
    op.Add? && project in op.info.projects
  }

  predicate Registers(op: Op, agentId: string) {
    op.Add? && op.info.agentId == agentId
  }

  /** The place of the last registration that declares the project, or -1. */
  function LastDeclaring(ops: seq<Op>, project: string): (i: int)
    ensures -1 <= i < |ops|
    ensures i >= 0 ==> Declares(ops[i], project)
    ensures forall j :: i < j < |ops| ==> !Declares(ops[j], project)
  {
    if ops == [] then -1
    else if Declares(ops[|ops| - 1], project) then |ops| - 1
    else LastDeclaring(ops[..|ops| - 1], project)
  }

  /** The place of the newest registration of the agent, or -1. */
  function LastRegistering(ops: seq<Op>, agentId: string): (i: int)
    ensures -1 <= i < |ops|
    ensures i >= 0 ==> Registers(ops[i], agentId)
    ensures forall j :: i < j < |ops| ==> !Registers(ops[j], agentId)
  {
    if ops == [] then -1
    else if Registers(ops[|ops| - 1], agentId) then |ops| - 1
    else LastRegistering(ops[..|ops| - 1], agentId)
  }

  predicate RemovedAfter(ops: seq<Op>, agentId: string, i: int) {
    exists j :: Max(i + 1, 0) <= j < |ops| && ops[j] == Remove(agentId)
  }

  lemma RemovedAfterStep(before: seq<Op>, last: Op, agentId: string, i: int)
    requires i < |before|
    ensures RemovedAfter(before + [last], agentId, i) <==> RemovedAfter(before, agentId, i) || last == Remove(agentId)
  {
    var ops := before + [last];
    if RemovedAfter(before, agentId, i) {
      var j :| Max(i + 1, 0) <= j < |before| && before[j] == Remove(agentId);
      assert ops[j] == Remove(agentId);
    }
    if last == Remove(agentId) {
      assert ops[|before|] == Remove(agentId);
    }
  }

  lemma {:induction false} StoppedIsEmpty(ops: seq<Op>)
    ensures After(ops).stopped <==> StopAll in ops
    ensures After(ops).stopped ==> After(ops).byAgent == map[] && After(ops).routes == map[]
  {
    if ops != [] {
      StoppedIsEmpty(ops[..|ops| - 1]);
      assert ops == ops[..|ops| - 1] + [ops[|ops| - 1]];
    }
  }

  /** An agent is registered exactly when no stop_all was called and no removal follows its newest
      registration, and then with the information of that registration. */
  lemma {:induction false} AgentHistory(ops: seq<Op>, agentId: string)
    ensures var k := LastRegistering(ops, agentId);
            ByAgent(After(ops), agentId)
            == if StopAll !in ops && k >= 0 && !RemovedAfter(ops, agentId, k) then Some(ops[k].info) else None
  {
    StoppedIsEmpty(ops);
    if ops != [] && StopAll !in ops {
      var before, last := ops[..|ops| - 1], ops[|ops| - 1];
      assert ops == before + [last];
      StoppedIsEmpty(before);
      AgentHistory(before, agentId);
      RemovedAfterStep(before, last, agentId, LastRegistering(before, agentId));
    }
  }

  lemma {:induction false} RouteHistory(ops: seq<Op>, project: string)
    ensures var i, routes := LastDeclaring(ops, project), After(ops).routes;
            && (project in routes <==> StopAll !in ops && i >= 0 && !RemovedAfter(ops, ops[i].info.agentId, i))
            && (project in routes ==> routes[project] == ops[i].info.agentId)
  {
    StoppedIsEmpty(ops);
    if ops != [] && StopAll !in ops {
      var before, last := ops[..|ops| - 1], ops[|ops| - 1];
      assert ops == before + [last];
      StoppedIsEmpty(before);
      RouteHistory(before, project);
      var i := LastDeclaring(before, project);
      if i >= 0 {
        RemovedAfterStep(before, last, before[i].info.agentId, i);
      }
    }
  }

  /** A route always leads to a registered agent. */
  lemma {:induction false} RoutesNeverDangle(ops: seq<Op>)
    ensures forall p :: p in After(ops).routes ==> After(ops).routes[p] in After(ops).byAgent
    ensures forall a :: a in After(ops).byAgent ==> After(ops).byAgent[a].agentId == a
  {
    if ops != [] {
      RoutesNeverDangle(ops[..|ops| - 1]);
    }
  }

  /** What the history says about a project: after any stop_all nobody; otherwise the agent of the
      last registration that declared it, with its newest information, unless it was removed since. */
  ghost function ProjectByHistory(ops: seq<Op>, project: string): Option<AgentInfo> {
    var i := LastDeclaring(ops, project);
    if StopAll in ops || i < 0 then None
    else
      var agentId := ops[i].info.agentId;
      var k := LastRegistering(ops, agentId);
      if k < 0 || RemovedAfter(ops, agentId, i) then None else Some(ops[k].info)
  }

  lemma RegistryRefinesHistory(ops: seq<Op>, project: string)
    ensures ByProject(After(ops), project) == ProjectByHistory(ops, project)
  {
    RouteHistory(ops, project);
    var i := LastDeclaring(ops, project);
    if i >= 0 {
      var agentId := ops[i].info.agentId;
      AgentHistory(ops, agentId);
      assert Registers(ops[i], agentId);
      RoutesNeverDangle(ops);
    }
  }

  /** Once stopped, the registry stays empty whatever is called. */
  lemma StoppedForever(ops: seq<Op>, more: seq<Op>)
    requires StopAll in ops
    ensures After(ops + more) == Registry(map[], map[], true)
  {
    StoppedIsEmpty(ops + more);
  }
}
