/** The build protocol of the agent as interleaved steps (agent/tools/agent_main.cpp): one message
    callback at a time, any number of poll threads, and the map between them. A step is what runs
    between two points where another thread can come in. */
module BuildProtocol {
  import opened Common
  import opened BuildTracker

  /** Where the poll thread of a trigger is. */
  datatype Pc =
    | Starting      // entry inserted, std::thread not yet constructed
    | NeverStarted  // the thread could not be created
    | Polling
    | Asking        // SENSITIVE_REVIEW_REQ sent, entry not yet marked
    | Reporting     // BUILD_RESULT sent or skipped, entry not yet erased
    | Done(asked: bool)

  datatype Thread = Thread(ctx: BuildContext, pc: Pc)

  datatype Callback = Idle | Spawning(trigger: nat) | Reviewing(ctx: BuildContext, result: string)

  datatype Outgoing =
    | ReviewRequest(issue: string)
    | BuildResult(trigger: nat, issue: string, status: string, secondReview: Option<string>)

  /** `reviewed` collects the triggers whose entry the review branch has taken out. */
  datatype Agent = Agent(
    active: Active, threads: map<nat, Thread>, callback: Callback, reviewed: set<nat>, next: nat, sent: seq<Outgoing>)

  const START := Agent(map[], map[], Idle, {}, 0, [])

  datatype Step =
    | TriggerDropped                                  // no Jenkins, bad JSON, or build number 0
    | TriggerFails(issue: string, clientUp: bool)
    | TriggerStarts(issue: string, project: string, number: int)
    | Spawn
    | SpawnFails
    | AsksReview(t: nat)
    | Marks(t: nat)
    | Reports(t: nat, replies: seq<StatusReply>, clientUp: bool) // Jenkins' replies to its polls
    | Erases(t: nat)
    | ReviewArrives(issue: string, number: int, result: string)
    | ReviewReports(reply: StatusReply)               // Jenkins' answer when asked again
    | ReviewDrops                                     // no Jenkins, an exception, or no client
    | RepoCheck(issue: string)                        // the main loop's own review request

  predicate At(a: Agent, t: nat, pc: Pc) {
    t in a.threads && a.threads[t].pc == pc
  }

  predicate Enabled(a: Agent, step: Step) {
    match step
    case TriggerDropped => a.callback.Idle?
    case TriggerFails(_, _) => a.callback.Idle?
    case TriggerStarts(_, _, number) => a.callback.Idle? && number != 0
    case Spawn => a.callback.Spawning?
    case SpawnFails => a.callback.Spawning?
    case AsksReview(t) => At(a, t, Polling)
    case Marks(t) => At(a, t, Asking)
    case Reports(t, _, _) => At(a, t, Polling)
    case Erases(t) => At(a, t, Reporting)
    case ReviewArrives(issue, number, _) => a.callback.Idle? && Waits(a.active, number, issue)
    case ReviewReports(_) => a.callback.Reviewing?
    case ReviewDrops => a.callback.Reviewing?
    case RepoCheck(_) => true
  }

  function Moved(a: Agent, t: nat, pc: Pc): map<nat, Thread> {
    if t in a.threads then a.threads[t := a.threads[t].(pc := pc)] else a.threads
  }

  function StatusText(status: BuildStatus): string {
    match status
    case UNKNOWN => "UNKNOWN"
    case QUEUED => "QUEUED"
    case BUILDING => "BUILDING"
    case SUCCESS => "SUCCESS"
    case FAILED => "FAILED"
    case ABORTED => "ABORTED"
    case NOT_BUILT => "NOT_BUILT"
  }

  function Next(a: Agent, step: Step): Agent
    requires Enabled(a, step)
  {
    match step
    case TriggerDropped => a.(next := a.next + 1)
    case TriggerFails(issue, clientUp) =>
      a.(next := a.next + 1, sent := if clientUp then a.sent + [BuildResult(a.next, issue, "FAILED", None)] else a.sent)
    case TriggerStarts(issue, project, number) =>
      var ctx := BuildContext(a.next, issue, project, number, false);
      a.(next := a.next + 1, callback := Spawning(a.next), active := a.active[number := ctx],
         threads := a.threads[a.next := Thread(ctx, Starting)])
    case Spawn => a.(threads := Moved(a, a.callback.trigger, Polling), callback := Idle)
    case SpawnFails => a.(threads := Moved(a, a.callback.trigger, NeverStarted), callback := Idle)
    case AsksReview(t) =>
      a.(threads := Moved(a, t, Asking), sent := a.sent + [ReviewRequest(a.threads[t].ctx.issue)])
    case Marks(t) => a.(threads := Moved(a, t, Done(true)), active := Marked(a.active, a.threads[t].ctx.number))
    case Reports(t, replies, clientUp) =>
      var ctx, status := a.threads[t].ctx, StatusText(PollOutcome(replies));
      a.(threads := Moved(a, t, Reporting),
         sent := if clientUp then a.sent + [BuildResult(t, ctx.issue, status, None)] else a.sent)
    case Erases(t) => a.(threads := Moved(a, t, Done(false)), active := a.active - {a.threads[t].ctx.number})
    case ReviewArrives(issue, number, result) =>
      var ctx := a.active[number];
      a.(active := a.active - {number}, reviewed := a.reviewed + {ctx.trigger}, callback := Reviewing(ctx, result))
    case ReviewReports(reply) =>
      var ctx, text := a.callback.ctx, if reply.ok then StatusText(reply.status) else "UNKNOWN";
      a.(callback := Idle, sent := a.sent + [BuildResult(ctx.trigger, ctx.issue, text, Some(a.callback.result))])
    case ReviewDrops => a.(callback := Idle)
    case RepoCheck(issue) => a.(sent := a.sent + [ReviewRequest(issue)])
  }

  /** Steps that are not possible when their turn comes are skipped, so every step list is a run. */
  function RunFrom(a: Agent, steps: seq<Step>): Agent {
    if steps == [] then a
    else
      var b, last := RunFrom(a, steps[..|steps| - 1]), steps[|steps| - 1];
      if Enabled(b, last) then Next(b, last) else b
  }

  function Run(steps: seq<Step>): Agent {
    RunFrom(START, steps)
  }

  // ---- What the tracker is for --------------------------------------------------------------

  /** The poll thread has not finished, or the build awaits its review. */
  predicate Live(a: Agent, t: nat) {
    t in a.threads && (!a.threads[t].pc.Done? || (a.threads[t].pc.asked && t !in a.reviewed))
  }

  /** The entry a live build should have. */
  function Entry(a: Agent, t: nat): BuildContext
    requires t in a.threads
  {
    a.threads[t].ctx.(waiting := a.threads[t].pc.Done?)
  }

  predicate Present(a: Agent, t: nat) {
    t in a.threads && a.threads[t].ctx.number in a.active && a.active[a.threads[t].ctx.number] == Entry(a, t)
  }

  predicate Explained(a: Agent, number: int)
    requires number in a.active
  {
    var t := a.active[number].trigger;
    Live(a, t) && a.threads[t].ctx.number == number
  }

  /** The map holds exactly the live builds, each under its own number. */
  ghost predicate Tracks(a: Agent) {
    && (forall t :: Live(a, t) ==> Present(a, t))
    && (forall n :: n in a.active ==> Explained(a, n))
  }

  ghost predicate AtMostOneResult(a: Agent) {
    forall i, j :: 0 <= i < j < |a.sent| && a.sent[i].BuildResult? && a.sent[j].BuildResult? ==>
      a.sent[i].trigger != a.sent[j].trigger
  }

  /** A result carries a review verdict only for a build whose own thread asked for one. */
  ghost predicate ReviewOnlyIfAsked(a: Agent) {
    forall i :: 0 <= i < |a.sent| && a.sent[i].BuildResult? && a.sent[i].secondReview.Some? ==>
      At(a, a.sent[i].trigger, Done(true))
  }

  // ---- No trigger gets two results ------------------------------------------------------------

  predicate KnownThreads(a: Agent) {
    && (forall t :: t in a.threads ==>
          t < a.next && a.threads[t].ctx.trigger == t && !a.threads[t].ctx.waiting && a.threads[t].ctx.number != 0)
    && (forall t :: t in a.reviewed ==> At(a, t, Done(true)))
  }

  predicate CallbackFits(a: Agent) {
    && (a.callback.Spawning? ==> At(a, a.callback.trigger, Starting))
    && (forall t :: t in a.threads && a.threads[t].pc == Starting ==> a.callback == Spawning(t))
    && (a.callback.Reviewing? ==> At(a, a.callback.ctx.trigger, Done(true)) && a.callback.ctx.trigger in a.reviewed)
  }

  predicate WellFormed(a: Agent) {
    KnownThreads(a) && CallbackFits(a)
  }

  /** The thread of `t` can still mark the entry under its number, whoever's it is. */
  predicate CanMark(a: Agent, t: nat) {
    t in a.threads && a.threads[t].pc in {Starting, Polling, Asking}
  }

  /** An entry is its build's own, and it waits only if that build's thread has asked. */
  predicate OwnEntry(a: Agent, n: int)
    requires n in a.active
  {
    var t := a.active[n].trigger;
    && t in a.threads && a.threads[t].ctx.number == n && a.threads[t].ctx.issue == a.active[n].issue
    && t !in a.reviewed && (a.active[n].waiting ==> a.threads[t].pc == Done(true))
  }

  /** No thread can mark the entry of another build. */
  ghost predicate NoStrays(a: Agent) {
    && (forall n :: n in a.active ==> OwnEntry(a, n))
    && (forall t :: CanMark(a, t) && a.threads[t].ctx.number in a.active ==>
          a.active[a.threads[t].ctx.number].trigger == t)
  }

  predicate Accounted(a: Agent, out: Outgoing) {
    out.BuildResult? ==>
      && out.trigger < a.next
      && (out.secondReview.None? ==>
            out.trigger in a.threads ==> a.threads[out.trigger].pc in {Reporting, Done(false)})
      && (out.secondReview.Some? ==>
            At(a, out.trigger, Done(true)) && out.trigger in a.reviewed
            && !(a.callback.Reviewing? && a.callback.ctx.trigger == out.trigger))
  }

  ghost predicate Orderly(a: Agent) {
    && WellFormed(a)
    && NoStrays(a)
    && AtMostOneResult(a)
    && (forall i :: 0 <= i < |a.sent| ==> Accounted(a, a.sent[i]))
  }

  /** No started build shares its number with a thread that can still mark the entry. */
  ghost predicate SafeStep(a: Agent, step: Step) {
    step.TriggerStarts? ==> forall t :: CanMark(a, t) ==> a.threads[t].ctx.number != step.number
  }

  lemma KnownThreadsStep(a: Agent, step: Step)
    requires WellFormed(a) && NoStrays(a) && Enabled(a, step)
    ensures KnownThreads(Next(a, step))
  {
    if step.ReviewArrives? {
      assert OwnEntry(a, step.number);
    }
  }

  lemma CallbackStep(a: Agent, step: Step)
    requires WellFormed(a) && NoStrays(a) && Enabled(a, step)
    ensures CallbackFits(Next(a, step))
  {
    if step.ReviewArrives? {
      assert OwnEntry(a, step.number);
    }
  }

  lemma NoStraysStep(a: Agent, step: Step)
    requires WellFormed(a) && NoStrays(a) && Enabled(a, step) && SafeStep(a, step)
    ensures NoStrays(Next(a, step))
  {
    var b := Next(a, step);
    forall n | n in b.active
      ensures OwnEntry(b, n)
    {
      if n in a.active {
        assert OwnEntry(a, n);
      }
    }
    forall t | CanMark(b, t) && b.threads[t].ctx.number in b.active
      ensures b.active[b.threads[t].ctx.number].trigger == t
    {
      assert CanMark(a, t) || step.TriggerStarts?;
    }
  }

  lemma ResultsStep(a: Agent, step: Step)
    requires Orderly(a) && Enabled(a, step) && WellFormed(Next(a, step))
    ensures AtMostOneResult(Next(a, step))
    ensures forall i :: 0 <= i < |Next(a, step).sent| ==> Accounted(Next(a, step), Next(a, step).sent[i])
  {
    var b := Next(a, step);
    if step.ReviewArrives? {
      assert OwnEntry(a, step.number);
    }
    forall i | 0 <= i < |b.sent|
      ensures Accounted(b, b.sent[i])
    {
      if i < |a.sent| {
        assert Accounted(a, a.sent[i]);
      }
    }
    forall i, j | 0 <= i < j < |b.sent| && b.sent[i].BuildResult? && b.sent[j].BuildResult?
      ensures b.sent[i].trigger != b.sent[j].trigger
    {
      assert Accounted(a, a.sent[i]);
    }
  }

  lemma OrderlyStep(a: Agent, step: Step)
    requires Orderly(a) && Enabled(a, step) && SafeStep(a, step)
    ensures Orderly(Next(a, step))
  {
    KnownThreadsStep(a, step);
    CallbackStep(a, step);
    NoStraysStep(a, step);
    ResultsStep(a, step);
  }

  /** Every start of the run is safe. */
  ghost predicate SafeFrom(a: Agent, steps: seq<Step>) {
    steps == [] ||
      (var before, last := steps[..|steps| - 1], steps[|steps| - 1];
       SafeFrom(a, before) && (Enabled(RunFrom(a, before), last) ==> SafeStep(RunFrom(a, before), last)))
  }

  lemma {:induction false} OrderlyFrom(a: Agent, steps: seq<Step>)
    requires Orderly(a) && SafeFrom(a, steps)
    ensures Orderly(RunFrom(a, steps))
  {
    if steps != [] {
      var before, last := steps[..|steps| - 1], steps[|steps| - 1];
      OrderlyFrom(a, before);
      if Enabled(RunFrom(a, before), last) {
        OrderlyStep(RunFrom(a, before), last);
      }
    }
  }

  lemma OrderlyReviews(a: Agent)
    requires Orderly(a)
    ensures ReviewOnlyIfAsked(a)
  {
    forall i | 0 <= i < |a.sent| && a.sent[i].BuildResult? && a.sent[i].secondReview.Some?
      ensures At(a, a.sent[i].trigger, Done(true))
    {
      assert Accounted(a, a.sent[i]);
    }
  }

  /** Over every interleaving in which no build is started under a number that a running thread can
      still mark, no trigger gets two results, and a review verdict is attached only for a build whose
      own thread asked. */
  lemma AtMostOneResultEver(steps: seq<Step>)
    requires SafeFrom(START, steps)
    ensures AtMostOneResult(Run(steps)) && ReviewOnlyIfAsked(Run(steps))
  {
    OrderlyFrom(START, steps);
    OrderlyReviews(Run(steps));
  }

  lemma OneMore(a: Agent, before: seq<Step>, step: Step)
    requires Enabled(RunFrom(a, before), step)
    ensures RunFrom(a, before + [step]) == Next(RunFrom(a, before), step)
    ensures SafeFrom(a, before) && !step.TriggerStarts? ==> SafeFrom(a, before + [step])
  {
    assert (before + [step])[..|before|] == before;
  }

  /** A polling build whose entry waits for a review gets two results. */
  lemma WaitingWhilePolling(b: Agent, before: seq<Step>, n: int, u: nat) returns (more: seq<Step>)
    requires SafeFrom(b, before)
    requires var a := RunFrom(b, before);
             a.callback.Idle? && At(a, u, Polling) && n in a.active && a.active[n].waiting && a.active[n].trigger == u
    ensures SafeFrom(b, more) && !AtMostOneResult(RunFrom(b, more)) && !ReviewOnlyIfAsked(RunFrom(b, more))
  {
    var ctx := RunFrom(b, before).active[n];
    more := before;
    OneMore(b, more, ReviewArrives(ctx.issue, n, "APPROVED"));
    more := more + [ReviewArrives(ctx.issue, n, "APPROVED")];
    OneMore(b, more, ReviewReports(StatusReply(true, SUCCESS)));
    more := more + [ReviewReports(StatusReply(true, SUCCESS))];
    var sent := RunFrom(b, more).sent;
    OneMore(b, more, Reports(u, [], true));
    more := more + [Reports(u, [], true)];
    var all := RunFrom(b, more).sent;
    assert |all| == |sent| + 1 && all[|sent| - 1] == sent[|sent| - 1];
    assert all[|sent| - 1].BuildResult? && all[|sent|].BuildResult? && all[|sent| - 1].trigger == all[|sent|].trigger;
    assert all[|sent| - 1].secondReview.Some? && At(RunFrom(b, more), u, Reporting);
  }

  /** From a start under a number that the thread of `t` can mark, to two results for the new build: the
      old thread marks the new entry, a verdict takes it, and the new thread reports as well. */
  lemma StrayGivesTwoResults(a: Agent, step: Step, t: nat) returns (more: seq<Step>)
    requires WellFormed(a) && Enabled(a, step) && step.TriggerStarts?
    requires CanMark(a, t) && a.threads[t].ctx.number == step.number
    ensures SafeFrom(Next(a, step), more)
    ensures !AtMostOneResult(RunFrom(Next(a, step), more)) && !ReviewOnlyIfAsked(RunFrom(Next(a, step), more))
  {
    var b, u := Next(a, step), a.next;
    more := [];
    OneMore(b, more, Spawn);
    more := more + [Spawn];
    if a.threads[t].pc == Polling {
      OneMore(b, more, AsksReview(t));
      more := more + [AsksReview(t)];
    }
    assert At(RunFrom(b, more), t, Asking) && At(RunFrom(b, more), u, Polling);
    OneMore(b, more, Marks(t));
    more := more + [Marks(t)];
    more := WaitingWhilePolling(b, more, step.number, u);
  }

  lemma SafeStepStaysOrderly(a: Agent, step: Step, more: seq<Step>)
    requires Orderly(a) && Enabled(a, step) && SafeStep(a, step) && SafeFrom(Next(a, step), more)
    ensures AtMostOneResult(RunFrom(Next(a, step), more)) && ReviewOnlyIfAsked(RunFrom(Next(a, step), more))
  {
    OrderlyStep(a, step);
    OrderlyFrom(Next(a, step), more);
    OrderlyReviews(RunFrom(Next(a, step), more));
  }

  /** The condition is exact for both promises: after a step, some continuation with safe starts only gives
      a trigger two results if and only if the step itself was an unsafe start, and likewise some such
      continuation attaches a verdict to a build whose own thread never asked. */
  lemma TwoResultsExactly(steps: seq<Step>, step: Step)
    requires SafeFrom(START, steps) && Enabled(Run(steps), step)
    ensures var after := Next(Run(steps), step);
            (exists more :: SafeFrom(after, more) && !AtMostOneResult(RunFrom(after, more)))
            <==> !SafeStep(Run(steps), step)
    ensures var after := Next(Run(steps), step);
            (exists more :: SafeFrom(after, more) && !ReviewOnlyIfAsked(RunFrom(after, more)))
            <==> !SafeStep(Run(steps), step)
  {
    OrderlyFrom(START, steps);
    var a := Run(steps);
    if SafeStep(a, step) {
      forall more | SafeFrom(Next(a, step), more)
        ensures AtMostOneResult(RunFrom(Next(a, step), more)) && ReviewOnlyIfAsked(RunFrom(Next(a, step), more))
      {
        SafeStepStaysOrderly(a, step, more);
      }
    } else {
      var t :| CanMark(a, t) && a.threads[t].ctx.number == step.number;
      var more := StrayGivesTwoResults(a, step, t);
    }
  }

  // ---- The map is exact -------------------------------------------------------------------------

  /** The number of a started build is not tracked already. */
  predicate FreshStep(a: Agent, step: Step) {
    step.TriggerStarts? ==> step.number !in a.active
  }

  predicate SameEntry<K(==), V(==)>(a: map<K, V>, b: map<K, V>, k: K) {
    (k in a <==> k in b) && (k in a ==> a[k] == b[k])
  }

  /** Nothing changes but the build of trigger `t` and the entry under its number. */
  ghost predicate OnlyTouches(a: Agent, b: Agent, t: nat) {
    && t in b.threads
    && (forall u :: u != t ==> SameEntry(a.threads, b.threads, u) && (u in a.reviewed <==> u in b.reviewed))
    && (forall m :: m != b.threads[t].ctx.number ==> SameEntry(a.active, b.active, m))
  }

  /** The build of `t` has its entry if it is live, and none otherwise. */
  predicate Tracked(a: Agent, t: nat)
    requires t in a.threads
  {
    if Live(a, t) then Present(a, t) else a.threads[t].ctx.number !in a.active
  }

  /** The step of one build keeps the map exact for all the others, unless it takes an entry of theirs. */
  lemma TracksOthers(a: Agent, b: Agent, t: nat)
    requires Tracks(a) && (forall u :: u in a.threads ==> a.threads[u].ctx.trigger == u)
    requires OnlyTouches(a, b, t) && Tracked(b, t) && b.threads[t].ctx.trigger == t
    requires if t in a.threads then Live(a, t) && a.threads[t].ctx == b.threads[t].ctx
             else b.threads[t].ctx.number !in a.active
    ensures Tracks(b)
  {
    forall u | Live(b, u)
      ensures Present(b, u)
    {
      if u != t {
        assert SameEntry(a.threads, b.threads, u) && Live(a, u) && Present(a, u);
        assert Live(a, t) ==> Present(a, t);
        assert SameEntry(a.active, b.active, a.threads[u].ctx.number);
      }
    }
    forall m | m in b.active
      ensures Explained(b, m)
    {
      if m != b.threads[t].ctx.number {
        assert SameEntry(a.active, b.active, m) && Explained(a, m);
        assert Live(a, t) ==> Present(a, t);
        assert SameEntry(a.threads, b.threads, a.active[m].trigger);
      }
    }
  }

  lemma TracksStart(a: Agent, step: Step)
    requires WellFormed(a) && Tracks(a) && Enabled(a, step) && step.TriggerStarts? && FreshStep(a, step)
    ensures Tracks(Next(a, step))
  {
    TracksOthers(a, Next(a, step), a.next);
  }

  /** A step of a live build's own thread, or its spawning. */
  lemma TracksThread(a: Agent, step: Step, t: nat)
    requires WellFormed(a) && Tracks(a) && Enabled(a, step)
    requires match step
             case Spawn => t == a.callback.trigger
             case SpawnFails => t == a.callback.trigger
             case AsksReview(u) => t == u
             case Marks(u) => t == u
             case Reports(u, _, _) => t == u
             case Erases(u) => t == u
             case _ => false
    ensures Tracks(Next(a, step))
  {
    assert Live(a, t) && Present(a, t);
    TracksOthers(a, Next(a, step), t);
  }

  lemma TracksReview(a: Agent, step: Step)
    requires WellFormed(a) && Tracks(a) && Enabled(a, step) && step.ReviewArrives?
    ensures Tracks(Next(a, step))
  {
    assert Explained(a, step.number) && Present(a, a.active[step.number].trigger);
    TracksOthers(a, Next(a, step), a.active[step.number].trigger);
  }

  lemma TracksStep(a: Agent, step: Step)
    requires WellFormed(a) && Tracks(a) && Enabled(a, step) && FreshStep(a, step)
    ensures Tracks(Next(a, step))
  {
    match step
    case TriggerStarts(_, _, _) => TracksStart(a, step);
    case Spawn => TracksThread(a, step, a.callback.trigger);
    case SpawnFails => TracksThread(a, step, a.callback.trigger);
    case AsksReview(t) => TracksThread(a, step, t);
    case Marks(t) => TracksThread(a, step, t);
    case Reports(t, _, _) => TracksThread(a, step, t);
    case Erases(t) => TracksThread(a, step, t);
    case ReviewArrives(_, _, _) => TracksReview(a, step);
    case _ => SameBuilds(a, Next(a, step));
  }

  lemma SameBuilds(a: Agent, b: Agent)
    requires Tracks(a) && a.threads == b.threads && a.active == b.active && a.reviewed == b.reviewed
    ensures Tracks(b)
  {
    assert forall t :: Live(b, t) == Live(a, t) && Present(b, t) == Present(a, t);
    assert forall n :: n in a.active ==> Explained(b, n) == Explained(a, n);
  }

  /** An exact map leaves no strays, and a fresh number is safe. */
  lemma TracksHasNoStrays(a: Agent)
    requires WellFormed(a) && Tracks(a)
    ensures NoStrays(a)
    ensures forall t :: CanMark(a, t) ==>
              a.threads[t].ctx.number in a.active && a.active[a.threads[t].ctx.number].trigger == t
  {
    forall n | n in a.active
      ensures OwnEntry(a, n)
    {
      assert Explained(a, n) && Present(a, a.active[n].trigger);
    }
    forall t | CanMark(a, t)
      ensures a.threads[t].ctx.number in a.active && a.active[a.threads[t].ctx.number].trigger == t
    {
      assert Live(a, t) && Present(a, t);
    }
  }

  /** Every started build gets a number that is not tracked at that moment. */
  predicate FreshRun(steps: seq<Step>) {
    steps == [] ||
      (var before, last := steps[..|steps| - 1], steps[|steps| - 1];
       FreshRun(before) && (Enabled(Run(before), last) ==> FreshStep(Run(before), last)))
  }

  lemma {:induction false} FreshRunTracks(steps: seq<Step>)
    requires FreshRun(steps)
    ensures SafeFrom(START, steps) && Orderly(Run(steps)) && Tracks(Run(steps))
  {
    if steps != [] {
      var before, last := steps[..|steps| - 1], steps[|steps| - 1];
      FreshRunTracks(before);
      TracksHasNoStrays(Run(before));
      if Enabled(Run(before), last) {
        TracksStep(Run(before), last);
        OrderlyStep(Run(before), last);
      }
    }
  }

  /** Starting a build keeps the map exact if and only if its number is not in the map. */
  lemma StartKeepsTrackingExactly(a: Agent, step: Step)
    requires WellFormed(a) && Tracks(a) && Enabled(a, step) && step.TriggerStarts?
    ensures Tracks(Next(a, step)) <==> FreshStep(a, step)
  {
    if step.number in a.active {
      var t, b := a.active[step.number].trigger, Next(a, step);
      assert Explained(a, step.number) && Present(a, t);
      assert Live(b, t) && !Present(b, t);
    } else {
      TracksStep(a, step);
    }
  }

  ghost predicate AlwaysTracks(steps: seq<Step>) {
    Tracks(Run(steps)) && (steps == [] || AlwaysTracks(steps[..|steps| - 1]))
  }

  /** The map holds exactly the unfinished builds and those that await review, at every moment of a run,
      if and only if every build of the run is started under a number that is not in the map. */
  lemma {:induction false} TracksExactly(steps: seq<Step>)
    ensures AlwaysTracks(steps) <==> FreshRun(steps)
  {
    if steps != [] {
      var before, last := steps[..|steps| - 1], steps[|steps| - 1];
      TracksExactly(before);
      if FreshRun(before) {
        FreshRunTracks(before);
        if Enabled(Run(before), last) {
          if last.TriggerStarts? {
            StartKeepsTrackingExactly(Run(before), last);
          } else {
            TracksStep(Run(before), last);
          }
        }
      }
    }
  }

  /** While the map is exact, a start is unsafe if and only if the build tracked under its number is
      still polled or has asked and not yet marked. */
  lemma UnsafeStartExactly(steps: seq<Step>, step: Step)
    requires FreshRun(steps) && Enabled(Run(steps), step) && step.TriggerStarts?
    ensures var a := Run(steps);
            !SafeStep(a, step) <==> step.number in a.active && PollingOrAsking(a, a.active[step.number].trigger)
  {
    FreshRunTracks(steps);
    TracksHasNoStrays(Run(steps));
    var a := Run(steps);
    if step.number in a.active {
      assert Explained(a, step.number);
      assert CanMark(a, a.active[step.number].trigger) <==> PollingOrAsking(a, a.active[step.number].trigger);
    }
  }

  predicate PollingOrAsking(a: Agent, t: nat) {
    At(a, t, Polling) || At(a, t, Asking)
  }

  // ---- No result is lost --------------------------------------------------------------------------

  predicate HasResult(sent: seq<Outgoing>, t: nat) {
    exists i :: 0 <= i < |sent| && sent[i].BuildResult? && sent[i].trigger == t
  }

  /** The result is still to come: from the poll thread, or from a review verdict. */
  predicate Owed(a: Agent, t: nat) {
    || CanMark(a, t)
    || (At(a, t, Done(true)) && (t !in a.reviewed || (a.callback.Reviewing? && a.callback.ctx.trigger == t)))
  }

  /** The step in which the result of trigger `t` is given up: an unreadable message, a thread that
      cannot be started, a client that is not there, a verdict that cannot be passed on. */
  predicate Loses(a: Agent, step: Step, t: nat)
    requires Enabled(a, step)
  {
    match step
    case TriggerDropped => t == a.next
    case TriggerFails(_, clientUp) => t == a.next && !clientUp
    case SpawnFails => t == a.callback.trigger
    case Reports(u, _, clientUp) => t == u && !clientUp
    case ReviewDrops => t == a.callback.ctx.trigger
    case _ => false
  }

  predicate Lost(steps: seq<Step>, t: nat) {
    steps != [] &&
      (var before, last := steps[..|steps| - 1], steps[|steps| - 1];
       Lost(before, t) || (Enabled(Run(before), last) && Loses(Run(before), last, t)))
  }

  /** Exactly one of three: the result is sent, is still to come, or was given up. */
  predicate OneFate(a: Agent, t: nat, lost: bool) {
    if t >= a.next then !lost && !HasResult(a.sent, t) && !Owed(a, t)
    else
      && (HasResult(a.sent, t) || Owed(a, t) || lost)
      && !(HasResult(a.sent, t) && Owed(a, t)) && !(HasResult(a.sent, t) && lost) && !(Owed(a, t) && lost)
  }

  lemma ResultsStay(sent: seq<Outgoing>, out: Outgoing, t: nat)
    ensures HasResult(sent + [out], t) <==> HasResult(sent, t) || (out.BuildResult? && out.trigger == t)
  {
    var more := sent + [out];
    assert more[|sent|] == out;
    if i :| 0 <= i < |sent| && sent[i].BuildResult? && sent[i].trigger == t {
      assert more[i] == sent[i];
    }
  }

  lemma OwedAfterSilentStep(a: Agent, step: Step, t: nat)
    requires WellFormed(a) && NoStrays(a) && Enabled(a, step) && Next(a, step).sent == a.sent
    ensures Owed(Next(a, step), t) <==> (Owed(a, t) && !Loses(a, step, t)) || (step.TriggerStarts? && t == a.next)
  {
    if step.ReviewArrives? {
      assert OwnEntry(a, step.number);
    }
  }

  lemma FateOfSilentStep(a: Agent, step: Step, t: nat, lost: bool)
    requires WellFormed(a) && NoStrays(a) && Enabled(a, step) && OneFate(a, t, lost)
    requires Next(a, step).sent == a.sent
    ensures OneFate(Next(a, step), t, lost || Loses(a, step, t))
  {
    OwedAfterSilentStep(a, step, t);
  }

  lemma FateOfSendingStep(a: Agent, step: Step, t: nat, lost: bool)
    requires WellFormed(a) && Enabled(a, step) && OneFate(a, t, lost)
    requires Next(a, step).sent != a.sent
    ensures OneFate(Next(a, step), t, lost || Loses(a, step, t))
  {
    ResultsStay(a.sent, Next(a, step).sent[|a.sent|], t);
  }

  lemma {:induction false} EveryTriggerHasOneFate(steps: seq<Step>, t: nat)
    requires SafeFrom(START, steps)
    ensures OneFate(Run(steps), t, Lost(steps, t))
  {
    if steps != [] {
      var before, last := steps[..|steps| - 1], steps[|steps| - 1];
      OrderlyFrom(START, before);
      EveryTriggerHasOneFate(before, t);
      if Enabled(Run(before), last) {
        if Next(Run(before), last).sent == Run(before).sent {
          FateOfSilentStep(Run(before), last, t, Lost(before, t));
        } else {
          FateOfSendingStep(Run(before), last, t, Lost(before, t));
        }
      }
    }
  }

  /** The build of t waits for its review and the callback is free: a verdict pays. */
  lemma PaidByVerdict(a: Agent, before: seq<Step>, t: nat) returns (more: seq<Step>)
    requires var b := RunFrom(a, before); Tracks(b) && b.callback.Idle? && At(b, t, Done(true)) && t !in b.reviewed
    requires var b := RunFrom(a, before); b.threads[t].ctx.trigger == t
    ensures HasResult(RunFrom(a, more).sent, t)
  {
    var b := RunFrom(a, before);
    assert Live(b, t) && Present(b, t);
    var ctx := b.threads[t].ctx;
    more := before;
    OneMore(a, more, ReviewArrives(ctx.issue, ctx.number, "APPROVED"));
    more := more + [ReviewArrives(ctx.issue, ctx.number, "APPROVED")];
    more := PaidByCallback(a, more, t);
  }

  lemma PaidByCallback(a: Agent, before: seq<Step>, t: nat) returns (more: seq<Step>)
    requires var b := RunFrom(a, before); b.callback.Reviewing? && b.callback.ctx.trigger == t
    ensures HasResult(RunFrom(a, more).sent, t)
  {
    var b := RunFrom(a, before);
    OneMore(a, before, ReviewReports(StatusReply(false, UNKNOWN)));
    more := before + [ReviewReports(StatusReply(false, UNKNOWN))];
    ResultsStay(b.sent, RunFrom(a, more).sent[|b.sent|], t);
  }

  lemma PaidByThread(a: Agent, before: seq<Step>, t: nat) returns (more: seq<Step>)
    requires At(RunFrom(a, before), t, Polling)
    ensures HasResult(RunFrom(a, more).sent, t)
  {
    var b := RunFrom(a, before);
    OneMore(a, before, Reports(t, [], true));
    more := before + [Reports(t, [], true)];
    ResultsStay(b.sent, RunFrom(a, more).sent[|b.sent|], t);
  }

  /** One step that frees the callback, and moves no thread but the one it starts. */
  lemma CallbackStepEnds(a: Agent, step: Step)
    requires WellFormed(a) && Tracks(a) && NoStrays(a) && Enabled(a, step) && (step.Spawn? || step.ReviewReports?)
    ensures var b := Next(a, step);
            && b.callback.Idle? && Tracks(b) && WellFormed(b) && b.reviewed == a.reviewed
            && forall t :: t in a.threads && a.threads[t].pc != Starting ==>
                 t in b.threads && b.threads[t] == a.threads[t]
  {
    TracksStep(a, step);
    KnownThreadsStep(a, step);
    CallbackStep(a, step);
  }

  lemma CallbackEnds(a: Agent, before: seq<Step>) returns (more: seq<Step>)
    requires var b := RunFrom(a, before); WellFormed(b) && Tracks(b) && NoStrays(b)
    ensures var b, c := RunFrom(a, before), RunFrom(a, more);
            && c.callback.Idle? && Tracks(c) && WellFormed(c) && c.reviewed == b.reviewed
            && forall t :: t in b.threads && b.threads[t].pc != Starting ==>
                 t in c.threads && c.threads[t] == b.threads[t]
  {
    var b := RunFrom(a, before);
    more := before;
    if !b.callback.Idle? {
      var step := if b.callback.Spawning? then Spawn else ReviewReports(StatusReply(false, UNKNOWN));
      OneMore(a, before, step);
      CallbackStepEnds(b, step);
      more := before + [step];
    }
  }

  lemma PayMarked(a: Agent, before: seq<Step>, t: nat) returns (more: seq<Step>)
    requires var b := RunFrom(a, before);
             WellFormed(b) && Tracks(b) && NoStrays(b) && At(b, t, Done(true)) && t !in b.reviewed
    ensures HasResult(RunFrom(a, more).sent, t)
  {
    more := CallbackEnds(a, before);
    more := PaidByVerdict(a, more, t);
  }

  lemma PayAsking(a: Agent, t: nat) returns (more: seq<Step>)
    requires WellFormed(a) && Tracks(a) && NoStrays(a) && At(a, t, Asking)
    ensures HasResult(RunFrom(a, more).sent, t)
  {
    OneMore(a, [], Marks(t));
    KnownThreadsStep(a, Marks(t));
    CallbackStep(a, Marks(t));
    TracksStep(a, Marks(t));
    TracksHasNoStrays(Next(a, Marks(t)));
    more := PayMarked(a, [] + [Marks(t)], t);
  }

  /** What is owed can be paid: while a trigger's result is still to come, some continuation sends it. */
  lemma OwedCanBePaid(steps: seq<Step>, t: nat) returns (more: seq<Step>)
    requires FreshRun(steps) && Owed(Run(steps), t)
    ensures HasResult(RunFrom(Run(steps), more).sent, t)
  {
    FreshRunTracks(steps);
    var a := Run(steps);
    match a.threads[t].pc
    case Starting =>
      OneMore(a, [], Spawn);
      more := PaidByThread(a, [] + [Spawn], t);
    case Polling =>
      more := PaidByThread(a, [], t);
    case Asking =>
      more := PayAsking(a, t);
    case _ =>
      if t in a.reviewed {
        more := PaidByCallback(a, [], t);
      } else {
        more := PayMarked(a, [], t);
      }
  }

  /** When all builds have come to their end, every trigger has exactly one result, or none if and only
      if it was given up in one of the listed steps; with fresh numbers the map is empty then. */
  lemma ExactlyOneResult(steps: seq<Step>)
    requires SafeFrom(START, steps)
    requires Run(steps).callback.Idle? && forall t :: !Live(Run(steps), t)
    ensures AtMostOneResult(Run(steps))
    ensures forall t: nat :: t < Run(steps).next ==> (HasResult(Run(steps).sent, t) <==> !Lost(steps, t))
    ensures FreshRun(steps) ==> Run(steps).active == map[]
  {
    AtMostOneResultEver(steps);
    var a := Run(steps);
    forall t: nat | t < a.next
      ensures HasResult(a.sent, t) <==> !Lost(steps, t)
    {
      EveryTriggerHasOneFate(steps, t);
      assert !Live(a, t);
    }
    if FreshRun(steps) {
      FreshRunTracks(steps);
      forall n
        ensures n !in a.active
      {
        assert n in a.active ==> Explained(a, n);
      }
    }
  }

  // ---- Review verdicts ------------------------------------------------------------------------------

  /** A review verdict is taken for a build exactly when its thread has asked, has marked the entry,
      and no earlier verdict took it. */
  lemma ReviewTakenExactly(a: Agent, issue: string, result: string)
    requires Tracks(a) && a.callback.Idle?
    ensures (exists number :: Enabled(a, ReviewArrives(issue, number, result)))
       <==> exists t :: At(a, t, Done(true)) && t !in a.reviewed && a.threads[t].ctx.issue == issue
  {
    if number :| Enabled(a, ReviewArrives(issue, number, result)) {
      var t := a.active[number].trigger;
      assert Explained(a, number) && Present(a, t);
      assert At(a, t, Done(true)) && t !in a.reviewed;
    }
    if t :| At(a, t, Done(true)) && t !in a.reviewed && a.threads[t].ctx.issue == issue {
      assert Live(a, t) && Present(a, t);
      assert Enabled(a, ReviewArrives(issue, a.threads[t].ctx.number, result));
    }
  }

  /** Hence a verdict that comes between the request and the mark is lost: it changes nothing, and the
      build still waits for it afterwards. */
  lemma EarlyVerdictIsLost() returns (steps: seq<Step>)
    ensures At(Run(steps), 0, Asking) && Run(steps).sent == [ReviewRequest("I")] && Run(steps).callback.Idle?
    ensures forall number, result :: !Enabled(Run(steps), ReviewArrives("I", number, result))
    ensures var late := Run(steps + [Marks(0)]); Owed(late, 0) && At(late, 0, Done(true)) && !HasResult(late.sent, 0)
  {
    steps := [];
    OneMore(START, steps, TriggerStarts("I", "p", 7));
    steps := steps + [TriggerStarts("I", "p", 7)];
    OneMore(START, steps, Spawn);
    steps := steps + [Spawn];
    OneMore(START, steps, AsksReview(0));
    steps := steps + [AsksReview(0)];
    OneMore(START, steps, Marks(0));
  }

  /** The main loop's own review request can come at any time and disturbs no build: it is one message more
      with that issue, no result, and every build is as live, owed and tracked as before. */
  lemma MainLoopAsks(a: Agent, issue: string, t: nat)
    ensures Enabled(a, RepoCheck(issue))
    ensures var b := Next(a, RepoCheck(issue));
            && |b.sent| == |a.sent| + 1 && b.sent[..|a.sent|] == a.sent && b.sent[|a.sent|] == ReviewRequest(issue)
            && (HasResult(b.sent, t) <==> HasResult(a.sent, t)) && (Live(b, t) <==> Live(a, t))
            && (Owed(b, t) <==> Owed(a, t)) && b.active == a.active
  {
    ResultsStay(a.sent, ReviewRequest(issue), t);
  }

  // ---- Two jobs with the same build number ----------------------------------------------------

  /** Jenkins numbers builds per job while the map is keyed by number alone. Two builds numbered 7:
      the second gets two results, one with a review verdict that its own thread never asked for. */
  lemma CollisionBreaksTracker() returns (steps: seq<Step>)
    ensures !AtMostOneResult(Run(steps)) && !ReviewOnlyIfAsked(Run(steps))
  {
    steps := SecondGetsVerdict();
    OneMore(START, steps, Reports(1, [StatusReply(true, FAILED)], true));
    steps := steps + [Reports(1, [StatusReply(true, FAILED)], true)];
    var sent := Run(steps).sent;
    assert |sent| == 3 && sent[1] == BuildResult(1, "I", "SUCCESS", Some("APPROVED"));
    assert sent[2].BuildResult? && sent[2].trigger == 1;
    assert At(Run(steps), 1, Reporting);
  }

  lemma SecondGetsVerdict() returns (steps: seq<Step>)
    ensures Run(steps).sent == [ReviewRequest("I"), BuildResult(1, "I", "SUCCESS", Some("APPROVED"))]
    ensures At(Run(steps), 1, Polling)
  {
    steps := TwoBuildsNumberedSeven();
    OneMore(START, steps, AsksReview(0));
    steps := steps + [AsksReview(0)];
    OneMore(START, steps, Marks(0));
    steps := steps + [Marks(0)];
    var ctx := BuildContext(1, "I", "q", 7, true);
    assert Run(steps).active == map[7 := ctx];
    steps := VerdictForSecond(steps, ctx);
  }

  lemma VerdictForSecond(before: seq<Step>, ctx: BuildContext) returns (steps: seq<Step>)
    requires ctx == BuildContext(1, "I", "q", 7, true) && Run(before).active == map[7 := ctx]
    requires Run(before).callback.Idle? && Run(before).sent == [ReviewRequest("I")] && At(Run(before), 1, Polling)
    ensures Run(steps).sent == [ReviewRequest("I"), BuildResult(1, "I", "SUCCESS", Some("APPROVED"))]
    ensures At(Run(steps), 1, Polling)
  {
    steps := before;
    OneMore(START, steps, ReviewArrives("I", 7, "APPROVED"));
    steps := steps + [ReviewArrives("I", 7, "APPROVED")];
    OneMore(START, steps, ReviewReports(StatusReply(true, SUCCESS)));
    steps := steps + [ReviewReports(StatusReply(true, SUCCESS))];
  }

  lemma TwoBuildsNumberedSeven() returns (steps: seq<Step>)
    ensures var p, q := BuildContext(0, "I", "p", 7, false), BuildContext(1, "I", "q", 7, false);
            Run(steps) == Agent(map[7 := q], map[0 := Thread(p, Polling), 1 := Thread(q, Polling)], Idle, {}, 2, [])
  {
    var s0: seq<Step> := [];
    OneMore(START, s0, TriggerStarts("I", "p", 7));
    var s1 := s0 + [TriggerStarts("I", "p", 7)];
    OneMore(START, s1, Spawn);
    var s2 := s1 + [Spawn];
    OneMore(START, s2, TriggerStarts("I", "q", 7));
    var s3 := s2 + [TriggerStarts("I", "q", 7)];
    OneMore(START, s3, Spawn);
    steps := s3 + [Spawn];
  }
}
