/** What the results of the build protocol say (agent/tools/agent_main.cpp): which step sent each of them,
    what it reports, and whose issue and verdict it carries. */
module BuildResults {
  import opened Common
  import opened BuildTracker
  import opened BuildProtocol

  // ---- What a result says ---------------------------------------------------------------------------

  /** The issue that trigger message `t` of the run names. */
  function IssueOf(steps: seq<Step>, t: nat): Option<string> {
    if steps == [] then None
    else
      var before, last := steps[..|steps| - 1], steps[|steps| - 1];
      if (last.TriggerFails? || last.TriggerStarts?) && Enabled(Run(before), last) && Run(before).next == t then
        Some(last.issue)
      else IssueOf(before, t)
  }

  ghost predicate NamesIssues(a: Agent, issue: nat -> Option<string>) {
    && (forall t :: t in a.threads ==> issue(t) == Some(a.threads[t].ctx.issue))
    && (forall i :: 0 <= i < |a.sent| && a.sent[i].BuildResult? ==> issue(a.sent[i].trigger) == Some(a.sent[i].issue))
    && (a.callback.Reviewing? ==> issue(a.callback.ctx.trigger) == Some(a.callback.ctx.issue))
    && (forall n :: n in a.active ==> issue(a.active[n].trigger) == Some(a.active[n].issue))
  }

  /** Only triggers that have come are named, and a thread's context carries its own. */
  ghost predicate OnlyPast(a: Agent) {
    && (forall t :: t in a.threads ==> t < a.next && a.threads[t].ctx.trigger == t)
    && (forall i :: 0 <= i < |a.sent| && a.sent[i].BuildResult? ==> a.sent[i].trigger < a.next)
    && (a.callback.Reviewing? ==> a.callback.ctx.trigger < a.next)
    && (forall n :: n in a.active ==> a.active[n].trigger < a.next)
  }

  lemma OnlyPastStep(a: Agent, step: Step)
    requires OnlyPast(a) && Enabled(a, step)
    ensures OnlyPast(Next(a, step))
  {
  }

  lemma NamesStep(a: Agent, step: Step, issue: nat -> Option<string>, issue': nat -> Option<string>)
    requires OnlyPast(a) && Enabled(a, step) && NamesIssues(a, issue)
    requires forall t: nat ::
               issue'(t) == if (step.TriggerFails? || step.TriggerStarts?) && t == a.next then Some(step.issue)
                            else issue(t)
    ensures NamesIssues(Next(a, step), issue')
  {
  }

  lemma {:induction false} PastRun(steps: seq<Step>)
    ensures OnlyPast(Run(steps))
  {
    if steps != [] {
      var before, last := steps[..|steps| - 1], steps[|steps| - 1];
      PastRun(before);
      if Enabled(Run(before), last) {
        OnlyPastStep(Run(before), last);
      }
    }
  }

  /** Over every interleaving, even one in which numbers collide, every result names the issue of its own
      trigger message. */
  lemma {:induction false} ResultsAreTruthful(steps: seq<Step>)
    ensures NamesIssues(Run(steps), (t: nat) => IssueOf(steps, t))
  {
    if steps != [] {
      var before, last := steps[..|steps| - 1], steps[|steps| - 1];
      PastRun(before);
      ResultsAreTruthful(before);
      if Enabled(Run(before), last) {
        NamesStep(Run(before), last, (t: nat) => IssueOf(before, t), (t: nat) => IssueOf(steps, t));
      }
    }
  }

  predicate FinalText(status: string) {
    status == "SUCCESS" || status == "FAILED" || status == "ABORTED" || status == "NOT_BUILT"
  }

  /** Jenkins says that the build is over. */
  predicate IsFinal(reply: StatusReply) {
    && reply.ok
    && (reply.status == SUCCESS || reply.status == FAILED || reply.status == ABORTED || reply.status == NOT_BUILT)
  }

  /** The first reply that says so says `status`. */
  ghost predicate FirstFinal(replies: seq<StatusReply>, status: BuildStatus) {
    exists k :: 0 <= k < |replies| && IsFinal(replies[k]) && replies[k].status == status
                && forall m :: 0 <= m < k ==> !IsFinal(replies[m])
  }

  /** What a poll thread reports for the replies it got. */
  ghost predicate Says(text: string, replies: seq<StatusReply>) {
    && (text == "SUCCESS" <==> FirstFinal(replies, SUCCESS))
    && (text == "FAILED" <==> FirstFinal(replies, FAILED))
    && (text == "NOT_BUILT" <==> FirstFinal(replies, NOT_BUILT))
    && (text == "ABORTED" <==> FirstFinal(replies, ABORTED) || forall k :: 0 <= k < |replies| ==> !IsFinal(replies[k]))
    && FinalText(text)
  }

  lemma FirstFinalStep(replies: seq<StatusReply>, status: BuildStatus)
    requires replies != []
    ensures FirstFinal(replies, status)
       <==> if IsFinal(replies[0]) then replies[0].status == status else FirstFinal(replies[1..], status)
  {
    var rest := replies[1..];
    if IsFinal(replies[0]) {
      if k :| 0 <= k < |replies| && IsFinal(replies[k]) && replies[k].status == status
              && forall m :: 0 <= m < k ==> !IsFinal(replies[m]) {
        assert k == 0;
      }
    } else {
      if k :| 0 <= k < |replies| && IsFinal(replies[k]) && replies[k].status == status
              && forall m :: 0 <= m < k ==> !IsFinal(replies[m]) {
        assert rest[k - 1] == replies[k];
        assert forall m :: 0 <= m < k - 1 ==> rest[m] == replies[m + 1];
      }
      if k :| 0 <= k < |rest| && IsFinal(rest[k]) && rest[k].status == status
              && forall m :: 0 <= m < k ==> !IsFinal(rest[m]) {
        assert replies[k + 1] == rest[k];
        assert forall m :: 1 <= m < k + 1 ==> replies[m] == rest[m - 1];
      }
    }
  }

  lemma NoneFinalStep(replies: seq<StatusReply>)
    requires replies != []
    ensures (forall k :: 0 <= k < |replies| ==> !IsFinal(replies[k]))
       <==> !IsFinal(replies[0]) && forall k :: 0 <= k < |replies[1..]| ==> !IsFinal(replies[1..][k])
  {
    assert forall k :: 1 <= k < |replies| ==> replies[k] == replies[1..][k - 1];
  }

  /** The first final status, and nothing but that. */
  lemma {:induction false} OutcomeIsFirstFinal(replies: seq<StatusReply>, status: BuildStatus)
    ensures PollOutcome(replies) == status <==>
              || FirstFinal(replies, status)
              || (status == ABORTED && forall k :: 0 <= k < |replies| ==> !IsFinal(replies[k]))
  {
    if replies != [] {
      FirstFinalStep(replies, status);
      NoneFinalStep(replies);
      OutcomeIsFirstFinal(replies[1..], status);
    }
  }

  lemma TextsDiffer()
    ensures "SUCCESS" != "FAILED" && "SUCCESS" != "ABORTED" && "SUCCESS" != "NOT_BUILT"
    ensures "FAILED" != "ABORTED" && "FAILED" != "NOT_BUILT" && "ABORTED" != "NOT_BUILT"
  {
    assert "SUCCESS"[0] == 'S' && "FAILED"[0] == 'F' && "ABORTED"[0] == 'A' && "NOT_BUILT"[0] == 'N';
  }

  lemma PollSays(replies: seq<StatusReply>)
    ensures Says(StatusText(PollOutcome(replies)), replies)
  {
    OutcomeIsFirstFinal(replies, SUCCESS);
    OutcomeIsFirstFinal(replies, FAILED);
    OutcomeIsFirstFinal(replies, ABORTED);
    OutcomeIsFirstFinal(replies, NOT_BUILT);
    TextsDiffer();
  }

  /** The text for a build that is asked about again after its review. */
  predicate SaysAgain(text: string, reply: StatusReply) {
    && (reply.ok ==>
          && (reply.status == SUCCESS ==> text == "SUCCESS") && (reply.status == FAILED ==> text == "FAILED")
          && (reply.status == ABORTED ==> text == "ABORTED") && (reply.status == NOT_BUILT ==> text == "NOT_BUILT")
          && (reply.status == BUILDING ==> text == "BUILDING") && (reply.status == QUEUED ==> text == "QUEUED")
          && (reply.status == UNKNOWN ==> text == "UNKNOWN"))
    && (!reply.ok ==> text == "UNKNOWN")
  }

  /** The step makes the agent send this result. */
  ghost predicate Produces(a: Agent, step: Step, out: Outgoing)
    requires Enabled(a, step)
  {
    && out.BuildResult?
    && match step
       case TriggerFails(issue, clientUp) => clientUp && out == BuildResult(a.next, issue, "FAILED", None)
       case Reports(t, replies, clientUp) =>
         clientUp && out.trigger == t && out.secondReview == None && Says(out.status, replies)
       case ReviewReports(reply) =>
         && out.trigger == a.callback.ctx.trigger && out.secondReview == Some(a.callback.result)
         && SaysAgain(out.status, reply)
       case _ => false
  }

  lemma ProducedByStep(a: Agent, step: Step)
    requires Enabled(a, step)
    ensures Next(a, step).sent == a.sent || (exists out :: Next(a, step).sent == a.sent + [out])
    ensures var sent := Next(a, step).sent;
            if |sent| > |a.sent| && sent[|a.sent|].BuildResult? then Produces(a, step, sent[|a.sent|])
            else forall out :: !Produces(a, step, out)
  {
    if step.Reports? {
      PollSays(step.replies);
    }
    if Next(a, step).sent != a.sent {
      assert Next(a, step).sent == a.sent + [Next(a, step).sent[|a.sent|]];
    }
  }

  /** Result i of the run is the one that step j made the agent send. */
  ghost predicate ProducedAt(steps: seq<Step>, j: int, i: int) {
    && 0 <= j < |steps| && 0 <= i < |Run(steps).sent| && Enabled(Run(steps[..j]), steps[j])
    && |Run(steps[..j]).sent| == i && Produces(Run(steps[..j]), steps[j], Run(steps).sent[i])
  }

  /** In every run whatever: each result was sent by a step of its own, and says what that step calls for. A
      poll thread says SUCCESS exactly when the first final reply to its own polls does, and so on;
      a result after a review carries the verdict. */
  lemma {:induction false} ResultsAreProduced(steps: seq<Step>, i: nat)
    requires i < |Run(steps).sent| && Run(steps).sent[i].BuildResult?
    ensures exists j :: ProducedAt(steps, j, i)
  {
    var before, last := steps[..|steps| - 1], steps[|steps| - 1];
    var a := Run(before);
    if Enabled(a, last) {
      ProducedByStep(a, last);
    }
    if i < |a.sent| {
      assert Run(steps).sent[i] == a.sent[i];
      ResultsAreProduced(before, i);
      var j :| ProducedAt(before, j, i);
      assert before[..j] == steps[..j];
      assert ProducedAt(steps, j, i);
    } else {
      assert ProducedAt(steps, |before|, i);
    }
  }

  /** In every run whatever, a result that follows no review has one of four final statuses, whatever
      Jenkins replies. */
  lemma StatusesAreFinal(steps: seq<Step>)
    ensures var sent := Run(steps).sent;
            forall i :: 0 <= i < |sent| && sent[i].BuildResult? && sent[i].secondReview.None? ==>
              FinalText(sent[i].status)
  {
    forall i | 0 <= i < |Run(steps).sent| && Run(steps).sent[i].BuildResult? && Run(steps).sent[i].secondReview.None?
      ensures FinalText(Run(steps).sent[i].status)
    {
      ResultsAreProduced(steps, i);
    }
  }

  /** Step j is the arrival of verdict `result`, and it takes the build of trigger t. */
  predicate TookVerdict(steps: seq<Step>, j: int, t: nat, result: string) {
    && 0 <= j < |steps| && steps[j].ReviewArrives? && Enabled(Run(steps[..j]), steps[j])
    && steps[j].result == result && Run(steps[..j]).active[steps[j].number].trigger == t
    && Run(steps[..j]).active[steps[j].number].issue == steps[j].issue
  }

  ghost predicate HasVerdict(steps: seq<Step>, t: nat, result: string) {
    exists j :: TookVerdict(steps, j, t, result)
  }

  lemma VerdictStays(steps: seq<Step>, t: nat, result: string)
    requires steps != [] && HasVerdict(steps[..|steps| - 1], t, result)
    ensures HasVerdict(steps, t, result)
  {
    var before := steps[..|steps| - 1];
    var j :| TookVerdict(before, j, t, result);
    assert before[..j] == steps[..j];
    assert TookVerdict(steps, j, t, result);
  }

  /** In every run whatever, the review verdict in a result is that of a message which named the issue of
      the very build and took it. */
  lemma {:induction false} VerdictsAreTaken(steps: seq<Step>)
    ensures var a := Run(steps);
            && (a.callback.Reviewing? ==> HasVerdict(steps, a.callback.ctx.trigger, a.callback.result))
            && (forall i :: 0 <= i < |a.sent| && a.sent[i].BuildResult? && a.sent[i].secondReview.Some? ==>
                  HasVerdict(steps, a.sent[i].trigger, a.sent[i].secondReview.value))
  {
    if steps != [] {
      var before, last := steps[..|steps| - 1], steps[|steps| - 1];
      var a, b := Run(before), Run(steps);
      VerdictsAreTaken(before);
      if Enabled(a, last) {
        ProducedByStep(a, last);
      }
      if b.callback.Reviewing? {
        if a.callback == b.callback {
          VerdictStays(steps, b.callback.ctx.trigger, b.callback.result);
        } else {
          assert TookVerdict(steps, |before|, b.callback.ctx.trigger, b.callback.result);
        }
      }
      forall i | 0 <= i < |b.sent| && b.sent[i].BuildResult? && b.sent[i].secondReview.Some?
        ensures HasVerdict(steps, b.sent[i].trigger, b.sent[i].secondReview.value)
      {
        if i < |a.sent| {
          assert b.sent[i] == a.sent[i];
        }
        VerdictStays(steps, b.sent[i].trigger, b.sent[i].secondReview.value);
      }
    }
  }
}
