/** Builds in progress on the agent (agent/tools/agent_main.cpp): the message callback, the detached
    poll threads and the map that a mutex guards between them. */
module BuildTracker {
  import opened Common

  /** `trigger` numbers the BUILD_TRIGGER messages; it stands for the time stamp in the source. */
  datatype BuildContext = BuildContext(trigger: nat, issue: string, project: string, number: int, waiting: bool)

  type Active = map<int, BuildContext>

  // ---- The sections under the mutex ----------------------------------------------------------

  function Marked(active: Active, number: int): Active {
    if number in active then active[number := active[number].(waiting := true)] else active
  }

  predicate Waits(active: Active, number: int, issue: string) {
    number in active && active[number].waiting && active[number].issue == issue
  }

  class ActiveBuilds {
    var builds: Active

    constructor ()
      ensures builds == map[]
    {
      builds := map[];
    }

    method Insert(ctx: BuildContext)
      modifies this
      ensures builds == old(builds)[ctx.number := ctx]
    {
      builds := builds[ctx.number := ctx];
    }

    method MarkWaiting(number: int)
      modifies this
      ensures builds == Marked(old(builds), number)
    {
      if number in builds {
        builds := builds[number := builds[number].(waiting := true)];
      }
    }

    method Erase(number: int)
      modifies this
      ensures builds == old(builds) - {number}
    {
      builds := builds - {number};
    }

    /** Looks through the map, in the order in which the hash table happens to list its keys, for a
        build of this issue that waits for its review, and takes it out. Number 0 means none. */
    method TakeWaiting(issue: string, order: seq<int>) returns (number: int, ctx: BuildContext)
      requires 0 !in builds && forall n :: n in builds <==> n in order
      modifies this
      ensures number != 0 ==> Waits(old(builds), number, issue) && ctx == old(builds)[number]
      ensures number == 0 <==> forall n :: n in old(builds) ==> !Waits(old(builds), n, issue)
      ensures builds == old(builds) - {number}
    {
      number, ctx := 0, BuildContext(0, "", "", 0, false);
      for i := 0 to |order|
        invariant builds == old(builds) && number == 0
        invariant forall j :: 0 <= j < i ==> !Waits(builds, order[j], issue)
      {
        assert order[i] in order;
        if builds[order[i]].waiting && builds[order[i]].issue == issue {
          number, ctx := order[i], builds[order[i]];
          break;
        }
      }
      builds := builds - {number};
    }
  }

  // ---- The poll loop ---------------------------------------------------------------------------

  datatype BuildStatus = UNKNOWN | QUEUED | BUILDING | SUCCESS | FAILED | ABORTED | NOT_BUILT

  predicate Terminal(status: BuildStatus) {
    status == SUCCESS || status == FAILED || status == ABORTED || status == NOT_BUILT
  }

  /** Jenkins answers a status query or the query fails. */
  datatype StatusReply = StatusReply(ok: bool, status: BuildStatus)

  predicate Final(reply: StatusReply) {
    reply.ok && Terminal(reply.status)
  }

  /** What a poll thread concludes from the replies it gets before the loop ends: the first final
      status, or ABORTED when there is none before the deadline or the stop. */
  function PollOutcome(replies: seq<StatusReply>): (status: BuildStatus)
    ensures Terminal(status)
  {
    if replies == [] then ABORTED
    else if Final(replies[0]) then replies[0].status
    else PollOutcome(replies[1..])
  }

  lemma {:induction false} PollOutcomeIs(replies: seq<StatusReply>)
    requires forall k :: 0 <= k < |replies| - 1 ==> !Final(replies[k])
    ensures PollOutcome(replies)
         == if replies != [] && Final(replies[|replies| - 1]) then replies[|replies| - 1].status else ABORTED
  {
    if |replies| > 1 {
      PollOutcomeIs(replies[1..]);
    }
  }

  /** clock(0) is read for the deadline, clock(k + 1) at the loop test before query k; between two
      tests the thread sleeps for the interval. */
  ghost predicate Sleeps(clock: nat -> int, interval: int) {
    clock(0) <= clock(1) && forall k: nat :: k >= 1 ==> clock(k) + interval <= clock(k + 1)
  }

  /** Test `k` of the loop lets the thread ask again. */
  predicate GoesOn(timeout: int, clock: nat -> int, running: nat -> bool, k: nat) {
    running(k) && clock(k + 1) < clock(0) + timeout
  }

  /** The loop cannot go beyond test `k`. */
  predicate Ends(timeout: int, clock: nat -> int, running: nat -> bool, replies: nat -> StatusReply, k: nat) {
    !GoesOn(timeout, clock, running, k) || Final(replies(k))
  }

  function FirstReplies(replies: nat -> StatusReply, n: nat): seq<StatusReply> {
    seq(n, k requires 0 <= k < n => replies(k))
  }

  /** The interval may be anything, zero included; `ends` is some test that the loop cannot go beyond,
      without which the source's loop would not end either. */
  method PollBuild(timeout: int, interval: int, clock: nat -> int, running: nat -> bool, replies: nat -> StatusReply,
                   ghost ends: nat)
    returns (status: BuildStatus, queries: nat)
    requires Ends(timeout, clock, running, replies, ends)
    ensures status == PollOutcome(FirstReplies(replies, queries))
    ensures forall k: nat :: k < queries ==> GoesOn(timeout, clock, running, k)
    ensures forall k: nat :: k + 1 < queries ==> !Final(replies(k))
    ensures (queries > 0 && Final(replies(queries - 1))) || !GoesOn(timeout, clock, running, queries)
    ensures interval > 0 && Sleeps(clock, interval) ==> queries <= Max(0, CeilDiv(timeout, interval))
  {
    var deadline := clock(0) + timeout;
    var done := false;
    status := UNKNOWN;
    queries := 0;
    while !done && running(queries) && clock(queries + 1) < deadline
      invariant if done then queries > 0 && Final(replies(queries - 1)) && status == replies(queries - 1).status
                else queries <= ends && (queries > 0 ==> !Final(replies(queries - 1)))
      invariant forall k: nat :: k < queries ==> GoesOn(timeout, clock, running, k)
      invariant forall k: nat :: k + 1 < queries ==> !Final(replies(k))
      decreases !done, ends - queries
    {
      assert GoesOn(timeout, clock, running, queries);
      var st := replies(queries);
      queries := queries + 1;
      if st.ok && Terminal(st.status) {
        done := true;
        status := st.status;
      }
    }
    if !done {
      status := ABORTED;
    }
    RepliesOutcome(replies, queries);
    assert queries > 0 ==> GoesOn(timeout, clock, running, queries - 1);
    if interval > 0 && Sleeps(clock, interval) {
      PollBound(timeout, interval, clock, queries);
    }
  }

  lemma RepliesOutcome(replies: nat -> StatusReply, n: nat)
    requires forall k: nat :: k + 1 < n ==> !Final(replies(k))
    ensures PollOutcome(FirstReplies(replies, n))
         == if n > 0 && Final(replies(n - 1)) then replies(n - 1).status else ABORTED
  {
    PollOutcomeIs(FirstReplies(replies, n));
  }

  lemma PollBound(timeout: int, interval: int, clock: nat -> int, queries: nat)
    requires interval > 0 && Sleeps(clock, interval)
    requires queries > 0 ==> clock(queries) < clock(0) + timeout
    ensures queries <= Max(0, CeilDiv(timeout, interval))
  {
    ClockRuns(clock, interval, Max(0, queries - 1));
    QueryBound(queries, timeout, interval);
  }

  lemma {:induction false} ClockRuns(clock: nat -> int, interval: int, k: nat)
    requires Sleeps(clock, interval)
    ensures clock(k + 1) >= clock(0) + k * interval
  {
    if k > 0 {
      ClockRuns(clock, interval, k - 1);
      assert k * interval == (k - 1) * interval + interval;
    }
  }

  /** With a positive interval time alone ends the loop. */
  lemma SleepingEnds(timeout: int, interval: int, clock: nat -> int, running: nat -> bool, replies: nat -> StatusReply)
    returns (ends: nat)
    requires interval > 0 && Sleeps(clock, interval)
    ensures Ends(timeout, clock, running, replies, ends)
  {
    ends := Max(0, timeout);
    ClockRuns(clock, interval, ends);
    assert ends * interval >= ends;
  }

  lemma QueryBound(queries: nat, timeout: int, interval: int)
    requires interval > 0
    requires queries > 0 ==> (queries - 1) * interval < timeout
    ensures queries <= Max(0, CeilDiv(timeout, interval))
  {
    var c, top := CeilDiv(timeout, interval), timeout + interval - 1;
    assert c * interval == top - top % interval;
    if queries > 0 {
      LessByFactor(queries - 1, c, interval);
    }
  }

  lemma LessByFactor(a: int, b: int, k: int)
    requires k > 0 && a * k < b * k
    ensures a < b
  {
    assert (b - a) * k == b * k - a * k > 0;
  }
}
