/** The access token cache (DingTalkService.get_access_token in forwarder/app/services/dingtalk.py):
    checked without the lock, checked again under it, then fetched in a worker thread. */
module TokenCache {
  import opened Common

  const MARGIN := 300.0
  const DEFAULT_LIFE := 7200

  /** The empty token stands for None as well: the source only asks whether it is truthy. */
  datatype Cache = Cache(token: string, expiresAt: real)

  predicate Usable(cache: Cache, now: real) {
    cache.token != "" && now < cache.expiresAt - MARGIN
  }

  /** What the server granted; 0 stands for an absent lifetime as well. */
  datatype Grant = Grant(token: string, expireIn: int, at: real)

  function Life(g: Grant): real {
    (if g.expireIn == 0 then DEFAULT_LIFE else g.expireIn) as real
  }

  function Stored(g: Grant): Cache {
    Cache(g.token, g.at + Life(g))
  }

  class TokenService {
    var token: string
    var expiresAt: real

    constructor ()
      ensures token == "" && expiresAt == 0.0
    {
      token, expiresAt := "", 0.0;
    }

    /** Either of the two checks. */
    method TryCached(now: real) returns (r: Option<string>)
      ensures r == if Usable(Cache(token, expiresAt), now) then Some(token) else None
    {
      if token != "" && now < expiresAt - 300.0 {
        return Some(token);
      }
      return None;
    }

    /** What follows a successful fetch, still under the lock. */
    method Store(fetched: string, expireIn: int, now: real) returns (r: string)
      modifies this
      ensures Cache(token, expiresAt) == Stored(Grant(fetched, expireIn, now)) && r == fetched
    {
      var life := if expireIn == 0 then DEFAULT_LIFE else expireIn;
      token := fetched;
      expiresAt := now + life as real;
      return token;
    }
  }

  // ---- Interleaved callers --------------------------------------------------------------------

  /** `grant` is the place of the returned token in the list of grants, `left` the time it had left
      at the check that let it be returned. */
  datatype Caller =
    | Waiting
    | Fetching(since: real)
    | Returned(grant: nat, left: real)
    | Failed
    | Cancelled

  /** `orphans` counts worker threads whose caller was cancelled while they were fetching. */
  datatype System = System(
    cache: Cache, callers: map<nat, Caller>, holder: Option<nat>, orphans: nat, grants: seq<Grant>, clock: real)

  const START := System(Cache("", 0.0), map[], None, 0, [], 0.0)

  datatype Step =
    | Call(c: nat, now: real)
    | Acquire(c: nat, now: real)
    | Fetched(c: nat, token: string, expireIn: int, now: real)
    | FetchFails(c: nat, now: real)
    | Cancel(c: nat, now: real)
    | OrphanEnds(now: real)

  predicate Enabled(s: System, step: Step) {
    && step.now >= s.clock
    && match step
       case Call(c, _) => c !in s.callers
       case Acquire(c, _) => c in s.callers && s.callers[c].Waiting? && s.holder.None?
       case Fetched(c, _, _, _) => c in s.callers && s.callers[c].Fetching?
       case FetchFails(c, _) => c in s.callers && s.callers[c].Fetching?
       case Cancel(c, _) => c in s.callers && (s.callers[c].Waiting? || s.callers[c].Fetching?)
       case OrphanEnds(_) => s.orphans > 0
  }

  function Served(s: System, c: nat, now: real): map<nat, Caller> {
    s.callers[c := Returned(Max(0, |s.grants| - 1), s.cache.expiresAt - now)]
  }

  function Next(s: System, step: Step): System
    requires Enabled(s, step)
  {
    match step
    case Call(c, now) =>
      s.(clock := now, callers := if Usable(s.cache, now) then Served(s, c, now) else s.callers[c := Waiting])
    case Acquire(c, now) =>
      if Usable(s.cache, now) then s.(clock := now, callers := Served(s, c, now))
      else s.(clock := now, callers := s.callers[c := Fetching(now)], holder := Some(c))
    case Fetched(c, token, expireIn, now) =>
      var g := Grant(token, expireIn, now);
      s.(clock := now, cache := Stored(g), grants := s.grants + [g], holder := None,
         callers := s.callers[c := Returned(|s.grants|, Life(g))])
    case FetchFails(c, now) => s.(clock := now, callers := s.callers[c := Failed], holder := None)
    case Cancel(c, now) =>
      if s.callers[c].Fetching? then
        s.(clock := now, callers := s.callers[c := Cancelled], holder := None, orphans := s.orphans + 1)
      else s.(clock := now, callers := s.callers[c := Cancelled])
    case OrphanEnds(now) => s.(clock := now, orphans := s.orphans - 1)
  }

  function Run(steps: seq<Step>): System {
    if steps == [] then START
    else
      var s := Run(steps[..|steps| - 1]);
      if Enabled(s, steps[|steps| - 1]) then Next(s, steps[|steps| - 1]) else s
  }

  // ---- Properties -----------------------------------------------------------------------------

  /** The callers whose own fetch is running, as many as there are worker threads besides orphans. */
  function FetchingNow(s: System): set<nat> {
    set c | c in s.callers && s.callers[c].Fetching?
  }

  function InFlight(s: System): nat {
    |FetchingNow(s)| + s.orphans
  }

  predicate LockKept(s: System) {
    && (s.holder.Some? ==> s.holder.value in s.callers && s.callers[s.holder.value].Fetching?)
    && (forall c :: c in s.callers && s.callers[c].Fetching? ==> s.holder == Some(c))
  }

  predicate CacheIsNewest(s: System) {
    s.cache == if s.grants == [] then Cache("", 0.0) else Stored(s.grants[|s.grants| - 1])
  }

  predicate TimeMovesOn(s: System) {
    s.grants != [] ==> s.grants[|s.grants| - 1].at <= s.clock
  }

  /** A fetch is due at `now`: nothing was granted yet, or the newest grant has no token, or it has at
      most the margin left. */
  predicate Due(grants: seq<Grant>, now: real) {
    grants != [] ==>
      var newest := grants[|grants| - 1];
      newest.token == "" || now >= newest.at + Life(newest) - MARGIN
  }

  /** A running fetch was due when it started. */
  predicate FetchWasDue(s: System) {
    forall c :: c in s.callers && s.callers[c].Fetching? ==>
      s.callers[c].since <= s.clock && Due(s.grants, s.callers[c].since)
  }

  predicate Spaced(s: System) {
    forall i :: 0 < i < |s.grants| && s.grants[i - 1].token != "" ==>
      s.grants[i].at >= s.grants[i - 1].at + Life(s.grants[i - 1]) - MARGIN
  }

  /** A returned token had more than the margin left, and so had its grant when it was made; or it
      was returned by the caller that fetched it. */
  predicate ReturnsFresh(s: System) {
    forall c :: c in s.callers && s.callers[c].Returned? ==>
      && s.callers[c].grant < |s.grants|
      && s.callers[c].left <= Life(s.grants[s.callers[c].grant])
      && (s.callers[c].left > MARGIN || s.callers[c].left == Life(s.grants[s.callers[c].grant]))
  }

  ghost predicate Inv(s: System) {
    LockKept(s) && CacheIsNewest(s) && TimeMovesOn(s) && FetchWasDue(s) && Spaced(s) && ReturnsFresh(s)
  }

  lemma LockStep(s: System, step: Step)
    requires LockKept(s) && Enabled(s, step)
    ensures LockKept(Next(s, step))
  {
  }

  lemma DueStep(s: System, step: Step)
    requires LockKept(s) && CacheIsNewest(s) && TimeMovesOn(s) && FetchWasDue(s) && Enabled(s, step)
    ensures CacheIsNewest(Next(s, step)) && TimeMovesOn(Next(s, step)) && FetchWasDue(Next(s, step))
  {
    if step.Fetched? {
      assert forall c :: c in s.callers && s.callers[c].Fetching? ==> c == step.c;
    }
  }

  lemma SpacedStep(s: System, step: Step)
    requires FetchWasDue(s) && Spaced(s) && Enabled(s, step)
    ensures Spaced(Next(s, step))
  {
  }

  lemma FreshStep(s: System, step: Step)
    requires CacheIsNewest(s) && TimeMovesOn(s) && ReturnsFresh(s) && Enabled(s, step)
    ensures ReturnsFresh(Next(s, step))
  {
  }

  lemma InvStep(s: System, step: Step)
    requires Inv(s) && Enabled(s, step)
    ensures Inv(Next(s, step))
  {
    LockStep(s, step);
    DueStep(s, step);
    SpacedStep(s, step);
    FreshStep(s, step);
  }

  lemma {:induction false} InvRun(steps: seq<Step>)
    ensures Inv(Run(steps))
  {
    if steps != [] {
      var s := Run(steps[..|steps| - 1]);
      InvRun(steps[..|steps| - 1]);
      if Enabled(s, steps[|steps| - 1]) {
        InvStep(s, steps[|steps| - 1]);
      }
    }
  }

  // ---- How many fetches at once -------------------------------------------------------------------

  lemma {:induction false} NoOrphans(steps: seq<Step>)
    requires forall i :: 0 <= i < |steps| ==> !steps[i].Cancel?
    ensures Run(steps).orphans == 0
  {
    if steps != [] {
      NoOrphans(steps[..|steps| - 1]);
    }
  }

  /** Under any interleaving at most one caller is fetching, and without cancellations at most one fetch
      is in flight. */
  lemma OneFetchAtATime(steps: seq<Step>)
    ensures |FetchingNow(Run(steps))| == if Run(steps).holder.Some? then 1 else 0
    ensures InFlight(Run(steps)) <= 1 + Run(steps).orphans
    ensures (forall i :: 0 <= i < |steps| ==> !steps[i].Cancel?) ==> InFlight(Run(steps)) <= 1
  {
    InvRun(steps);
    FetchingIsHolder(Run(steps));
    if forall i :: 0 <= i < |steps| ==> !steps[i].Cancel? {
      NoOrphans(steps);
    }
  }

  lemma FetchingIsHolder(s: System)
    requires LockKept(s)
    ensures FetchingNow(s) == if s.holder.Some? then {s.holder.value} else {}
  {
  }

  /** Time is that of the last step, and it never goes back; the free lock goes to a caller that waits for it,
      and to nobody else. */
  lemma TurnsExactly(s: System, step: Step)
    ensures Enabled(s, step) ==> s.clock <= step.now == Next(s, step).clock
    ensures step.Acquire? ==>
              (Enabled(s, step) <==>
                 s.clock <= step.now && s.holder == None && step.c in s.callers && s.callers[step.c] == Waiting)
  {
  }

  /** Any caller that has not got its answer can be cancelled. One that only waits leaves no trace; one that
      fetches leaves its worker behind, which can end at any time and changes nothing but that. */
  lemma CancellingExactly(s: System, c: nat, now: real)
    requires c in s.callers && s.clock <= now
    ensures Enabled(s, Cancel(c, now)) <==> s.callers[c].Waiting? || s.callers[c].Fetching?
    ensures s.callers[c].Waiting? ==>
              Next(s, Cancel(c, now)) == s.(clock := now, callers := s.callers[c := Cancelled])
    ensures s.callers[c].Fetching? ==>
              var left := Next(s, Cancel(c, now));
              && left.holder == None && left.cache == s.cache && left.grants == s.grants
              && Enabled(left, OrphanEnds(now)) && Next(left, OrphanEnds(now)) == left.(orphans := s.orphans)
  {
  }

  /** A caller takes the lock to fetch while the worker of a cancelled one is still fetching. */
  predicate Overlaps(s: System, step: Step) {
    step.Acquire? && !Usable(s.cache, step.now) && s.orphans > 0
  }

  /** The step that makes it two fetches at once, exactly. */
  lemma SecondFetchExactly(s: System, step: Step)
    requires LockKept(s) && Enabled(s, step) && InFlight(s) <= 1
    ensures InFlight(Next(s, step)) > 1 <==> Overlaps(s, step)
  {
    LockStep(s, step);
    FetchingIsHolder(s);
    FetchingIsHolder(Next(s, step));
  }

  /** No step of the run overlaps. */
  predicate NeverOverlaps(steps: seq<Step>) {
    steps == [] ||
      (var before, last := steps[..|steps| - 1], steps[|steps| - 1];
       NeverOverlaps(before) && (Enabled(Run(before), last) ==> !Overlaps(Run(before), last)))
  }

  /** At most one fetch is in flight after every step of the run. */
  predicate NeverTwoFetches(steps: seq<Step>) {
    InFlight(Run(steps)) <= 1 && (steps == [] || NeverTwoFetches(steps[..|steps| - 1]))
  }

  /** At most one fetch is in flight throughout a run if and only if no caller takes the lock to fetch
      while a cancelled caller's worker is still fetching; all other cancellations are harmless. */
  lemma {:induction false} SingleFlightExactly(steps: seq<Step>)
    ensures NeverTwoFetches(steps) <==> NeverOverlaps(steps)
  {
    if steps == [] {
      assert FetchingNow(START) == {};
    } else {
      var before, last := steps[..|steps| - 1], steps[|steps| - 1];
      SingleFlightExactly(before);
      if NeverTwoFetches(before) && Enabled(Run(before), last) {
        InvRun(before);
        SecondFetchExactly(Run(before), last);
      }
    }
  }

  lemma RunOne(before: seq<Step>, step: Step)
    requires Enabled(Run(before), step)
    ensures Run(before + [step]) == Next(Run(before), step)
  {
    assert (before + [step])[..|before|] == before;
  }

  /** It does happen: a caller cancelled while fetching, another one waiting. */
  lemma CancellationOverlapsFetches() returns (steps: seq<Step>)
    ensures InFlight(Run(steps)) == 2
  {
    steps := [];
    RunOne(steps, Call(1, 0.0));
    steps := steps + [Call(1, 0.0)];
    RunOne(steps, Acquire(1, 0.0));
    steps := steps + [Acquire(1, 0.0)];
    RunOne(steps, Call(2, 0.0));
    steps := steps + [Call(2, 0.0)];
    RunOne(steps, Cancel(1, 1.0));
    steps := steps + [Cancel(1, 1.0)];
    RunOne(steps, Acquire(2, 1.0));
    steps := steps + [Acquire(2, 1.0)];
    assert FetchingNow(Run(steps)) == {2};
  }

  // ---- When a fetch starts --------------------------------------------------------------------------

  /** A caller that gets the lock fetches if and only if a fetch is due. */
  lemma FetchesExactlyWhenDue(steps: seq<Step>, step: Step)
    requires Enabled(Run(steps), step) && step.Acquire?
    ensures Next(Run(steps), step).callers[step.c].Fetching? <==> Due(Run(steps).grants, step.now)
  {
    InvRun(steps);
  }

  /** The seconds for which a grant is good: what the server said, or two hours if it said nothing. */
  function Seconds(g: Grant): int {
    if g.expireIn == 0 then 7200 else g.expireIn
  }

  /** A caller gets the cached token if and only if the newest grant has one and more than 300 seconds are
      left of the seconds that were granted; nobody is ever given it later. */
  lemma ServedExactly(steps: seq<Step>, step: Step)
    requires Enabled(Run(steps), step) && (step.Call? || step.Acquire?)
    ensures var grants, caller := Run(steps).grants, Next(Run(steps), step).callers[step.c];
            && (caller.Returned? <==>
                  && grants != [] && grants[|grants| - 1].token != ""
                  && step.now < grants[|grants| - 1].at + Seconds(grants[|grants| - 1]) as real - 300.0)
            && (caller.Returned? ==> caller.grant == |grants| - 1)
  {
    InvRun(steps);
  }

  /** The caller that fetched returns its own grant, at once. */
  lemma FetchedReturnsItsOwn(steps: seq<Step>, step: Step)
    requires Enabled(Run(steps), step) && step.Fetched?
    ensures var next := Next(Run(steps), step);
            && next.callers[step.c].Returned? && next.callers[step.c].grant == |Run(steps).grants|
            && next.grants == Run(steps).grants + [Grant(step.token, step.expireIn, step.now)]
            && next.cache == Cache(step.token, step.now + Seconds(Grant(step.token, step.expireIn, step.now)) as real)
  {
  }

  /** A grant that carries a token and lasts at least `e` seconds. */
  predicate Good(g: Grant, e: real) {
    Life(g) >= e && g.token != ""
  }

  /** Hence a fetch starts no earlier than `e` - 300 seconds after the last successful one completed. */
  lemma FetchesAreSpaced(steps: seq<Step>, step: Step, e: real)
    requires Enabled(Run(steps), step) && step.Acquire? && Next(Run(steps), step).callers[step.c].Fetching?
    requires Run(steps).grants != [] && Good(Run(steps).grants[|Run(steps).grants| - 1], e)
    ensures step.now >= Run(steps).grants[|Run(steps).grants| - 1].at + e - MARGIN
  {
    FetchesExactlyWhenDue(steps, step);
  }

  lemma {:induction false} SpacedSum(s: System, e: real, i: nat, j: nat)
    requires Spaced(s) && i <= j < |s.grants| && forall k :: i <= k < j ==> Good(s.grants[k], e)
    ensures s.grants[j].at - s.grants[i].at >= (j - i) as real * (e - MARGIN)
    decreases j
  {
    if i < j {
      SpacedSum(s, e, i, j - 1);
      assert Good(s.grants[j - 1], e);
      var n := (j - 1 - i) as real;
      assert (j - i) as real == n + 1.0;
      assert (n + 1.0) * (e - MARGIN) == n * (e - MARGIN) + (e - MARGIN);
    }
  }

  /** Hence k + 1 successful fetches, of which the first k are good, take at least k * (e - 300)
      seconds. */
  lemma FetchesBounded(steps: seq<Step>, e: real, i: nat, j: nat)
    requires i <= j < |Run(steps).grants| && forall k :: i <= k < j ==> Good(Run(steps).grants[k], e)
    ensures Run(steps).grants[j].at - Run(steps).grants[i].at >= (j - i) as real * (e - MARGIN)
  {
    InvRun(steps);
    SpacedSum(Run(steps), e, i, j);
  }

  /** Every returned token was granted, and it had more than 300 seconds left when it was checked if and
      only if its grant lasts longer than that. */
  lemma ReturnedTokensAreFresh(steps: seq<Step>, c: nat)
    requires c in Run(steps).callers && Run(steps).callers[c].Returned?
    ensures Run(steps).callers[c].grant < |Run(steps).grants|
    ensures Run(steps).callers[c].left > MARGIN <==> Life(Run(steps).grants[Run(steps).callers[c].grant]) > MARGIN
  {
    InvRun(steps);
  }
}
