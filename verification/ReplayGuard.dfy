/** Timestamp window and nonce cache (forwarder/app/crypto/replay_guard.py and its C++ twin).
    Every clock read is a parameter, in the order in which the code reads the clock. */
module ReplayGuard {
  import opened Common

  /** nonce -> expiry in milliseconds */
  type Cache = map<string, int>

  const PURGE_LIMIT := 10000

  predicate WithinWindow(windowSeconds: int, timestamp: int, now: int) {
    now - windowSeconds * 1000 <= timestamp <= now + windowSeconds * 1000
  }

  function Recorded(windowSeconds: int, cache: Cache, nonce: string, now: int): Cache {
    cache[nonce := now + windowSeconds * 1000]
  }

  function Purged(cache: Cache, now: int): Cache {
    map n | n in cache && cache[n] >= now :: cache[n]
  }

  /** One call of a public method with the clock reads it makes. */
  datatype Call =
    | Check(timestamp: int, nonce: string, t1: int, t2: int, t3: int)
    | Record(nonce: string, t: int)
    | Purge(t: int)

  predicate Fresh(windowSeconds: int, cache: Cache, timestamp: int, nonce: string, now: int) {
    WithinWindow(windowSeconds, timestamp, now) && nonce !in cache
  }

  function Apply(windowSeconds: int, cache: Cache, call: Call): Cache {
    match call
    case Check(timestamp, nonce, t1, t2, t3) =>
      if Fresh(windowSeconds, cache, timestamp, nonce, t1) then
        var recorded := Recorded(windowSeconds, cache, nonce, t2);
        if |recorded| > PURGE_LIMIT then Purged(recorded, t3) else recorded
      else cache
    case Record(nonce, t) => Recorded(windowSeconds, cache, nonce, t)
    case Purge(t) => Purged(cache, t)
  }

  class Guard {
    const windowSeconds: int
    var nonces: Cache

    constructor (windowSeconds: int := 300)
      ensures this.windowSeconds == windowSeconds && nonces == map[]
    {
      this.windowSeconds := windowSeconds;
      nonces := map[];
    }

    method IsWithinWindow(timestamp: int, now: int) returns (ok: bool)
      ensures ok <==> WithinWindow(windowSeconds, timestamp, now)
      ensures !ok <==> timestamp < now - windowSeconds * 1000 || now + windowSeconds * 1000 < timestamp
    {
      var windowMs := windowSeconds * 1000;
      ok := timestamp >= now - windowMs && timestamp <= now + windowMs;
    }

    method IsReplay(nonce: string) returns (seen: bool)
      ensures seen <==> nonce in nonces
    {
      seen := nonce in nonces;
    }

    method RecordNonce(nonce: string, now: int)
      modifies this
      ensures nonces == Apply(windowSeconds, old(nonces), Record(nonce, now))
    {
      var expiry := now + windowSeconds * 1000;
      nonces := nonces[nonce := expiry];
    }

    method CheckAndRecord(timestamp: int, nonce: string, t1: int, t2: int, t3: int) returns (accepted: bool)
      modifies this
      ensures accepted <==> Fresh(windowSeconds, old(nonces), timestamp, nonce, t1)
      ensures nonces == Apply(windowSeconds, old(nonces), Check(timestamp, nonce, t1, t2, t3))
    {
      var inside := IsWithinWindow(timestamp, t1);
      if !inside {
        return false;
      }
      var seen := IsReplay(nonce);
      if seen {
        return false;
      }
      RecordNonce(nonce, t2);
      if |nonces| > PURGE_LIMIT {
        PurgeExpired(t3);
      }
      return true;
    }

    /** The Python purge rebuilds the dictionary. */
    method PurgeExpired(now: int)
      modifies this
      ensures nonces == Apply(windowSeconds, old(nonces), Purge(now))
    {
      nonces := map n | n in nonces && nonces[n] >= now :: nonces[n];
    }

    /** The C++ purge erases one entry after another, in an order it does not choose. */
    method PurgeInPlace(now: int)
      modifies this
      ensures nonces == Apply(windowSeconds, old(nonces), Purge(now))
    {
      var todo := nonces.Keys;
      while todo != {}
        invariant todo <= old(nonces).Keys
        invariant nonces == map n | n in old(nonces) && (n in todo || old(nonces)[n] >= now) :: old(nonces)[n]
        decreases todo
      {
        var n :| n in todo;
        todo := todo - {n};
        if nonces[n] < now {
          nonces := nonces - {n};
        }
      }
    }
  }

  // ---- Runs, and a guard that never forgets ---------------------------------------------------

  function CacheAfter(windowSeconds: int, calls: seq<Call>): Cache {
    if calls == [] then map[]
    else Apply(windowSeconds, CacheAfter(windowSeconds, calls[..|calls| - 1]), calls[|calls| - 1])
  }

  /** The reference: every nonce ever recorded, with the time of its first record. */
  function SeenAfter(windowSeconds: int, calls: seq<Call>): map<string, int> {
    if calls == [] then map[]
    else Remember(windowSeconds, SeenAfter(windowSeconds, calls[..|calls| - 1]), calls[|calls| - 1])
  }

  function Remember(windowSeconds: int, seen: map<string, int>, call: Call): map<string, int> {
    match call
    case Check(timestamp, nonce, t1, t2, _) =>
      if WithinWindow(windowSeconds, timestamp, t1) && nonce !in seen then seen[nonce := t2] else seen
    case Record(nonce, t) => if nonce in seen then seen else seen[nonce := t]
    case Purge(_) => seen
  }

  function FirstRead(call: Call): int {
    match call
    case Check(_, _, t1, _, _) => t1
    case Record(_, t) => t
    case Purge(t) => t
  }

  function LastRead(call: Call): int {
    match call
    case Check(_, _, _, _, t3) => t3
    case Record(_, t) => t
    case Purge(t) => t
  }

  predicate OrderedReads(call: Call) {
    call.Check? ==> call.t1 <= call.t2 <= call.t3
  }

  /** The clock never goes back, inside a call or between calls. */
  predicate ClockForward(calls: seq<Call>) {
    && (forall i :: 0 <= i < |calls| ==> OrderedReads(calls[i]))
    && (forall i, j :: 0 <= i < j < |calls| ==> LastRead(calls[i]) <= FirstRead(calls[j]))
  }

  /** Every cached nonce was seen and expires no earlier than its first record allows; a seen nonce
      that is gone had expired by time `now`. */
  ghost predicate Consistent(windowSeconds: int, cache: Cache, seen: map<string, int>, now: int) {
    && (forall n :: n in cache ==> n in seen && seen[n] + windowSeconds * 1000 <= cache[n])
    && (forall n :: n in seen && n !in cache ==> seen[n] + windowSeconds * 1000 < now)
    && (forall n :: n in seen ==> seen[n] <= now)
  }

  lemma ConsistentStep(windowSeconds: int, cache: Cache, seen: map<string, int>, now: int, call: Call)
    requires Consistent(windowSeconds, cache, seen, now)
    requires OrderedReads(call) && now <= FirstRead(call)
    ensures Consistent(windowSeconds, Apply(windowSeconds, cache, call), Remember(windowSeconds, seen, call),
                       LastRead(call))
  {
    match call
    case Check(timestamp, nonce, t1, t2, t3) =>
      if Fresh(windowSeconds, cache, timestamp, nonce, t1) {
        var recorded := Recorded(windowSeconds, cache, nonce, t2);
        assert Consistent(windowSeconds, recorded, Remember(windowSeconds, seen, call), t3);
      }
    case Record(nonce, t) =>
    case Purge(t) =>
  }

  ghost function Now(calls: seq<Call>, start: int): int {
    if calls == [] then start else LastRead(calls[|calls| - 1])
  }

  lemma {:induction false} CacheInvariant(windowSeconds: int, calls: seq<Call>, start: int)
    requires ClockForward(calls)
    requires calls != [] ==> start <= FirstRead(calls[0])
    ensures Consistent(windowSeconds, CacheAfter(windowSeconds, calls), SeenAfter(windowSeconds, calls),
                       Now(calls, start))
  {
    if calls != [] {
      var before, call := calls[..|calls| - 1], calls[|calls| - 1];
      CacheInvariant(windowSeconds, before, start);
      var cache, seen := CacheAfter(windowSeconds, before), SeenAfter(windowSeconds, before);
      ConsistentStep(windowSeconds, cache, seen, Now(before, start), call);
    }
  }

  lemma ClockForwardPrefix(calls: seq<Call>, more: seq<Call>)
    requires ClockForward(calls + more)
    ensures ClockForward(calls)
  {
    var all := calls + more;
    assert forall i :: 0 <= i < |calls| ==> calls[i] == all[i];
  }

  /** Under a clock that never goes back, forgetting expired nonces changes no verdict on a message
      whose timestamp is not later than the first record of its nonce; so a nonce accepted again
      comes with a later timestamp than that. */
  lemma PurgingKeepsVerdicts(windowSeconds: int, calls: seq<Call>, call: Call)
    requires call.Check? && ClockForward(calls + [call])
    ensures var cache, seen := CacheAfter(windowSeconds, calls), SeenAfter(windowSeconds, calls);
            var accepted := Fresh(windowSeconds, cache, call.timestamp, call.nonce, call.t1);
            var reference := WithinWindow(windowSeconds, call.timestamp, call.t1) && call.nonce !in seen;
            && ((call.nonce in seen ==> call.timestamp <= seen[call.nonce]) ==> (accepted <==> reference))
            && (accepted && call.nonce in seen ==> call.timestamp > seen[call.nonce])
  {
    var all := calls + [call];
    ClockForwardPrefix(calls, [call]);
    CacheInvariant(windowSeconds, calls, FirstRead(all[0]));
    if calls != [] {
      assert LastRead(all[|calls| - 1]) <= FirstRead(all[|calls|]);
    }
  }

  /** After an accepting call the cache has at most 10000 entries, or holds only entries unexpired at the
      purge; and only a cache that grew beyond 10000 forgets anything. */
  lemma CacheBound(windowSeconds: int, cache: Cache, call: Call)
    requires call.Check? && Fresh(windowSeconds, cache, call.timestamp, call.nonce, call.t1)
    ensures var after := Apply(windowSeconds, cache, call);
            && (|after| <= 10000 || forall n :: n in after ==> after[n] >= call.t3)
            && (|cache| < 10000 ==> after.Keys == cache.Keys + {call.nonce})
            && (forall n :: n in cache && n !in after ==> |cache| >= 10000 && cache[n] < call.t3)
  {
    assert call.nonce !in cache;
    assert Recorded(windowSeconds, cache, call.nonce, call.t2).Keys == cache.Keys + {call.nonce};
  }

  /** Some later calls, the last of which offers the same message again and is accepted. */
  ghost predicate AcceptedAgain(windowSeconds: int, calls: seq<Call>, timestamp: int, nonce: string, more: seq<Call>) {
    && more != []
    && ClockForward(calls + more)
    && var again := more[|more| - 1];
       && again.Check? && again.timestamp == timestamp && again.nonce == nonce
       && Fresh(windowSeconds, CacheAfter(windowSeconds, calls + more[..|more| - 1]), timestamp, nonce, again.t1)
  }

  lemma {:induction false} SeenGrows(windowSeconds: int, calls: seq<Call>, more: seq<Call>, nonce: string)
    requires nonce in SeenAfter(windowSeconds, calls)
    ensures nonce in SeenAfter(windowSeconds, calls + more)
    ensures SeenAfter(windowSeconds, calls + more)[nonce] == SeenAfter(windowSeconds, calls)[nonce]
    decreases |more|
  {
    if more == [] {
      assert calls + more == calls;
    } else {
      assert (calls + more)[..|calls + more| - 1] == calls + more[..|more| - 1];
      SeenGrows(windowSeconds, calls, more[..|more| - 1], nonce);
    }
  }

  /** When one and the same message can be accepted twice under a forward clock: exactly when it was
      dated after its own record and is still inside the window when the accepting call returns. */
  lemma AcceptedAgainExactly(windowSeconds: int, calls: seq<Call>, call: Call)
    requires call.Check? && ClockForward(calls + [call])
    requires WithinWindow(windowSeconds, call.timestamp, call.t1) && call.nonce !in SeenAfter(windowSeconds, calls)
    ensures (exists more :: AcceptedAgain(windowSeconds, calls + [call], call.timestamp, call.nonce, more))
       <==> call.timestamp > call.t2 && call.timestamp >= call.t3 - windowSeconds * 1000
  {
    var all := calls + [call];
    assert all[..|all| - 1] == calls;
    assert SeenAfter(windowSeconds, all)[call.nonce] == call.t2;
    if call.timestamp > call.t2 && call.timestamp >= call.t3 - windowSeconds * 1000 {
      ReplayAfterPurge(windowSeconds, calls, call);
    } else {
      forall more | AcceptedAgain(windowSeconds, all, call.timestamp, call.nonce, more)
        ensures false
      {
        var before, again := all + more[..|more| - 1], more[|more| - 1];
        assert all + more == before + [again];
        assert LastRead((all + more)[|calls|]) <= FirstRead((all + more)[|all + more| - 1]);
        SeenGrows(windowSeconds, all, more[..|more| - 1], call.nonce);
        PurgingKeepsVerdicts(windowSeconds, before, again);
      }
    }
  }

  lemma ClockForwardExtend(calls: seq<Call>, more: seq<Call>, t: int)
    requires ClockForward(calls) && calls != [] && LastRead(calls[|calls| - 1]) <= t
    requires forall i :: 0 <= i < |more| ==> OrderedReads(more[i]) && FirstRead(more[i]) == LastRead(more[i]) == t
    ensures ClockForward(calls + more)
  {
    var all, last := calls + more, calls[|calls| - 1];
    assert OrderedReads(last) && FirstRead(last) <= LastRead(last) <= t;
    assert forall i :: 0 <= i < |calls| - 1 ==> LastRead(calls[i]) <= FirstRead(calls[|calls| - 1]);
  }

  lemma ReplayAfterPurge(windowSeconds: int, calls: seq<Call>, call: Call)
    requires call.Check? && ClockForward(calls + [call])
    requires WithinWindow(windowSeconds, call.timestamp, call.t1) && call.nonce !in SeenAfter(windowSeconds, calls)
    requires call.timestamp > call.t2 && call.timestamp >= call.t3 - windowSeconds * 1000
    ensures exists more :: AcceptedAgain(windowSeconds, calls + [call], call.timestamp, call.nonce, more)
  {
    var all := calls + [call];
    var t := Max(call.t3, call.t2 + windowSeconds * 1000 + 1);
    var again := Check(call.timestamp, call.nonce, t, t, t);
    var more := [Purge(t), again];
    assert more[..1] == [Purge(t)];
    assert (all + [Purge(t)])[..|all|] == all && all[..|calls|] == calls;
    ClockForwardPrefix(calls, [call]);
    CacheInvariant(windowSeconds, calls, FirstRead(all[0]));
    assert call.nonce !in CacheAfter(windowSeconds, calls);
    var cache := CacheAfter(windowSeconds, all);
    assert call.nonce in cache ==> cache[call.nonce] == call.t2 + windowSeconds * 1000;
    assert call.nonce !in CacheAfter(windowSeconds, all + [Purge(t)]);
    ClockForwardExtend(all, [Purge(t), again], t);
    assert AcceptedAgain(windowSeconds, all, call.timestamp, call.nonce, more);
  }

  // ---- Any clock ------------------------------------------------------------------------------

  /** Call `call` on this cache records the nonce; the time of the record. */
  predicate Records(windowSeconds: int, cache: Cache, call: Call, nonce: string) {
    match call
    case Check(timestamp, n, t1, _, _) => n == nonce && Fresh(windowSeconds, cache, timestamp, n, t1)
    case Record(n, _) => n == nonce
    case Purge(_) => false
  }

  function RecordTime(call: Call): int {
    match call
    case Check(_, _, _, t2, _) => t2
    case Record(_, t) => t
    case Purge(t) => t
  }

  /** Call `call` on this cache purges it at time `t`: a purge itself, or a check that finds too many
      entries. */
  predicate Purges(windowSeconds: int, cache: Cache, call: Call, t: int) {
    match call
    case Check(timestamp, n, t1, t2, t3) =>
      Fresh(windowSeconds, cache, timestamp, n, t1) && |Recorded(windowSeconds, cache, n, t2)| > PURGE_LIMIT && t == t3
    case Record(_, _) => false
    case Purge(now) => t == now
  }

  /** The place of the newest call that records the nonce, or -1. */
  function NewestRecord(windowSeconds: int, calls: seq<Call>, nonce: string): (k: int)
    ensures -1 <= k < |calls|
  {
    if calls == [] then -1
    else
      var before, last := calls[..|calls| - 1], calls[|calls| - 1];
      if Records(windowSeconds, CacheAfter(windowSeconds, before), last, nonce) then |calls| - 1
      else NewestRecord(windowSeconds, before, nonce)
  }

  /** No purge from call k on, that of call k itself included, reads a time beyond `expiry`. */
  ghost predicate Outlives(windowSeconds: int, calls: seq<Call>, k: int, expiry: int) {
    |calls| <= Max(0, k) ||
      (var before, last := calls[..|calls| - 1], calls[|calls| - 1];
       && Outlives(windowSeconds, before, k, expiry)
       && forall t :: Purges(windowSeconds, CacheAfter(windowSeconds, before), last, t) ==> t <= expiry)
  }

  function Expiry(windowSeconds: int, call: Call): int {
    RecordTime(call) + windowSeconds * 1000
  }

  /** The nonce was recorded, and no purge since its newest record read a time beyond that record's
      expiry. */
  ghost predicate Kept(windowSeconds: int, calls: seq<Call>, nonce: string) {
    var k := NewestRecord(windowSeconds, calls, nonce);
    k >= 0 && Outlives(windowSeconds, calls, k, Expiry(windowSeconds, calls[k]))
  }

  lemma CachedStep(windowSeconds: int, cache: Cache, call: Call, nonce: string)
    ensures var after := Apply(windowSeconds, cache, call);
            var expiry := if Records(windowSeconds, cache, call, nonce) then Some(Expiry(windowSeconds, call))
                          else if nonce in cache then Some(cache[nonce]) else None;
            && (nonce in after <==>
                  expiry.Some? && forall t :: Purges(windowSeconds, cache, call, t) ==> t <= expiry.value)
            && (nonce in after ==> after[nonce] == expiry.value)
  {
    match call
    case Check(timestamp, n, t1, t2, t3) =>
      if Fresh(windowSeconds, cache, timestamp, n, t1) && |Recorded(windowSeconds, cache, n, t2)| > PURGE_LIMIT {
        assert Purges(windowSeconds, cache, call, t3);
      }
    case Record(_, _) =>
    case Purge(t) =>
      assert Purges(windowSeconds, cache, call, t);
  }

  /** Whatever the clock does: a nonce is cached if and only if it was recorded and no purge since its
      newest record read a time beyond that record's expiry. */
  lemma {:induction false} CachedExactly(windowSeconds: int, calls: seq<Call>, nonce: string)
    ensures nonce in CacheAfter(windowSeconds, calls) <==> Kept(windowSeconds, calls, nonce)
    ensures nonce in CacheAfter(windowSeconds, calls) ==>
              CacheAfter(windowSeconds, calls)[nonce]
              == Expiry(windowSeconds, calls[NewestRecord(windowSeconds, calls, nonce)])
  {
    if calls != [] {
      var before, last := calls[..|calls| - 1], calls[|calls| - 1];
      CachedExactly(windowSeconds, before, nonce);
      CachedStep(windowSeconds, CacheAfter(windowSeconds, before), last, nonce);
      var k := NewestRecord(windowSeconds, calls, nonce);
      if k >= 0 {
        var expiry := Expiry(windowSeconds, calls[k]);
        assert k < |before| ==> calls[k] == before[k];
        assert Outlives(windowSeconds, calls, k, expiry) <==>
                 Outlives(windowSeconds, before, k, expiry)
                 && forall t :: Purges(windowSeconds, CacheAfter(windowSeconds, before), last, t) ==> t <= expiry;
      }
    }
  }

  /** Hence the verdict of a check, whatever the clock does. */
  lemma AcceptedExactly(windowSeconds: int, calls: seq<Call>, call: Call)
    requires call.Check?
    ensures Fresh(windowSeconds, CacheAfter(windowSeconds, calls), call.timestamp, call.nonce, call.t1)
       <==> call.t1 - windowSeconds * 1000 <= call.timestamp <= call.t1 + windowSeconds * 1000
            && !Kept(windowSeconds, calls, call.nonce)
  {
    CachedExactly(windowSeconds, calls, call.nonce);
  }

  /** A clock that steps back breaks the verdict: the very message of time 0 is taken twice. */
  lemma BackwardClockReplays()
    ensures var calls := [Check(0, "n", 0, 0, 0), Purge(300001)];
            && Fresh(300, CacheAfter(300, []), 0, "n", 0)
            && Fresh(300, CacheAfter(300, calls), 0, "n", 0)
            && !ClockForward(calls + [Check(0, "n", 0, 0, 0)])
  {
    var calls := [Check(0, "n", 0, 0, 0), Purge(300001)];
    assert calls[..1] == [Check(0, "n", 0, 0, 0)] && calls[..1][..0] == [];
    assert CacheAfter(300, calls[..1]) == map["n" := 300000];
    var all := calls + [Check(0, "n", 0, 0, 0)];
    assert LastRead(all[1]) > FirstRead(all[2]);
  }
}
