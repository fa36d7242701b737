/**
 * The idempotency dependency around a request, step by step, against the protocol of concurrent requests.
 * The ghost state `st` is the protocol's state as this request finds it, and `trace` the protocol steps
 * the request takes.
 */
module Dependency {
  import opened Prelude
  import opened Idempotency
  import opened RedisClient

  /** What check_idempotency may raise by itself. */
  datatype EnterError = Refused(verdict: Verdict) | RedisFailed

  /** No client, or a client with the request's key. */
  class IdempotencyContext {
    const replay: Option<Body>
    const redis: Redis?
    const key: Key
    const fingerprint: Digest

    constructor (replay: Option<Body>, redis: Redis?, key: Key, fingerprint: Digest)
      ensures this.replay == replay && this.redis == redis && this.key == key && this.fingerprint == fingerprint
    {
      this.replay, this.redis, this.key, this.fingerprint := replay, redis, key, fingerprint;
    }
  }

  /** The context serves request q: it owns q's key, or q has none. */
  predicate Serves(ctx: IdempotencyContext, redis: Redis, q: Request) {
    && ctx.replay.None?
    && (if q.key.Some? then ctx.redis == redis && ctx.key == q.key.value && ctx.fingerprint == q.Fingerprint()
        else ctx.redis == null)
  }

  /** Request r has moved on to phase p, the keys are as the protocol has them, and nothing else changed. */
  predicate At(st: State, st': State, r: RequestId, p: Phase, keys: map<Key, Stored>, committed: seq<Record>)
    requires r in st.requests
  {
    && st'.redis == keys && st'.committed == committed
    && st'.requests == st.requests[r := st.requests[r].(phase := p)]
  }

  predicate IsStepOf(ev: Event, r: RequestId) {
    !ev.Expire? && ev.r == r
  }

  /** The states between are one step of request r apart. */
  predicate Linked(states: seq<State>, trace: seq<Event>, r: RequestId) {
    && |states| == |trace| + 1
    && forall i {:trigger trace[i]} | 0 <= i < |trace| ::
         IsStepOf(trace[i], r) && states[i + 1] == Step(states[i], trace[i])
  }

  /** Steps of request r alone lead from st to `after`. */
  ghost predicate Ran(st: State, after: State, r: RequestId) {
    exists states, trace :: Linked(states, trace, r) && states[0] == st && states[|trace|] == after
  }

  lemma {:induction false} RanNothing(st: State, r: RequestId)
    ensures Ran(st, st, r)
  {
    assert Linked([st], [], r);
  }

  lemma {:induction false} RanStep(st: State, mid: State, ev: Event, r: RequestId)
    requires Ran(st, mid, r) && IsStepOf(ev, r)
    ensures Ran(st, Step(mid, ev), r)
  {
    var states, trace :| Linked(states, trace, r) && states[0] == st && states[|trace|] == mid;
    var states', trace' := states + [Step(mid, ev)], trace + [ev];
    forall i | 0 <= i < |trace'| ensures IsStepOf(trace'[i], r) && states'[i + 1] == Step(states'[i], trace'[i]) {
      if i < |trace| {
        assert trace'[i] == trace[i];
      }
    }
    assert Linked(states', trace', r) && states'[|trace'|] == Step(mid, ev);
  }

  lemma {:induction false} RanFirst(st: State, ev: Event, r: RequestId)
    requires IsStepOf(ev, r)
    ensures Ran(st, Step(st, ev), r)
  {
    RanNothing(st, r);
    RanStep(st, st, ev, r);
  }

  lemma {:induction false} RanOn(st: State, mid: State, states: seq<State>, trace: seq<Event>, r: RequestId)
    requires Ran(st, mid, r) && Linked(states, trace, r) && states[0] == mid
    ensures Ran(st, states[|trace|], r)
  {
    if trace != [] {
      var last := |trace| - 1;
      assert forall i | 0 <= i < last :: trace[..last][i] == trace[i];
      RanOn(st, mid, states[..|trace|], trace[..last], r);
      assert IsStepOf(trace[last], r);
      RanStep(st, states[last], trace[last], r);
    }
  }

  lemma {:induction false} RanTwice(st: State, mid: State, after: State, r: RequestId)
    requires Ran(st, mid, r) && Ran(mid, after, r)
    ensures Ran(st, after, r)
  {
    var states, trace :| Linked(states, trace, r) && states[0] == mid && states[|trace|] == after;
    RanOn(st, mid, states, trace, r);
  }

  lemma {:induction false} LinkedPrefix(states: seq<State>, trace: seq<Event>, r: RequestId)
    requires Linked(states, trace, r) && trace != []
    ensures var last := |trace| - 1;
            && Linked(states[..|trace|], trace[..last], r)
            && states[|trace|] == Step(states[last], trace[last])
  {
    var last := |trace| - 1;
    assert IsStepOf(trace[last], r);
    forall i | 0 <= i < last
      ensures IsStepOf(trace[..last][i], r) && states[..|trace|][i + 1] == Step(states[..|trace|][i], trace[..last][i])
    {
      assert trace[..last][i] == trace[i];
    }
  }

  lemma {:induction false} LinkedIsRun(events: seq<Event>, states: seq<State>, trace: seq<Event>, r: RequestId)
    requires Linked(states, trace, r) && states[0] == Run(events)
    ensures Run(events + trace) == states[|trace|]
  {
    if trace == [] {
      assert events + trace == events;
    } else {
      var last := |trace| - 1;
      LinkedPrefix(states, trace, r);
      LinkedIsRun(events, states[..|trace|], trace[..last], r);
      RunSnoc(events + trace[..last], trace[last]);
      assert events + trace == events + trace[..last] + [trace[last]];
    }
  }

  /** What a request does from a reachable state is itself a run of the protocol: all that holds of runs holds of it. */
  lemma {:induction false} RanIsReachable(events: seq<Event>, after: State, r: RequestId)
    requires Ran(Run(events), after, r)
    ensures exists trace :: Run(events + trace) == after && forall i | 0 <= i < |trace| :: IsStepOf(trace[i], r)
  {
    var states, trace :| Linked(states, trace, r) && states[0] == Run(events) && states[|trace|] == after;
    LinkedIsRun(events, states, trace, r);
    assert forall i | 0 <= i < |trace| :: IsStepOf(trace[i], r);
  }

  function PhaseOf(entered: Result<IdempotencyContext, EnterError>): Phase {
    match entered
    case Ok(ctx) => if ctx.replay.Some? then Replaying(ctx.replay.value) else Running
    case Err(Refused(verdict)) => Rejected(verdict)
    case Err(RedisFailed) => Failed
  }

  /** SET NX raised: it did nothing, or set the key without the request knowing. */
  lemma {:induction false} SetNxFailed(st: State, claimed: State, r: RequestId, keys: map<Key, Stored>)
    returns (after: State)
    requires r in st.requests && st.requests[r].phase.Arrived? && st.requests[r].key.Some?
    requires claimed == Step(st, Claim(r)) && Ran(st, claimed, r) && (keys == claimed.redis || keys == st.redis)
    ensures Ran(st, after, r)
    ensures At(st, after, r, Failed, keys, st.committed) || At(st, after, r, Crashed(Running), keys, st.committed)
  {
    if keys == st.redis {
      RanFirst(st, Raise(r), r);
      after := Step(st, Raise(r));
    } else {
      RanStep(st, claimed, Crash(r), r);
      after := Step(claimed, Crash(r));
    }
  }

  /** From the start of the dependency to its yield. */
  method Enter(redis: Redis, key: Option<Key>, bytes: Bytes, ghost st: State, r: RequestId)
    returns (entered: Result<IdempotencyContext, EnterError>, ghost after: State)
    requires st.redis == redis.keys && r in st.requests && st.requests[r] == Request(key, bytes, Arrived)
    modifies redis`keys, redis`commands
    ensures Ran(st, after, r)
    ensures At(st, after, r, PhaseOf(entered), redis.keys, st.committed)
         || (entered == Err(RedisFailed) && At(st, after, r, Crashed(Running), redis.keys, st.committed))
    ensures entered.Ok? && entered.value.replay.None? ==> Serves(entered.value, redis, st.requests[r])
    ensures redis.Reliable() ==> entered != Err(RedisFailed)
    ensures redis.Reliable() ==> IsDecided(old(redis.keys), key, bytes, PhaseOf(entered), redis.keys)
  {
    after := Step(st, Claim(r));
    RanFirst(st, Claim(r), r);
    if key.None? {
      var empty := new IdempotencyContext(None, null, 0, Empty);
      return Ok(empty), after;
    }
    var k, fingerprint := key.value, Sha256(bytes);
    var wasSet := redis.SetNx(k, Pending(fingerprint));
    if wasSet.Err? {
      after := SetNxFailed(st, after, r, redis.keys);
      return Err(RedisFailed), after;
    }
    if !wasSet.value {
      var raw := redis.Get(k);
      if raw.Err? {
        RanStep(st, after, Raise(r), r);
        return Err(RedisFailed), Step(after, Raise(r));
      }
      RanStep(st, after, Read(r), r);
      after := Step(after, Read(r));
      if raw.value.None? {
        return Err(Refused(InFlight409)), after;
      }
      var stored := raw.value.value;
      if stored.NotJson? {
        return Err(Refused(InFlight409)), after;
      }
      var storedFingerprint := if stored.fingerprint.Some? then stored.fingerprint.value else Empty;
      if storedFingerprint != fingerprint {
        return Err(Refused(Mismatch422)), after;
      }
      if stored.response.Some? {
        var replaying := new IdempotencyContext(stored.response, null, 0, Empty);
        return Ok(replaying), after;
      }
      return Err(Refused(InFlight409)), after;
    }
    var ctx := new IdempotencyContext(None, redis, k, fingerprint);
    return Ok(ctx), after;
  }

  /** The keys once a request's response is stored under its key, if it has one. */
  function Completed(keys: map<Key, Stored>, q: Request, body: Body): map<Key, Stored> {
    if q.key.None? then keys else keys[q.key.value := Json(Some(Sha256(q.payload)), Some(body))]
  }

  /** IdempotencyContext.cache: overwrites the pending marker, if there is one. */
  method CacheResponse(ctx: IdempotencyContext, redis: Redis, body: Body, ghost st: State, r: RequestId)
    returns (cached: Reply<()>, ghost after: State)
    requires r in st.requests && st.redis == redis.keys && st.requests[r].phase == Committed(body)
    requires Serves(ctx, redis, st.requests[r])
    modifies redis`keys, redis`commands
    ensures Ran(st, after, r)
    ensures At(st, after, r, Cached(body), redis.keys, st.committed)
         || (cached.Err? && At(st, after, r, Committed(body), redis.keys, st.committed))
    ensures redis.Reliable() ==> cached.Ok? && redis.keys == Completed(old(redis.keys), st.requests[r], body)
  {
    cached, after := Ok(()), Step(st, Cache(r));
    RanFirst(st, Cache(r), r);
    RanNothing(st, r);
    if ctx.redis != null {
      cached := ctx.redis.Put(ctx.key, Done(ctx.fingerprint, body));
      if cached.Err? && redis.keys == st.redis {
        after := st;
      }
    }
  }

  /** The dependency's except block: an exception inside the yield deletes the key. */
  method OnException(ctx: IdempotencyContext, redis: Redis, ghost st: State, r: RequestId)
    returns (ghost after: State)
    requires r in st.requests && st.redis == redis.keys && Live(st.requests[r].phase)
    requires Serves(ctx, redis, st.requests[r])
    modifies redis`keys, redis`commands
    ensures Ran(st, after, r)
    ensures At(st, after, r, Failed, redis.keys, st.committed)
         || (!redis.Reliable() && At(st, after, r, Crashed(st.requests[r].phase), redis.keys, st.committed))
    ensures redis.Reliable() ==>
              redis.keys == if st.requests[r].key.None? then old(redis.keys)
                            else old(redis.keys) - {st.requests[r].key.value}
  {
    after := Step(st, Raise(r));
    RanFirst(st, Raise(r), r);
    if ctx.redis != null {
      var deleted := ctx.redis.Delete(ctx.key);
      if deleted.Err? && redis.keys == st.redis {
        after := Step(st, Crash(r));
        RanFirst(st, Crash(r), r);
      }
    }
  }
}
