/**
 * Idempotency keys: any number of concurrent POST requests against one Redis, one command at a time.
 */
module Idempotency {
  import opened Prelude
  import opened Ledger

  type Key = Uuid
  type RequestId = nat
  type Bytes = nat

  /** A response body renders the committed transaction. */
  type Body = Transaction

  /** SHA-256 is taken to be injective; "" is what a stored object without a fingerprint reads as. */
  datatype Digest = Empty | Sha256(bytes: Bytes)

  /** What a key may hold: text that is no JSON, or an object whose two members may be missing. */
  datatype Stored = NotJson | Json(fingerprint: Option<Digest>, response: Option<Body>)

  function Pending(fingerprint: Digest): Stored {
    Json(Some(fingerprint), None)
  }

  function Done(fingerprint: Digest, body: Body): Stored {
    Json(Some(fingerprint), Some(body))
  }

  datatype Verdict = InFlight409 | Mismatch422 | Replay200(body: Body)

  /** What a request that lost the SET NX makes of the value it then reads. */
  function Decide(raw: Option<Stored>, fingerprint: Digest): Verdict {
    if raw.None? || raw.value.NotJson? then InFlight409
    else
      var stored := if raw.value.fingerprint.Some? then raw.value.fingerprint.value else Empty;
      if stored != fingerprint then Mismatch422
      else if raw.value.response.Some? then Replay200(raw.value.response.value)
      else InFlight409
  }

  function Lookup(redis: map<Key, Stored>, k: Key): Option<Stored> {
    if k in redis then Some(redis[k]) else None
  }

  datatype Phase =
    | Arrived
    | Lost                        // SET NX found the key taken
    | Running                     // inside the dependency's try
    | Committed(body: Body)       // inside the try, the database commit done
    | Cached(body: Body)          // inside the try, the response stored
    | Finished(body: Body)
    | Replaying(body: Body)
    | Rejected(verdict: Verdict)
    | Failed
    | Crashed(at: Phase)          // the process died, or the handler's delete failed: the key stays

  datatype Request = Request(key: Option<Key>, payload: Bytes, phase: Phase) {
    function Fingerprint(): Digest {
      Sha256(payload)
    }
  }

  /** A committed transaction, with the key and the bytes of the request that committed it. */
  datatype Record = Record(key: Option<Key>, payload: Bytes, body: Body)

  /** `owner` remembers who wrote each key; no step reads it. */
  datatype State = State(
    redis: map<Key, Stored>,
    owner: map<Key, RequestId>,
    requests: map<RequestId, Request>,
    committed: seq<Record>)

  datatype Event =
    | Arrive(r: RequestId, key: Option<Key>, payload: Bytes)
    | Claim(r: RequestId)
    | Read(r: RequestId)
    | Commit(r: RequestId, body: Body)
    | Cache(r: RequestId)
    | Raise(r: RequestId)
    | Finish(r: RequestId)
    | Crash(r: RequestId)
    | Expire(k: Key)

  /** Inside the try whose handler deletes the key. */
  predicate Live(p: Phase) {
    p.Running? || p.Committed? || p.Cached?
  }

  function Goto(st: State, r: RequestId, p: Phase): State
    requires r in st.requests
  {
    st.(requests := st.requests[r := st.requests[r].(phase := p)])
  }

  function Drop(st: State, k: Key): State {
    st.(redis := st.redis - {k}, owner := st.owner - {k})
  }

  function Write(st: State, k: Key, v: Stored, r: RequestId): State {
    st.(redis := st.redis[k := v], owner := st.owner[k := r])
  }

  function ClaimStep(st: State, r: RequestId): State
    requires r in st.requests
  {
    var q := st.requests[r];
    if q.key.None? then Goto(st, r, Running)
    else if q.key.value in st.redis then Goto(st, r, Lost)
    else Write(Goto(st, r, Running), q.key.value, Pending(q.Fingerprint()), r)
  }

  function ReadStep(st: State, r: RequestId): State
    requires r in st.requests && st.requests[r].key.Some?
  {
    var q := st.requests[r];
    var verdict := Decide(Lookup(st.redis, q.key.value), q.Fingerprint());
    Goto(st, r, if verdict.Replay200? then Replaying(verdict.body) else Rejected(verdict))
  }

  function CacheStep(st: State, r: RequestId): State
    requires r in st.requests && st.requests[r].phase.Committed?
  {
    var q := st.requests[r];
    var st' := Goto(st, r, Cached(q.phase.body));
    if q.key.None? then st' else Write(st', q.key.value, Done(q.Fingerprint(), q.phase.body), r)
  }

  /** An exception inside the try deletes the key; anywhere else it deletes nothing. */
  function RaiseStep(st: State, r: RequestId): State
    requires r in st.requests
  {
    var q := st.requests[r];
    if q.phase.Arrived? || q.phase.Lost? || q.phase.Replaying? then Goto(st, r, Failed)
    else if !Live(q.phase) then st
    else if q.key.None? then Goto(st, r, Failed)
    else Drop(Goto(st, r, Failed), q.key.value)
  }

  function Step(st: State, ev: Event): State {
    match ev
    case Arrive(r, key, payload) =>
      if r in st.requests then st else st.(requests := st.requests[r := Request(key, payload, Arrived)])
    case Claim(r) => if r in st.requests && st.requests[r].phase.Arrived? then ClaimStep(st, r) else st
    case Read(r) =>
      if r in st.requests && st.requests[r].phase.Lost? && st.requests[r].key.Some? then ReadStep(st, r) else st
    case Commit(r, body) =>
      if r in st.requests && st.requests[r].phase.Running?
      then Goto(st, r, Committed(body)).(
             committed := st.committed + [Record(st.requests[r].key, st.requests[r].payload, body)])
      else st
    case Cache(r) => if r in st.requests && st.requests[r].phase.Committed? then CacheStep(st, r) else st
    case Raise(r) => if r in st.requests then RaiseStep(st, r) else st
    case Finish(r) =>
      if r in st.requests && st.requests[r].phase.Cached? then Goto(st, r, Finished(st.requests[r].phase.body)) else st
    case Crash(r) =>
      if r in st.requests && Live(st.requests[r].phase) then Goto(st, r, Crashed(st.requests[r].phase)) else st
    case Expire(k) => if k in st.redis then Drop(st, k) else st
  }

  const INIT := State(map[], map[], map[], [])

  function Run(events: seq<Event>): State {
    if events == [] then INIT else Step(Run(events[..|events| - 1]), events[|events| - 1])
  }

  lemma {:induction false} RunSnoc(events: seq<Event>, ev: Event)
    ensures Run(events + [ev]) == Step(Run(events), ev)
  {
    assert (events + [ev])[..|events|] == events;
  }

  /******* What becomes of a request that arrives *******/

  /**
   * Without a key, or with a free one, the request runs, and a free key is marked pending with its
   * fingerprint. A taken key is left alone: it is replayed to the bytes it was stored for if it has a
   * response, refused as in flight if it has none or holds no JSON, and refused to any other bytes.
   */
  predicate IsDecided(before: map<Key, Stored>, key: Option<Key>, bytes: Bytes, phase: Phase, after: map<Key, Stored>) {
    if key.None? then phase == Running && after == before
    else if key.value !in before then
      phase == Running && after == before[key.value := Json(Some(Sha256(bytes)), None)]
    else
      && after == before
      && match before[key.value]
         case NotJson => phase == Rejected(InFlight409)
         case Json(fingerprint, response) =>
           if fingerprint != Some(Sha256(bytes)) then phase == Rejected(Mismatch422)
           else if response.Some? then phase == Replaying(response.value)
           else phase == Rejected(InFlight409)
  }

  /** A request that arrives is decided by its claim, or by the read after a claim that found the key taken. */
  lemma {:induction false} ArrivalIsDecided(st: State, r: RequestId)
    requires r in st.requests && st.requests[r].phase.Arrived?
    ensures var q, claimed := st.requests[r], Step(st, Claim(r));
            var decided := if r in claimed.requests && claimed.requests[r].phase.Lost? then Step(claimed, Read(r))
                           else claimed;
            && r in decided.requests && decided.committed == st.committed
            && IsDecided(st.redis, q.key, q.payload, decided.requests[r].phase, decided.redis)
  {
  }

  /**
   * A request in the try may finish once its response is stored, may die leaving every key as it is, and may
   * raise; outside the try it just fails. An expiry frees its key and no other.
   */
  lemma {:induction false} RequestsEnd(st: State, r: RequestId, k: Key)
    requires r in st.requests
    ensures var phase := st.requests[r].phase;
            && (phase.Cached? ==> Step(st, Finish(r)).requests[r].phase == Finished(phase.body))
            && (Live(phase) ==> Step(st, Crash(r)).requests[r].phase == Crashed(phase))
            && (Live(phase) || phase.Arrived? || phase.Lost? || phase.Replaying? ==>
                  Step(st, Raise(r)).requests[r].phase == Failed)
    ensures Step(st, Finish(r)).redis == st.redis && Step(st, Crash(r)).redis == st.redis
    ensures Step(st, Expire(k)).redis == st.redis - {k} && Step(st, Expire(k)).requests == st.requests
  {
  }

  /******* What happened since a key last expired *******/

  /** The event commits a transaction under key k. */
  predicate Commits(st: State, ev: Event, k: Key) {
    ev.Commit? && ev.r in st.requests && st.requests[ev.r].phase.Running? && st.requests[ev.r].key == Some(k)
  }

  /** The event is an exception, after the database commit, in a request with key k. */
  predicate RaisesLate(st: State, ev: Event, k: Key) {
    && ev.Raise? && ev.r in st.requests && st.requests[ev.r].key == Some(k)
    && (st.requests[ev.r].phase.Committed? || st.requests[ev.r].phase.Cached?)
  }

  predicate Expires(st: State, ev: Event, k: Key) {
    ev == Expire(k) && k in st.redis
  }

  function Count(b: bool): nat {
    if b then 1 else 0
  }

  function CommitsSinceExpiry(events: seq<Event>, k: Key): nat {
    if events == [] then 0
    else
      var before, ev := events[..|events| - 1], events[|events| - 1];
      if Expires(Run(before), ev, k) then 0
      else CommitsSinceExpiry(before, k) + Count(Commits(Run(before), ev, k))
  }

  function LateRaisesSinceExpiry(events: seq<Event>, k: Key): nat {
    if events == [] then 0
    else
      var before, ev := events[..|events| - 1], events[|events| - 1];
      if Expires(Run(before), ev, k) then 0
      else LateRaisesSinceExpiry(before, k) + Count(RaisesLate(Run(before), ev, k))
  }

  /** No live request still counts on the key. */
  predicate Unused(st: State, k: Key) {
    forall r | r in st.requests :: st.requests[r].key == Some(k) ==> !Live(st.requests[r].phase)
  }

  /** No key expires while its owner runs. */
  predicate Timely(events: seq<Event>) {
    if events == [] then true
    else
      var before, ev := events[..|events| - 1], events[|events| - 1];
      Timely(before) && (ev.Expire? ==> Unused(Run(before), ev.k))
  }

  /******* Ownership *******/

  function Base(p: Phase): Phase {
    if p.Crashed? then p.at else p
  }

  predicate HasCommitted(p: Phase) {
    Base(p).Committed? || Base(p).Cached? || Base(p).Finished?
  }

  /** Request q is the writer of the value v under k. */
  predicate Wrote(q: Request, k: Key, v: Stored) {
    && q.key == Some(k)
    && (v == Pending(q.Fingerprint()) ==> Base(q.phase).Running? || Base(q.phase).Committed?)
    && (v != Pending(q.Fingerprint()) ==>
          && (Base(q.phase).Cached? || Base(q.phase).Finished?)
          && v == Done(q.Fingerprint(), Base(q.phase).body))
  }

  /** Every key was written by one request, running or crashed, and every live request owns its key. */
  predicate Owned(st: State) {
    && st.owner.Keys == st.redis.Keys
    && (forall k | k in st.owner :: st.owner[k] in st.requests && Wrote(st.requests[st.owner[k]], k, st.redis[k]))
    && (forall r | r in st.requests && Live(st.requests[r].phase) && st.requests[r].key.Some? ::
          st.requests[r].key.value in st.owner && st.owner[st.requests[r].key.value] == r)
  }

  predicate HolderCommitted(st: State, k: Key) {
    k in st.owner && st.owner[k] in st.requests && HasCommitted(st.requests[st.owner[k]].phase)
  }

  /** A request may take any phase that keeps its claim on what it wrote. */
  lemma {:induction false} GotoKeepsOwned(st: State, r: RequestId, p: Phase)
    requires Owned(st) && r in st.requests
    requires Live(p) ==> Live(st.requests[r].phase)
    requires forall k | k in st.owner && st.owner[k] == r :: Wrote(st.requests[r].(phase := p), k, st.redis[k])
    ensures Owned(Goto(st, r, p))
  {
  }

  /** A request may write its key if no one else owns it. */
  lemma {:induction false} WriteKeepsOwned(st: State, r: RequestId, p: Phase, k: Key, v: Stored)
    requires Owned(st) && r in st.requests && (k in st.owner ==> st.owner[k] == r)
    requires Wrote(st.requests[r].(phase := p), k, v)
    ensures Owned(Write(Goto(st, r, p), k, v, r))
  {
    assert forall k', s | k' in st.owner && st.owner[k'] == s :: Wrote(st.requests[s], k', st.redis[k']);
  }

  lemma {:induction false} ClaimKeepsOwned(st: State, r: RequestId)
    requires Owned(st) && r in st.requests && st.requests[r].phase.Arrived?
    ensures Owned(ClaimStep(st, r))
  {
    var q := st.requests[r];
    if q.key.Some? && q.key.value !in st.redis {
      WriteKeepsOwned(st, r, Running, q.key.value, Pending(q.Fingerprint()));
    }
  }

  lemma {:induction false} CacheKeepsOwned(st: State, r: RequestId)
    requires Owned(st) && r in st.requests && st.requests[r].phase.Committed?
    ensures Owned(CacheStep(st, r))
  {
    var q := st.requests[r];
    if q.key.Some? {
      WriteKeepsOwned(st, r, Cached(q.phase.body), q.key.value, Done(q.Fingerprint(), q.phase.body));
    }
  }

  lemma {:induction false} DropKeepsOwned(st: State, k: Key)
    requires Owned(st) && Unused(st, k)
    ensures Owned(Drop(st, k))
  {
  }

  /** A request that owns its key may fail if it gives the key up. */
  lemma {:induction false} GiveUpKeepsOwned(st: State, r: RequestId, k: Key)
    requires Owned(st) && r in st.requests && st.requests[r].key == Some(k)
    requires k in st.owner && st.owner[k] == r
    ensures Owned(Drop(Goto(st, r, Failed), k))
  {
    var st' := Drop(Goto(st, r, Failed), k);
    forall j | j in st'.owner
      ensures st'.owner[j] in st'.requests && st'.requests[st'.owner[j]] == st.requests[st.owner[j]]
    {
      assert Wrote(st.requests[st.owner[j]], j, st.redis[j]);
    }
  }

  lemma {:induction false} RaiseKeepsOwned(st: State, r: RequestId)
    requires Owned(st) && r in st.requests
    ensures Owned(RaiseStep(st, r))
  {
    var q := st.requests[r];
    if Live(q.phase) && q.key.Some? {
      GiveUpKeepsOwned(st, r, q.key.value);
    } else if RaiseStep(st, r) != st {
      GotoKeepsOwned(st, r, Failed);
    }
  }

  lemma {:induction false} OtherStepsKeepOwned(st: State, ev: Event)
    requires Owned(st) && (ev.Read? || ev.Finish? || ev.Crash?)
    ensures Owned(Step(st, ev))
  {
    if ev.r in st.requests && Step(st, ev) != st {
      GotoKeepsOwned(st, ev.r, Step(st, ev).requests[ev.r].phase);
    }
  }

  lemma {:induction false} ArriveKeepsOwned(st: State, r: RequestId, key: Option<Key>, payload: Bytes)
    requires Owned(st)
    ensures Owned(Step(st, Arrive(r, key, payload)))
  {
  }

  lemma {:induction false} CommitKeepsOwned(st: State, r: RequestId, body: Body)
    requires Owned(st)
    ensures Owned(Step(st, Commit(r, body)))
  {
    if r in st.requests && st.requests[r].phase.Running? {
      GotoKeepsOwned(st, r, Committed(body));
    }
  }

  lemma {:induction false} StepKeepsOwned(st: State, ev: Event)
    requires Owned(st) && (ev.Expire? ==> Unused(st, ev.k))
    ensures Owned(Step(st, ev))
  {
    match ev
    case Arrive(r, key, payload) => ArriveKeepsOwned(st, r, key, payload);
    case Claim(r) => if r in st.requests && st.requests[r].phase.Arrived? { ClaimKeepsOwned(st, r); }
    case Commit(r, body) => CommitKeepsOwned(st, r, body);
    case Cache(r) => if r in st.requests && st.requests[r].phase.Committed? { CacheKeepsOwned(st, r); }
    case Raise(r) => if r in st.requests { RaiseKeepsOwned(st, r); }
    case Expire(k) => DropKeepsOwned(st, k);
    case _ => OtherStepsKeepOwned(st, ev);
  }

  lemma {:induction false} RunIsOwned(events: seq<Event>)
    requires Timely(events)
    ensures Owned(Run(events))
  {
    if events != [] {
      RunIsOwned(events[..|events| - 1]);
      StepKeepsOwned(Run(events[..|events| - 1]), events[|events| - 1]);
    }
  }

  /** In every reachable state a key has exactly one owner, running or crashed, and the owner's fingerprint. */
  lemma {:induction false} KeyHasOneOwner(events: seq<Event>, k: Key)
    requires Timely(events) && k in Run(events).redis
    ensures var st := Run(events);
            && k in st.owner && st.owner[k] in st.requests
            && Wrote(st.requests[st.owner[k]], k, st.redis[k])
            && (forall r | r in st.requests && st.requests[r].key == Some(k) && Live(st.requests[r].phase) ::
                  r == st.owner[k])
  {
    RunIsOwned(events);
  }

  lemma {:induction false} OnlyOwnerWrites(st: State, ev: Event, k: Key)
    requires Owned(st) && Lookup(Step(st, ev).redis, k) != Lookup(st.redis, k)
    ensures if k in st.redis
            then ev == Expire(k) || (k in st.owner && (ev == Cache(st.owner[k]) || ev == Raise(st.owner[k])))
            else ev.Claim? && ev.r in st.requests && st.requests[ev.r].key == Some(k)
  {
    match ev
    case Cache(r) =>
    case Raise(r) =>
    case Claim(r) =>
    case Expire(j) =>
    case _ =>
  }

  /** A key changes hands only by expiring, by its owner's own steps, or by being claimed while free. */
  lemma {:induction false} OnlyOwnerTouchesKey(events: seq<Event>, ev: Event, k: Key)
    requires Timely(events)
    requires Lookup(Step(Run(events), ev).redis, k) != Lookup(Run(events).redis, k)
    ensures var st := Run(events);
            if k in st.redis
            then ev == Expire(k) || (k in st.owner && (ev == Cache(st.owner[k]) || ev == Raise(st.owner[k])))
            else ev.Claim? && ev.r in st.requests && st.requests[ev.r].key == Some(k)
  {
    RunIsOwned(events);
    OnlyOwnerWrites(Run(events), ev, k);
  }

  /******* At most one transaction per key *******/

  predicate Counted(st: State, ev: Event, k: Key, st': State) {
    Count(HolderCommitted(st', k))
      == if Expires(st, ev, k) then 0
         else Count(HolderCommitted(st, k)) + Count(Commits(st, ev, k)) - Count(RaisesLate(st, ev, k))
  }

  lemma {:induction false} CountClaim(st: State, r: RequestId, k: Key)
    requires Owned(st) && r in st.requests && st.requests[r].phase.Arrived?
    ensures HolderCommitted(ClaimStep(st, r), k) == HolderCommitted(st, k)
  {
  }

  lemma {:induction false} CountCommit(st: State, r: RequestId, body: Body, k: Key)
    requires Owned(st) && r in st.requests && st.requests[r].phase.Running?
    ensures Counted(st, Commit(r, body), k, Step(st, Commit(r, body)))
  {
    if st.requests[r].key == Some(k) {
      assert st.owner[k] == r;
    } else if k in st.owner {
      assert st.owner[k] != r;
    }
  }

  lemma {:induction false} CountCache(st: State, r: RequestId, k: Key)
    requires Owned(st) && r in st.requests && st.requests[r].phase.Committed?
    ensures HolderCommitted(CacheStep(st, r), k) == HolderCommitted(st, k)
  {
  }

  lemma {:induction false} CountRaise(st: State, r: RequestId, k: Key)
    requires Owned(st) && r in st.requests
    ensures Counted(st, Raise(r), k, RaiseStep(st, r))
  {
    if st.requests[r].key == Some(k) && Live(st.requests[r].phase) {
      assert st.owner[k] == r;
    } else if k in st.owner && Live(st.requests[r].phase) {
      assert st.owner[k] != r;
    }
  }

  lemma {:induction false} CountExpire(st: State, j: Key, k: Key)
    requires Owned(st)
    ensures Counted(st, Expire(j), k, Step(st, Expire(j)))
  {
  }

  lemma {:induction false} CountOther(st: State, ev: Event, k: Key)
    requires Owned(st) && (ev.Arrive? || ev.Read? || ev.Finish? || ev.Crash?)
    ensures Counted(st, ev, k, Step(st, ev))
  {
    assert k in st.owner ==> st.owner[k] in st.requests;
  }

  lemma {:induction false} CountStep(st: State, ev: Event, k: Key)
    requires Owned(st)
    ensures Counted(st, ev, k, Step(st, ev))
  {
    match ev
    case Claim(r) => if r in st.requests && st.requests[r].phase.Arrived? { CountClaim(st, r, k); }
    case Commit(r, body) => if r in st.requests && st.requests[r].phase.Running? { CountCommit(st, r, body, k); }
    case Cache(r) => if r in st.requests && st.requests[r].phase.Committed? { CountCache(st, r, k); }
    case Raise(r) => if r in st.requests { CountRaise(st, r, k); }
    case Expire(j) => CountExpire(st, j, k);
    case _ => CountOther(st, ev, k);
  }

  /**
   * Between two expiries of a key the transactions committed under it are one for each exception
   * raised after a commit, and one more if the key's present holder has committed.
   */
  lemma {:induction false} CommitsAreLateRaises(events: seq<Event>, k: Key)
    requires Timely(events)
    ensures CommitsSinceExpiry(events, k)
         == LateRaisesSinceExpiry(events, k) + Count(HolderCommitted(Run(events), k))
  {
    if events != [] {
      var before, ev := events[..|events| - 1], events[|events| - 1];
      CommitsAreLateRaises(before, k);
      RunIsOwned(before);
      CountStep(Run(before), ev, k);
    }
  }

  /** At most one transaction per key, exactly when no exception after a commit has freed the key for another. */
  lemma {:induction false} AtMostOneCommit(events: seq<Event>, k: Key)
    requires Timely(events)
    ensures LateRaisesSinceExpiry(events, k) == 0 ==> CommitsSinceExpiry(events, k) <= 1
    ensures CommitsSinceExpiry(events, k) <= 1
       <==> LateRaisesSinceExpiry(events, k) == 0
            || (LateRaisesSinceExpiry(events, k) == 1 && !HolderCommitted(Run(events), k))
  {
    CommitsAreLateRaises(events, k);
  }

  function RecordsUnder(committed: seq<Record>, k: Key): nat {
    if committed == [] then 0
    else RecordsUnder(committed[..|committed| - 1], k) + Count(committed[|committed| - 1].key == Some(k))
  }

  function LateRaises(events: seq<Event>, k: Key): nat {
    if events == [] then 0
    else
      var before, ev := events[..|events| - 1], events[|events| - 1];
      LateRaises(before, k) + Count(RaisesLate(Run(before), ev, k))
  }

  /** Expiries of the key after its holder committed. */
  function UsedExpiries(events: seq<Event>, k: Key): nat {
    if events == [] then 0
    else
      var before, ev := events[..|events| - 1], events[|events| - 1];
      UsedExpiries(before, k) + Count(Expires(Run(before), ev, k) && HolderCommitted(Run(before), k))
  }

  lemma {:induction false} RecordStep(st: State, ev: Event, k: Key)
    ensures RecordsUnder(Step(st, ev).committed, k) == RecordsUnder(st.committed, k) + Count(Commits(st, ev, k))
  {
    if ev.Commit? && ev.r in st.requests && st.requests[ev.r].phase.Running? {
      var record := Record(st.requests[ev.r].key, st.requests[ev.r].payload, ev.body);
      assert (st.committed + [record])[..|st.committed|] == st.committed;
    }
  }

  /**
   * The transactions committed under a key are as many as the exceptions raised after a commit, the
   * expiries of a used key, and one more if the present holder has committed.
   */
  lemma {:induction false} EveryCommitIsAccounted(events: seq<Event>, k: Key)
    requires Timely(events)
    ensures RecordsUnder(Run(events).committed, k)
         == LateRaises(events, k) + UsedExpiries(events, k) + Count(HolderCommitted(Run(events), k))
  {
    if events != [] {
      var before, ev := events[..|events| - 1], events[|events| - 1];
      EveryCommitIsAccounted(before, k);
      RunIsOwned(before);
      CountStep(Run(before), ev, k);
      RecordStep(Run(before), ev, k);
    }
  }

  /******* When the hypotheses fail *******/

  lemma {:induction false} Snoc(events: seq<Event>, ev: Event, k: Key)
    ensures Run(events + [ev]) == Step(Run(events), ev)
    ensures Timely(events + [ev]) <==> Timely(events) && (ev.Expire? ==> Unused(Run(events), ev.k))
    ensures CommitsSinceExpiry(events + [ev], k)
         == if Expires(Run(events), ev, k) then 0
            else CommitsSinceExpiry(events, k) + Count(Commits(Run(events), ev, k))
  {
    assert (events + [ev])[..|events|] == events;
  }

  /** A request with key k that arrives while the key is free runs, and may commit. */
  lemma {:induction false} FreeKeyAdmits(events: seq<Event>, r: RequestId, k: Key, payload: Bytes, body: Body)
    requires r !in Run(events).requests && k !in Run(events).redis
    ensures var events' := events + [Arrive(r, Some(k), payload)] + [Claim(r)] + [Commit(r, body)];
            && CommitsSinceExpiry(events', k) == CommitsSinceExpiry(events, k) + 1
            && (Timely(events) ==> Timely(events'))
            && Run(events').committed == Run(events).committed + [Record(Some(k), payload, body)]
            && (forall o | o in Run(events).requests ::
                  o in Run(events').requests && Run(events').requests[o] == Run(events).requests[o])
  {
    var arrived := events + [Arrive(r, Some(k), payload)];
    Snoc(events, Arrive(r, Some(k), payload), k);
    Snoc(arrived, Claim(r), k);
    Snoc(arrived + [Claim(r)], Commit(r, body), k);
  }

  /**
   * Any exception after a commit lets a retry with the same key commit again: the key is deleted
   * although its transaction is in the database.
   */
  lemma {:induction false} LateRaiseAdmitsDuplicate(events: seq<Event>, owner: RequestId, retry: RequestId, k: Key,
                                                    payload: Bytes, body: Body)
    requires Timely(events) && RaisesLate(Run(events), Raise(owner), k) && retry !in Run(events).requests
    ensures var events' := events + [Raise(owner)] + [Arrive(retry, Some(k), payload)] + [Claim(retry)]
                           + [Commit(retry, body)];
            Timely(events') && CommitsSinceExpiry(events', k) >= 2
  {
    Snoc(events, Raise(owner), k);
    CommitsAreLateRaises(events, k);
    RunIsOwned(events);
    FreeKeyAdmits(events + [Raise(owner)], retry, k, payload, body);
  }

  lemma {:induction false} RunningCommits(events: seq<Event>, r: RequestId, k: Key, body: Body)
    requires r in Run(events).requests && Run(events).requests[r].phase.Running?
    requires Run(events).requests[r].key == Some(k)
    ensures CommitsSinceExpiry(events + [Commit(r, body)], k) == CommitsSinceExpiry(events, k) + 1
  {
    Snoc(events, Commit(r, body), k);
  }

  lemma {:induction false} RunningKeyExpires(events: seq<Event>, owner: RequestId, k: Key)
    requires Timely(events) && owner in Run(events).requests
    requires Run(events).requests[owner].phase.Running? && Run(events).requests[owner].key == Some(k)
    ensures var expired := Run(events + [Expire(k)]);
            k !in expired.redis && expired.requests == Run(events).requests
    ensures CommitsSinceExpiry(events + [Expire(k)], k) == 0
  {
    RunIsOwned(events);
    Snoc(events, Expire(k), k);
  }

  /** A key that expires under its running owner can be claimed anew, and then both requests commit. */
  lemma {:induction false} UntimelyExpiryAdmitsDuplicate(events: seq<Event>, owner: RequestId, retry: RequestId,
                                                         k: Key, payload: Bytes, body: Body)
    requires Timely(events) && retry !in Run(events).requests
    requires owner in Run(events).requests && Run(events).requests[owner].phase.Running?
    requires Run(events).requests[owner].key == Some(k)
    ensures var events' := events + [Expire(k)] + [Arrive(retry, Some(k), payload)] + [Claim(retry)]
                           + [Commit(retry, body)] + [Commit(owner, body)];
            CommitsSinceExpiry(events', k) == 2
  {
    RunningKeyExpires(events, owner, k);
    var expired := events + [Expire(k)];
    FreeKeyAdmits(expired, retry, k, payload, body);
    var retried := expired + [Arrive(retry, Some(k), payload)] + [Claim(retry)] + [Commit(retry, body)];
    RunningCommits(retried, owner, k, body);
  }

  lemma {:induction false} RunningHasNotCommitted(events: seq<Event>, owner: RequestId, k: Key)
    requires Timely(events) && owner in Run(events).requests
    requires Run(events).requests[owner].phase.Running? && Run(events).requests[owner].key == Some(k)
    ensures CommitsSinceExpiry(events, k) == LateRaisesSinceExpiry(events, k)
  {
    RunIsOwned(events);
    CommitsAreLateRaises(events, k);
  }

  /**
   * An owner that raises before its commit leaves the key free and nothing committed: a retry with the key
   * runs, and its commit is the first one under the key, but for those that late exceptions account for.
   */
  lemma {:induction false} EarlyRaiseFreesKey(events: seq<Event>, owner: RequestId, retry: RequestId, k: Key,
                                              payload: Bytes, body: Body)
    requires Timely(events) && owner in Run(events).requests && retry !in Run(events).requests
    requires Run(events).requests[owner].phase.Running? && Run(events).requests[owner].key == Some(k)
    ensures var raised := events + [Raise(owner)];
            var retried := raised + [Arrive(retry, Some(k), payload)] + [Claim(retry)] + [Commit(retry, body)];
            && k !in Run(raised).redis && Run(raised).committed == Run(events).committed
            && Timely(retried)
            && Run(retried).committed == Run(events).committed + [Record(Some(k), payload, body)]
            && CommitsSinceExpiry(retried, k) == LateRaisesSinceExpiry(events, k) + 1
  {
    Snoc(events, Raise(owner), k);
    RunningHasNotCommitted(events, owner, k);
    FreeKeyAdmits(events + [Raise(owner)], retry, k, payload, body);
  }

  /** Exceptions in requests that replay or never got the key leave every key as it was. */
  lemma {:induction false} OtherRaisesKeepKeys(st: State, r: RequestId)
    requires r in st.requests && !Live(st.requests[r].phase)
    ensures Step(st, Raise(r)).redis == st.redis
  {
  }

  /******* Replays *******/

  predicate IsRecorded(st: State, key: Option<Key>, payload: Bytes, body: Body) {
    Record(key, payload, body) in st.committed
  }

  predicate RequestTrue(st: State, q: Request) {
    match Base(q.phase)
    case Committed(body) => IsRecorded(st, q.key, q.payload, body)
    case Cached(body) => IsRecorded(st, q.key, q.payload, body)
    case Finished(body) => IsRecorded(st, q.key, q.payload, body)
    case Replaying(body) => q.key.Some? && IsRecorded(st, q.key, q.payload, body)
    case _ => true
  }

  /** What is stored is either a pending marker, or the response of a committed transaction of that key. */
  predicate StoredTrue(st: State, k: Key, v: Stored) {
    && v.Json? && v.fingerprint.Some? && v.fingerprint.value.Sha256?
    && (v.response.Some? ==> IsRecorded(st, Some(k), v.fingerprint.value.bytes, v.response.value))
  }

  predicate Honest(st: State) {
    && (forall k | k in st.redis :: StoredTrue(st, k, st.redis[k]))
    && (forall r | r in st.requests :: RequestTrue(st, st.requests[r]))
  }

  lemma {:induction false} GotoKeepsHonest(st: State, r: RequestId, p: Phase)
    requires Honest(st) && r in st.requests && RequestTrue(st, st.requests[r].(phase := p))
    ensures Honest(Goto(st, r, p))
  {
    var st' := Goto(st, r, p);
    forall s | s in st'.requests ensures RequestTrue(st', st'.requests[s]) {
      assert RequestTrue(st, st'.requests[s]);
    }
    assert forall k | k in st.redis :: StoredTrue(st, k, st.redis[k]) ==> StoredTrue(st', k, st.redis[k]);
  }

  lemma {:induction false} WriteKeepsHonest(st: State, k: Key, v: Stored, r: RequestId)
    requires Honest(st) && StoredTrue(st, k, v)
    ensures Honest(Write(st, k, v, r))
  {
    var st' := Write(st, k, v, r);
    forall k' | k' in st'.redis ensures StoredTrue(st', k', st'.redis[k']) {
      assert StoredTrue(st, k', st'.redis[k']);
    }
    assert forall s | s in st.requests :: RequestTrue(st, st.requests[s]) ==> RequestTrue(st', st.requests[s]);
  }

  lemma {:induction false} DropKeepsHonest(st: State, k: Key)
    requires Honest(st)
    ensures Honest(Drop(st, k))
  {
    var st' := Drop(st, k);
    forall k' | k' in st'.redis ensures StoredTrue(st', k', st'.redis[k']) {
      assert StoredTrue(st, k', st'.redis[k']);
    }
    assert forall s | s in st.requests :: RequestTrue(st, st.requests[s]) ==> RequestTrue(st', st.requests[s]);
  }

  lemma {:induction false} RecordKeepsHonest(st: State, record: Record)
    requires Honest(st)
    ensures Honest(st.(committed := st.committed + [record]))
  {
    var st' := st.(committed := st.committed + [record]);
    assert forall c | c in st.committed :: c in st'.committed;
    forall k | k in st.redis ensures StoredTrue(st', k, st.redis[k]) {
      assert StoredTrue(st, k, st.redis[k]);
    }
    forall s | s in st.requests ensures RequestTrue(st', st.requests[s]) {
      assert RequestTrue(st, st.requests[s]);
    }
  }

  lemma {:induction false} ReadKeepsHonest(st: State, r: RequestId)
    requires Honest(st) && r in st.requests && st.requests[r].key.Some?
    ensures Honest(ReadStep(st, r))
  {
    var k := st.requests[r].key.value;
    assert k in st.redis ==> StoredTrue(st, k, st.redis[k]);
    GotoKeepsHonest(st, r, ReadStep(st, r).requests[r].phase);
  }

  lemma {:induction false} CacheKeepsHonest(st: State, r: RequestId)
    requires Honest(st) && r in st.requests && st.requests[r].phase.Committed?
    ensures Honest(CacheStep(st, r))
  {
    var q := st.requests[r];
    assert RequestTrue(st, q);
    GotoKeepsHonest(st, r, Cached(q.phase.body));
    if q.key.Some? {
      WriteKeepsHonest(Goto(st, r, Cached(q.phase.body)), q.key.value, Done(q.Fingerprint(), q.phase.body), r);
    }
  }

  lemma {:induction false} ClaimKeepsHonest(st: State, r: RequestId)
    requires Honest(st) && r in st.requests
    ensures Honest(ClaimStep(st, r))
  {
    var q := st.requests[r];
    GotoKeepsHonest(st, r, Running);
    GotoKeepsHonest(st, r, Lost);
    if q.key.Some? {
      WriteKeepsHonest(Goto(st, r, Running), q.key.value, Pending(q.Fingerprint()), r);
    }
  }

  lemma {:induction false} RaiseKeepsHonest(st: State, r: RequestId)
    requires Honest(st) && r in st.requests
    ensures Honest(RaiseStep(st, r))
  {
    GotoKeepsHonest(st, r, Failed);
    if st.requests[r].key.Some? {
      DropKeepsHonest(Goto(st, r, Failed), st.requests[r].key.value);
    }
  }

  lemma {:induction false} CommitKeepsHonest(st: State, r: RequestId, body: Body)
    requires Honest(st) && r in st.requests && st.requests[r].phase.Running?
    ensures Honest(Step(st, Commit(r, body)))
  {
    var q := st.requests[r];
    var record := Record(q.key, q.payload, body);
    RecordKeepsHonest(st, record);
    GotoKeepsHonest(st.(committed := st.committed + [record]), r, Committed(body));
  }

  lemma {:induction false} StepKeepsHonest(st: State, ev: Event)
    requires Honest(st)
    ensures Honest(Step(st, ev))
  {
    match ev
    case Arrive(r, key, payload) =>
      assert forall k | k in st.redis :: StoredTrue(Step(st, ev), k, st.redis[k]) == StoredTrue(st, k, st.redis[k]);
    case Claim(r) => if r in st.requests { ClaimKeepsHonest(st, r); }
    case Read(r) => if r in st.requests && st.requests[r].key.Some? { ReadKeepsHonest(st, r); }
    case Commit(r, body) => if r in st.requests && st.requests[r].phase.Running? { CommitKeepsHonest(st, r, body); }
    case Cache(r) => if r in st.requests && st.requests[r].phase.Committed? { CacheKeepsHonest(st, r); }
    case Raise(r) => if r in st.requests { RaiseKeepsHonest(st, r); }
    case Expire(k) => DropKeepsHonest(st, k);
    case _ =>
      if ev.r in st.requests && Step(st, ev) != st {
        assert RequestTrue(st, st.requests[ev.r]);
        GotoKeepsHonest(st, ev.r, Step(st, ev).requests[ev.r].phase);
      }
  }

  lemma {:induction false} RunIsHonest(events: seq<Event>)
    ensures Honest(Run(events))
  {
    if events != [] {
      RunIsHonest(events[..|events| - 1]);
      StepKeepsHonest(Run(events[..|events| - 1]), events[|events| - 1]);
    }
  }

  /** In every run, a replay returns the body of a committed transaction of the same key and request bytes. */
  lemma {:induction false} ReplaysAreCommitted(events: seq<Event>, r: RequestId)
    requires r in Run(events).requests && Run(events).requests[r].phase.Replaying?
    ensures var q := Run(events).requests[r]; Record(q.key, q.payload, q.phase.body) in Run(events).committed
  {
    RunIsHonest(events);
    assert RequestTrue(Run(events), Run(events).requests[r]);
  }

  /**
   * A request is replayed exactly when its bytes are the owner's and the response is there, and refused as a
   * mismatch exactly when they differ.
   */
  lemma {:induction false} OtherFingerprintIsRefused(events: seq<Event>, r: RequestId, k: Key)
    requires r in Run(events).requests && Run(events).requests[r].phase.Lost?
    requires Run(events).requests[r].key == Some(k) && k in Run(events).redis
    ensures var st, q := Run(events), Run(events).requests[r];
            && st.redis[k].Json? && st.redis[k].fingerprint.Some? && st.redis[k].fingerprint.value.Sha256?
            && (Step(st, Read(r)).requests[r].phase == Rejected(Mismatch422)
                <==> st.redis[k].fingerprint.value.bytes != q.payload)
            && (Step(st, Read(r)).requests[r].phase.Replaying?
                <==> st.redis[k].fingerprint.value.bytes == q.payload && st.redis[k].response.Some?)
  {
    RunIsHonest(events);
    assert StoredTrue(Run(events), k, Run(events).redis[k]);
  }

  /** No expiry of k and no late exception with key k in `more`, which runs after `events`. */
  predicate Undisturbed(events: seq<Event>, more: seq<Event>, k: Key) {
    forall i | 0 <= i < |more| ::
      more[i] != Expire(k) && !RaisesLate(Run(events + more[..i]), more[i], k)
  }

  lemma {:induction false} UndisturbedPrefix(events: seq<Event>, more: seq<Event>, k: Key)
    requires more != [] && Undisturbed(events, more, k)
    ensures var rest, ev := more[..|more| - 1], more[|more| - 1];
            && Undisturbed(events, rest, k)
            && ev != Expire(k) && !RaisesLate(Run(events + rest), ev, k)
            && Run(events + more) == Step(Run(events + rest), ev)
            && (Timely(events + more) ==> Timely(events + rest))
  {
    var rest, ev := more[..|more| - 1], more[|more| - 1];
    assert events + more == (events + rest) + [ev];
    Snoc(events + rest, ev, k);
    forall i | 0 <= i < |rest|
      ensures rest[i] != Expire(k) && !RaisesLate(Run(events + rest[..i]), rest[i], k)
    {
      assert rest[..i] == more[..i];
    }
  }

  lemma {:induction false} CompletedStep(st: State, ev: Event, k: Key)
    requires Owned(st) && k in st.redis && st.redis[k].Json? && st.redis[k].response.Some?
    requires ev != Expire(k) && !RaisesLate(st, ev, k)
    ensures Lookup(Step(st, ev).redis, k) == Some(st.redis[k])
  {
  }

  /** A completed key keeps its response until it expires, unless its owner raises after caching it. */
  lemma {:induction false} CompletedKeyStays(events: seq<Event>, more: seq<Event>, k: Key)
    requires Timely(events + more) && Undisturbed(events, more, k)
    requires Timely(events) && k in Run(events).redis
    requires Run(events).redis[k].Json? && Run(events).redis[k].response.Some?
    ensures Lookup(Run(events + more).redis, k) == Some(Run(events).redis[k])
  {
    if more == [] {
      assert events + more == events;
    } else {
      var rest, ev := more[..|more| - 1], more[|more| - 1];
      UndisturbedPrefix(events, more, k);
      CompletedKeyStays(events, rest, k);
      RunIsOwned(events + rest);
      CompletedStep(Run(events + rest), ev, k);
    }
  }
}
