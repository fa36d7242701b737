/** The request handlers: idempotency around a post, commit before invalidation, and cache-aside reads. */
module Routes {
  import opened Prelude
  import opened Ledger
  import opened Posting
  import opened RedisClient
  import opened Service
  import opened Dependency
  import opened Idempotency
  import Books
  import BalanceCache

  /******* Balance cache *******/

  /**
   * Deletes the balance keys of the accounts, one account after the other, until Redis fails. Connection
   * errors and timeouts are caught; any other error is raised.
   */
  method InvalidateBalanceCache(redis: Redis, accounts: set<Uuid>) returns (raised: bool, ghost done: set<Uuid>)
    modifies redis`balances, redis`commands
    ensures done <= accounts && redis.balances == Purge(old(redis.balances), done)
    ensures raised ==> !redis.NeverDenies()
    ensures redis.Reliable() ==> !raised && done == accounts
  {
    var todo := accounts;
    raised, done := false, {};
    assert Purge(redis.balances, {}) == redis.balances;
    while todo != {}
      invariant todo <= accounts && done == accounts - todo
      invariant redis.balances == Purge(old(redis.balances), done)
      decreases |todo|
    {
      var account :| account in todo;
      todo := todo - {account};
      var keysToDelete: seq<BalanceCache.Key> := [];
      var keys := redis.Scan(account);
      if keys.Err? {
        return keys.error.ServerError?, done;
      }
      for i := 0 to |keys.value|
        invariant keysToDelete == keys.value[..i]
      {
        keysToDelete := keysToDelete + [keys.value[i]];
      }
      assert keysToDelete == keys.value;
      if keysToDelete != [] {
        ghost var before := redis.balances;
        var deleted := redis.DeleteBalances(keysToDelete);
        if deleted.Err? {
          return deleted.error.ServerError?, if redis.balances == before then done else done + {account};
        }
      }
      done := done + {account};
    }
  }

  datatype BalanceResponse = Balance200(answer: BalanceCache.Answer) | NotFound404 | BalanceRaised

  /** The row with the id, if there is one. */
  function FindAccount(accounts: seq<Account>, id: Uuid): (found: Option<Account>)
    ensures found.Some? ==> found.value in accounts && found.value.id == id
    ensures found.None? ==> forall i | 0 <= i < |accounts| :: accounts[i].id != id
  {
    if accounts == [] then None
    else if accounts[|accounts| - 1].id == id then Some(accounts[|accounts| - 1])
    else
      assert forall i | 0 <= i < |accounts| - 1 :: accounts[..|accounts| - 1][i] == accounts[i];
      FindAccount(accounts[..|accounts| - 1], id)
  }

  /** The answer computed from the database. */
  function Computed(t: Tables, key: BalanceCache.Key): BalanceResponse {
    var account := FindAccount(t.accounts, key.account);
    if account.None? then NotFound404
    else Balance200(BalanceCache.Answer(CalculateBalance(t.txs, key.account, key.asOf), account.value.currency))
  }

  function Hit(balances: Balances, key: BalanceCache.Key, now: Instant): Option<BalanceCache.Answer> {
    if key in balances && now < balances[key].expires then Some(balances[key].answer) else None
  }

  /**
   * What a request for a balance may answer, and leave cached: an unexpired entry as it is, or the computed
   * answer, stored or not; an error that is raised leaves the cache alone.
   */
  predicate Answers(before: Balances, t: Tables, key: BalanceCache.Key, now: Instant, today: Date, after: Balances,
                    r: BalanceResponse) {
    match r
    case Balance200(answer) =>
      || (Hit(before, key, now) == Some(answer) && after == before)
      || (Computed(t, key) == r && after == before)
      || (Computed(t, key) == r && after == before[key := Cell(answer, now + BalanceCache.Ttl(key.asOf, today))])
    case NotFound404 => Computed(t, key) == r && after == before
    case BalanceRaised => after == before
  }

  predicate HasId(accounts: seq<Account>, id: Uuid) {
    exists i :: 0 <= i < |accounts| && accounts[i].id == id
  }

  /** Redis still has the answer under the key. */
  predicate IsUnexpired(balances: Balances, key: BalanceCache.Key, now: Instant, answer: BalanceCache.Answer) {
    key in balances && now < balances[key].expires && balances[key].answer == answer
  }

  /** The answer is what the query gives for the account, in the account's currency. */
  predicate IsCurrent(t: Tables, key: BalanceCache.Key, answer: BalanceCache.Answer) {
    && answer.balance == CalculateBalance(t.txs, key.account, key.asOf)
    && HasAccount(t.accounts, key.account, answer.currency)
  }

  /**
   * Without failures of Redis: an unexpired entry is served as it is. Otherwise an account that does not exist
   * is not found, and one that does is answered from the database, and the answer kept for a day if the date
   * is past and for a minute if not.
   */
  predicate AnswersBalance(before: Balances, t: Tables, key: BalanceCache.Key, now: Instant, today: Date,
                           after: Balances, r: BalanceResponse) {
    if key in before && now < before[key].expires then r == Balance200(before[key].answer) && after == before
    else if !HasId(t.accounts, key.account) then r == NotFound404 && after == before
    else
      && r.Balance200? && IsCurrent(t, key, r.answer)
      && after == before[key := Cell(r.answer, now + if key.asOf < today then 86_400 else 60)]
  }

  /** get_account_balance at one moment `now` of the day `today`. */
  method GetAccountBalance(redis: Redis, db: Database, key: BalanceCache.Key, now: Instant, today: Date)
    returns (r: BalanceResponse)
    modifies redis`balances, redis`commands
    ensures Answers(old(redis.balances), db.tables, key, now, today, redis.balances, r)
    ensures r.BalanceRaised? ==> !redis.NeverDenies()
    ensures r.NotFound404? ==> !HasId(db.tables.accounts, key.account)
    ensures r.Balance200? ==>
              IsUnexpired(old(redis.balances), key, now, r.answer) || IsCurrent(db.tables, key, r.answer)
    ensures redis.Reliable() ==> AnswersBalance(old(redis.balances), db.tables, key, now, today, redis.balances, r)
  {
    var cached: Option<BalanceCache.Answer> := None;
    var read := redis.GetBalance(key, now);
    if read == Err(ServerError) {
      return BalanceRaised;
    }
    if read.Ok? {
      cached := read.value;
    }
    if cached.Some? {
      return Balance200(cached.value);
    }
    var account := FindAccount(db.tables.accounts, key.account);
    if account.None? {
      return NotFound404;
    }
    var balance := CalculateBalance(db.tables.txs, key.account, key.asOf);
    var ttl := if key.asOf < today then BalanceCache.TTL_HISTORICAL_SECONDS else BalanceCache.TTL_SECONDS;
    var answer := BalanceCache.Answer(balance, account.value.currency);
    var stored := redis.SetBalance(key, Cell(answer, now + ttl));
    if stored == Err(ServerError) {
      return BalanceRaised;
    }
    r := Balance200(answer);
  }

  /******* Posting a transaction *******/

  /** What the handler raises; after the commit, from the invalidation or from storing the response. */
  datatype PostFailure = Invalid(error: PostError) | TriggerRefused | ResponseNotCached

  /** The ledger is as it was, or the transaction and its audit row are in it. */
  predicate Posts(before: Tables, after: Tables, created: Result<Transaction, PostError>, user: Uuid) {
    if created.Ok? && TriggerPasses(created.value.entries)
    then after == Publish(before, CreateWrites(created.value, user))
    else after == before
  }

  /** Committing a session that has nothing pending changes nothing. */
  lemma {:induction false} PublishNothing(t: Tables)
    ensures Publish(t, NO_WRITES) == t
  {
    assert Mark(t.txs, {}) == t.txs;
  }

  lemma {:induction false} OnlyOne(tx: Transaction)
    ensures AllPass([tx]) <==> TriggerPasses(tx.entries)
  {
    assert [tx][0] == tx;
  }

  /** The handler's commit, and then the one at the end of get_db; the first one to fail is rolled back. */
  method CommitTwice(s: Session, w: WriteSet) returns (ok: bool)
    requires s.Valid() && s.Pending() == w
    modifies s, s.db
    ensures ok <==> AllPass(w.txs)
    ensures s.db.tables == if ok then Publish(old(s.db.tables), w) else old(s.db.tables)
  {
    ok := s.Commit();
    if !ok {
      s.Rollback();
      return;
    }
    PublishNothing(s.db.tables);
    var again := s.Commit();
  }

  /** Creates and commits in one session; get_db commits it again at the end, or rolls it back. */
  method CreateAndCommit(db: Database, p: Payload, user: Uuid, id: Uuid, now: Instant)
    returns (result: Result<Transaction, PostFailure>)
    requires IsPayload(p)
    modifies db
    ensures var created := Posting.CreateTransaction(old(db.tables), p, id, now);
            && Posts(old(db.tables), db.tables, created, user)
            && result == if created.Err? then Err(Invalid(created.error))
                         else if TriggerPasses(created.value.entries) then Ok(created.value)
                         else Err(TriggerRefused)
  {
    var s := new Session(db);
    var created := Service.CreateTransaction(s, p, user, id, now);
    if created.Err? {
      s.Rollback();
      return Err(Invalid(created.error));
    }
    OnlyOne(created.value);
    var ok := CommitTwice(s, CreateWrites(created.value, user));
    result := if ok then Ok(created.value) else Err(TriggerRefused);
  }

  function CommitRecord(st: State, r: RequestId, tx: Transaction): seq<Record>
    requires r in st.requests
  {
    st.committed + [Record(st.requests[r].key, st.requests[r].payload, tx)]
  }

  lemma {:induction false} CommitAt(st: State, r: RequestId, tx: Transaction) returns (mid: State)
    requires r in st.requests && st.requests[r].phase == Running
    ensures Ran(st, mid, r) && At(st, mid, r, Committed(tx), st.redis, CommitRecord(st, r, tx))
  {
    RanFirst(st, Commit(r, tx), r);
    mid := Step(st, Commit(r, tx));
  }

  lemma {:induction false} FinishAt(st: State, r: RequestId, tx: Transaction) returns (end: State)
    requires r in st.requests && st.requests[r].phase == Cached(tx)
    ensures Ran(st, end, r) && At(st, end, r, Finished(tx), st.redis, st.committed)
  {
    RanFirst(st, Finish(r), r);
    end := Step(st, Finish(r));
  }

  /** What is left to do once a transaction is committed: invalidate, then cache the response. */
  method AfterCommit(redis: Redis, ctx: IdempotencyContext, accounts: set<Uuid>, tx: Transaction, ghost st: State,
                     r: RequestId)
    returns (ok: bool, ghost after: State, ghost done: set<Uuid>)
    requires r in st.requests && st.redis == redis.keys && st.requests[r].phase == Running
    requires Serves(ctx, redis, st.requests[r])
    modifies redis
    ensures Ran(st, after, r)
    ensures done <= accounts && redis.balances == Purge(old(redis.balances), done)
    ensures redis.Reliable() ==>
              ok && done == accounts && redis.keys == Completed(old(redis.keys), st.requests[r], tx)
    ensures At(st, after, r, Cached(tx), redis.keys, CommitRecord(st, r, tx))
         || (!ok && At(st, after, r, Committed(tx), redis.keys, CommitRecord(st, r, tx)))
  {
    ghost var committed := CommitAt(st, r, tx);
    var raised;
    raised, done := InvalidateBalanceCache(redis, accounts);
    if raised {
      return false, committed, done;
    }
    var cached;
    cached, after := CacheResponse(ctx, redis, tx, committed, r);
    RanTwice(st, committed, after, r);
    ok := cached.Ok?;
  }

  /** A transaction that the handler made goes in, and the trigger lets it. */
  predicate GoesIn(created: Result<Transaction, PostError>) {
    created.Ok? && TriggerPasses(created.value.entries)
  }

  /** How the handler can end, seen from the protocol. */
  ghost predicate BodyEnds(st: State, after: State, r: RequestId, result: Result<Transaction, PostFailure>,
                           created: Result<Transaction, PostError>, keys: map<Key, Stored>)
    requires r in st.requests
  {
    if GoesIn(created) then
      var tx, committed := created.value, CommitRecord(st, r, created.value);
      || (result == Ok(tx) && At(st, after, r, Cached(tx), keys, committed))
      || (result == Err(ResponseNotCached)
          && (At(st, after, r, Committed(tx), keys, committed) || At(st, after, r, Cached(tx), keys, committed)))
    else
      && result == Err(if created.Err? then Invalid(created.error) else TriggerRefused)
      && after == st
  }

  /** The handler inside the dependency's yield; `created` is what the service makes of the payload. */
  method PostBody(redis: Redis, db: Database, ctx: IdempotencyContext, p: Payload, user: Uuid, id: Uuid, now: Instant,
                  ghost created: Result<Transaction, PostError>, ghost st: State, r: RequestId)
    returns (result: Result<Transaction, PostFailure>, ghost after: State, ghost done: set<Uuid>)
    requires IsPayload(p) && created == Posting.CreateTransaction(db.tables, p, id, now)
    requires r in st.requests && st.redis == redis.keys && st.requests[r].phase == Running
    requires Serves(ctx, redis, st.requests[r])
    modifies redis, db
    ensures Ran(st, after, r) && after.redis == redis.keys
    ensures Posts(old(db.tables), db.tables, created, user)
    ensures BodyEnds(st, after, r, result, created, redis.keys)
    ensures done <= (if GoesIn(created) then AccountsIn(p.entries) else {})
    ensures redis.balances == Purge(old(redis.balances), done)
    ensures redis.Reliable() ==> result != Err(ResponseNotCached) && (result.Ok? ==> done == AccountsIn(p.entries))
    ensures redis.Reliable() ==>
              redis.keys == if GoesIn(created) then Completed(old(redis.keys), st.requests[r], created.value)
                            else old(redis.keys)
  {
    after, done := st, {};
    RanNothing(st, r);
    assert Purge(redis.balances, {}) == redis.balances;
    result := CreateAndCommit(db, p, user, id, now);
    if result.Err? {
      return;
    }
    var tx := result.value;
    var ok;
    ok, after, done := AfterCommit(redis, ctx, AccountsIn(p.entries), tx, st, r);
    result := if ok then Ok(tx) else Err(ResponseNotCached);
  }

  datatype PostResponse =
    | Created201(tx: Transaction)
    | Replayed200(body: Body)
    | Rejected(verdict: Verdict)
    | Raised(failure: PostFailure)
    | RedisDown

  /** Where each response leaves the request in the protocol: dead requests left their key behind. */
  predicate Responds(q: Phase, response: PostResponse) {
    match response
    case Created201(tx) => q == Finished(tx)
    case Replayed200(body) => q == Replaying(body)
    case Rejected(verdict) => q == Phase.Rejected(verdict)
    case Raised(ResponseNotCached) => q == Failed || (q.Crashed? && (q.at.Committed? || q.at.Cached?))
    case Raised(_) => q == Failed || q == Crashed(Running)
    case RedisDown => q == Failed || q == Crashed(Running)
  }

  /** What the response says about the ledger. */
  predicate Told(response: PostResponse, created: Result<Transaction, PostError>, before: Tables, after: Tables,
                 user: Uuid) {
    match response
    case Created201(tx) => created == Ok(tx) && GoesIn(created) && Posts(before, after, created, user)
    case Raised(Invalid(error)) => created == Err(error) && after == before
    case Raised(TriggerRefused) => created.Ok? && !GoesIn(created) && after == before
    case Raised(ResponseNotCached) => GoesIn(created) && Posts(before, after, created, user)
    case _ => after == before
  }

  /** The accounts a response may have invalidated: those of the payload if it was committed. */
  function Touched(response: PostResponse, p: Payload): set<Uuid> {
    if response.Created201? || response == Raised(ResponseNotCached) then AccountsIn(p.entries) else {}
  }

  /** The protocol records a commit exactly when the ledger has one. */
  predicate Recorded(st: State, after: State, r: RequestId, response: PostResponse,
                     created: Result<Transaction, PostError>)
    requires r in st.requests
  {
    if response.Created201? || response == Raised(ResponseNotCached) then
      created.Ok? && after.committed == CommitRecord(st, r, created.value)
    else after.committed == st.committed
  }

  /** Without failures of Redis, a request that runs posts exactly what goes in, and frees its key otherwise. */
  predicate RunsReliably(before: map<Key, Stored>, q: Request, created: Result<Transaction, PostError>,
                         response: PostResponse, after: map<Key, Stored>) {
    if GoesIn(created) then
      && response == Created201(created.value)
      && after == Completed(before, q, created.value)
    else
      && response == Raised(if created.Err? then Invalid(created.error) else TriggerRefused)
      && after == if q.key.None? then before else before - {q.key.value}
  }

  /**
   * Without failures of Redis: a request without a key, or with a free one, posts exactly what goes in and then
   * has its response under its key, or else frees it. A taken key is left alone: it is replayed to the bytes
   * it was stored for if it has a response, refused as in flight if it has none, and refused to other bytes.
   */
  predicate AnswersReliably(before: map<Key, Stored>, key: Option<Key>, bytes: Bytes,
                            created: Result<Transaction, PostError>, response: PostResponse, after: map<Key, Stored>) {
    if key.None? || key.value !in before then
      if GoesIn(created) then
        && response == Created201(created.value)
        && after == if key.None? then before
                    else before[key.value := Json(Some(Sha256(bytes)), Some(created.value))]
      else
        response == Raised(if created.Err? then Invalid(created.error) else TriggerRefused) && after == before
    else
      && after == before
      && match before[key.value]
         case NotJson => response == PostResponse.Rejected(InFlight409)
         case Json(fingerprint, stored) =>
           if fingerprint != Some(Sha256(bytes)) then response == PostResponse.Rejected(Mismatch422)
           else if stored.Some? then response == Replayed200(stored.value)
           else response == PostResponse.Rejected(InFlight409)
  }

  lemma {:induction false} RunAnswersReliably(before: map<Key, Stored>, during: map<Key, Stored>, q: Request,
                                              created: Result<Transaction, PostError>, response: PostResponse,
                                              after: map<Key, Stored>)
    requires IsDecided(before, q.key, q.payload, Running, during) && RunsReliably(during, q, created, response, after)
    ensures AnswersReliably(before, q.key, q.payload, created, response, after)
  {
  }

  /** The rest of the request, once the dependency has yielded to the handler. */
  method PostInside(redis: Redis, db: Database, ctx: IdempotencyContext, p: Payload, user: Uuid, id: Uuid, now: Instant,
                    ghost created: Result<Transaction, PostError>, ghost st: State, r: RequestId)
    returns (response: PostResponse, ghost after: State, ghost done: set<Uuid>)
    requires IsPayload(p) && created == Posting.CreateTransaction(db.tables, p, id, now)
    requires r in st.requests && st.redis == redis.keys && st.requests[r].phase == Running
    requires Serves(ctx, redis, st.requests[r])
    modifies redis, db
    ensures Ran(st, after, r) && after.redis == redis.keys
    ensures r in after.requests && Responds(after.requests[r].phase, response)
    ensures Told(response, created, old(db.tables), db.tables, user) && Recorded(st, after, r, response, created)
    ensures response.Created201? || response.Raised?
    ensures done <= Touched(response, p) && redis.balances == Purge(old(redis.balances), done)
    ensures redis.Reliable() ==> response != Raised(ResponseNotCached) && !after.requests[r].phase.Crashed?
                                 && (response.Created201? ==> done == AccountsIn(p.entries))
    ensures redis.Reliable() ==> RunsReliably(old(redis.keys), st.requests[r], created, response, redis.keys)
  {
    var result;
    ghost var ended;
    result, ended, done := PostBody(redis, db, ctx, p, user, id, now, created, st, r);
    if result.Ok? {
      after := FinishAt(ended, r, result.value);
      response := Created201(result.value);
    } else {
      after := OnException(ctx, redis, ended, r);
      response := Raised(result.error);
    }
    RanTwice(st, ended, after, r);
  }

  /**
   * post_transaction under its idempotency dependency: a run of the key protocol by this request alone,
   * whose outcome, ledger and cached balances the response tells. `created` is what the service makes of the
   * payload.
   */
  method PostTransaction(redis: Redis, db: Database, p: Payload, key: Option<Key>, bytes: Bytes, user: Uuid, id: Uuid,
                         now: Instant, ghost created: Result<Transaction, PostError>, ghost st: State, r: RequestId)
    returns (response: PostResponse, ghost after: State, ghost done: set<Uuid>)
    requires IsPayload(p) && created == Posting.CreateTransaction(db.tables, p, id, now)
    requires st.redis == redis.keys && r in st.requests && st.requests[r] == Request(key, bytes, Arrived)
    modifies redis, db
    ensures Ran(st, after, r) && after.redis == redis.keys
    ensures r in after.requests && Responds(after.requests[r].phase, response)
    ensures Told(response, created, old(db.tables), db.tables, user) && Recorded(st, after, r, response, created)
    ensures done <= Touched(response, p) && redis.balances == Purge(old(redis.balances), done)
    ensures redis.Reliable() ==>
              && response != RedisDown && response != Raised(ResponseNotCached)
              && !after.requests[r].phase.Crashed?
              && (response.Created201? ==> done == AccountsIn(p.entries))
    ensures redis.Reliable() ==> AnswersReliably(old(redis.keys), key, bytes, created, response, redis.keys)
  {
    done := {};
    assert Purge(redis.balances, {}) == redis.balances;
    var entered;
    entered, after := Enter(redis, key, bytes, st, r);
    if entered.Err? {
      response := if entered.error.Refused? then PostResponse.Rejected(entered.error.verdict) else RedisDown;
      return;
    }
    var ctx := entered.value;
    if ctx.replay.Some? {
      response := Replayed200(ctx.replay.value);
      return;
    }
    ghost var inside := after;
    ghost var during := redis.keys;
    response, after, done := PostInside(redis, db, ctx, p, user, id, now, created, inside, r);
    RanTwice(st, inside, after, r);
    if redis.Reliable() {
      RunAnswersReliably(st.redis, during, st.requests[r], created, response, redis.keys);
    }
  }

  /******* Voiding a transaction *******/

  datatype VoidResponse =
    | Voided200(original: Transaction, reversal: Transaction)
    | NoTransaction404
    | AlreadyVoided409
    | VoidRaised
    | RaisedAfterVoid(original: Transaction, reversal: Transaction)   // committed, but the invalidation raised

  /** The answer to a void, by what the tables hold. */
  function VoidAnswer(t: Tables, transactionId: Uuid, id: Uuid, now: Instant): VoidResponse {
    var i := Find(t.txs, transactionId);
    if i.None? then NoTransaction404
    else if t.txs[i.value].status != Posted then AlreadyVoided409
    else
      var reversal := Reversal(t.txs[i.value], id, now);
      if TriggerPasses(reversal.entries) then Voided200(t.txs[i.value].(status := Voided), reversal) else VoidRaised
  }

  /** The row is there and its status is the given one, or is not the given one. */
  predicate HasRow(txs: seq<Transaction>, id: Uuid, posted: bool) {
    exists i :: 0 <= i < |txs| && txs[i].id == id && (txs[i].status == Posted) == posted
  }

  /** original is the row as it is voided, and reversal mirrors it. */
  predicate IsVoidOf(txs: seq<Transaction>, transactionId: Uuid, original: Transaction, reversal: Transaction) {
    exists i :: && 0 <= i < |txs| && txs[i].id == transactionId && txs[i].status == Posted
                && original == txs[i].(status := Voided)
                && Books.IsReversal(reversal, txs[i])
  }

  /**
   * A void is not found exactly if no row has the id, conflicts exactly if the row is not posted, and else
   * voids it or, should the trigger refuse the reversal, fails.
   */
  lemma {:induction false} VoidIsAnswered(t: Tables, transactionId: Uuid, id: Uuid, now: Instant)
    requires UniqueIds(t.txs)
    ensures var r := VoidAnswer(t, transactionId, id, now);
            && !r.RaisedAfterVoid?
            && (r.NoTransaction404? <==> !HasRow(t.txs, transactionId, true) && !HasRow(t.txs, transactionId, false))
            && (r.AlreadyVoided409? <==> HasRow(t.txs, transactionId, false))
            && (r.Voided200? || r.VoidRaised? <==> HasRow(t.txs, transactionId, true))
            && (r.Voided200? ==> IsVoidOf(t.txs, transactionId, r.original, r.reversal))
  {
    var i := Find(t.txs, transactionId);
    if i.Some? {
      assert forall j | 0 <= j < |t.txs| && t.txs[j].id == transactionId :: j == i.value;
    }
  }

  /** The void is in the ledger: the original marked, its reversal and both audit rows added. */
  predicate IsVoided(before: Tables, after: Tables, reversal: Transaction, user: Uuid) {
    && reversal.reversalOf.Some?
    && var i := Find(before.txs, reversal.reversalOf.value);
       i.Some? && after == Publish(before, VoidWrites(before.txs[i.value], reversal, user))
  }

  method VoidTransactionEndpoint(redis: Redis, db: Database, transactionId: Uuid, user: Uuid, id: Uuid, now: Instant)
    returns (response: VoidResponse, ghost done: set<Uuid>)
    requires UniqueIds(db.tables.txs) && ColumnsHold(db.tables.txs)
    modifies redis`balances, redis`commands, db
    ensures var answer := VoidAnswer(old(db.tables), transactionId, id, now);
            || response == answer
            || (answer.Voided200? && response == RaisedAfterVoid(answer.original, answer.reversal))
    ensures response.NoTransaction404? <==> forall tx | tx in old(db.tables.txs) :: tx.id != transactionId
    ensures response.AlreadyVoided409?
       <==> exists tx :: tx in old(db.tables.txs) && tx.id == transactionId && tx.status != Posted
    ensures if response.Voided200? || response.RaisedAfterVoid?
            then IsVoided(old(db.tables), db.tables, response.reversal, user)
                 && done <= Accounts(response.original.entries)
            else db.tables == old(db.tables) && done == {}
    ensures redis.balances == Purge(old(redis.balances), done)
    ensures response.RaisedAfterVoid? ==> !redis.NeverDenies()
    ensures redis.Reliable() && response.Voided200? ==> done == Accounts(response.original.entries)
  {
    done := {};
    assert Purge(redis.balances, {}) == redis.balances;
    var s := new Session(db);
    var result := VoidTransaction(s, transactionId, user, id, now);
    if result.Err? {
      s.Rollback();
      return AlreadyVoided409, done;
    }
    if result.value.None? {
      return NoTransaction404, done;
    }
    var (original, reversal) := result.value.value;
    OnlyOne(reversal);
    var ok := CommitTwice(s, s.Pending());
    if !ok {
      return VoidRaised, done;
    }
    var raised;
    raised, done := InvalidateBalanceCache(redis, Accounts(original.entries));
    response := if raised then RaisedAfterVoid(original, reversal) else Voided200(original, reversal);
  }

  /******* What the handlers keep *******/

  /** Posting with a new id keeps every invariant of the committed tables. */
  lemma {:induction false} PostKeepsBooks(t: Tables, p: Payload, user: Uuid, id: Uuid, now: Instant)
    requires Books.Inv(t) && IsPayload(p) && Books.Fresh(t.txs, id)
    requires GoesIn(Posting.CreateTransaction(t, p, id, now))
    ensures Books.Inv(Publish(t, CreateWrites(Posting.CreateTransaction(t, p, id, now).value, user)))
  {
    CreateAcceptsExactly(t, p, id, now);
    CreatedIsSound(t, p, id, now);
    Books.CommitCreateKeepsInv(t, Posting.CreateTransaction(t, p, id, now).value, user);
  }

  /** Voiding keeps every invariant of the committed tables, and the trigger never refuses it. */
  lemma {:induction false} VoidKeepsBooks(t: Tables, transactionId: Uuid, user: Uuid, id: Uuid, now: Instant)
    requires Books.Inv(t) && Books.Fresh(t.txs, id)
    requires var i := Find(t.txs, transactionId); i.Some? && t.txs[i.value].status == Posted
    ensures var original := t.txs[Find(t.txs, transactionId).value];
            var reversal := Reversal(original, id, now);
            && VoidAnswer(t, transactionId, id, now) == Voided200(original.(status := Voided), reversal)
            && Books.Inv(Publish(t, VoidWrites(original, reversal, user)))
  {
    var i := Find(t.txs, transactionId).value;
    ReversalIsSound(t.accounts, t.txs[i], id, now);
    Books.CommitVoidKeepsInv(t, i, Reversal(t.txs[i], id, now), now, user);
  }

  lemma {:induction false} SameAccounts(given: seq<EntryIn>, stored: seq<Entry>)
    requires |given| == |stored| && forall i | 0 <= i < |given| :: given[i].account == stored[i].account
    ensures Accounts(stored) == AccountsIn(given)
  {
    forall a | a in AccountsIn(given) ensures a in Accounts(stored) {
      var i :| 0 <= i < |given| && given[i].account == a;
      assert stored[i] in stored;
    }
    forall a | a in Accounts(stored) ensures a in AccountsIn(given) {
      var i :| 0 <= i < |stored| && stored[i].account == a;
      assert given[i] in given;
    }
  }

  /**
   * The accounts whose keys a handler deletes are those of the transaction it commits: the payload's
   * accounts are the new transaction's, and the original's accounts are the reversal's.
   */
  lemma {:induction false} InvalidatedAccounts(t: Tables, p: Payload, original: Transaction, id: Uuid, now: Instant)
    requires IsPayload(p)
    ensures var created := Posting.CreateTransaction(t, p, id, now);
            created.Ok? ==> Accounts(created.value.entries) == AccountsIn(p.entries)
    ensures Accounts(Reversal(original, id, now).entries) == Accounts(original.entries)
  {
    FlipNegates(original.entries, 0);
    var created := Posting.CreateTransaction(t, p, id, now);
    if created.Ok? {
      SameAccounts(p.entries, created.value.entries);
    }
  }

  /******* The handlers and the cache machine *******/

  /** What Redis holds of the machine's cache. */
  function Cells(cache: map<BalanceCache.Key, BalanceCache.Slot>): Balances {
    map k | k in cache :: Cell(cache[k].load.answer, cache[k].expires)
  }

  /** Invalidating one account is a scan and a delete of the cache machine. */
  lemma {:induction false} InvalidationIsScanAndDelete(st: BalanceCache.State, c: nat, account: Uuid)
    requires BalanceCache.CanScan(st, c, account)
    ensures var scanned := BalanceCache.Step(st, BalanceCache.ScanKeys(c, account));
            var deleted := BalanceCache.Step(scanned, BalanceCache.DeleteKeys(c));
            && Cells(deleted.cache) == Purge(Cells(st.cache), {account})
            && deleted.writers[c].todo == st.writers[c].todo - {account}
  {
  }

  predicate IsStepOfWriter(ev: BalanceCache.Event, c: nat) {
    (ev.ScanKeys? || ev.DeleteKeys?) && ev.c == c
  }

  predicate AllOfWriter(events: seq<BalanceCache.Event>, c: nat) {
    forall i | 0 <= i < |events| :: IsStepOfWriter(events[i], c)
  }

  /** Writer c has invalidated the accounts and nothing else. */
  predicate HasInvalidated(st: BalanceCache.State, after: BalanceCache.State, c: nat, accounts: set<Uuid>) {
    && c < |st.writers| && |after.writers| == |st.writers|
    && Cells(after.cache) == Purge(Cells(st.cache), accounts)
    && after.writers[c].todo == st.writers[c].todo - accounts
    && after.writers[c].scan.None? && !after.writers[c].gaveUp
  }

  /** Writer c has the accounts to invalidate, and is not in the middle of one. */
  predicate IsToInvalidate(st: BalanceCache.State, c: nat, accounts: set<Uuid>) {
    && c < |st.writers| && st.writers[c].scan.None? && !st.writers[c].gaveUp
    && accounts <= st.writers[c].todo
  }

  lemma {:induction false} OneAccountInvalidated(events: seq<BalanceCache.Event>, c: nat, account: Uuid)
    returns (more: seq<BalanceCache.Event>)
    requires IsToInvalidate(BalanceCache.Run(events), c, {account})
    ensures AllOfWriter(more, c)
    ensures HasInvalidated(BalanceCache.Run(events), BalanceCache.Run(events + more), c, {account})
  {
    more := [BalanceCache.ScanKeys(c, account)] + [BalanceCache.DeleteKeys(c)];
    InvalidationIsScanAndDelete(BalanceCache.Run(events), c, account);
    BalanceCache.Snoc(events, BalanceCache.ScanKeys(c, account));
    BalanceCache.Snoc(events + [BalanceCache.ScanKeys(c, account)], BalanceCache.DeleteKeys(c));
    assert events + more == events + [BalanceCache.ScanKeys(c, account)] + [BalanceCache.DeleteKeys(c)];
  }

  lemma {:induction false} PurgeTwice(balances: Balances, a: set<Uuid>, b: set<Uuid>)
    ensures Purge(Purge(balances, a), b) == Purge(balances, a + b)
  {
  }

  lemma {:induction false} StillToInvalidate(st: BalanceCache.State, mid: BalanceCache.State, c: nat,
                                             accounts: set<Uuid>, account: Uuid)
    requires IsToInvalidate(st, c, accounts) && HasInvalidated(st, mid, c, {account})
    ensures IsToInvalidate(mid, c, accounts - {account})
  {
  }

  lemma {:induction false} InvalidatedTwice(st: BalanceCache.State, mid: BalanceCache.State,
                                            after: BalanceCache.State, c: nat, a: set<Uuid>, b: set<Uuid>)
    requires HasInvalidated(st, mid, c, a) && HasInvalidated(mid, after, c, b)
    ensures HasInvalidated(st, after, c, a + b)
  {
    PurgeTwice(Cells(st.cache), a, b);
  }

  /**
   * Whatever accounts the loop gets to before Redis fails, it leaves the cache as steps of the request's
   * writer in the cache machine do.
   */
  lemma {:induction false} InvalidationIsRun(events: seq<BalanceCache.Event>, c: nat, done: set<Uuid>)
    returns (more: seq<BalanceCache.Event>)
    requires IsToInvalidate(BalanceCache.Run(events), c, done)
    ensures AllOfWriter(more, c)
    ensures HasInvalidated(BalanceCache.Run(events), BalanceCache.Run(events + more), c, done)
    decreases done
  {
    if done == {} {
      more := [];
      assert events + more == events;
      assert Purge(Cells(BalanceCache.Run(events).cache), {}) == Cells(BalanceCache.Run(events).cache);
    } else {
      var account :| account in done;
      var first := OneAccountInvalidated(events, c, account);
      StillToInvalidate(BalanceCache.Run(events), BalanceCache.Run(events + first), c, done, account);
      var rest := InvalidationIsRun(events + first, c, done - {account});
      more := first + rest;
      assert events + more == events + first + rest;
      InvalidatedTwice(BalanceCache.Run(events), BalanceCache.Run(events + first), BalanceCache.Run(events + more), c,
                       {account}, done - {account});
      assert {account} + (done - {account}) == done;
    }
  }

  predicate IsStepOfReader(ev: BalanceCache.Event, r: BalanceCache.ReaderId) {
    (ev.Get? || ev.ReadDatabase? || ev.Set?) && ev.r == r
  }

  predicate AllOfReader(events: seq<BalanceCache.Event>, r: BalanceCache.ReaderId) {
    forall i | 0 <= i < |events| :: IsStepOfReader(events[i], r)
  }

  /** What the reader r has come to. */
  predicate Reached(st: BalanceCache.State, r: BalanceCache.ReaderId, response: BalanceResponse) {
    match response
    case Balance200(answer) => r in st.readers && st.readers[r] == BalanceCache.Served(answer)
    case NotFound404 => r in st.readers && st.readers[r] == BalanceCache.NotFound
    case BalanceRaised => r !in st.readers
  }

  /** The tables' accounts are those of the cache machine, and the ledger is the same. */
  predicate SameTables(t: Tables, st: BalanceCache.State) {
    && t.txs == st.txs
    && (forall i | 0 <= i < |t.accounts| ::
          t.accounts[i].id in st.accounts && st.accounts[t.accounts[i].id] == t.accounts[i].currency)
    && (forall a | a in st.accounts :: HasId(t.accounts, a))
  }

  lemma {:induction false} HitIsGet(st: BalanceCache.State, r: BalanceCache.ReaderId, key: BalanceCache.Key,
                                    answer: BalanceCache.Answer)
    requires r !in st.readers && Hit(Cells(st.cache), key, st.now) == Some(answer)
    ensures var after := BalanceCache.Step(st, BalanceCache.Get(r, key, false));
            Reached(after, r, Balance200(answer)) && Cells(after.cache) == Cells(st.cache)
  {
  }

  lemma {:induction false} GetMisses(st: BalanceCache.State, r: BalanceCache.ReaderId, key: BalanceCache.Key)
    returns (next: BalanceCache.State)
    requires r !in st.readers
    ensures next == BalanceCache.Step(st, BalanceCache.Get(r, key, true))
    ensures next == st.(readers := st.readers[r := BalanceCache.Missed(key)], clock := st.clock + 1)
  {
    next := BalanceCache.Step(st, BalanceCache.Get(r, key, true));
  }

  /** The reader holds the response, or has found no account. */
  predicate HasRead(st: BalanceCache.State, r: BalanceCache.ReaderId, key: BalanceCache.Key,
                    response: BalanceResponse) {
    && r in st.readers && !response.BalanceRaised?
    && if response.Balance200?
       then st.readers[r].Loaded? && st.readers[r].key == key && st.readers[r].load.answer == response.answer
       else st.readers[r] == BalanceCache.NotFound
  }

  lemma {:induction false} MissReads(st: BalanceCache.State, t: Tables, r: BalanceCache.ReaderId, key: BalanceCache.Key)
    returns (next: BalanceCache.State)
    requires r in st.readers && st.readers[r] == BalanceCache.Missed(key) && SameTables(t, st)
    ensures next == BalanceCache.Step(st, BalanceCache.ReadDatabase(r))
    ensures next.cache == st.cache && next.now == st.now && HasRead(next, r, key, Computed(t, key))
  {
    next := BalanceCache.Step(st, BalanceCache.ReadDatabase(r));
    assert FindAccount(t.accounts, key.account).Some? <==> key.account in st.accounts;
  }

  lemma {:induction false} ReadSets(st: BalanceCache.State, r: BalanceCache.ReaderId, key: BalanceCache.Key,
                                    response: BalanceResponse, today: Date, setFails: bool)
    returns (next: BalanceCache.State)
    requires HasRead(st, r, key, response)
    ensures next == BalanceCache.Step(st, BalanceCache.Set(r, today, setFails)) && Reached(next, r, response)
    ensures Cells(next.cache)
         == if setFails || response.NotFound404? then Cells(st.cache)
            else Cells(st.cache)[key := Cell(response.answer, st.now + BalanceCache.Ttl(key.asOf, today))]
  {
    next := BalanceCache.Step(st, BalanceCache.Set(r, today, setFails));
  }

  lemma {:induction false} MissLoads(events: seq<BalanceCache.Event>, t: Tables, r: BalanceCache.ReaderId,
                                     key: BalanceCache.Key)
    returns (next: BalanceCache.State)
    requires r !in BalanceCache.Run(events).readers && SameTables(t, BalanceCache.Run(events))
    ensures next == BalanceCache.Run(events + [BalanceCache.Get(r, key, true)] + [BalanceCache.ReadDatabase(r)])
    ensures var st := BalanceCache.Run(events);
            next.cache == st.cache && next.now == st.now && HasRead(next, r, key, Computed(t, key))
  {
    var missed := GetMisses(BalanceCache.Run(events), r, key);
    BalanceCache.Snoc(events, BalanceCache.Get(r, key, true));
    next := MissReads(missed, t, r, key);
    BalanceCache.Snoc(events + [BalanceCache.Get(r, key, true)], BalanceCache.ReadDatabase(r));
  }

  lemma {:induction false} MissRuns(events: seq<BalanceCache.Event>, t: Tables, r: BalanceCache.ReaderId,
                                    key: BalanceCache.Key, today: Date, setFails: bool)
    returns (more: seq<BalanceCache.Event>)
    requires r !in BalanceCache.Run(events).readers && SameTables(t, BalanceCache.Run(events))
    ensures AllOfReader(more, r) && Reached(BalanceCache.Run(events + more), r, Computed(t, key))
    ensures var st := BalanceCache.Run(events);
            Cells(BalanceCache.Run(events + more).cache)
              == if setFails || Computed(t, key).NotFound404? then Cells(st.cache)
                 else Cells(st.cache)[key := Cell(Computed(t, key).answer, st.now + BalanceCache.Ttl(key.asOf, today))]
  {
    var loaded := MissLoads(events, t, r, key);
    var served := ReadSets(loaded, r, key, Computed(t, key), today, setFails);
    var read := events + [BalanceCache.Get(r, key, true)] + [BalanceCache.ReadDatabase(r)];
    BalanceCache.Snoc(read, BalanceCache.Set(r, today, setFails));
    more := [BalanceCache.Get(r, key, true), BalanceCache.ReadDatabase(r), BalanceCache.Set(r, today, setFails)];
    assert events + more == read + [BalanceCache.Set(r, today, setFails)];
  }

  lemma {:induction false} HitRuns(events: seq<BalanceCache.Event>, r: BalanceCache.ReaderId, key: BalanceCache.Key,
                                   answer: BalanceCache.Answer)
    returns (more: seq<BalanceCache.Event>)
    requires r !in BalanceCache.Run(events).readers
    requires Hit(Cells(BalanceCache.Run(events).cache), key, BalanceCache.Run(events).now) == Some(answer)
    ensures AllOfReader(more, r) && Reached(BalanceCache.Run(events + more), r, Balance200(answer))
    ensures Cells(BalanceCache.Run(events + more).cache) == Cells(BalanceCache.Run(events).cache)
  {
    more := [BalanceCache.Get(r, key, false)];
    BalanceCache.Snoc(events, BalanceCache.Get(r, key, false));
    HitIsGet(BalanceCache.Run(events), r, key, answer);
  }

  /** Whatever a request for a balance may answer and leave cached, steps of one reader of the machine do too. */
  lemma {:induction false} BalanceRequestIsRun(events: seq<BalanceCache.Event>, t: Tables, r: BalanceCache.ReaderId,
                                               key: BalanceCache.Key, today: Date, after: Balances,
                                               response: BalanceResponse)
    returns (more: seq<BalanceCache.Event>)
    requires r !in BalanceCache.Run(events).readers && SameTables(t, BalanceCache.Run(events))
    requires var st := BalanceCache.Run(events); Answers(Cells(st.cache), t, key, st.now, today, after, response)
    ensures AllOfReader(more, r)
    ensures Reached(BalanceCache.Run(events + more), r, response)
    ensures Cells(BalanceCache.Run(events + more).cache) == after
  {
    var st := BalanceCache.Run(events);
    if response.BalanceRaised? {
      more := [];
      assert events + more == events;
    } else if response.Balance200? && Hit(Cells(st.cache), key, st.now) == Some(response.answer)
              && after == Cells(st.cache) {
      more := HitRuns(events, r, key, response.answer);
    } else {
      more := MissRuns(events, t, r, key, today, after == Cells(st.cache));
    }
  }
}
