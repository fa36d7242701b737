/**
 * Everything at once: database sessions, idempotency keys and cached balances over one ledger. A request and
 * the session it works in share a number. A create commits for its request only inside the dependency's try,
 * and every commit is a commit for sessions, keys and cache alike.
 */
module System {
  import opened Prelude
  import opened Ledger
  import opened Posting
  import opened Guarantees
  import Books
  import Reversals
  import Protocol
  import Idempotency
  import BalanceCache

  datatype State = State(ledger: Protocol.State, keys: Idempotency.State, cache: BalanceCache.State)

  /** A step of one part; the commits of keys and cache are those of the sessions. */
  datatype Event =
    | OfSessions(step: Protocol.Event)
    | OfKeys(command: Idempotency.Event)
    | OfCache(action: BalanceCache.Event)

  predicate IsRunning(st: State, r: Idempotency.RequestId) {
    r in st.keys.requests && st.keys.requests[r].phase.Running?
  }

  /** The transaction a session's step may commit: a reversal, or what a request in the dependency's try made. */
  function Commits(st: State, ev: Event): Option<(set<Uuid>, Transaction)> {
    var commit := if ev.OfSessions? then CommitOf(st.ledger, ev.step) else None;
    if commit.Some? && commit.value.1.reversalOf.None? && !IsRunning(st, ev.step.s) then None else commit
  }

  /** A create that would commit outside its request's try does not happen. */
  predicate IsBlocked(st: State, ev: Event) {
    ev.OfSessions? && CommitOf(st.ledger, ev.step).Some? && Commits(st, ev).None?
  }

  function SessionEvent(st: State, ev: Event): seq<Protocol.Event> {
    if ev.OfSessions? && !IsBlocked(st, ev) then [ev.step] else []
  }

  function KeyEvent(st: State, ev: Event): seq<Idempotency.Event> {
    if ev.OfKeys? && !ev.command.Commit? then [ev.command]
    else
      var commit := Commits(st, ev);
      if commit.Some? && commit.value.1.reversalOf.None? then [Idempotency.Commit(ev.step.s, commit.value.1)] else []
  }

  function CacheEvent(st: State, ev: Event): seq<BalanceCache.Event> {
    if ev.OfCache? && !ev.action.Commit? then [ev.action]
    else
      var commit := Commits(st, ev);
      if commit.Some? then [BalanceCache.Commit(commit.value.0, commit.value.1)] else []
  }

  function Step(st: State, ev: Event): State {
    State(
      if SessionEvent(st, ev) == [] then st.ledger else Protocol.Step(st.ledger, SessionEvent(st, ev)[0]),
      if KeyEvent(st, ev) == [] then st.keys else Idempotency.Step(st.keys, KeyEvent(st, ev)[0]),
      if CacheEvent(st, ev) == [] then st.cache else BalanceCache.Step(st.cache, CacheEvent(st, ev)[0]))
  }

  const INIT := State(Protocol.INIT, Idempotency.INIT, BalanceCache.INIT)

  function Run(events: seq<Event>): State {
    if events == [] then INIT else Step(Run(events[..|events| - 1]), events[|events| - 1])
  }

  /** A step of one part that commits nothing is that part's step, and moves no other part. */
  lemma {:induction false} PartsStep(st: State, ev: Event)
    ensures var after := Step(st, ev);
            match ev
            case OfSessions(step) =>
              CommitOf(st.ledger, step).None? ==> after == st.(ledger := Protocol.Step(st.ledger, step))
            case OfKeys(command) => !command.Commit? ==> after == st.(keys := Idempotency.Step(st.keys, command))
            case OfCache(action) => !action.Commit? ==> after == st.(cache := BalanceCache.Step(st.cache, action))
  {
  }

  /******* Each part runs as the machine it is *******/

  function SessionEvents(events: seq<Event>): seq<Protocol.Event> {
    if events == [] then []
    else
      var before, ev := events[..|events| - 1], events[|events| - 1];
      SessionEvents(before) + SessionEvent(Run(before), ev)
  }

  function KeyEvents(events: seq<Event>): seq<Idempotency.Event> {
    if events == [] then []
    else
      var before, ev := events[..|events| - 1], events[|events| - 1];
      KeyEvents(before) + KeyEvent(Run(before), ev)
  }

  function CacheEvents(events: seq<Event>): seq<BalanceCache.Event> {
    if events == [] then []
    else
      var before, ev := events[..|events| - 1], events[|events| - 1];
      CacheEvents(before) + CacheEvent(Run(before), ev)
  }

  lemma {:induction false} SessionsProject(events: seq<Event>)
    ensures Protocol.Run(SessionEvents(events)) == Run(events).ledger
  {
    if events != [] {
      var before, ev := events[..|events| - 1], events[|events| - 1];
      SessionsProject(before);
      var mine := SessionEvent(Run(before), ev);
      if mine == [] {
        assert SessionEvents(events) == SessionEvents(before);
      } else {
        RunSnoc(SessionEvents(before), mine[0]);
        assert mine == [mine[0]];
      }
    }
  }

  lemma {:induction false} KeysProject(events: seq<Event>)
    ensures Idempotency.Run(KeyEvents(events)) == Run(events).keys
  {
    if events != [] {
      var before, ev := events[..|events| - 1], events[|events| - 1];
      KeysProject(before);
      var mine := KeyEvent(Run(before), ev);
      if mine == [] {
        assert KeyEvents(events) == KeyEvents(before);
      } else {
        Idempotency.Snoc(KeyEvents(before), mine[0], 0);
        assert mine == [mine[0]];
      }
    }
  }

  lemma {:induction false} CacheProjects(events: seq<Event>)
    ensures BalanceCache.Run(CacheEvents(events)) == Run(events).cache
  {
    if events != [] {
      var before, ev := events[..|events| - 1], events[|events| - 1];
      CacheProjects(before);
      var mine := CacheEvent(Run(before), ev);
      if mine == [] {
        assert CacheEvents(events) == CacheEvents(before);
      } else {
        BalanceCache.Snoc(CacheEvents(before), mine[0]);
        assert mine == [mine[0]];
      }
    }
  }

  /** Sessions, keys and cache run as the machines they are, so what holds of their runs holds here. */
  lemma {:induction false} PartsAreRuns(events: seq<Event>)
    ensures Run(events) == State(Protocol.Run(SessionEvents(events)), Idempotency.Run(KeyEvents(events)),
                                 BalanceCache.Run(CacheEvents(events)))
  {
    SessionsProject(events);
    KeysProject(events);
    CacheProjects(events);
  }

  /******* One ledger *******/

  function Txs(st: State): seq<Transaction> {
    st.ledger.tables.txs
  }

  lemma {:induction false} LedgerMoves(st: State, ev: Event)
    ensures var commit := Commits(st, ev);
            Txs(Step(st, ev)) == if commit.Some? then Mark(Txs(st), commit.value.0) + [commit.value.1] else Txs(st)
  {
    if Commits(st, ev).Some? {
      var w := CommitPublishes(st.ledger, ev.step);
    } else if ev.OfSessions? && CommitOf(st.ledger, ev.step).None? {
      OthersPublishNothing(st.ledger, ev.step);
    }
  }

  lemma {:induction false} CacheMoves(st: State, ev: Event)
    requires Commits(st, ev).Some? ==> Commits(st, ev).value.1.status == Posted
    ensures var commit := Commits(st, ev);
            Step(st, ev).cache.txs
              == if commit.Some? then Mark(st.cache.txs, commit.value.0) + [commit.value.1] else st.cache.txs
  {
  }

  /** What a step adds to the records of the keys: the transaction it commits for a request, if any. */
  lemma {:induction false} KeysMove(st: State, ev: Event)
    ensures var commit, records := Commits(st, ev), st.keys.committed;
            if commit.Some? && commit.value.1.reversalOf.None? then
              && IsRunning(st, ev.step.s)
              && var q := st.keys.requests[ev.step.s];
                 Step(st, ev).keys.committed == records + [Idempotency.Record(q.key, q.payload, commit.value.1)]
            else Step(st, ev).keys.committed == records
  {
  }

  lemma {:induction false} CommitIsPosted(events: seq<Event>, ev: Event)
    requires Commits(Run(events), ev).Some?
    ensures Commits(Run(events), ev).value.1.status == Posted
  {
    SessionsProject(events);
    ReachableSession(SessionEvents(events), ev.step.s);
    CommitsPosted(Run(events).ledger.tables, Run(events).ledger.sessions[ev.step.s]);
  }

  lemma {:induction false} WriterAdded(st: State, ev: Event)
    requires Commits(st, ev).Some? && Commits(st, ev).value.1.status == Posted
    ensures var writers, writers' := st.cache.writers, Step(st, ev).cache.writers;
            && |writers'| == |writers| + 1
            && writers'[|writers|].todo == Accounts(Commits(st, ev).value.1.entries)
  {
  }

  /** The ledger has the transaction, sessions and cache alike, and the rows named are voided. */
  predicate IsCommitted(st: State, after: State, marks: set<Uuid>, tx: Transaction) {
    && Txs(after) == Mark(Txs(st), marks) + [tx]
    && after.cache.txs == Mark(st.cache.txs, marks) + [tx]
    && |after.cache.writers| == |st.cache.writers| + 1
    && after.cache.writers[|st.cache.writers|].todo == Accounts(tx.entries)
  }

  lemma {:induction false} ReadyCommits(events: seq<Event>, s: Protocol.SessionId)
    requires s in Run(events).ledger.sessions
    ensures var st := Run(events); var commit := Commits(st, OfSessions(Protocol.Commit(s)));
            match st.ledger.sessions[s]
            case Built(tx, _) =>
              && tx.reversalOf.None?
              && (IsRunning(st, s) && DebitTotal(tx.entries) <= BIGINT_MAX ==> commit == Some(({}, tx)))
            case Reversed(original, reversal, _) =>
              reversal.reversalOf.Some? && commit == Some(({original.id}, reversal))
            case _ => commit.None?
  {
    SessionsProject(events);
    ReachableSession(SessionEvents(events), s);
    ReachableLinks(SessionEvents(events));
    var session := Run(events).ledger.sessions[s];
    if session.Built? {
      NetIsDifference(session.tx.entries);
    } else if session.Reversed? {
      Protocol.ReversedPassesTrigger(Run(events).ledger, s);
    }
  }

  lemma {:induction false} CommitCommits(events: seq<Event>, ev: Event)
    requires Commits(Run(events), ev).Some?
    ensures var commit := Commits(Run(events), ev).value;
            IsCommitted(Run(events), Step(Run(events), ev), commit.0, commit.1)
  {
    LedgerMoves(Run(events), ev);
    CommitIsPosted(events, ev);
    CacheMoves(Run(events), ev);
    WriterAdded(Run(events), ev);
  }

  /**
   * In every run, a create that its request has built commits if the request is in its try and the trigger
   * passes it, and is recorded under the request's key; a void commits whenever it comes to it.
   */
  lemma {:induction false} ReadySessionsCommit(events: seq<Event>, s: Protocol.SessionId)
    requires s in Run(events).ledger.sessions
    ensures var st, after := Run(events), Step(Run(events), OfSessions(Protocol.Commit(s)));
            match st.ledger.sessions[s]
            case Built(tx, _) =>
              IsRunning(st, s) && DebitTotal(tx.entries) <= BIGINT_MAX ==>
                && IsCommitted(st, after, {}, tx)
                && var q := st.keys.requests[s];
                   after.keys.committed == st.keys.committed + [Idempotency.Record(q.key, q.payload, tx)]
            case Reversed(original, reversal, _) =>
              IsCommitted(st, after, {original.id}, reversal) && after.keys.committed == st.keys.committed
            case _ => Txs(after) == Txs(st) && after.keys.committed == st.keys.committed
  {
    var st, ev := Run(events), OfSessions(Protocol.Commit(s));
    ReadyCommits(events, s);
    KeysMove(st, ev);
    if Commits(st, ev).Some? {
      CommitCommits(events, ev);
    } else {
      LedgerMoves(st, ev);
    }
  }

  function Bodies(records: seq<Idempotency.Record>): (bodies: seq<Transaction>)
    ensures |bodies| == |records|
  {
    seq(|records|, i requires 0 <= i < |records| => records[i].body)
  }

  /** The cache has the sessions' ledger, and the keys record its roots, in order. */
  ghost predicate Agree(st: State) {
    st.cache.txs == Txs(st) && Bodies(st.keys.committed) == Reversals.Abstract(Txs(st)).posted
  }

  lemma {:induction false} CommitRefines(events: seq<Event>, ev: Event)
    ensures var commit, txs' := Commits(Run(events), ev), Txs(Step(Run(events), ev));
            if commit.Some? then RefinesCommit(Txs(Run(events)), commit.value.1, Reversals.Abstract(txs'))
            else txs' == Txs(Run(events))
  {
    SessionsProject(events);
    LedgerMoves(Run(events), ev);
    if Commits(Run(events), ev).Some? {
      StepsRefine(SessionEvents(events), ev.step);
    }
  }

  lemma {:induction false} RecordsFollow(txs: seq<Transaction>, tx: Transaction, after: Reversals.Switched,
                                         records: seq<Idempotency.Record>, records': seq<Idempotency.Record>)
    requires RefinesCommit(txs, tx, after) && Bodies(records) == Reversals.Abstract(txs).posted && tx.status == Posted
    requires if tx.reversalOf.None?
             then exists record :: records' == records + [record] && record.body == tx
             else records' == records
    ensures Bodies(records') == after.posted
  {
    assert tx.(status := Posted) == tx;
    if tx.reversalOf.None? {
      assert Bodies(records') == Bodies(records) + [tx];
    }
  }

  lemma {:induction false} StepAgrees(events: seq<Event>, ev: Event)
    requires Agree(Run(events))
    ensures Agree(Step(Run(events), ev))
  {
    var st, commit := Run(events), Commits(Run(events), ev);
    if commit.Some? {
      CommitIsPosted(events, ev);
    }
    LedgerMoves(st, ev);
    CacheMoves(st, ev);
    KeysMove(st, ev);
    CommitRefines(events, ev);
    if commit.Some? {
      RecordsFollow(Txs(st), commit.value.1, Reversals.Abstract(Txs(Step(st, ev))), st.keys.committed,
                    Step(st, ev).keys.committed);
    }
  }

  /**
   * In every run the cache has the sessions' ledger, and the transactions recorded under the keys are the
   * ledger's rows that reverse nothing, in the order of their commits.
   */
  lemma {:induction false} RunAgrees(events: seq<Event>)
    ensures Agree(Run(events))
  {
    if events != [] {
      RunAgrees(events[..|events| - 1]);
      StepAgrees(events[..|events| - 1], events[|events| - 1]);
    }
  }

  /******* At most one row per key *******/

  /** The request that commits in this step has key k. */
  predicate CommitsUnder(st: State, ev: Event, k: Idempotency.Key) {
    var commit := Commits(st, ev);
    commit.Some? && commit.value.1.reversalOf.None? && st.keys.requests[ev.step.s].key == Some(k)
  }

  predicate Expires(st: State, ev: Event, k: Idempotency.Key) {
    ev.OfKeys? && Idempotency.Expires(st.keys, ev.command, k)
  }

  /** The ids of the rows that requests with key k have committed since the key last expired. */
  function RowsSinceExpiry(events: seq<Event>, k: Idempotency.Key): set<Uuid> {
    if events == [] then {}
    else
      var before, ev := events[..|events| - 1], events[|events| - 1];
      if Expires(Run(before), ev, k) then {}
      else RowsSinceExpiry(before, k)
           + if CommitsUnder(Run(before), ev, k) then {Commits(Run(before), ev).value.1.id} else {}
  }

  lemma {:induction false} CountMoves(events: seq<Event>, ev: Event, k: Idempotency.Key,
                                      keyEvents: seq<Idempotency.Event>)
    requires Idempotency.Run(keyEvents) == Run(events).keys
    ensures Idempotency.CommitsSinceExpiry(keyEvents + KeyEvent(Run(events), ev), k)
         == if Expires(Run(events), ev, k) then 0
            else Idempotency.CommitsSinceExpiry(keyEvents, k)
                 + Idempotency.Count(CommitsUnder(Run(events), ev, k))
  {
    var mine := KeyEvent(Run(events), ev);
    if mine == [] {
      assert keyEvents + mine == keyEvents;
    } else {
      assert mine == [mine[0]];
      Idempotency.Snoc(keyEvents, mine[0], k);
    }
  }

  lemma {:induction false} NewIds(txs: seq<Transaction>, marks: set<Uuid>, tx: Transaction)
    requires UniqueIds(Mark(txs, marks) + [tx])
    ensures tx.id !in Books.Ids(txs) && Books.Ids(Mark(txs, marks) + [tx]) == Books.Ids(txs) + {tx.id}
  {
    var txs' := Mark(txs, marks) + [tx];
    forall t | t in txs ensures t.id != tx.id && t.id in Books.Ids(txs') {
      var i :| 0 <= i < |txs| && txs[i] == t;
      assert txs'[i].id == t.id && txs'[|txs|] == tx;
    }
    forall t | t in txs' ensures t.id in Books.Ids(txs) + {tx.id} {
      var i :| 0 <= i < |txs'| && txs'[i] == t;
      if i < |txs| {
        assert txs[i].id == t.id;
      }
    }
    assert txs'[|txs|] in txs';
  }

  lemma {:induction false} CommittedIdIsNew(events: seq<Event>, ev: Event)
    requires Commits(Run(events), ev).Some?
    ensures Commits(Run(events), ev).value.1.id !in Books.Ids(Txs(Run(events)))
    ensures Books.Ids(Txs(Step(Run(events), ev)))
         == Books.Ids(Txs(Run(events))) + {Commits(Run(events), ev).value.1.id}
  {
    var st, commit := Run(events), Commits(Run(events), ev).value;
    LedgerMoves(st, ev);
    SessionsProject(events);
    RunSnoc(SessionEvents(events), ev.step);
    ReachableLinks(SessionEvents(events) + [ev.step]);
    NewIds(Txs(st), commit.0, commit.1);
  }

  lemma {:induction false} IdsStay(events: seq<Event>, ev: Event)
    ensures Books.Ids(Txs(Run(events))) <= Books.Ids(Txs(Step(Run(events), ev)))
  {
    LedgerMoves(Run(events), ev);
    if Commits(Run(events), ev).Some? {
      CommittedIdIsNew(events, ev);
    }
  }

  lemma {:induction false} RowsAreCounted(events: seq<Event>, k: Idempotency.Key)
    ensures RowsSinceExpiry(events, k) <= Books.Ids(Txs(Run(events)))
    ensures |RowsSinceExpiry(events, k)| == Idempotency.CommitsSinceExpiry(KeyEvents(events), k)
  {
    if events != [] {
      var before, ev := events[..|events| - 1], events[|events| - 1];
      RowsAreCounted(before, k);
      KeysProject(before);
      CountMoves(before, ev, k, KeyEvents(before));
      IdsStay(before, ev);
      if CommitsUnder(Run(before), ev, k) {
        CommittedIdIsNew(before, ev);
      }
    }
  }

  /**
   * The ledger's rows committed under a key since it last expired are one for each exception after a commit,
   * and one more if the key's present holder has committed: without such an exception there is at most one.
   */
  lemma {:induction false} RowsPerKey(events: seq<Event>, k: Idempotency.Key)
    requires Idempotency.Timely(KeyEvents(events))
    ensures var rows, late := RowsSinceExpiry(events, k), Idempotency.LateRaisesSinceExpiry(KeyEvents(events), k);
            && rows <= Books.Ids(Txs(Run(events)))
            && |rows| == late + Idempotency.Count(Idempotency.HolderCommitted(Run(events).keys, k))
            && (late == 0 ==> |rows| <= 1)
  {
    RowsAreCounted(events, k);
    KeysProject(events);
    Idempotency.CommitsAreLateRaises(KeyEvents(events), k);
  }

  /******* Replays are rows *******/

  lemma {:induction false} PostedAreRoots(txs: seq<Transaction>, k: nat)
    requires k < |Reversals.Abstract(txs).posted|
    ensures exists i :: && 0 <= i < |txs| && txs[i].reversalOf.None?
                        && txs[i].(status := Posted) == Reversals.Abstract(txs).posted[k]
  {
    var rest, last := txs[..|txs| - 1], txs[|txs| - 1];
    if k < |Reversals.Abstract(rest).posted| {
      PostedAreRoots(rest, k);
      var i :| && 0 <= i < |rest| && rest[i].reversalOf.None?
               && rest[i].(status := Posted) == Reversals.Abstract(rest).posted[k];
      assert txs[i] == rest[i];
    } else {
      assert txs[|txs| - 1].reversalOf.None?;
    }
  }

  /**
   * In every run a replay returns a row of the ledger, as it was committed, that a request with the same key
   * and the same bytes made.
   */
  lemma {:induction false} ReplaysAreRows(events: seq<Event>, r: Idempotency.RequestId)
    requires r in Run(events).keys.requests && Run(events).keys.requests[r].phase.Replaying?
    ensures var st, q := Run(events), Run(events).keys.requests[r];
            && Idempotency.Record(q.key, q.payload, q.phase.body) in st.keys.committed
            && exists i :: && 0 <= i < |Txs(st)| && Txs(st)[i].reversalOf.None?
                           && Txs(st)[i].(status := Posted) == q.phase.body
  {
    var st, q := Run(events), Run(events).keys.requests[r];
    KeysProject(events);
    Idempotency.ReplaysAreCommitted(KeyEvents(events), r);
    RunAgrees(events);
    var k :| 0 <= k < |st.keys.committed| && st.keys.committed[k] == Idempotency.Record(q.key, q.payload, q.phase.body);
    assert Bodies(st.keys.committed)[k] == q.phase.body;
    PostedAreRoots(Txs(st), k);
  }

  /******* Hits against the ledger *******/

  /**
   * In every run, once an account is invalidated, a cached value is off from the ledger's balance by what the
   * commits between its read and its set add.
   */
  lemma {:induction false} HitsAgainstTheLedger(events: seq<Event>, key: BalanceCache.Key)
    requires key in Run(events).cache.cache && BalanceCache.Invalidated(Run(events).cache, key)
    ensures var cache := Run(events).cache;
            var slot := cache.cache[key];
            && |cache.writers| == |cache.txs|
            && var overlapping := BalanceCache.Window(cache.txs, cache.writers, slot.load.readAt, slot.setAt);
            CalculateBalance(Txs(Run(events)), key.account, key.asOf) - slot.load.answer.balance
              == Sum(overlapping, EffectOn(key.account, key.asOf))
  {
    CacheProjects(events);
    RunAgrees(events);
    BalanceCache.WindowDecides(CacheEvents(events), key);
  }
}
