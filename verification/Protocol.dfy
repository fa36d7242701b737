/**
 * Concurrent sessions over the committed tables: READ COMMITTED reads, private writes, and voids that
 * compare-and-swap a row's status under its row lock.
 */
module Protocol {
  import opened Prelude
  import opened Ledger
  import opened Rates
  import opened Posting
  import Books

  type SessionId = nat

  type ValidPayload = p: Payload | IsPayload(p)
    witness Payload("USD", "p", 0, [EntryIn(0, Debit, 1, "USD"), EntryIn(1, Credit, 1, "USD")])

  datatype Outcome =
    | PostedTransaction(tx: Transaction)
    | VoidedTransaction(original: Transaction, reversal: Transaction)
    | Refused(error: PostError)
    | NotFound
    | Conflict(id: Uuid)
    | RolledBack

  datatype Session =
    | Checked(payload: ValidPayload, user: Uuid)                                // create: accounts checked
    | Built(tx: Transaction, user: Uuid)                                        // create: flushed
    | Loaded(original: Transaction, user: Uuid)                                 // void: row and entries read
    | Waiting(original: Transaction, user: Uuid)                                // void: blocked on the row lock
    | Marked(original: Transaction, user: Uuid)                                 // void: the CAS succeeded
    | Reversed(original: Transaction, reversal: Transaction, user: Uuid)        // void: reversal flushed
    | Finished(outcome: Outcome)

  /** `issued` are the UUIDs drawn so far; a new one is never among them. */
  datatype State = State(tables: Tables, sessions: map<SessionId, Session>, issued: set<Uuid>)

  datatype Event =
    | AddAccount(account: Account)
    | SetActive(i: nat, active: bool)
    | AddCurrency(currency: Currency)
    | AddRate(rate: ExchangeRate)
    | CreateCheck(s: SessionId, payload: ValidPayload, user: Uuid)
    | CreateBuild(s: SessionId, id: Uuid, now: Instant)
    | VoidLoad(s: SessionId, id: Uuid, user: Uuid)
    | VoidMark(s: SessionId)
    | VoidReverse(s: SessionId, id: Uuid, now: Instant)
    | Commit(s: SessionId)
    | Abort(s: SessionId)

  /** The row lock an uncommitted status update holds. */
  predicate Holds(session: Session, id: Uuid) {
    (session.Marked? || session.Reversed?) && session.original.id == id
  }

  predicate LockedByOther(st: State, s: SessionId, id: Uuid) {
    exists other | other in st.sessions :: other != s && Holds(st.sessions[other], id)
  }

  function Become(st: State, s: SessionId, session: Session): State {
    st.(sessions := st.sessions[s := session])
  }

  function StepTables(t: Tables, ev: Event): Tables {
    match ev
    case AddAccount(a) =>
      if forall i | 0 <= i < |t.accounts| :: t.accounts[i].id != a.id then t.(accounts := t.accounts + [a]) else t
    case SetActive(i, active) =>
      if i < |t.accounts| then t.(accounts := t.accounts[i := t.accounts[i].(active := active)]) else t
    case AddCurrency(c) => if IsUnknown(t.currencies, c.code) then t.(currencies := t.currencies + [c]) else t
    case AddRate(r) =>
      var saved := SaveExchangeRate(t.rates, r);
      if r.rate.scale == 8 && Fx.IsRate(r.rate) && saved.Ok? then t.(rates := saved.value) else t
    case _ => t
  }

  /** find_active_by_ids and the checks on the entries. */
  function CreateCheckStep(st: State, s: SessionId, p: ValidPayload, user: Uuid): State {
    var failure := CheckEntries(st.tables.accounts, p.entries);
    Become(st, s, if failure.Some? then Finished(Refused(failure.value)) else Checked(p, user))
  }

  /** The rate lookup, the conversions and the flush. */
  function CreateBuildStep(st: State, s: SessionId, p: ValidPayload, user: Uuid, id: Uuid, now: Instant): State {
    var rate := ResolveUsdRate(st.tables.currencies, st.tables.rates, p.currencyCode, p.date);
    if rate.Err? then Become(st, s, Finished(Refused(Unresolved(rate.error))))
    else
      var built := BuildTransaction(p, rate.value, id, now);
      if built.Err? then Become(st, s, Finished(Refused(built.error)))
      else Become(st, s, Built(built.value, user)).(issued := st.issued + {id})
  }

  /** UPDATE ... WHERE id AND status = POSTED: no match, a wait for the row's writer, or the row locked. */
  function VoidMarkStep(st: State, s: SessionId, original: Transaction, user: Uuid): State {
    var i := Find(st.tables.txs, original.id);
    if i.None? || st.tables.txs[i.value].status != Posted then Become(st, s, Finished(Conflict(original.id)))
    else if LockedByOther(st, s, original.id) then Become(st, s, Waiting(original, user))
    else Become(st, s, Marked(original, user))
  }

  function CommitStep(st: State, s: SessionId, w: WriteSet, entries: seq<Entry>, outcome: Outcome): State {
    if TriggerPasses(entries) then Become(st.(tables := Publish(st.tables, w)), s, Finished(outcome))
    else Become(st, s, Finished(RolledBack))
  }

  function Step(st: State, ev: Event): State {
    match ev
    case AddAccount(_) => st.(tables := StepTables(st.tables, ev))
    case SetActive(_, _) => st.(tables := StepTables(st.tables, ev))
    case AddCurrency(_) => st.(tables := StepTables(st.tables, ev))
    case AddRate(_) => st.(tables := StepTables(st.tables, ev))
    case CreateCheck(s, p, user) => if s in st.sessions then st else CreateCheckStep(st, s, p, user)
    case CreateBuild(s, id, now) =>
      if s in st.sessions && st.sessions[s].Checked? && id !in st.issued
      then CreateBuildStep(st, s, st.sessions[s].payload, st.sessions[s].user, id, now) else st
    case VoidLoad(s, id, user) =>
      if s in st.sessions then st
      else
        var i := Find(st.tables.txs, id);
        Become(st, s, if i.None? then Finished(NotFound) else Loaded(st.tables.txs[i.value], user))
    case VoidMark(s) =>
      if s in st.sessions && (st.sessions[s].Loaded? || st.sessions[s].Waiting?)
      then VoidMarkStep(st, s, st.sessions[s].original, st.sessions[s].user) else st
    case VoidReverse(s, id, now) =>
      if s in st.sessions && st.sessions[s].Marked? && id !in st.issued
      then
        var original := st.sessions[s].original;
        Become(st, s, Reversed(original, Reversal(original, id, now), st.sessions[s].user)).(issued := st.issued + {id})
      else st
    case Commit(s) =>
      if s !in st.sessions then st
      else (
        match st.sessions[s]
        case Built(tx, user) => CommitStep(st, s, CreateWrites(tx, user), tx.entries, PostedTransaction(tx))
        case Reversed(original, reversal, user) =>
          CommitStep(st, s, VoidWrites(original, reversal, user), reversal.entries,
                     VoidedTransaction(original.(status := Voided), reversal))
        case _ => st
      )
    case Abort(s) =>
      if s in st.sessions && !st.sessions[s].Finished? then Become(st, s, Finished(RolledBack)) else st
  }

  const INIT := State(Tables([], [], [], [], []), map[], {})

  function Run(events: seq<Event>): State {
    if events == [] then INIT else Step(Run(events[..|events| - 1]), events[|events| - 1])
  }

  /******* Invariant *******/

  /** original is a transaction as read earlier: only its status may have moved, and only to voided. */
  predicate WasRead(txs: seq<Transaction>, original: Transaction) {
    var i := Find(txs, original.id);
    && i.Some?
    && original == txs[i.value].(status := original.status)
    && Counts(original.status)
    && (original.status == Voided ==> txs[i.value].status == Voided)
  }

  predicate IsCurrent(txs: seq<Transaction>, tx: Transaction) {
    var i := Find(txs, tx.id);
    i.Some? && txs[i.value] == tx && tx.status == Posted
  }

  predicate IsCommittedReversal(txs: seq<Transaction>, reversal: Transaction, original: Transaction) {
    var i := Find(txs, reversal.id);
    i.Some? && txs[i.value].reversalOf == Some(original.id)
  }

  predicate IsVoided(txs: seq<Transaction>, id: Uuid) {
    var i := Find(txs, id);
    i.Some? && txs[i.value].status == Voided
  }

  ghost predicate SessionInv(t: Tables, session: Session) {
    match session
    case Checked(p, _) => Known(t.accounts, p.entries)
    case Built(tx, _) =>
      && Books.Fresh(t.txs, tx.id) && tx.status == Posted && tx.reversalOf.None? && Net(tx.entries) == 0
      && (TriggerPasses(tx.entries) ==> SoundEntries(t.accounts, tx.entries))
    case Loaded(original, _) => WasRead(t.txs, original)
    case Waiting(original, _) => WasRead(t.txs, original)
    case Marked(original, _) => IsCurrent(t.txs, original)
    case Reversed(original, reversal, _) =>
      && IsCurrent(t.txs, original) && Books.Fresh(t.txs, reversal.id)
      && reversal.postedAt.Some? && reversal == Reversal(original, reversal.id, reversal.postedAt.value)
    case Finished(outcome) =>
      && (outcome.VoidedTransaction? ==> IsCommittedReversal(t.txs, outcome.reversal, outcome.original))
      && (outcome.Conflict? ==> IsVoided(t.txs, outcome.id))
  }

  /** The id a session has drawn for a transaction of its own. */
  function NewId(session: Session): Option<Uuid> {
    match session
    case Built(tx, _) => Some(tx.id)
    case Reversed(_, reversal, _) => Some(reversal.id)
    case Finished(VoidedTransaction(_, reversal)) => Some(reversal.id)
    case _ => None
  }

  /** At most one session holds a row's lock. */
  predicate ExclusiveLocks(sessions: map<SessionId, Session>) {
    forall s, r | s in sessions && r in sessions && s != r ::
      (sessions[s].Marked? || sessions[s].Reversed?) ==> !Holds(sessions[r], sessions[s].original.id)
  }

  predicate DistinctIds(sessions: map<SessionId, Session>) {
    forall s, r | s in sessions && r in sessions && s != r ::
      NewId(sessions[s]).Some? ==> NewId(sessions[r]) != NewId(sessions[s])
  }

  predicate IdsIssued(st: State) {
    && (forall i | 0 <= i < |st.tables.txs| :: st.tables.txs[i].id in st.issued)
    && (forall s | s in st.sessions && NewId(st.sessions[s]).Some? :: NewId(st.sessions[s]).value in st.issued)
  }

  ghost predicate SessionsSound(st: State) {
    forall s | s in st.sessions :: SessionInv(st.tables, st.sessions[s])
  }

  ghost predicate Inv(st: State) {
    && Books.Inv(st.tables)
    && SessionsSound(st)
    && ExclusiveLocks(st.sessions)
    && DistinctIds(st.sessions)
    && IdsIssued(st)
  }

  /******* How committed tables evolve *******/

  predicate AccountsGrow(accounts: seq<Account>, accounts': seq<Account>) {
    && |accounts| <= |accounts'|
    && forall i | 0 <= i < |accounts| ::
         accounts'[i].id == accounts[i].id && accounts'[i].currency == accounts[i].currency
  }

  /** Transactions are only added, and change only by being voided, for good. */
  predicate TxsGrow(txs: seq<Transaction>, txs': seq<Transaction>) {
    && |txs| <= |txs'|
    && forall i | 0 <= i < |txs| ::
         && txs'[i] == txs[i].(status := txs'[i].status)
         && (txs'[i].status == txs[i].status || txs'[i].status == Voided)
  }

  predicate Evolves(t: Tables, t': Tables) {
    AccountsGrow(t.accounts, t'.accounts) && TxsGrow(t.txs, t'.txs)
  }

  lemma {:induction false} AccountStays(accounts: seq<Account>, accounts': seq<Account>, id: Uuid, currency: string)
    requires AccountsGrow(accounts, accounts') && HasAccount(accounts, id, currency)
    ensures HasAccount(accounts', id, currency)
  {
    var i :| 0 <= i < |accounts| && accounts[i].id == id && accounts[i].currency == currency;
    assert accounts'[i].id == id;
  }

  lemma {:induction false} KnownStays(accounts: seq<Account>, accounts': seq<Account>, entries: seq<EntryIn>)
    requires AccountsGrow(accounts, accounts') && Known(accounts, entries)
    ensures Known(accounts', entries)
  {
    forall i | 0 <= i < |entries| ensures HasAccount(accounts', entries[i].account, entries[i].currency) {
      AccountStays(accounts, accounts', entries[i].account, entries[i].currency);
    }
  }

  lemma {:induction false} SoundStays(accounts: seq<Account>, accounts': seq<Account>, entries: seq<Entry>)
    requires AccountsGrow(accounts, accounts') && SoundEntries(accounts, entries)
    ensures SoundEntries(accounts', entries)
  {
    forall i | 0 <= i < |entries| ensures HasAccount(accounts', entries[i].account, entries[i].currency) {
      AccountStays(accounts, accounts', entries[i].account, entries[i].currency);
    }
  }

  lemma {:induction false} FindStays(txs: seq<Transaction>, txs': seq<Transaction>, id: Uuid)
    requires TxsGrow(txs, txs') && UniqueIds(txs') && Find(txs, id).Some?
    ensures Find(txs', id) == Find(txs, id)
  {
    Books.FindIs(txs', Find(txs, id).value);
  }

  /** A session's invariant survives evolution if its own id stays unused and the row it locked unchanged. */
  lemma {:induction false} SessionStays(t: Tables, t': Tables, session: Session)
    requires SessionInv(t, session) && Evolves(t, t') && UniqueIds(t'.txs)
    requires session.Built? ==> Books.Fresh(t'.txs, session.tx.id)
    requires session.Reversed? ==> Books.Fresh(t'.txs, session.reversal.id)
    requires session.Marked? || session.Reversed? ==> IsCurrent(t'.txs, session.original)
    ensures SessionInv(t', session)
  {
    match session
    case Checked(p, _) => KnownStays(t.accounts, t'.accounts, p.entries);
    case Built(tx, _) =>
      if TriggerPasses(tx.entries) {
        SoundStays(t.accounts, t'.accounts, tx.entries);
      }
    case Loaded(original, _) => FindStays(t.txs, t'.txs, original.id);
    case Waiting(original, _) => FindStays(t.txs, t'.txs, original.id);
    case Marked(_, _) =>
    case Reversed(_, _, _) =>
    case Finished(outcome) =>
      if outcome.VoidedTransaction? {
        FindStays(t.txs, t'.txs, outcome.reversal.id);
      } else if outcome.Conflict? {
        FindStays(t.txs, t'.txs, outcome.id);
      }
  }

  /******* Steps that leave the tables alone *******/

  /** A session's next state: sound, locking nothing another one holds, with a newly drawn id if any. */
  ghost predicate CanBecome(st: State, s: SessionId, session: Session, issued: set<Uuid>) {
    && SessionInv(st.tables, session)
    && (forall r | r in st.sessions && r != s && (session.Marked? || session.Reversed?) ::
          !Holds(st.sessions[r], session.original.id))
    && st.issued <= issued
    && (NewId(session).Some? ==> NewId(session).value !in st.issued && NewId(session).value in issued)
  }

  lemma {:induction false} LocksStayExclusive(st: State, s: SessionId, session: Session)
    requires ExclusiveLocks(st.sessions)
    requires forall r | r in st.sessions && r != s && (session.Marked? || session.Reversed?) ::
               !Holds(st.sessions[r], session.original.id)
    ensures ExclusiveLocks(st.sessions[s := session])
  {
  }

  lemma {:induction false} IdsStayDistinct(st: State, s: SessionId, session: Session)
    requires DistinctIds(st.sessions) && IdsIssued(st)
    requires NewId(session).Some? ==> NewId(session).value !in st.issued
    ensures DistinctIds(st.sessions[s := session])
  {
  }

  lemma {:induction false} BecomeKeepsInv(st: State, s: SessionId, session: Session, issued: set<Uuid>)
    requires Inv(st) && CanBecome(st, s, session, issued)
    ensures Inv(Become(st, s, session).(issued := issued))
  {
    LocksStayExclusive(st, s, session);
    IdsStayDistinct(st, s, session);
  }

  lemma {:induction false} CanFinish(st: State, s: SessionId, outcome: Outcome)
    requires !outcome.VoidedTransaction? && !outcome.Conflict?
    ensures CanBecome(st, s, Finished(outcome), st.issued)
  {
  }

  lemma {:induction false} CanCheck(st: State, s: SessionId, p: ValidPayload, user: Uuid)
    requires UniqueAccounts(st.tables.accounts)
    ensures CanBecome(st, s, CreateCheckStep(st, s, p, user).sessions[s], st.issued)
  {
    if CheckEntries(st.tables.accounts, p.entries).None? {
      CheckedIsKnown(st.tables.accounts, p.entries);
    }
  }

  lemma {:induction false} CanBuild(st: State, s: SessionId, p: ValidPayload, user: Uuid, id: Uuid, now: Instant)
    requires IsRateTable(st.tables.rates) && Known(st.tables.accounts, p.entries)
    requires IdsIssued(st) && id !in st.issued
    ensures var st' := CreateBuildStep(st, s, p, user, id, now); CanBecome(st, s, st'.sessions[s], st'.issued)
  {
    var rate := ResolveUsdRate(st.tables.currencies, st.tables.rates, p.currencyCode, p.date);
    if rate.Ok? && BuildTransaction(p, rate.value, id, now).Ok? {
      ResolvedIsRate(st.tables.currencies, st.tables.rates, p.currencyCode, p.date);
      BuiltIsSound(st.tables.accounts, p, rate.value, id, now);
    }
  }

  lemma {:induction false} CanLoad(st: State, s: SessionId, i: nat, user: Uuid)
    requires Books.Settled(st.tables.txs) && UniqueIds(st.tables.txs) && i < |st.tables.txs|
    ensures CanBecome(st, s, Loaded(st.tables.txs[i], user), st.issued)
  {
    Books.FindIs(st.tables.txs, i);
  }

  lemma {:induction false} CanMark(st: State, s: SessionId, original: Transaction, user: Uuid)
    requires WasRead(st.tables.txs, original) && Books.Settled(st.tables.txs)
    ensures CanBecome(st, s, VoidMarkStep(st, s, original, user).sessions[s], st.issued)
  {
    var session := VoidMarkStep(st, s, original, user).sessions[s];
    forall r | r in st.sessions && r != s && session.Marked? ensures !Holds(st.sessions[r], original.id) {
      assert !LockedByOther(st, s, original.id);
    }
  }

  lemma {:induction false} CanReverse(st: State, s: SessionId, id: Uuid, now: Instant)
    requires s in st.sessions && st.sessions[s].Marked? && SessionInv(st.tables, st.sessions[s])
    requires IdsIssued(st) && id !in st.issued && ExclusiveLocks(st.sessions)
    ensures var original := st.sessions[s].original;
            CanBecome(st, s, Reversed(original, Reversal(original, id, now), st.sessions[s].user), st.issued + {id})
  {
  }

  /** What a step does to the acting session: its next state and the ids issued. */
  ghost predicate Moves(st: State, ev: Event, s: SessionId, session: Session, issued: set<Uuid>) {
    Step(st, ev) == Become(st, s, session).(issued := issued) && CanBecome(st, s, session, issued)
  }

  lemma {:induction false} CheckMoves(st: State, s: SessionId, p: ValidPayload, user: Uuid)
    requires UniqueAccounts(st.tables.accounts) && s !in st.sessions
    ensures Moves(st, CreateCheck(s, p, user), s, CreateCheckStep(st, s, p, user).sessions[s], st.issued)
  {
    CanCheck(st, s, p, user);
  }

  lemma {:induction false} BuildMoves(st: State, s: SessionId, id: Uuid, now: Instant)
    requires IsRateTable(st.tables.rates) && IdsIssued(st)
    requires s in st.sessions && st.sessions[s].Checked? && id !in st.issued && SessionInv(st.tables, st.sessions[s])
    ensures var st' := Step(st, CreateBuild(s, id, now));
            Moves(st, CreateBuild(s, id, now), s, st'.sessions[s], st'.issued)
  {
    CanBuild(st, s, st.sessions[s].payload, st.sessions[s].user, id, now);
  }

  lemma {:induction false} LoadMoves(st: State, s: SessionId, id: Uuid, user: Uuid)
    requires Books.Settled(st.tables.txs) && UniqueIds(st.tables.txs) && s !in st.sessions
    ensures Moves(st, VoidLoad(s, id, user), s, Step(st, VoidLoad(s, id, user)).sessions[s], st.issued)
  {
    var i := Find(st.tables.txs, id);
    if i.None? {
      CanFinish(st, s, NotFound);
    } else {
      CanLoad(st, s, i.value, user);
    }
  }

  lemma {:induction false} MarkMoves(st: State, s: SessionId)
    requires s in st.sessions && (st.sessions[s].Loaded? || st.sessions[s].Waiting?)
    requires SessionInv(st.tables, st.sessions[s]) && Books.Settled(st.tables.txs)
    ensures Moves(st, VoidMark(s), s, Step(st, VoidMark(s)).sessions[s], st.issued)
  {
    CanMark(st, s, st.sessions[s].original, st.sessions[s].user);
  }

  lemma {:induction false} ReverseMoves(st: State, s: SessionId, id: Uuid, now: Instant)
    requires s in st.sessions && st.sessions[s].Marked? && SessionInv(st.tables, st.sessions[s])
    requires IdsIssued(st) && id !in st.issued && ExclusiveLocks(st.sessions)
    ensures var st' := Step(st, VoidReverse(s, id, now));
            Moves(st, VoidReverse(s, id, now), s, st'.sessions[s], st'.issued)
  {
    CanReverse(st, s, id, now);
  }

  /** A step of one session leaves everything as it was, or moves that session alone. */
  lemma {:induction false} SessionStepMoves(st: State, ev: Event)
    requires Inv(st)
    requires ev.CreateCheck? || ev.CreateBuild? || ev.VoidLoad? || ev.VoidMark? || ev.VoidReverse?
    ensures Step(st, ev) == st
         || (ev.s in Step(st, ev).sessions && Moves(st, ev, ev.s, Step(st, ev).sessions[ev.s], Step(st, ev).issued))
  {
    if ev.s in st.sessions {
      assert SessionInv(st.tables, st.sessions[ev.s]);
    }
    match ev
    case CreateCheck(s, p, user) =>
      if s !in st.sessions {
        CheckMoves(st, s, p, user);
      }
    case CreateBuild(s, id, now) =>
      if s in st.sessions && st.sessions[s].Checked? && id !in st.issued {
        BuildMoves(st, s, id, now);
      }
    case VoidLoad(s, id, user) =>
      if s !in st.sessions {
        LoadMoves(st, s, id, user);
      }
    case VoidMark(s) =>
      if s in st.sessions && (st.sessions[s].Loaded? || st.sessions[s].Waiting?) {
        MarkMoves(st, s);
      }
    case VoidReverse(s, id, now) =>
      if s in st.sessions && st.sessions[s].Marked? && id !in st.issued {
        ReverseMoves(st, s, id, now);
      }
  }

  /******* Steps on the tables *******/

  lemma {:induction false} AccountsStepSound(t: Tables, accounts': seq<Account>)
    requires Books.SoundRows(t) && AccountsGrow(t.accounts, accounts')
    ensures Books.SoundRows(t.(accounts := accounts'))
  {
    forall i | 0 <= i < |t.txs| ensures SoundEntries(accounts', t.txs[i].entries) {
      SoundStays(t.accounts, accounts', t.txs[i].entries);
    }
  }

  lemma {:induction false} TablesStepGrows(t: Tables, ev: Event)
    requires UniqueAccounts(t.accounts) && IsRateTable(t.rates)
    ensures var t' := StepTables(t, ev);
            && UniqueAccounts(t'.accounts) && IsRateTable(t'.rates)
            && AccountsGrow(t.accounts, t'.accounts) && t'.txs == t.txs && t'.audit == t.audit
  {
  }

  lemma {:induction false} TablesStep(t: Tables, ev: Event)
    requires Books.Inv(t)
    ensures var t' := StepTables(t, ev); Books.Inv(t') && Evolves(t, t') && t'.txs == t.txs
  {
    TablesStepGrows(t, ev);
    AccountsStepSound(t, StepTables(t, ev).accounts);
  }

  lemma {:induction false} SessionsStay(st: State, t': Tables)
    requires SessionsSound(st) && UniqueIds(t'.txs) && Evolves(st.tables, t') && t'.txs == st.tables.txs
    ensures SessionsSound(st.(tables := t'))
  {
    forall s | s in st.sessions ensures SessionInv(t', st.sessions[s]) {
      SessionStays(st.tables, t', st.sessions[s]);
    }
  }

  lemma {:induction false} TablesStepKeepsInv(st: State, ev: Event)
    requires Inv(st)
    ensures Inv(st.(tables := StepTables(st.tables, ev)))
  {
    TablesStep(st.tables, ev);
    SessionsStay(st, StepTables(st.tables, ev));
  }

  /******* Commits *******/

  lemma {:induction false} PublishEvolves(t: Tables, w: WriteSet)
    ensures Evolves(t, Publish(t, w))
  {
  }

  /** What another session relies on survives the publication of one new transaction. */
  lemma {:induction false} OtherStays(t: Tables, t': Tables, session: Session, w: WriteSet, tx: Transaction)
    requires SessionInv(t, session) && t' == Publish(t, w) && w.txs == [tx] && UniqueIds(t'.txs)
    requires NewId(session) != Some(tx.id)
    requires forall id | id in w.marks :: !Holds(session, id)
    ensures SessionInv(t', session)
  {
    PublishEvolves(t, w);
    if session.Marked? || session.Reversed? {
      assert Holds(session, session.original.id);
      FindStays(t.txs, t'.txs, session.original.id);
    }
    SessionStays(t, t', session);
  }

  /** A session ready to publish one new transaction whose status updates it has locked. */
  ghost predicate Ready(st: State, s: SessionId, w: WriteSet, tx: Transaction) {
    && s in st.sessions && NewId(st.sessions[s]) == Some(tx.id)
    && w.txs == [tx]
    && (forall id | id in w.marks :: Holds(st.sessions[s], id))
  }

  lemma {:induction false} OthersStay(st: State, s: SessionId, w: WriteSet, tx: Transaction)
    requires SessionsSound(st) && ExclusiveLocks(st.sessions) && DistinctIds(st.sessions) && Ready(st, s, w, tx)
    requires UniqueIds(Publish(st.tables, w).txs)
    ensures forall r | r in st.sessions && r != s :: SessionInv(Publish(st.tables, w), st.sessions[r])
  {
    forall r | r in st.sessions && r != s ensures SessionInv(Publish(st.tables, w), st.sessions[r]) {
      forall id | id in w.marks ensures !Holds(st.sessions[r], id) {
        assert Holds(st.sessions[s], id);
      }
      OtherStays(st.tables, Publish(st.tables, w), st.sessions[r], w, tx);
    }
  }

  lemma {:induction false} OutcomeIsSound(t: Tables, w: WriteSet, tx: Transaction, outcome: Outcome)
    requires w.txs == [tx] && UniqueIds(Publish(t, w).txs) && !outcome.Conflict?
    requires outcome.VoidedTransaction? ==> outcome.reversal == tx && tx.reversalOf == Some(outcome.original.id)
    ensures SessionInv(Publish(t, w), Finished(outcome))
  {
    assert Publish(t, w).txs[|t.txs|] == tx;
    Books.FindIs(Publish(t, w).txs, |t.txs|);
  }

  lemma {:induction false} FinishedKeepsSessions(sessions: map<SessionId, Session>, s: SessionId, session: Session)
    requires ExclusiveLocks(sessions) && DistinctIds(sessions) && s in sessions && session.Finished?
    requires NewId(session).Some? ==> NewId(session) == NewId(sessions[s])
    ensures ExclusiveLocks(sessions[s := session]) && DistinctIds(sessions[s := session])
  {
  }

  lemma {:induction false} PublishedIdsIssued(st: State, s: SessionId, w: WriteSet, tx: Transaction, session: Session)
    requires IdsIssued(st) && s in st.sessions && NewId(st.sessions[s]) == Some(tx.id) && w.txs == [tx]
    requires NewId(session).Some? ==> NewId(session) == Some(tx.id)
    ensures IdsIssued(Become(st.(tables := Publish(st.tables, w)), s, session))
  {
    assert NewId(st.sessions[s]).value in st.issued;
  }

  lemma {:induction false} PublishKeepsInv(st: State, s: SessionId, w: WriteSet, tx: Transaction, outcome: Outcome)
    requires Inv(st) && Ready(st, s, w, tx) && Books.Inv(Publish(st.tables, w))
    requires outcome == PostedTransaction(tx)
          || (outcome.VoidedTransaction? && outcome.reversal == tx && tx.reversalOf == Some(outcome.original.id))
    ensures Inv(Become(st.(tables := Publish(st.tables, w)), s, Finished(outcome)))
  {
    OthersStay(st, s, w, tx);
    OutcomeIsSound(st.tables, w, tx, outcome);
    FinishedKeepsSessions(st.sessions, s, Finished(outcome));
    PublishedIdsIssued(st, s, w, tx, Finished(outcome));
  }

  /** The commit-time trigger never refuses a void. */
  lemma {:induction false} ReversedPassesTrigger(st: State, s: SessionId)
    requires Books.SoundRows(st.tables) && s in st.sessions && st.sessions[s].Reversed?
    requires SessionInv(st.tables, st.sessions[s])
    ensures TriggerPasses(st.sessions[s].reversal.entries)
  {
    var original, reversal := st.sessions[s].original, st.sessions[s].reversal;
    var i := Find(st.tables.txs, original.id).value;
    assert SoundEntries(st.tables.accounts, st.tables.txs[i].entries);
    FlipTotals(original.entries);
  }

  lemma {:induction false} CommitBuiltKeepsInv(st: State, s: SessionId, tx: Transaction, user: Uuid)
    requires Inv(st) && s in st.sessions && st.sessions[s] == Built(tx, user) && SessionInv(st.tables, st.sessions[s])
    ensures Inv(CommitStep(st, s, CreateWrites(tx, user), tx.entries, PostedTransaction(tx)))
  {
    if TriggerPasses(tx.entries) {
      assert Books.Inv(Publish(st.tables, CreateWrites(tx, user))) by {
        Books.CommitCreateKeepsInv(st.tables, tx, user);
      }
      PublishKeepsInv(st, s, CreateWrites(tx, user), tx, PostedTransaction(tx));
    } else {
      CanFinish(st, s, RolledBack);
      BecomeKeepsInv(st, s, Finished(RolledBack), st.issued);
    }
  }

  lemma {:induction false} VoidPublishesSoundBooks(t: Tables, original: Transaction, reversal: Transaction, user: Uuid)
    requires Books.Inv(t) && SessionInv(t, Reversed(original, reversal, user))
    ensures Books.Inv(Publish(t, VoidWrites(original, reversal, user)))
  {
    Books.CommitVoidKeepsInv(t, Find(t.txs, original.id).value, reversal, reversal.postedAt.value, user);
  }

  lemma {:induction false} ReversedIsReady(st: State, s: SessionId, original: Transaction, reversal: Transaction,
                                           user: Uuid)
    requires s in st.sessions && st.sessions[s] == Reversed(original, reversal, user)
    ensures Ready(st, s, VoidWrites(original, reversal, user), reversal)
  {
  }

  lemma {:induction false} CommitReversedKeepsInv(st: State, s: SessionId, w: WriteSet, reversal: Transaction,
                                                  outcome: Outcome)
    requires Inv(st) && Ready(st, s, w, reversal) && Books.Inv(Publish(st.tables, w)) && TriggerPasses(reversal.entries)
    requires outcome.VoidedTransaction? && outcome.reversal == reversal
    requires reversal.reversalOf == Some(outcome.original.id)
    ensures Inv(CommitStep(st, s, w, reversal.entries, outcome))
  {
    PublishKeepsInv(st, s, w, reversal, outcome);
  }

  lemma {:induction false} CommitVoidKeepsInv(st: State, s: SessionId, original: Transaction, reversal: Transaction,
                                              user: Uuid)
    requires s in st.sessions && st.sessions[s] == Reversed(original, reversal, user)
    requires SessionInv(st.tables, st.sessions[s])
    requires Inv(st)
    ensures Inv(CommitStep(st, s, VoidWrites(original, reversal, user), reversal.entries,
                           VoidedTransaction(original.(status := Voided), reversal)))
  {
    ReversedPassesTrigger(st, s);
    ReversedIsReady(st, s, original, reversal, user);
    VoidPublishesSoundBooks(st.tables, original, reversal, user);
    CommitReversedKeepsInv(st, s, VoidWrites(original, reversal, user), reversal,
                           VoidedTransaction(original.(status := Voided), reversal));
  }

  lemma {:induction false} CommitKeepsInv(st: State, s: SessionId)
    requires Inv(st)
    ensures Inv(Step(st, Commit(s)))
  {
    if s in st.sessions {
      assert SessionInv(st.tables, st.sessions[s]);
    }
    if s in st.sessions && st.sessions[s].Built? {
      CommitBuiltKeepsInv(st, s, st.sessions[s].tx, st.sessions[s].user);
    } else if s in st.sessions && st.sessions[s].Reversed? {
      CommitVoidKeepsInv(st, s, st.sessions[s].original, st.sessions[s].reversal, st.sessions[s].user);
    }
  }

  lemma {:induction false} StepKeepsInv(st: State, ev: Event)
    requires Inv(st)
    ensures Inv(Step(st, ev))
  {
    match ev
    case AddAccount(_) => TablesStepKeepsInv(st, ev);
    case SetActive(_, _) => TablesStepKeepsInv(st, ev);
    case AddCurrency(_) => TablesStepKeepsInv(st, ev);
    case AddRate(_) => TablesStepKeepsInv(st, ev);
    case Commit(s) => CommitKeepsInv(st, s);
    case Abort(s) =>
      CanFinish(st, s, RolledBack);
      BecomeKeepsInv(st, s, Finished(RolledBack), st.issued);
    case _ =>
      SessionStepMoves(st, ev);
      if Step(st, ev) != st {
        BecomeKeepsInv(st, ev.s, Step(st, ev).sessions[ev.s], Step(st, ev).issued);
      }
  }

  lemma {:induction false} RunKeepsInv(events: seq<Event>)
    ensures Inv(Run(events))
  {
    if events != [] {
      RunKeepsInv(events[..|events| - 1]);
      StepKeepsInv(Run(events[..|events| - 1]), events[|events| - 1]);
    }
  }
}
