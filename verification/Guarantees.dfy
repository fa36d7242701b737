/** What holds in every state that any interleaving of sessions can reach. */
module Guarantees {
  import opened Prelude
  import opened Ledger
  import opened Fx
  import opened Rates
  import opened Posting
  import opened Books
  import opened Protocol
  import Reversals
  import TrialBalance
  import Paging

  function Txs(events: seq<Event>): seq<Transaction> {
    Run(events).tables.txs
  }

  lemma {:induction false} Reachable(events: seq<Event>)
    ensures Protocol.Inv(Run(events)) && Books.Inv(Run(events).tables)
  {
    RunKeepsInv(events);
  }

  lemma {:induction false} ReachableLinks(events: seq<Event>)
    ensures Linked(Txs(events)) && Settled(Txs(events)) && SoundRows(Run(events).tables)
  {
    Reachable(events);
  }

  lemma {:induction false} ReachableSession(events: seq<Event>, s: SessionId)
    requires s in Run(events).sessions
    ensures SessionInv(Run(events).tables, Run(events).sessions[s])
  {
    Reachable(events);
  }

  lemma {:induction false} ReachableSessions(events: seq<Event>)
    ensures ExclusiveLocks(Run(events).sessions) && DistinctIds(Run(events).sessions)
  {
    Reachable(events);
  }

  /** A transaction is voided if and only if a committed reversal names it, and then just one does. */
  lemma {:induction false} VoidedIffReversedOnce(events: seq<Event>, i: nat)
    requires i < |Txs(events)|
    ensures var txs := Txs(events);
            && txs[i].status != Pending
            && (txs[i].status == Voided <==> exists j :: 0 <= j < |txs| && txs[j].reversalOf == Some(txs[i].id))
            && (forall j, k | 0 <= j < |txs| && 0 <= k < |txs| ::
                  txs[j].reversalOf == Some(txs[i].id) == txs[k].reversalOf ==> j == k)
  {
    ReachableLinks(events);
    var txs := Txs(events);
    assert txs[i].status == Voided <==> HasReversal(txs, txs[i].id);
  }

  /** Entry by entry the same account, amount, currency and USD value, on the other side. */
  predicate Mirrored(entries: seq<Entry>, mirror: seq<Entry>) {
    && |mirror| == |entries|
    && forall k | 0 <= k < |entries| ::
         && mirror[k].account == entries[k].account
         && mirror[k].amount == entries[k].amount
         && mirror[k].currency == entries[k].currency
         && mirror[k].usd == entries[k].usd
         && mirror[k].direction != entries[k].direction
  }

  lemma {:induction false} FlipMirrors(entries: seq<Entry>)
    ensures Mirrored(entries, FlipAll(entries))
    ensures NetUsd(entries) + NetUsd(FlipAll(entries)) == 0
  {
    FlipNegates(entries, 0);
  }

  lemma {:induction false} OriginalOf(txs: seq<Transaction>, i: nat, j: nat)
    requires Linked(txs) && i < |txs| && j < |txs| && txs[j].reversalOf == Some(txs[i].id)
    ensures i < j && IsReversal(txs[j], txs[i])
  {
    assert HasOriginal(txs, j);
    var p := Find(txs[..j], txs[j].reversalOf.value).value;
    assert p == i;
  }

  /** A reversal comes after its original, is dated as it, mirrors its entries, and cancels it in USD. */
  lemma {:induction false} ReversalsMirror(events: seq<Event>, i: nat, j: nat)
    requires i < |Txs(events)| && j < |Txs(events)|
    requires Txs(events)[j].reversalOf == Some(Txs(events)[i].id)
    ensures var original, reversal := Txs(events)[i], Txs(events)[j];
            && i < j && reversal.date == original.date
            && Mirrored(original.entries, reversal.entries)
            && NetUsd(original.entries) + NetUsd(reversal.entries) == 0
  {
    ReachableLinks(events);
    OriginalOf(Txs(events), i, j);
    FlipMirrors(Txs(events)[i].entries);
  }

  lemma {:induction false} StepGrows(st: State, ev: Event)
    ensures TxsGrow(st.tables.txs, Step(st, ev).tables.txs)
  {
  }

  lemma {:induction false} GrowsTransitively(a: seq<Transaction>, b: seq<Transaction>, c: seq<Transaction>)
    requires TxsGrow(a, b) && TxsGrow(b, c)
    ensures TxsGrow(a, c)
  {
  }

  /** Whatever happens next, committed transactions stay, unchanged but for being voided, and voided is final. */
  lemma {:induction false} VoidedIsTerminal(events: seq<Event>, more: seq<Event>)
    ensures TxsGrow(Txs(events), Txs(events + more))
  {
    if more == [] {
      assert events + more == events;
    } else {
      var rest := more[..|more| - 1];
      VoidedIsTerminal(events, rest);
      assert (events + more)[..|events + more| - 1] == events + rest;
      StepGrows(Run(events + rest), more[|rest|]);
      GrowsTransitively(Txs(events), Txs(events + rest), Txs(events + more));
    }
  }

  lemma {:induction false} SameReversal(events: seq<Event>, x: Transaction, y: Transaction, original: Uuid)
    requires Find(Txs(events), x.id).Some? && Find(Txs(events), y.id).Some?
    requires Txs(events)[Find(Txs(events), x.id).value].reversalOf == Some(original)
    requires Txs(events)[Find(Txs(events), y.id).value].reversalOf == Some(original)
    ensures x.id == y.id
  {
    var i, j := Find(Txs(events), x.id).value, Find(Txs(events), y.id).value;
    ReachableLinks(events);
    assert i < j || j < i || i == j;
  }

  /** Of all the sessions that try to void one transaction, at most one is told it succeeded. */
  lemma {:induction false} AtMostOneVoidSucceeds(events: seq<Event>, s: SessionId, r: SessionId)
    requires s in Run(events).sessions && r in Run(events).sessions
    requires var x, y := Run(events).sessions[s], Run(events).sessions[r];
             && x.Finished? && x.outcome.VoidedTransaction?
             && y.Finished? && y.outcome.VoidedTransaction?
             && x.outcome.original.id == y.outcome.original.id
    ensures s == r
  {
    var x, y := Run(events).sessions[s].outcome, Run(events).sessions[r].outcome;
    ReachableSession(events, s);
    ReachableSession(events, r);
    SameReversal(events, x.reversal, y.reversal, x.original.id);
    ReachableSessions(events);
  }

  /******* What becomes of a request's steps *******/

  lemma {:induction false} CheckDecides(st: State, s: SessionId, p: ValidPayload, user: Uuid)
    requires s !in st.sessions && UniqueAccounts(st.tables.accounts)
    ensures var after := Step(st, CreateCheck(s, p, user));
            && s in after.sessions && after.tables == st.tables
            && (Postable(st.tables.accounts, p.entries) ==> after.sessions[s] == Checked(p, user))
            && (!Postable(st.tables.accounts, p.entries) ==>
                  && after.sessions[s].Finished? && after.sessions[s].outcome.Refused?
                  && IsTold(st.tables.accounts, p.entries, after.sessions[s].outcome.error))
  {
    CheckEntriesExactly(st.tables.accounts, p.entries);
    if CheckEntries(st.tables.accounts, p.entries).Some? {
      FirstFailureIsTold(st.tables.accounts, p.entries);
    }
  }

  /** A create passes its checks exactly if its entries are postable, and else is told the first one that fails. */
  lemma {:induction false} CreatesAreChecked(events: seq<Event>, s: SessionId, p: ValidPayload, user: Uuid)
    requires s !in Run(events).sessions
    ensures var t, after := Run(events).tables, Step(Run(events), CreateCheck(s, p, user));
            && s in after.sessions && after.tables == t
            && (Postable(t.accounts, p.entries) ==> after.sessions[s] == Checked(p, user))
            && (!Postable(t.accounts, p.entries) ==>
                  && after.sessions[s].Finished? && after.sessions[s].outcome.Refused?
                  && IsTold(t.accounts, p.entries, after.sessions[s].outcome.error))
  {
    Reachable(events);
    CheckDecides(Run(events), s, p, user);
  }

  /** tx is the payload's transaction: posted, and with its entries at the rate. */
  predicate IsPosted(tx: Transaction, p: ValidPayload, rate: Rate, id: Uuid, now: Instant) {
    && tx == Transaction(id, p.description, p.date, Posted, Some(now), None, tx.entries)
    && |tx.entries| == |p.entries|
    && forall i | 0 <= i < |p.entries| :: StoredAs(p.entries[i], tx.entries[i], rate)
  }

  lemma {:induction false} BuildDecides(st: State, s: SessionId, id: Uuid, now: Instant)
    requires s in st.sessions && st.sessions[s].Checked? && id !in st.issued && IsRateTable(st.tables.rates)
    ensures var p := st.sessions[s].payload;
            var rate := ResolveUsdRate(st.tables.currencies, st.tables.rates, p.currencyCode, p.date);
            var next := Step(st, CreateBuild(s, id, now)).sessions[s];
            if rate.Ok? && forall i | 0 <= i < |p.entries| :: FitsBigint(p.entries[i], rate.value)
            then next.Built? && next.user == st.sessions[s].user && IsPosted(next.tx, p, rate.value, id, now)
            else next.Finished? && next.outcome.Refused?
  {
    var p := st.sessions[s].payload;
    var rate := ResolveUsdRate(st.tables.currencies, st.tables.rates, p.currencyCode, p.date);
    ResolvedIsRate(st.tables.currencies, st.tables.rates, p.currencyCode, p.date);
    if rate.Ok? {
      BuildExactly(p, rate.value, id, now);
    }
  }

  /** A checked create is built exactly if a rate resolves and every entry fits its columns, and else is refused. */
  lemma {:induction false} CreatesAreBuilt(events: seq<Event>, s: SessionId, id: Uuid, now: Instant)
    requires s in Run(events).sessions && Run(events).sessions[s].Checked? && id !in Run(events).issued
    ensures var st := Run(events);
            var p := st.sessions[s].payload;
            var rate := ResolveUsdRate(st.tables.currencies, st.tables.rates, p.currencyCode, p.date);
            var next := Step(st, CreateBuild(s, id, now)).sessions[s];
            if rate.Ok? && forall i | 0 <= i < |p.entries| :: FitsBigint(p.entries[i], rate.value)
            then next.Built? && next.user == st.sessions[s].user && IsPosted(next.tx, p, rate.value, id, now)
            else next.Finished? && next.outcome.Refused?
  {
    Reachable(events);
    BuildDecides(Run(events), s, id, now);
  }

  /** A void loads the row with its id, and is not found exactly if there is none. */
  lemma {:induction false} VoidsAreLoaded(events: seq<Event>, s: SessionId, id: Uuid, user: Uuid)
    requires s !in Run(events).sessions
    ensures var next := Step(Run(events), VoidLoad(s, id, user)).sessions[s];
            if exists i :: 0 <= i < |Txs(events)| && Txs(events)[i].id == id
            then next.Loaded? && next.original in Txs(events) && next.original.id == id && next.user == user
            else next == Finished(NotFound)
  {
    var i := Find(Txs(events), id);
    assert i.Some? ==> Txs(events)[i.value].id == id;
  }

  /** A void that has marked its row reverses it: the same entries on the other side, on the row's date. */
  lemma {:induction false} VoidsAreReversed(events: seq<Event>, s: SessionId, id: Uuid, now: Instant)
    requires s in Run(events).sessions && Run(events).sessions[s].Marked? && id !in Run(events).issued
    ensures var session := Run(events).sessions[s];
            var next := Step(Run(events), VoidReverse(s, id, now)).sessions[s];
            && next.Reversed? && next.original == session.original && next.user == session.user
            && next.reversal.id == id && next.reversal.status == Posted && next.reversal.postedAt == Some(now)
            && next.reversal.reversalOf == Some(session.original.id)
            && next.reversal.description == "Reversal of: " + session.original.description
            && next.reversal.date == session.original.date
            && Mirrored(session.original.entries, next.reversal.entries)
  {
    FlipMirrors(Run(events).sessions[s].original.entries);
  }

  /** A session that aborts is rolled back and writes nothing. */
  lemma {:induction false} AbortsWriteNothing(events: seq<Event>, s: SessionId)
    requires s in Run(events).sessions && !Run(events).sessions[s].Finished?
    ensures var after := Step(Run(events), Abort(s));
            after.sessions[s] == Finished(RolledBack) && after.tables == Run(events).tables
  {
  }

  /** An account is added exactly if its id is new, and is active or not as it was last set. */
  lemma {:induction false} AccountsAreKept(st: State, account: Account, i: nat, active: bool)
    ensures Step(st, AddAccount(account)).tables.accounts
         == if exists a :: a in st.tables.accounts && a.id == account.id then st.tables.accounts
            else st.tables.accounts + [account]
    ensures i < |st.tables.accounts| ==>
              var accounts := Step(st, SetActive(i, active)).tables.accounts;
              && |accounts| == |st.tables.accounts|
              && accounts[i] == Account(st.tables.accounts[i].id, st.tables.accounts[i].currency, active)
              && forall k | 0 <= k < |accounts| && k != i :: accounts[k] == st.tables.accounts[k]
  {
  }

  /** A currency is added exactly if its code is new, and a rate exactly if its pair and date are. */
  lemma {:induction false} RatesAreKept(st: State, c: Currency, r: ExchangeRate)
    requires r.rate.scale == 8 && IsRate(r.rate)
    ensures Step(st, AddCurrency(c)).tables.currencies
         == if exists x :: x in st.tables.currencies && x.code == c.code then st.tables.currencies
            else st.tables.currencies + [c]
    ensures Step(st, AddRate(r)).tables.rates
         == if exists x :: x in st.tables.rates && x.from == r.from && x.to == r.to && x.date == r.date
            then st.tables.rates else st.tables.rates + [r]
  {
    SaveRefusesDuplicates(st.tables.rates, r);
  }

  /******* Concurrent voids *******/

  /** A void is told that there is a conflict only if its transaction is voided, and it stays so. */
  lemma {:induction false} ConflictMeansVoided(events: seq<Event>, s: SessionId)
    requires s in Run(events).sessions && Run(events).sessions[s].Finished?
    requires Run(events).sessions[s].outcome.Conflict?
    ensures IsVoided(Txs(events), Run(events).sessions[s].outcome.id)
  {
    ReachableSession(events, s);
  }

  /** What the compare-and-swap does is decided by the committed row and its lock. */
  lemma {:induction false} MarkDecides(st: State, r: SessionId)
    requires r in st.sessions && (st.sessions[r].Loaded? || st.sessions[r].Waiting?)
    requires SessionInv(st.tables, st.sessions[r]) && Settled(st.tables.txs)
    ensures var id := st.sessions[r].original.id; var next := Step(st, VoidMark(r)).sessions[r];
            && (next == Finished(Conflict(id)) <==> IsVoided(st.tables.txs, id))
            && (next.Waiting? <==> !IsVoided(st.tables.txs, id) && LockedByOther(st, r, id))
            && (next.Marked? <==> !IsVoided(st.tables.txs, id) && !LockedByOther(st, r, id))
  {
  }

  /** In every reachable state a void conflicts iff its row is voided, and otherwise waits iff the row is locked. */
  lemma {:induction false} VoidIsDecidedByItsRow(events: seq<Event>, r: SessionId)
    requires r in Run(events).sessions && (Run(events).sessions[r].Loaded? || Run(events).sessions[r].Waiting?)
    ensures var st := Run(events);
            var id := st.sessions[r].original.id;
            var next := Step(st, VoidMark(r)).sessions[r];
            && (next == Finished(Conflict(id)) <==> IsVoided(st.tables.txs, id))
            && (next.Waiting? <==> !IsVoided(st.tables.txs, id) && LockedByOther(st, r, id))
            && (next.Marked? <==> !IsVoided(st.tables.txs, id) && !LockedByOther(st, r, id))
  {
    ReachableSession(events, r);
    ReachableLinks(events);
    MarkDecides(Run(events), r);
  }

  lemma {:induction false} AfterHolderCommits(st: State, s: SessionId)
    requires s in st.sessions && st.sessions[s].Reversed?
    requires SessionInv(st.tables, st.sessions[s]) && TriggerPasses(st.sessions[s].reversal.entries)
    ensures IsVoided(Step(st, Commit(s)).tables.txs, st.sessions[s].original.id)
  {
    var original, reversal := st.sessions[s].original, st.sessions[s].reversal;
    var txs, marked := st.tables.txs, Mark(st.tables.txs, {original.id});
    MarkIsStatusOnly(txs, {original.id});
    FindSame(txs, marked, original.id);
    assert (marked + [reversal])[..|marked|] == marked;
    assert original.id != reversal.id;
    assert Find(marked + [reversal], original.id) == Find(txs, original.id);
  }

  lemma {:induction false} AfterHolderAborts(st: State, s: SessionId, id: Uuid)
    requires s in st.sessions && Holds(st.sessions[s], id) && ExclusiveLocks(st.sessions)
    requires SessionInv(st.tables, st.sessions[s])
    ensures var st' := Step(st, Abort(s));
            && st'.tables == st.tables && !IsVoided(st'.tables.txs, id)
            && (forall q | q in st'.sessions :: !Holds(st'.sessions[q], id))
  {
    var st' := Step(st, Abort(s));
    forall q | q in st'.sessions ensures !Holds(st'.sessions[q], id) {
      if q != s {
        assert st'.sessions[q] == st.sessions[q];
      }
    }
  }

  lemma {:induction false} RunSnoc(events: seq<Event>, ev: Event)
    ensures Run(events + [ev]) == Step(Run(events), ev)
  {
    assert (events + [ev])[..|events|] == events;
  }

  lemma {:induction false} VoidedStays(events: seq<Event>, more: seq<Event>, id: Uuid)
    requires IsVoided(Txs(events), id)
    ensures IsVoided(Txs(events + more), id)
  {
    VoidedIsTerminal(events, more);
    ReachableLinks(events + more);
    FindStays(Txs(events), Txs(events + more), id);
  }

  /** While a session holds a row's lock, another void of the row waits; once the holder aborts, it goes ahead. */
  lemma {:induction false} BlockedVoid(events: seq<Event>, s: SessionId, r: SessionId)
    requires var sessions := Run(events).sessions;
             && s in sessions && r in sessions && s != r && sessions[r].Waiting?
             && Holds(sessions[s], sessions[r].original.id)
    ensures var st := Run(events);
            && Step(st, VoidMark(r)).sessions[r].Waiting?
            && Step(Step(st, Abort(s)), VoidMark(r)).sessions[r].Marked?
  {
    ReachableSession(events, s);
    ReachableSessions(events);
    VoidIsDecidedByItsRow(events, r);
    AfterHolderAborts(Run(events), s, Run(events).sessions[r].original.id);
    RunSnoc(events, Abort(s));
    VoidIsDecidedByItsRow(events + [Abort(s)], r);
  }

  lemma {:induction false} HolderCommitVoids(events: seq<Event>, s: SessionId, more: seq<Event>)
    requires s in Run(events).sessions && Run(events).sessions[s].Reversed?
    ensures IsVoided(Txs(events + [Commit(s)] + more), Run(events).sessions[s].original.id)
  {
    ReachableSession(events, s);
    ReachableLinks(events);
    ReversedPassesTrigger(Run(events), s);
    AfterHolderCommits(Run(events), s);
    RunSnoc(events, Commit(s));
    VoidedStays(events + [Commit(s)], more, Run(events).sessions[s].original.id);
  }

  /** Once a void commits, every other void of its row conflicts, whatever happens before it tries. */
  lemma {:induction false} BlockedVoidConflicts(events: seq<Event>, s: SessionId, more: seq<Event>, r: SessionId)
    requires s in Run(events).sessions && Run(events).sessions[s].Reversed?
    requires var later := Run(events + [Commit(s)] + more);
             && r in later.sessions && (later.sessions[r].Loaded? || later.sessions[r].Waiting?)
             && later.sessions[r].original.id == Run(events).sessions[s].original.id
    ensures var id := Run(events).sessions[s].original.id;
            Step(Run(events + [Commit(s)] + more), VoidMark(r)).sessions[r] == Finished(Conflict(id))
  {
    HolderCommitVoids(events, s, more);
    VoidIsDecidedByItsRow(events + [Commit(s)] + more, r);
  }

  /** The commit-time trigger refuses a create exactly when one side's total overflows BIGINT, and a void never. */
  lemma {:induction false} TriggerRefusesOnlyOverflow(events: seq<Event>, s: SessionId)
    requires s in Run(events).sessions
    ensures var st, session := Run(events), Run(events).sessions[s];
            && (session.Built? ==>
                  (Step(st, Commit(s)).sessions[s] == Finished(RolledBack)
                   <==> DebitTotal(session.tx.entries) > BIGINT_MAX))
            && (session.Reversed? ==> Step(st, Commit(s)).sessions[s].outcome.VoidedTransaction?)
  {
    ReachableSession(events, s);
    ReachableLinks(events);
    var st := Run(events);
    if st.sessions[s].Built? {
      NetIsDifference(st.sessions[s].tx.entries);
    } else if st.sessions[s].Reversed? {
      ReversedPassesTrigger(st, s);
    }
  }

  /**
   * Replaying the audit rows in commit order rebuilds the ids and statuses of the committed
   * transactions. Every void row says posted to voided, and creation and void rows name each other.
   */
  lemma {:induction false} AuditReplays(events: seq<Event>)
    ensures var txs, audit := Txs(events), Run(events).tables.audit;
            && Replay(audit).Keys == Ids(txs)
            && (forall i | 0 <= i < |txs| :: txs[i].id in Ids(txs) && Replay(audit)[txs[i].id] == txs[i].status)
            && Paired(audit)
  {
    Reachable(events);
    var txs, audit := Txs(events), Run(events).tables.audit;
    ReplayRebuildsStatuses(txs);
    ReplayIgnoresUsers(audit);
    AuditIsPaired(audit, txs);
    forall i | 0 <= i < |txs| ensures txs[i].id in Ids(txs) && LinkStatuses(txs)[txs[i].id] == txs[i].status {
      assert txs[i] in txs;
      assert Counts(txs[i].status);
    }
  }

  /** The query computes the ledger in which each void switches its chain's root on or off. */
  lemma {:induction false} BalancesAreSwitched(events: seq<Event>, account: Uuid, asOf: Date)
    ensures CalculateBalance(Txs(events), account, asOf)
         == Reversals.SwitchedBalance(Reversals.Abstract(Txs(events)), account, asOf)
  {
    Reachable(events);
    Reversals.BalanceIsSwitched(Txs(events), account, asOf);
  }

  /** The transaction that a step of the sessions commits, and the rows it marks voided. */
  function CommitOf(st: State, ev: Event): Option<(set<Uuid>, Transaction)> {
    if !ev.Commit? || ev.s !in st.sessions then None
    else
      match st.sessions[ev.s]
      case Built(tx, _) => if TriggerPasses(tx.entries) then Some(({}, tx)) else None
      case Reversed(original, reversal, _) =>
        if TriggerPasses(reversal.entries) then Some(({original.id}, reversal)) else None
      case _ => None
  }

  /** The abstract ledger after tx is committed on top of txs. */
  ghost predicate RefinesCommit(txs: seq<Transaction>, tx: Transaction, after: Reversals.Switched) {
    var before := Reversals.Abstract(txs);
    if tx.reversalOf.None? then after == Reversals.Post(before, tx.(status := Posted))
    else exists i :: && 0 <= i < |txs| && tx.reversalOf == Some(txs[i].id)
                     && after == Reversals.Toggle(before, txs[Reversals.Root(txs, i)].id)
  }

  lemma {:induction false} PublishRefines(t: Tables, w: WriteSet)
    requires Linked(t.txs) && Linked(Publish(t, w).txs) && |w.txs| == 1
    ensures RefinesCommit(t.txs, w.txs[0], Reversals.Abstract(Publish(t, w).txs))
  {
    Reversals.CommitsRefine(t, w);
  }

  lemma {:induction false} CommitPublishes(st: State, ev: Event) returns (w: WriteSet)
    requires CommitOf(st, ev).Some?
    ensures w.marks == CommitOf(st, ev).value.0 && w.txs == [CommitOf(st, ev).value.1]
    ensures Step(st, ev).tables == Publish(st.tables, w)
  {
    match st.sessions[ev.s]
    case Built(tx, user) => w := CreateWrites(tx, user);
    case Reversed(original, reversal, user) => w := VoidWrites(original, reversal, user);
  }

  lemma {:induction false} OthersPublishNothing(st: State, ev: Event)
    requires CommitOf(st, ev).None?
    ensures Step(st, ev).tables.txs == st.tables.txs
  {
  }

  lemma {:induction false} CommitsPosted(t: Tables, session: Session)
    requires SessionInv(t, session)
    ensures session.Built? ==> session.tx.status == Posted
    ensures session.Reversed? ==> session.reversal.status == Posted
  {
  }

  lemma {:induction false} StepRefines(st: State, ev: Event)
    requires Linked(st.tables.txs) && Linked(Step(st, ev).tables.txs) && CommitOf(st, ev).Some?
    ensures RefinesCommit(st.tables.txs, CommitOf(st, ev).value.1, Reversals.Abstract(Step(st, ev).tables.txs))
  {
    var w := CommitPublishes(st, ev);
    PublishRefines(st.tables, w);
  }

  /**
   * Every step of every run posts in the abstract ledger, toggles the root of the row it voids, or leaves it
   * as it was.
   */
  lemma {:induction false} StepsRefine(events: seq<Event>, ev: Event)
    ensures var commit, txs' := CommitOf(Run(events), ev), Step(Run(events), ev).tables.txs;
            if commit.Some? then RefinesCommit(Txs(events), commit.value.1, Reversals.Abstract(txs'))
            else txs' == Txs(events)
  {
    if CommitOf(Run(events), ev).Some? {
      RunSnoc(events, ev);
      ReachableLinks(events);
      ReachableLinks(events + [ev]);
      StepRefines(Run(events), ev);
    } else {
      OthersPublishNothing(Run(events), ev);
    }
  }

  /** In every reachable state, currency and date, the balances of the currency's accounts sum to zero. */
  lemma {:induction false} TrialBalanceHolds(events: seq<Event>, currency: string, asOf: Date)
    ensures var f := (a: Account) => if a.currency == currency then CalculateBalance(Txs(events), a.id, asOf) else 0;
            Sum(Run(events).tables.accounts, f) == 0
  {
    Reachable(events);
    var accounts := Run(events).tables.accounts;
    var f := (a: Account) => if a.currency == currency then CalculateBalance(Txs(events), a.id, asOf) else 0;
    TrialBalance.BalancesSumToZero(accounts, Txs(events), currency, asOf);
    SumPointwise(accounts, f, accounts, TrialBalance.BalanceIn(Txs(events), currency, asOf));
  }

  lemma {:induction false} ReachableEntries(events: seq<Event>, i: nat)
    requires i < |Txs(events)|
    ensures SoundEntries(Run(events).tables.accounts, Txs(events)[i].entries)
  {
    Reachable(events);
  }

  /******* Listing *******/

  /**
   * In every reachable state, consecutive pages to the end of the table show each transaction once: newest
   * date first, on one date the latest posting first, and then by id.
   */
  lemma {:induction false} PagesTileTheLedger(events: seq<Event>, limits: seq<nat>, pages: seq<seq<Transaction>>)
    requires Paging.AreConsecutive(Txs(events), limits, pages) && |Txs(events)| <= Paging.Total(limits)
    ensures var s := Paging.Flatten(pages);
            && multiset(s) == multiset(Txs(events))
            && Paging.NewestFirst(s)
            && (forall i | 0 <= i < |pages| :: |pages[i]| <= limits[i])
  {
    ReachableLinks(events);
    Paging.PagesTile(Txs(events), limits, pages);
    Paging.OrderedIsNewestFirst(Paging.Flatten(pages));
    forall i | 0 <= i < |pages| ensures |pages[i]| <= limits[i] {
      Paging.PageShows(Txs(events), limits[i], Paging.Total(limits[..i]), pages[i]);
    }
  }
}
