/** Where every committed transaction comes from: a request's payload and the rate resolved when it was built. */
module Provenance {
  import opened Prelude
  import opened Ledger
  import opened Fx
  import opened Rates
  import opened Posting
  import opened Protocol
  import opened Guarantees
  import Books
  import Reversals

  /** The rate a payload resolves to in the tables of a state. */
  function RateIn(st: State, p: Payload): Result<Rate, ResolveError> {
    ResolveUsdRate(st.tables.currencies, st.tables.rates, p.currencyCode, p.date)
  }

  /** The session that event n of the run builds a transaction for has passed its checks. */
  predicate BuildsAt(events: seq<Event>, n: nat) {
    && n < |events| && events[n].CreateBuild?
    && events[n].s in Run(events[..n]).sessions && Run(events[..n]).sessions[events[n].s].Checked?
    && RateIn(Run(events[..n]), Run(events[..n]).sessions[events[n].s].payload).Ok?
  }

  function PayloadAt(events: seq<Event>, n: nat): ValidPayload
    requires BuildsAt(events, n)
  {
    Run(events[..n]).sessions[events[n].s].payload
  }

  function RateAt(events: seq<Event>, n: nat): Rate
    requires BuildsAt(events, n)
  {
    RateIn(Run(events[..n]), PayloadAt(events, n)).value
  }

  /** Event n of the run built tx, from its session's payload and the rate resolved then. */
  predicate BuiltAt(events: seq<Event>, n: nat, tx: Transaction) {
    && BuildsAt(events, n)
    && BuildTransaction(PayloadAt(events, n), RateAt(events, n), events[n].id, events[n].now) == Ok(tx)
  }

  ghost predicate WasBuilt(events: seq<Event>, tx: Transaction) {
    exists n: nat :: BuiltAt(events, n, tx)
  }

  lemma {:induction false} StaysBuilt(events: seq<Event>, ev: Event, tx: Transaction)
    requires WasBuilt(events, tx)
    ensures WasBuilt(events + [ev], tx)
  {
    var n: nat :| BuiltAt(events, n, tx);
    assert (events + [ev])[..n] == events[..n];
    assert BuiltAt(events + [ev], n, tx);
  }

  /** A transaction that is built after a step was built before it, or is built by it. */
  lemma {:induction false} BuiltComesFrom(st: State, ev: Event, s: SessionId)
    requires s in Step(st, ev).sessions && Step(st, ev).sessions[s].Built?
    ensures var tx := Step(st, ev).sessions[s].tx;
            || (s in st.sessions && st.sessions[s].Built? && st.sessions[s].tx == tx)
            || (ev.CreateBuild? && ev.s == s && s in st.sessions && st.sessions[s].Checked?
                && var rate := RateIn(st, st.sessions[s].payload);
                   rate.Ok? && BuildTransaction(st.sessions[s].payload, rate.value, ev.id, ev.now) == Ok(tx))
  {
  }

  /** A root that is committed after a step was committed before it, or is committed by a session that built it. */
  lemma {:induction false} RootComesFrom(st: State, ev: Event, i: nat)
    requires i < |Step(st, ev).tables.txs| && Step(st, ev).tables.txs[i].reversalOf.None?
    requires forall s | s in st.sessions && st.sessions[s].Reversed? :: st.sessions[s].reversal.reversalOf.Some?
    ensures var tx := Step(st, ev).tables.txs[i];
            || (i < |st.tables.txs| && tx.(status := Posted) == st.tables.txs[i].(status := Posted))
            || exists s :: s in st.sessions && st.sessions[s].Built? && st.sessions[s].tx == tx
  {
    if i < |st.tables.txs| {
      StepGrows(st, ev);
    }
  }

  ghost predicate AllBuilt(events: seq<Event>) {
    && (forall s | s in Run(events).sessions && Run(events).sessions[s].Built? ::
          WasBuilt(events, Run(events).sessions[s].tx))
    && (forall i | 0 <= i < |Txs(events)| && Txs(events)[i].reversalOf.None? ::
          WasBuilt(events, Txs(events)[i].(status := Posted)))
  }

  lemma {:induction false} SessionStaysBuilt(events: seq<Event>, ev: Event, s: SessionId)
    requires AllBuilt(events) && s in Step(Run(events), ev).sessions && Step(Run(events), ev).sessions[s].Built?
    ensures WasBuilt(events + [ev], Step(Run(events), ev).sessions[s].tx)
  {
    var tx := Step(Run(events), ev).sessions[s].tx;
    BuiltComesFrom(Run(events), ev, s);
    if s in Run(events).sessions && Run(events).sessions[s].Built? && Run(events).sessions[s].tx == tx {
      StaysBuilt(events, ev, tx);
    } else {
      assert (events + [ev])[..|events|] == events;
      assert BuiltAt(events + [ev], |events|, tx);
    }
  }

  lemma {:induction false} ReversedHasOriginal(events: seq<Event>)
    ensures forall s | s in Run(events).sessions && Run(events).sessions[s].Reversed? ::
              Run(events).sessions[s].reversal.reversalOf.Some?
    ensures forall s | s in Run(events).sessions && Run(events).sessions[s].Built? ::
              Run(events).sessions[s].tx.status == Posted
  {
    forall s | s in Run(events).sessions
      ensures Run(events).sessions[s].Reversed? ==> Run(events).sessions[s].reversal.reversalOf.Some?
      ensures Run(events).sessions[s].Built? ==> Run(events).sessions[s].tx.status == Posted
    {
      ReachableSession(events, s);
    }
  }

  lemma {:induction false} WasBuiltBefore(events: seq<Event>, tx: Transaction, i: nat)
    requires AllBuilt(events) && tx.reversalOf.None?
    requires forall s | s in Run(events).sessions && Run(events).sessions[s].Built? ::
               Run(events).sessions[s].tx.status == Posted
    requires (i < |Txs(events)| && tx.(status := Posted) == Txs(events)[i].(status := Posted))
          || exists s :: s in Run(events).sessions && Run(events).sessions[s].Built? && Run(events).sessions[s].tx == tx
    ensures WasBuilt(events, tx.(status := Posted))
  {
    if i < |Txs(events)| && tx.(status := Posted) == Txs(events)[i].(status := Posted) {
      assert tx.(status := Posted).reversalOf == Txs(events)[i].reversalOf;
    } else {
      var s :| s in Run(events).sessions && Run(events).sessions[s].Built? && Run(events).sessions[s].tx == tx;
      assert tx.(status := Posted) == tx;
    }
  }

  lemma {:induction false} RootStaysBuilt(events: seq<Event>, ev: Event, i: nat)
    requires AllBuilt(events)
    requires i < |Step(Run(events), ev).tables.txs| && Step(Run(events), ev).tables.txs[i].reversalOf.None?
    ensures WasBuilt(events + [ev], Step(Run(events), ev).tables.txs[i].(status := Posted))
  {
    ReversedHasOriginal(events);
    RootComesFrom(Run(events), ev, i);
    WasBuiltBefore(events, Step(Run(events), ev).tables.txs[i], i);
    StaysBuilt(events, ev, Step(Run(events), ev).tables.txs[i].(status := Posted));
  }

  lemma {:induction false} RunIsBuilt(events: seq<Event>)
    ensures AllBuilt(events)
  {
    if events != [] {
      var before, ev := events[..|events| - 1], events[|events| - 1];
      RunIsBuilt(before);
      assert events == before + [ev];
      forall s | s in Run(events).sessions && Run(events).sessions[s].Built?
        ensures WasBuilt(events, Run(events).sessions[s].tx)
      {
        SessionStaysBuilt(before, ev, s);
      }
      forall i | 0 <= i < |Txs(events)| && Txs(events)[i].reversalOf.None?
        ensures WasBuilt(events, Txs(events)[i].(status := Posted))
      {
        RootStaysBuilt(before, ev, i);
      }
    }
  }

  /**
   * In every run each committed transaction that reverses nothing is, but for having been voided, what the
   * service built from an accepted payload at the rate resolved then.
   */
  lemma {:induction false} RootsAreAsBuilt(events: seq<Event>, i: nat)
    requires i < |Txs(events)| && Txs(events)[i].reversalOf.None?
    ensures exists n: nat :: BuiltAt(events, n, Txs(events)[i].(status := Posted))
  {
    RunIsBuilt(events);
    assert WasBuilt(events, Txs(events)[i].(status := Posted));
  }

  lemma {:induction false} StepKeepsCodes(st: State, ev: Event)
    requires HasUniqueCodes(st.tables.currencies)
    ensures HasUniqueCodes(Step(st, ev).tables.currencies)
  {
  }

  lemma {:induction false} CodesAreUnique(events: seq<Event>)
    ensures HasUniqueCodes(Run(events).tables.currencies)
  {
    if events != [] {
      CodesAreUnique(events[..|events| - 1]);
      StepKeepsCodes(Run(events[..|events| - 1]), events[|events| - 1]);
    }
  }

  /** The rate of a build is one for the base currency, and else the latest by the payload's date in its state. */
  lemma {:induction false} RateAtIsTheLatest(events: seq<Event>, n: nat)
    requires BuildsAt(events, n)
    ensures var t, p := Run(events[..n]).tables, PayloadAt(events, n);
            if p.currencyCode == "USD" then RateAt(events, n) == Rate(1, 0)
            else ResolvesTo(t.currencies, t.rates, p.currencyCode, p.date, RateAt(events, n))
  {
    Reachable(events[..n]);
    var t, p := Run(events[..n]).tables, PayloadAt(events, n);
    if p.currencyCode != "USD" {
      ResolvedExactly(t.currencies, t.rates, p.currencyCode, p.date, RateAt(events, n));
    }
  }

  /** Every USD value is the exact conversion of its amount at the rate. */
  predicate ConvertedAtRate(entries: seq<Entry>, rate: Rate) {
    forall k | 0 <= k < |entries| :: 0 <= entries[k].amount && entries[k].usd == Usd(entries[k].amount, rate)
  }

  lemma {:induction false} BuiltAtRate(events: seq<Event>, n: nat, tx: Transaction)
    requires BuiltAt(events, n, tx)
    ensures tx.date == PayloadAt(events, n).date && ConvertedAtRate(tx.entries, RateAt(events, n))
  {
    Reachable(events[..n]);
    var st, p := Run(events[..n]), PayloadAt(events, n);
    ResolvedIsRate(st.tables.currencies, st.tables.rates, p.currencyCode, p.date);
    BuildExactly(p, RateAt(events, n), events[n].id, events[n].now);
  }

  lemma {:induction false} ChainSharesRate(txs: seq<Transaction>, i: nat, rate: Rate)
    requires Books.Linked(txs) && i < |txs| && ConvertedAtRate(txs[Reversals.Root(txs, i)].entries, rate)
    ensures txs[i].date == txs[Reversals.Root(txs, i)].date && ConvertedAtRate(txs[i].entries, rate)
  {
    Reversals.EntriesByDepth(txs, i);
  }

  /**
   * In every run each committed transaction, reversals included, has exact USD values at one rate: the one
   * resolved for its date, and its root's currency code, in the state in which its root was built. It
   * balances, and is off by less than half its entries in USD cents.
   */
  lemma {:induction false} CommittedConversions(events: seq<Event>, i: nat)
    requires i < |Txs(events)|
    ensures var txs := Txs(events);
            exists n: nat :: && BuiltAt(events, n, txs[Reversals.Root(txs, i)].(status := Posted))
                             && PayloadAt(events, n).date == txs[i].date
                             && ConvertedAtRate(txs[i].entries, RateAt(events, n))
    ensures var entries := Txs(events)[i].entries;
            && Net(entries) == 0
            && -|entries| < 2 * NetUsd(entries) < |entries|
            && (|entries| == 2 ==> NetUsd(entries) == 0)
  {
    var txs := Txs(events);
    var r := Reversals.Root(txs, i);
    ReachableLinks(events);
    Reversals.ChainsEndInRoots(txs, i);
    RootsAreAsBuilt(events, r);
    var n: nat :| BuiltAt(events, n, txs[r].(status := Posted));
    BuiltAtRate(events, n, txs[r].(status := Posted));
    ChainSharesRate(txs, i, RateAt(events, n));
    ReachableEntries(events, i);
    StoredUsdImbalance(Run(events).tables.accounts, txs[i].entries);
  }

  /******* Who acted *******/

  /** The user a session works for, until it is done. */
  function UserOf(session: Session): Option<Uuid> {
    match session
    case Checked(_, user) => Some(user)
    case Built(_, user) => Some(user)
    case Loaded(_, user) => Some(user)
    case Waiting(_, user) => Some(user)
    case Marked(_, user) => Some(user)
    case Reversed(_, _, user) => Some(user)
    case Finished(_) => None
  }

  /** The user began the session, as a create or as a void. */
  predicate Begins(ev: Event, s: SessionId, user: Uuid) {
    (ev.CreateCheck? || ev.VoidLoad?) && ev.s == s && ev.user == user
  }

  ghost predicate WasBegun(events: seq<Event>, s: SessionId, user: Uuid) {
    exists ev :: ev in events && Begins(ev, s, user)
  }

  lemma {:induction false} UserComesFrom(st: State, ev: Event, s: SessionId)
    requires s in Step(st, ev).sessions && UserOf(Step(st, ev).sessions[s]).Some?
    ensures var user := UserOf(Step(st, ev).sessions[s]);
            (s in st.sessions && UserOf(st.sessions[s]) == user) || Begins(ev, s, user.value)
  {
  }

  /** In every run a session works for the user that began it. */
  lemma {:induction false} SessionsHaveTheirUser(events: seq<Event>, s: SessionId)
    requires s in Run(events).sessions && UserOf(Run(events).sessions[s]).Some?
    ensures WasBegun(events, s, UserOf(Run(events).sessions[s]).value)
  {
    var before, ev := events[..|events| - 1], events[|events| - 1];
    var user := UserOf(Run(events).sessions[s]).value;
    UserComesFrom(Run(before), ev, s);
    if Begins(ev, s, user) {
      assert ev in events;
    } else {
      SessionsHaveTheirUser(before, s);
      var begin :| begin in before && Begins(begin, s, user);
      assert begin in events;
    }
  }

  /** The row concerns what the session commits, and names its user. */
  predicate IsLoggedBy(session: Session, row: AuditRow) {
    && UserOf(session) == Some(row.user)
    && match session
       case Built(tx, _) => row.entity == tx.id
       case Reversed(original, reversal, _) => row.entity == original.id || row.entity == reversal.id
       case _ => false
  }

  predicate LogsAt(events: seq<Event>, n: nat, row: AuditRow) {
    && n < |events| && events[n].Commit?
    && events[n].s in Run(events[..n]).sessions && IsLoggedBy(Run(events[..n]).sessions[events[n].s], row)
  }

  lemma {:induction false} RowComesFrom(st: State, ev: Event, a: nat)
    requires a < |Step(st, ev).tables.audit|
    ensures var row := Step(st, ev).tables.audit[a];
            || (a < |st.tables.audit| && st.tables.audit[a] == row)
            || (ev.Commit? && ev.s in st.sessions && IsLoggedBy(st.sessions[ev.s], row))
  {
  }

  lemma {:induction false} RowsAreLogged(events: seq<Event>, a: nat) returns (n: nat)
    requires a < |Run(events).tables.audit|
    ensures LogsAt(events, n, Run(events).tables.audit[a])
  {
    var before, ev := events[..|events| - 1], events[|events| - 1];
    var row := Run(events).tables.audit[a];
    RowComesFrom(Run(before), ev, a);
    if a < |Run(before).tables.audit| && Run(before).tables.audit[a] == row {
      n := RowsAreLogged(before, a);
      assert before[..n] == events[..n] && before[n] == events[n];
    } else {
      n := |events| - 1;
    }
  }

  /**
   * In every run each audit row was written by the commit of a session, concerns a transaction that it
   * committed, and names the user that began it; and it tells of that transaction's creation or void.
   */
  lemma {:induction false} AuditNamesItsUser(events: seq<Event>, a: nat) returns (n: nat)
    requires a < |Run(events).tables.audit|
    ensures var row := Run(events).tables.audit[a];
            && LogsAt(events, n, row)
            && WasBegun(events[..n], events[n].s, row.user)
            && (Books.TellsCreation(Txs(events), row) || Books.TellsVoid(Txs(events), row))
  {
    n := RowsAreLogged(events, a);
    SessionsHaveTheirUser(events[..n], events[n].s);
    Reachable(events);
    Books.AuditTells(Run(events).tables.audit, Txs(events), a);
  }
}
