/**
 * The deferred constraint trigger on the entries table, for any number of concurrent sessions that
 * may bypass the service and write into the same transactions.
 */
module Trigger {
  import opened Prelude
  import opened Ledger
  import Posting

  type SessionId = nat

  datatype EntryRow = EntryRow(tx: Uuid, direction: Direction, amount: int)

  /** A session's own rows, and how many of their queued checks have fired at COMMIT. */
  datatype Session = Session(rows: seq<EntryRow>, fired: nat)

  /** Every committed state of the entries table so far, the current one last. */
  datatype State = State(history: seq<seq<EntryRow>>, sessions: map<SessionId, Session>)

  datatype Event =
    | Insert(s: SessionId, row: EntryRow)
    | Fire(s: SessionId, snapshot: nat)
    | Commit(s: SessionId)
    | Abort(s: SessionId)

  function DebitOf(tx: Uuid): EntryRow -> int {
    (r: EntryRow) => if r.tx == tx && r.direction == Debit then r.amount else 0
  }

  function CreditOf(tx: Uuid): EntryRow -> int {
    (r: EntryRow) => if r.tx == tx && r.direction == Credit then r.amount else 0
  }

  /** check_entries_balance for a row of tx: both sums fit the function's BIGINT variables and agree. */
  predicate Check(rows: seq<EntryRow>, tx: Uuid) {
    var debit, credit := Sum(rows, DebitOf(tx)), Sum(rows, CreditOf(tx));
    debit <= BIGINT_MAX && credit <= BIGINT_MAX && debit == credit
  }

  function Rollback(st: State, s: SessionId): State {
    st.(sessions := st.sessions - {s})
  }

  /** One step of one session. A check sees the session's own rows and one committed snapshot. */
  function Step(st: State, ev: Event): State {
    match ev
    case Insert(s, row) =>
      var own := if s in st.sessions then st.sessions[s] else Session([], 0);
      if own.fired > 0 then st
      else if !(0 < row.amount <= BIGINT_MAX) then Rollback(st, s)
      else st.(sessions := st.sessions[s := Session(own.rows + [row], 0)])
    case Fire(s, snapshot) =>
      if s !in st.sessions || st.sessions[s].fired >= |st.sessions[s].rows| || snapshot >= |st.history| then st
      else
        var own := st.sessions[s];
        if Check(st.history[snapshot] + own.rows, own.rows[own.fired].tx)
        then st.(sessions := st.sessions[s := own.(fired := own.fired + 1)])
        else Rollback(st, s)
    case Commit(s) =>
      if s !in st.sessions || st.sessions[s].fired < |st.sessions[s].rows| || st.history == [] then st
      else Rollback(st.(history := st.history + [st.history[|st.history| - 1] + st.sessions[s].rows]), s)
    case Abort(s) => Rollback(st, s)
  }

  const INIT := State([[]], map[])

  function Run(events: seq<Event>): State {
    if events == [] then INIT else Step(Run(events[..|events| - 1]), events[|events| - 1])
  }

  /******* Every committed state is balanced *******/

  predicate Balanced(rows: seq<EntryRow>, tx: Uuid) {
    Sum(rows, DebitOf(tx)) == Sum(rows, CreditOf(tx))
  }

  ghost predicate AllBalanced(rows: seq<EntryRow>) {
    forall tx :: Balanced(rows, tx)
  }

  predicate FiredAreBalanced(own: Session) {
    forall i | 0 <= i < own.fired && i < |own.rows| :: Balanced(own.rows, own.rows[i].tx)
  }

  ghost predicate Inv(st: State) {
    && st.history != []
    && (forall k | 0 <= k < |st.history| :: AllBalanced(st.history[k]))
    && (forall s | s in st.sessions :: FiredAreBalanced(st.sessions[s]))
  }

  lemma {:induction false} Concat(committed: seq<EntryRow>, own: seq<EntryRow>, tx: Uuid)
    ensures Sum(committed + own, DebitOf(tx)) == Sum(committed, DebitOf(tx)) + Sum(own, DebitOf(tx))
    ensures Sum(committed + own, CreditOf(tx)) == Sum(committed, CreditOf(tx)) + Sum(own, CreditOf(tx))
  {
    SumConcat(committed, own, DebitOf(tx));
    SumConcat(committed, own, CreditOf(tx));
  }

  /** A session all of whose checks have passed has a zero net in every transaction. */
  lemma {:induction false} PassedSessionIsBalanced(own: Session)
    requires FiredAreBalanced(own) && own.fired >= |own.rows|
    ensures AllBalanced(own.rows)
  {
    forall tx ensures Balanced(own.rows, tx) {
      if i :| 0 <= i < |own.rows| && own.rows[i].tx == tx {
        assert Balanced(own.rows, own.rows[i].tx);
      } else {
        SumZero(own.rows, DebitOf(tx));
        SumZero(own.rows, CreditOf(tx));
      }
    }
  }

  /** Against a balanced snapshot a check passes exactly when the own rows balance and the sums fit. */
  lemma {:induction false} CheckSeesOwnNet(committed: seq<EntryRow>, own: seq<EntryRow>, tx: Uuid)
    requires Balanced(committed, tx)
    ensures Check(committed + own, tx)
       <==> Balanced(own, tx) && Sum(committed + own, DebitOf(tx)) <= BIGINT_MAX
  {
    Concat(committed, own, tx);
  }

  lemma {:induction false} FireKeepsBalance(committed: seq<EntryRow>, own: Session)
    requires AllBalanced(committed) && FiredAreBalanced(own) && own.fired < |own.rows|
    requires Check(committed + own.rows, own.rows[own.fired].tx)
    ensures FiredAreBalanced(own.(fired := own.fired + 1))
  {
    var tx := own.rows[own.fired].tx;
    assert Balanced(own.rows, tx) by {
      assert Balanced(committed, tx);
      CheckSeesOwnNet(committed, own.rows, tx);
    }
    forall i | 0 <= i < own.fired + 1 ensures Balanced(own.rows, own.rows[i].tx) {
      if i < own.fired {
        assert Balanced(own.rows, own.rows[i].tx);
      }
    }
  }

  lemma {:induction false} CommitKeepsBalance(committed: seq<EntryRow>, own: Session)
    requires AllBalanced(committed) && FiredAreBalanced(own) && own.fired >= |own.rows|
    ensures AllBalanced(committed + own.rows)
  {
    PassedSessionIsBalanced(own);
    forall tx ensures Balanced(committed + own.rows, tx) {
      Concat(committed, own.rows, tx);
      assert Balanced(committed, tx) && Balanced(own.rows, tx);
    }
  }

  lemma {:induction false} StepKeepsInv(st: State, ev: Event)
    requires Inv(st)
    ensures Inv(Step(st, ev))
  {
    match ev
    case Insert(s, row) =>
    case Abort(s) =>
    case Fire(s, snapshot) =>
      if s in st.sessions && st.sessions[s].fired < |st.sessions[s].rows| && snapshot < |st.history| {
        if Check(st.history[snapshot] + st.sessions[s].rows, st.sessions[s].rows[st.sessions[s].fired].tx) {
          FireKeepsBalance(st.history[snapshot], st.sessions[s]);
        }
      }
    case Commit(s) =>
      if s in st.sessions && st.sessions[s].fired >= |st.sessions[s].rows| {
        CommitKeepsBalance(st.history[|st.history| - 1], st.sessions[s]);
      }
  }

  lemma {:induction false} RunKeepsInv(events: seq<Event>)
    ensures Inv(Run(events))
  {
    if events == [] {
      assert forall tx :: Balanced([], tx);
    } else {
      RunKeepsInv(events[..|events| - 1]);
      StepKeepsInv(Run(events[..|events| - 1]), events[|events| - 1]);
    }
  }

  /**
   * In every committed state of every interleaving, each transaction's debits equal its credits, even
   * though no check sees what other sessions have in flight.
   */
  lemma {:induction false} CommittedIsBalanced(events: seq<Event>, k: nat, tx: Uuid)
    requires k < |Run(events).history|
    ensures Balanced(Run(events).history[k], tx)
  {
    RunKeepsInv(events);
    assert AllBalanced(Run(events).history[k]);
  }

  /** In any reachable state a check passes exactly when the session's own rows balance and the sums fit. */
  lemma {:induction false} CheckDecidesOwnRows(events: seq<Event>, snapshot: nat, own: seq<EntryRow>, tx: Uuid)
    requires snapshot < |Run(events).history|
    ensures var seen := Run(events).history[snapshot] + own;
            Check(seen, tx) <==> Balanced(own, tx) && Sum(seen, DebitOf(tx)) <= BIGINT_MAX
  {
    CommittedIsBalanced(events, snapshot, tx);
    CheckSeesOwnNet(Run(events).history[snapshot], own, tx);
  }

  /** A row inserted before any check has fired is the session's last one, or rolls it back if out of range. */
  lemma {:induction false} InsertsAreDecided(st: State, s: SessionId, row: EntryRow)
    requires s in st.sessions ==> st.sessions[s].fired == 0
    ensures var st' := Step(st, Insert(s, row));
            var rows := if s in st.sessions then st.sessions[s].rows else [];
            && st'.history == st.history
            && (0 < row.amount <= BIGINT_MAX ==> s in st'.sessions && st'.sessions[s] == Session(rows + [row], 0))
            && (!(0 < row.amount <= BIGINT_MAX) ==> s !in st'.sessions)
  {
  }

  /**
   * In any reachable state a check that fires lets its session go on exactly if the session's own rows balance
   * and the sums fit, and else rolls it back; a session whose checks have all fired publishes all its rows.
   */
  lemma {:induction false} SessionsAreDecided(events: seq<Event>, s: SessionId, snapshot: nat)
    requires s in Run(events).sessions && snapshot < |Run(events).history|
    ensures var st := Run(events); var own := st.sessions[s]; var fired := Step(st, Fire(s, snapshot));
            own.fired < |own.rows| ==>
              var tx := own.rows[own.fired].tx;
              var fits := Sum(st.history[snapshot] + own.rows, DebitOf(tx)) <= BIGINT_MAX;
              && fired.history == st.history
              && (s in fired.sessions <==> Balanced(own.rows, tx) && fits)
              && (s in fired.sessions ==> fired.sessions[s] == Session(own.rows, own.fired + 1))
    ensures var st := Run(events); var own := st.sessions[s]; var done := Step(st, Commit(s));
            own.fired >= |own.rows| ==>
              st.history != [] && done.history == st.history + [st.history[|st.history| - 1] + own.rows]
  {
    RunKeepsInv(events);
    var own := Run(events).sessions[s];
    if own.fired < |own.rows| {
      CheckDecidesOwnRows(events, snapshot, own.rows, own.rows[own.fired].tx);
    }
  }

  /** The rows the service inserts for a transaction. */
  function RowsOf(t: Transaction): seq<EntryRow> {
    seq(|t.entries|, i requires 0 <= i < |t.entries| => EntryRow(t.id, t.entries[i].direction, t.entries[i].amount))
  }

  /** On a transaction no other session has written to, the trigger sees just the service's own entries. */
  lemma {:induction false} ServiceCheck(committed: seq<EntryRow>, t: Transaction)
    requires forall i | 0 <= i < |committed| :: committed[i].tx != t.id
    ensures Check(committed + RowsOf(t), t.id) <==> Posting.TriggerPasses(t.entries)
  {
    Concat(committed, RowsOf(t), t.id);
    SumZero(committed, DebitOf(t.id));
    SumZero(committed, CreditOf(t.id));
    SumPointwise(RowsOf(t), DebitOf(t.id), t.entries, Posting.DebitAmount);
    SumPointwise(RowsOf(t), CreditOf(t.id), t.entries, Posting.CreditAmount);
  }
}
