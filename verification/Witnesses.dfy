/** Inputs on which the code does not do what its documentation says. */
module Witnesses {
  import opened Prelude
  import opened Ledger
  import opened Rates
  import opened Posting
  import Protocol
  import Idempotency
  import BalanceCache

  /******* A create that the service accepts and the trigger refuses *******/

  /** Two debits and two credits of the largest storable amount, in USD. */
  const HUGE := Payload("USD", "huge", 0, [
    EntryIn(0, Debit, BIGINT_MAX, "USD"),
    EntryIn(0, Debit, BIGINT_MAX, "USD"),
    EntryIn(1, Credit, BIGINT_MAX, "USD"),
    EntryIn(1, Credit, BIGINT_MAX, "USD")])

  const TWO_ACCOUNTS := [Account(0, "USD", true), Account(1, "USD", true)]

  lemma {:induction false} SumOfFour(s: seq<EntryIn>, f: EntryIn -> int)
    requires |s| == 4
    ensures Sum(s, f) == f(s[0]) + f(s[1]) + f(s[2]) + f(s[3])
  {
    assert s == [] + [s[0]] + [s[1]] + [s[2]] + [s[3]];
    SumSnoc([], s[0], f);
    SumSnoc([] + [s[0]], s[1], f);
    SumSnoc([] + [s[0]] + [s[1]], s[2], f);
    SumSnoc([] + [s[0]] + [s[1]] + [s[2]], s[3], f);
  }

  lemma {:induction false} HugeIsPostable()
    ensures IsPayload(HUGE) && Postable(TWO_ACCOUNTS, HUGE.entries)
    ensures Sum(HUGE.entries, DebitIn) == 2 * BIGINT_MAX
  {
    SumOfFour(HUGE.entries, DebitIn);
    SumOfFour(HUGE.entries, CreditIn);
    assert TWO_ACCOUNTS[0] == Account(0, "USD", true) && TWO_ACCOUNTS[1] == Account(1, "USD", true);
    assert HUGE.entries[0].direction == Debit && HUGE.entries[2].direction == Credit;
    forall i | 0 <= i < |HUGE.entries|
      ensures HasActiveAccount(TWO_ACCOUNTS, HUGE.entries[i].account, HUGE.entries[i].currency)
    {
      assert TWO_ACCOUNTS[HUGE.entries[i].account]
          == Account(HUGE.entries[i].account, HUGE.entries[i].currency, true);
    }
  }

  /** A payload the service promises to post, whose total does not fit a BIGINT. */
  lemma {:induction false} AcceptableMayOverflow(t: Tables)
    requires t.accounts == TWO_ACCOUNTS
    ensures IsPayload(HUGE) && Acceptable(t, HUGE) && Sum(HUGE.entries, DebitIn) > BIGINT_MAX
  {
    HugeIsPostable();
    Fx.UsdIdentity(BIGINT_MAX);
    Fx.StoredIsExact(BIGINT_MAX, Fx.Rate(1, 0));
  }

  lemma {:induction false} SessionsSnoc(events: seq<Protocol.Event>, ev: Protocol.Event)
    ensures Protocol.Run(events + [ev]) == Protocol.Step(Protocol.Run(events), ev)
  {
    assert (events + [ev])[..|events|] == events;
  }

  const ACCOUNTS_ADDED := [Protocol.AddAccount(TWO_ACCOUNTS[0])] + [Protocol.AddAccount(TWO_ACCOUNTS[1])]

  lemma {:induction false} TwoAccountsAdded()
    ensures Protocol.Run(ACCOUNTS_ADDED) == Protocol.INIT.(tables := Tables(TWO_ACCOUNTS, [], [], [], []))
  {
    SessionsSnoc([], Protocol.AddAccount(TWO_ACCOUNTS[0]));
    SessionsSnoc([Protocol.AddAccount(TWO_ACCOUNTS[0])], Protocol.AddAccount(TWO_ACCOUNTS[1]));
    assert [] + [Protocol.AddAccount(TWO_ACCOUNTS[0])] == [Protocol.AddAccount(TWO_ACCOUNTS[0])];
    assert [TWO_ACCOUNTS[0]] + [TWO_ACCOUNTS[1]] == TWO_ACCOUNTS;
  }

  /** The service builds the transaction, and the trigger refuses it. */
  lemma {:induction false} HugeIsRefused(t: Tables, id: Uuid, now: Instant)
    requires t.accounts == TWO_ACCOUNTS && IsPayload(HUGE)
    ensures CheckEntries(t.accounts, HUGE.entries).None?
    ensures ResolveUsdRate(t.currencies, t.rates, HUGE.currencyCode, HUGE.date) == Ok(Fx.Rate(1, 0))
    ensures var built := BuildTransaction(HUGE, Fx.Rate(1, 0), id, now);
            built.Ok? && !TriggerPasses(built.value.entries)
  {
    AcceptableMayOverflow(t);
    CheckEntriesExactly(t.accounts, HUGE.entries);
    CheckedIsKnown(t.accounts, HUGE.entries);
    BuildExactly(HUGE, Fx.Rate(1, 0), id, now);
    BuiltIsSound(t.accounts, HUGE, Fx.Rate(1, 0), id, now);
  }

  lemma {:induction false} Checks(st: Protocol.State, p: Protocol.ValidPayload) returns (next: Protocol.State)
    requires 0 !in st.sessions && CheckEntries(st.tables.accounts, p.entries).None?
    ensures next == Protocol.Step(st, Protocol.CreateCheck(0, p, 0))
    ensures next == st.(sessions := st.sessions[0 := Protocol.Checked(p, 0)])
  {
    next := Protocol.Step(st, Protocol.CreateCheck(0, p, 0));
  }

  lemma {:induction false} Builds(st: Protocol.State, p: Protocol.ValidPayload, rate: Fx.Rate, tx: Transaction)
    returns (next: Protocol.State)
    requires 0 in st.sessions && st.sessions[0] == Protocol.Checked(p, 0) && 0 !in st.issued
    requires ResolveUsdRate(st.tables.currencies, st.tables.rates, p.currencyCode, p.date) == Ok(rate)
    requires BuildTransaction(p, rate, 0, 0) == Ok(tx)
    ensures next == Protocol.Step(st, Protocol.CreateBuild(0, 0, 0))
    ensures 0 in next.sessions && next.sessions[0] == Protocol.Built(tx, 0)
  {
    next := Protocol.Step(st, Protocol.CreateBuild(0, 0, 0));
  }

  lemma {:induction false} RollsBack(st: Protocol.State, tx: Transaction)
    requires 0 in st.sessions && st.sessions[0] == Protocol.Built(tx, 0) && !TriggerPasses(tx.entries)
    ensures var next := Protocol.Step(st, Protocol.Commit(0));
            0 in next.sessions && next.sessions[0] == Protocol.Finished(Protocol.RolledBack)
  {
  }

  /** A run in which the service builds an acceptable transaction and the commit rolls it back. */
  lemma {:induction false} TriggerRefusesAcceptable() returns (events: seq<Protocol.Event>)
    ensures |events| > 0 && events[|events| - 1] == Protocol.Commit(0)
    ensures var before := Protocol.Run(events[..|events| - 1]); 0 in before.sessions && before.sessions[0].Built?
    ensures 0 in Protocol.Run(events).sessions
    ensures Protocol.Run(events).sessions[0] == Protocol.Finished(Protocol.RolledBack)
  {
    HugeIsPostable();
    TwoAccountsAdded();
    var st := Protocol.Run(ACCOUNTS_ADDED);
    HugeIsRefused(st.tables, 0, 0);
    var tx := BuildTransaction(HUGE, Fx.Rate(1, 0), 0, 0).value;
    var checked := Checks(st, HUGE);
    var built := Builds(checked, HUGE, Fx.Rate(1, 0), tx);
    RollsBack(built, tx);
    events := ACCOUNTS_ADDED + [Protocol.CreateCheck(0, HUGE, 0)];
    SessionsSnoc(ACCOUNTS_ADDED, Protocol.CreateCheck(0, HUGE, 0));
    SessionsSnoc(events, Protocol.CreateBuild(0, 0, 0));
    events := events + [Protocol.CreateBuild(0, 0, 0)];
    SessionsSnoc(events, Protocol.Commit(0));
    assert (events + [Protocol.Commit(0)])[..|events|] == events;
    events := events + [Protocol.Commit(0)];
  }

  /******* Two transactions under one key *******/

  const OWNED := [Idempotency.Arrive(0, Some(7), 5)] + [Idempotency.Claim(0)]

  /** A run after which an exception in request 0 comes after its commit; then a retry commits a second time. */
  lemma {:induction false} KeyPostsTwice(body: Idempotency.Body, again: Idempotency.Body)
    ensures var late := OWNED + [Idempotency.Commit(0, body)];
            var retried := late + [Idempotency.Raise(0)] + [Idempotency.Arrive(1, Some(7), 5)] + [Idempotency.Claim(1)]
                           + [Idempotency.Commit(1, again)];
            && Idempotency.Timely(late) && Idempotency.RaisesLate(Idempotency.Run(late), Idempotency.Raise(0), 7)
            && Idempotency.Timely(retried) && Idempotency.CommitsSinceExpiry(retried, 7) >= 2
  {
    var late := OWNED + [Idempotency.Commit(0, body)];
    assert [] + [Idempotency.Arrive(0, Some(7), 5)] == [Idempotency.Arrive(0, Some(7), 5)];
    Idempotency.Snoc([], Idempotency.Arrive(0, Some(7), 5), 7);
    Idempotency.Snoc([Idempotency.Arrive(0, Some(7), 5)], Idempotency.Claim(0), 7);
    Idempotency.Snoc(OWNED, Idempotency.Commit(0, body), 7);
    Idempotency.LateRaiseAdmitsDuplicate(late, 0, 1, 7, 5, again);
  }

  /******* A stale balance that nothing will invalidate *******/

  const KEY := BalanceCache.Key(0, 1)

  /** One hundred from account 1 to account 0. */
  const TRANSFER := Transaction(0, "transfer", 1, Posted, Some(0), None,
                                [Entry(0, Debit, 100, "USD", 100), Entry(1, Credit, 100, "USD", 100)])

  lemma {:induction false} TransferAdds()
    ensures Effect(TRANSFER, 0, 1) == 100 && 0 in Accounts(TRANSFER.entries)
  {
    assert TRANSFER.entries == [TRANSFER.entries[0]] + [TRANSFER.entries[1]];
    SumSnoc([], TRANSFER.entries[0], SignedFor(0));
    SumSnoc([TRANSFER.entries[0]], TRANSFER.entries[1], SignedFor(0));
    assert [] + [TRANSFER.entries[0]] == [TRANSFER.entries[0]];
    assert TRANSFER.entries[0] in TRANSFER.entries;
  }

  lemma {:induction false} AccountAdded() returns (events: seq<BalanceCache.Event>)
    ensures var st := BalanceCache.Run(events);
            st == BalanceCache.INIT.(accounts := map[0 := "USD"], clock := 1)
  {
    events := [BalanceCache.AddAccount(0, "USD")];
    BalanceCache.Snoc([], BalanceCache.AddAccount(0, "USD"));
    assert [] + events == events;
  }

  lemma {:induction false} HitIsOff(tx: Transaction, key: BalanceCache.Key) returns (events: seq<BalanceCache.Event>)
    requires tx.status == Posted && key.account == 0 && 0 in Accounts(tx.entries)
    ensures var st := BalanceCache.Run(events);
            && BalanceCache.Cached(st, key).Some? && |st.writers| == 1
            && key.account !in st.writers[0].todo && !st.writers[0].gaveUp
            && BalanceCache.Current(st, key)
               == BalanceCache.Cached(st, key).value.load.answer.balance + Effect(tx, key.account, key.asOf)
  {
    var added := AccountAdded();
    BalanceCache.LateSetLeavesStale(added, 0, key, {}, tx, 1);
    events := BalanceCache.WriteAll(BalanceCache.ReadFirst(added, 0, key), {}, tx, 0, key.account)
              + [BalanceCache.Set(0, 1, false)];
  }

  /** A run that leaves a cached balance one hundred too low, with its account invalidated. */
  lemma {:induction false} HitIsWrong() returns (events: seq<BalanceCache.Event>)
    ensures var st := BalanceCache.Run(events);
            && BalanceCache.Cached(st, KEY).Some? && |st.writers| == 1
            && KEY.account !in st.writers[0].todo && !st.writers[0].gaveUp
            && BalanceCache.Current(st, KEY) == BalanceCache.Cached(st, KEY).value.load.answer.balance + 100
  {
    TransferAdds();
    events := HitIsOff(TRANSFER, KEY);
  }
}
