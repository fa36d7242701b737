/** All balances of one currency sum to zero. */
module TrialBalance {
  import opened Prelude
  import opened Ledger
  import opened Posting

  /** An account's balance, for the accounts of one currency. */
  function BalanceIn(txs: seq<Transaction>, currency: string, asOf: Date): Account -> int {
    (a: Account) => if a.currency == currency then CalculateBalance(txs, a.id, asOf) else 0
  }

  function FoldIn(txs: seq<Transaction>, currency: string, asOf: Date): Account -> int {
    (a: Account) => if a.currency == currency then Balance(txs, a.id, asOf) else 0
  }

  function EffectIn(t: Transaction, currency: string, asOf: Date): Account -> int {
    (a: Account) => if a.currency == currency then Effect(t, a.id, asOf) else 0
  }

  function EntriesIn(entries: seq<Entry>, currency: string): Account -> int {
    (a: Account) => if a.currency == currency then Sum(entries, SignedFor(a.id)) else 0
  }

  function EntryIn(e: Entry, currency: string): Account -> int {
    (a: Account) => if a.currency == currency && a.id == e.account then Signed(e) else 0
  }

  function SignedIn(currency: string): Entry -> int {
    (e: Entry) => if e.currency == currency then Signed(e) else 0
  }

  /** One entry reaches exactly one account: its own. */
  lemma {:induction false} EntryReachesItsAccount(accounts: seq<Account>, e: Entry, currency: string)
    requires UniqueAccounts(accounts) && HasAccount(accounts, e.account, e.currency)
    ensures Sum(accounts, EntryIn(e, currency)) == SignedIn(currency)(e)
  {
    var k :| 0 <= k < |accounts| && accounts[k].id == e.account && accounts[k].currency == e.currency;
    SumRemove(accounts, k, EntryIn(e, currency));
    SumZero(accounts[..k] + accounts[k + 1..], EntryIn(e, currency));
  }

  lemma {:induction false} AccountsThenEntries(accounts: seq<Account>, entries: seq<Entry>, currency: string)
    requires UniqueAccounts(accounts) && InAccounts(accounts, entries)
    ensures Sum(accounts, EntriesIn(entries, currency)) == Sum(entries, SignedIn(currency))
  {
    if entries == [] {
      SumZero(accounts, EntriesIn([], currency));
    } else {
      var rest, last := entries[..|entries| - 1], entries[|entries| - 1];
      assert forall i | 0 <= i < |rest| :: rest[i] == entries[i];
      AccountsThenEntries(accounts, rest, currency);
      assert HasAccount(accounts, last.account, last.currency);
      EntryReachesItsAccount(accounts, last, currency);
      SumLinear(accounts, 1, EntriesIn(rest, currency), 1, EntryIn(last, currency), EntriesIn(entries, currency));
    }
  }

  lemma {:induction false} OneCurrencyNet(entries: seq<Entry>, currency: string)
    requires OneCurrencyOnly(entries) && Net(entries) == 0
    ensures Sum(entries, SignedIn(currency)) == 0
  {
    if entries != [] && entries[0].currency == currency {
      SumPointwise(entries, SignedIn(currency), entries, Signed);
    } else {
      SumZero(entries, SignedIn(currency));
    }
  }

  lemma {:induction false} EffectSumsToZero(accounts: seq<Account>, t: Transaction, currency: string, asOf: Date)
    requires UniqueAccounts(accounts) && SoundEntries(accounts, t.entries)
    ensures Sum(accounts, EffectIn(t, currency, asOf)) == 0
  {
    if t.date <= asOf && Counts(t.status) {
      SumPointwise(accounts, EffectIn(t, currency, asOf), accounts, EntriesIn(t.entries, currency));
      AccountsThenEntries(accounts, t.entries, currency);
      NetIsDifference(t.entries);
      OneCurrencyNet(t.entries, currency);
    } else {
      SumZero(accounts, EffectIn(t, currency, asOf));
    }
  }

  lemma {:induction false} FoldSumsToZero(accounts: seq<Account>, txs: seq<Transaction>, currency: string, asOf: Date)
    requires UniqueAccounts(accounts)
    requires forall i | 0 <= i < |txs| :: SoundEntries(accounts, txs[i].entries)
    ensures Sum(accounts, FoldIn(txs, currency, asOf)) == 0
  {
    if txs == [] {
      SumZero(accounts, FoldIn([], currency, asOf));
    } else {
      var rest, last := txs[..|txs| - 1], txs[|txs| - 1];
      assert forall i | 0 <= i < |rest| :: rest[i] == txs[i];
      FoldSumsToZero(accounts, rest, currency, asOf);
      EffectSumsToZero(accounts, last, currency, asOf);
      SumLinear(accounts, 1, FoldIn(rest, currency, asOf), 1, EffectIn(last, currency, asOf),
                FoldIn(txs, currency, asOf));
    }
  }

  /** The trial balance: over the accounts of any currency, as of any date, the balances cancel. */
  lemma {:induction false} BalancesSumToZero(accounts: seq<Account>, txs: seq<Transaction>, currency: string,
                                             asOf: Date)
    requires UniqueAccounts(accounts)
    requires forall i | 0 <= i < |txs| :: SoundEntries(accounts, txs[i].entries)
    ensures Sum(accounts, BalanceIn(txs, currency, asOf)) == 0
  {
    forall i | 0 <= i < |accounts|
      ensures BalanceIn(txs, currency, asOf)(accounts[i]) == FoldIn(txs, currency, asOf)(accounts[i])
    {
      QueryIsSignedFold(txs, accounts[i].id, asOf);
    }
    SumPointwise(accounts, BalanceIn(txs, currency, asOf), accounts, FoldIn(txs, currency, asOf));
    FoldSumsToZero(accounts, txs, currency, asOf);
  }
}
