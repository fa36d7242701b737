/** The ledger's rows, and the balance query over them. */
module Ledger {
  import opened Prelude

  type Uuid = nat
  type Date = int
  type Instant = int

  const BIGINT_MAX := 0x7fff_ffff_ffff_ffff

  datatype Direction = Debit | Credit {
    function Flip(): Direction {
      if Debit? then Credit else Debit
    }
  }

  datatype Status = Pending | Posted | Voided

  datatype Entry = Entry(account: Uuid, direction: Direction, amount: int, currency: string, usd: int)

  datatype Transaction = Transaction(
    id: Uuid,
    description: string,
    date: Date,
    status: Status,
    postedAt: Option<Instant>,
    reversalOf: Option<Uuid>,
    entries: seq<Entry>)

  datatype Account = Account(id: Uuid, currency: string, active: bool)

  /******* The balance query *******/

  /** A row of entries joined with its transaction. */
  datatype Row = Row(entry: Entry, date: Date, status: Status)

  function JoinOne(t: Transaction): seq<Row> {
    seq(|t.entries|, i requires 0 <= i < |t.entries| => Row(t.entries[i], t.date, t.status))
  }

  function Join(txs: seq<Transaction>): seq<Row> {
    if txs == [] then [] else Join(txs[..|txs| - 1]) + JoinOne(txs[|txs| - 1])
  }

  predicate Counts(status: Status) {
    status == Posted || status == Voided
  }

  predicate Selected(r: Row, account: Uuid, asOf: Date) {
    r.entry.account == account && r.date <= asOf && Counts(r.status)
  }

  function Where(rows: seq<Row>, account: Uuid, asOf: Date): seq<Row> {
    if rows == [] then []
    else
      var last := rows[|rows| - 1];
      Where(rows[..|rows| - 1], account, asOf) + if Selected(last, account, asOf) then [last] else []
  }

  function CaseAmount(direction: Direction): Row -> int {
    (r: Row) => if r.entry.direction == direction then r.entry.amount else 0
  }

  /** SQL's SUM is NULL over no rows. */
  function SqlSum(rows: seq<Row>, f: Row -> int): Option<int> {
    if rows == [] then None else Some(Sum(rows, f))
  }

  function Coalesce(o: Option<int>): int {
    if o.Some? then o.value else 0
  }

  /** The query of calculate_balance: two conditional sums, each coalesced to zero. */
  function CalculateBalance(txs: seq<Transaction>, account: Uuid, asOf: Date): int {
    var rows := Where(Join(txs), account, asOf);
    Coalesce(SqlSum(rows, CaseAmount(Debit))) - Coalesce(SqlSum(rows, CaseAmount(Credit)))
  }

  /******* Balances as signed folds *******/

  function Signed(e: Entry): int {
    if e.direction == Debit then e.amount else -e.amount
  }

  function SignedFor(account: Uuid): Entry -> int {
    (e: Entry) => if e.account == account then Signed(e) else 0
  }

  /** What one transaction adds to an account's balance as of a date. */
  function Effect(t: Transaction, account: Uuid, asOf: Date): int {
    if t.date <= asOf && Counts(t.status) then Sum(t.entries, SignedFor(account)) else 0
  }

  function EffectOn(account: Uuid, asOf: Date): Transaction -> int {
    (t: Transaction) => Effect(t, account, asOf)
  }

  function Balance(txs: seq<Transaction>, account: Uuid, asOf: Date): int {
    Sum(txs, EffectOn(account, asOf))
  }

  function Net(entries: seq<Entry>): int {
    Sum(entries, Signed)
  }

  function Accounts(entries: seq<Entry>): set<Uuid> {
    set e | e in entries :: e.account
  }

  function RowEffect(account: Uuid, asOf: Date): Row -> int {
    (r: Row) => if Selected(r, account, asOf) then Signed(r.entry) else 0
  }

  lemma {:induction false} WhereSums(rows: seq<Row>, account: Uuid, asOf: Date)
    ensures Sum(Where(rows, account, asOf), CaseAmount(Debit)) - Sum(Where(rows, account, asOf), CaseAmount(Credit))
         == Sum(rows, RowEffect(account, asOf))
  {
    if rows != [] {
      var rest, last := rows[..|rows| - 1], rows[|rows| - 1];
      WhereSums(rest, account, asOf);
      if Selected(last, account, asOf) {
        SumSnoc(Where(rest, account, asOf), last, CaseAmount(Debit));
        SumSnoc(Where(rest, account, asOf), last, CaseAmount(Credit));
      } else {
        assert Where(rows, account, asOf) == Where(rest, account, asOf);
      }
    }
  }

  lemma {:induction false} JoinOneEffect(t: Transaction, account: Uuid, asOf: Date)
    ensures Sum(JoinOne(t), RowEffect(account, asOf)) == Effect(t, account, asOf)
  {
    var rows := JoinOne(t);
    if t.date <= asOf && Counts(t.status) {
      SumPointwise(rows, RowEffect(account, asOf), t.entries, SignedFor(account));
    } else {
      SumZero(rows, RowEffect(account, asOf));
    }
  }

  lemma {:induction false} JoinEffect(txs: seq<Transaction>, account: Uuid, asOf: Date)
    ensures Sum(Join(txs), RowEffect(account, asOf)) == Balance(txs, account, asOf)
  {
    if txs != [] {
      var rest, last := txs[..|txs| - 1], txs[|txs| - 1];
      JoinEffect(rest, account, asOf);
      SumConcat(Join(rest), JoinOne(last), RowEffect(account, asOf));
      JoinOneEffect(last, account, asOf);
    }
  }

  /** The query's two CASE sums amount to one signed fold over the transactions. */
  lemma {:induction false} QueryIsSignedFold(txs: seq<Transaction>, account: Uuid, asOf: Date)
    ensures CalculateBalance(txs, account, asOf) == Balance(txs, account, asOf)
  {
    WhereSums(Join(txs), account, asOf);
    JoinEffect(txs, account, asOf);
  }

  /** Posting needs no locks: any two commit orders of the same transactions have the same balances. */
  lemma {:induction false} CommitOrderIrrelevant(txs: seq<Transaction>, txs': seq<Transaction>, account: Uuid,
                                                 asOf: Date)
    requires multiset(txs) == multiset(txs')
    ensures CalculateBalance(txs, account, asOf) == CalculateBalance(txs', account, asOf)
  {
    SumPermutation(txs, txs', EffectOn(account, asOf));
    QueryIsSignedFold(txs, account, asOf);
    QueryIsSignedFold(txs', account, asOf);
  }

  function Between(account: Uuid, after: Date, upTo: Date): Transaction -> int {
    (t: Transaction) => if after < t.date <= upTo && Counts(t.status) then Sum(t.entries, SignedFor(account)) else 0
  }

  /** The change of a balance from one date to a later one is the signed sum over the days between. */
  lemma {:induction false} BalancesTelescope(txs: seq<Transaction>, account: Uuid, d1: Date, d2: Date)
    requires d1 <= d2
    ensures CalculateBalance(txs, account, d2)
         == CalculateBalance(txs, account, d1) + Sum(txs, Between(account, d1, d2))
  {
    QueryIsSignedFold(txs, account, d1);
    QueryIsSignedFold(txs, account, d2);
    SumLinear(txs, 1, EffectOn(account, d1), 1, Between(account, d1, d2), EffectOn(account, d2));
  }

  lemma {:induction false} BalanceSnoc(txs: seq<Transaction>, t: Transaction, account: Uuid, asOf: Date)
    ensures Balance(txs + [t], account, asOf) == Balance(txs, account, asOf) + Effect(t, account, asOf)
  {
    SumSnoc(txs, t, EffectOn(account, asOf));
  }

  lemma {:induction false} SumForOtherAccount(entries: seq<Entry>, account: Uuid)
    requires account !in Accounts(entries)
    ensures Sum(entries, SignedFor(account)) == 0
  {
    forall i | 0 <= i < |entries| ensures SignedFor(account)(entries[i]) == 0 {
      assert entries[i].account in Accounts(entries);
    }
    SumZero(entries, SignedFor(account));
  }

  /** A transaction changes balances only of its own accounts, and only as of its date or later. */
  lemma {:induction false} EffectIsLocal(t: Transaction, account: Uuid, asOf: Date)
    requires account !in Accounts(t.entries) || asOf < t.date
    ensures Effect(t, account, asOf) == 0
  {
    if account !in Accounts(t.entries) {
      SumForOtherAccount(t.entries, account);
    }
  }
}
