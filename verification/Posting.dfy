/** What creating and voiding a transaction validate, compute and write. */
module Posting {
  import opened Prelude
  import opened Ledger
  import opened Fx
  import opened Rates

  /******* Requests *******/

  datatype EntryIn = EntryIn(account: Uuid, direction: Direction, amount: int, currency: string)

  datatype Payload = Payload(currencyCode: string, description: string, date: Date, entries: seq<EntryIn>)

  /** The shape the request schema enforces before the service sees a payload. */
  predicate IsPayload(p: Payload) {
    2 <= |p.entries| && forall i | 0 <= i < |p.entries| :: 0 < p.entries[i].amount
  }

  datatype PostError =
    | UnknownAccounts(ids: set<Uuid>)
    | MissingDirection
    | MixedCurrencies
    | CurrencyMismatch(entries: seq<EntryIn>)
    | Unbalanced(debit: int, credit: int)
    | Unresolved(reason: ResolveError)
    | ConversionOverflow
    | NumericOutOfRange

  /******* Tables *******/

  datatype Snapshot = Snapshot(
    id: Uuid,
    status: Status,
    description: Option<string>,
    date: Option<Date>,
    reversalOf: Option<Uuid>,
    reversalId: Option<Uuid>)

  datatype Action = Create | Void

  datatype AuditRow = AuditRow(user: Uuid, entity: Uuid, action: Action, before: Option<Snapshot>, after: Snapshot)

  datatype Tables = Tables(
    accounts: seq<Account>,
    currencies: seq<Currency>,
    rates: seq<ExchangeRate>,
    txs: seq<Transaction>,
    audit: seq<AuditRow>)

  /** The uncommitted writes of one session. */
  datatype WriteSet = WriteSet(marks: set<Uuid>, txs: seq<Transaction>, audit: seq<AuditRow>)

  const NO_WRITES := WriteSet({}, [], [])

  predicate UniqueAccounts(accounts: seq<Account>) {
    forall i, j | 0 <= i < j < |accounts| :: accounts[i].id != accounts[j].id
  }

  predicate UniqueIds(txs: seq<Transaction>) {
    forall i, j | 0 <= i < j < |txs| :: txs[i].id != txs[j].id
  }

  function Find(txs: seq<Transaction>, id: Uuid): (i: Option<nat>)
    ensures i.Some? ==> i.value < |txs| && txs[i.value].id == id
    ensures i.None? ==> forall k | 0 <= k < |txs| :: txs[k].id != id
  {
    if txs == [] then None
    else
      var last := |txs| - 1;
      if txs[last].id == id then Some(last)
      else
        assert forall k | 0 <= k < last :: txs[..last][k] == txs[k];
        Find(txs[..last], id)
  }

  /** UPDATE transactions SET status = VOIDED for the marked rows. */
  function Mark(txs: seq<Transaction>, marks: set<Uuid>): (r: seq<Transaction>)
    ensures |r| == |txs|
  {
    seq(|txs|, i requires 0 <= i < |txs| => if txs[i].id in marks then txs[i].(status := Voided) else txs[i])
  }

  function Publish(t: Tables, w: WriteSet): Tables {
    t.(txs := Mark(t.txs, w.marks) + w.txs, audit := t.audit + w.audit)
  }

  /******* The deferred trigger on one transaction's rows *******/

  function DebitAmount(e: Entry): int {
    if e.direction == Debit then e.amount else 0
  }

  function CreditAmount(e: Entry): int {
    if e.direction == Credit then e.amount else 0
  }

  function DebitTotal(entries: seq<Entry>): int {
    Sum(entries, DebitAmount)
  }

  function CreditTotal(entries: seq<Entry>): int {
    Sum(entries, CreditAmount)
  }

  /** The trigger's BIGINT variables must hold both sums, and the sums must agree. */
  predicate TriggerPasses(entries: seq<Entry>) {
    && DebitTotal(entries) <= BIGINT_MAX
    && CreditTotal(entries) <= BIGINT_MAX
    && DebitTotal(entries) == CreditTotal(entries)
  }

  /******* create_transaction *******/

  function FindActiveByIds(accounts: seq<Account>, ids: set<Uuid>): map<Uuid, string> {
    if accounts == [] then map[]
    else
      var earlier, last := FindActiveByIds(accounts[..|accounts| - 1], ids), accounts[|accounts| - 1];
      if last.id in ids && last.active then earlier[last.id := last.currency] else earlier
  }

  function Mismatched(entries: seq<EntryIn>, found: map<Uuid, string>): seq<EntryIn>
    requires forall i | 0 <= i < |entries| :: entries[i].account in found
  {
    if entries == [] then []
    else
      var last := entries[|entries| - 1];
      Mismatched(entries[..|entries| - 1], found) + if last.currency != found[last.account] then [last] else []
  }

  function DebitIn(e: EntryIn): int {
    if e.direction == Debit then e.amount else 0
  }

  function CreditIn(e: EntryIn): int {
    if e.direction == Credit then e.amount else 0
  }

  function AccountsIn(entries: seq<EntryIn>): set<Uuid> {
    set e | e in entries :: e.account
  }

  function DirectionsIn(entries: seq<EntryIn>): set<Direction> {
    set e | e in entries :: e.direction
  }

  function CurrenciesIn(entries: seq<EntryIn>): set<string> {
    set e | e in entries :: e.currency
  }

  lemma {:induction false} EntryAccounts(entries: seq<EntryIn>)
    ensures forall i | 0 <= i < |entries| :: entries[i].account in AccountsIn(entries)
  {
  }

  lemma {:induction false} NothingMissing<T>(s: set<T>, t: set<T>)
    ensures s - t == {} <==> s <= t
  {
    if s - t == {} {
      forall x | x in s ensures x in t {
        assert x !in s - t;
      }
    }
  }

  /** The checks made before anything is converted, in the order they are made. */
  function CheckEntries(accounts: seq<Account>, entries: seq<EntryIn>): Option<PostError> {
    var found := FindActiveByIds(accounts, AccountsIn(entries));
    var missing := AccountsIn(entries) - found.Keys;
    if missing != {} then Some(UnknownAccounts(missing))
    else if Debit !in DirectionsIn(entries) || Credit !in DirectionsIn(entries) then Some(MissingDirection)
    else if |CurrenciesIn(entries)| > 1 then Some(MixedCurrencies)
    else
      EntryAccounts(entries);
      NothingMissing(AccountsIn(entries), found.Keys);
      var mismatched := Mismatched(entries, found);
      if mismatched != [] then Some(CurrencyMismatch(mismatched))
      else
        var debit, credit := Sum(entries, DebitIn), Sum(entries, CreditIn);
        if debit != credit then Some(Unbalanced(debit, credit)) else None
  }

  predicate Convertible(p: Payload, rate: Rate)
    requires IsPayload(p)
  {
    forall i | 0 <= i < |p.entries| :: ConvertAmountUsd(p.entries[i].amount, rate).Ok?
  }

  function ConvertEntries(p: Payload, rate: Rate): (r: seq<Entry>)
    requires IsPayload(p) && Convertible(p, rate)
    ensures |r| == |p.entries|
  {
    seq(|p.entries|, i requires 0 <= i < |p.entries| =>
      var e := p.entries[i];
      Entry(e.account, e.direction, e.amount, e.currency, ConvertAmountUsd(e.amount, rate).value))
  }

  /** Both BIGINT columns of an entry can hold their values. */
  predicate Storable(e: Entry) {
    e.amount <= BIGINT_MAX && e.usd <= BIGINT_MAX
  }

  function BuildTransaction(p: Payload, rate: Rate, id: Uuid, now: Instant): Result<Transaction, PostError>
    requires IsPayload(p)
  {
    if !Convertible(p, rate) then Err(ConversionOverflow)
    else
      var entries := ConvertEntries(p, rate);
      if exists i | 0 <= i < |entries| :: !Storable(entries[i]) then Err(NumericOutOfRange)
      else Ok(Transaction(id, p.description, p.date, Posted, Some(now), None, entries))
  }

  function CreateTransaction(t: Tables, p: Payload, id: Uuid, now: Instant): Result<Transaction, PostError>
    requires IsPayload(p)
  {
    var failure := CheckEntries(t.accounts, p.entries);
    if failure.Some? then Err(failure.value)
    else
      var rate := ResolveUsdRate(t.currencies, t.rates, p.currencyCode, p.date);
      if rate.Err? then Err(Unresolved(rate.error)) else BuildTransaction(p, rate.value, id, now)
  }

  function CreateAudit(t: Transaction, user: Uuid): AuditRow {
    AuditRow(user, t.id, Create, None, Snapshot(t.id, t.status, Some(t.description), Some(t.date), None, None))
  }

  function CreateWrites(t: Transaction, user: Uuid): WriteSet {
    WriteSet({}, [t], [CreateAudit(t, user)])
  }

  /******* void_transaction *******/

  function FlipEntry(e: Entry): Entry {
    e.(direction := e.direction.Flip())
  }

  function FlipAll(entries: seq<Entry>): (r: seq<Entry>)
    ensures |r| == |entries|
  {
    seq(|entries|, i requires 0 <= i < |entries| => FlipEntry(entries[i]))
  }

  function Reversal(original: Transaction, id: Uuid, now: Instant): Transaction {
    Transaction(id, "Reversal of: " + original.description, original.date, Posted, Some(now), Some(original.id),
                FlipAll(original.entries))
  }

  /** The audit rows of a void; `original` is the row as it was read, before the status update. */
  function VoidAudit(original: Transaction, reversal: Transaction, user: Uuid): seq<AuditRow> {
    [ AuditRow(user, reversal.id, Create, None,
               Snapshot(reversal.id, reversal.status, Some(reversal.description), None, Some(original.id), None)),
      AuditRow(user, original.id, Void,
               Some(Snapshot(original.id, original.status, Some(original.description), Some(original.date), None,
                             None)),
               Snapshot(original.id, Voided, None, None, None, Some(reversal.id))) ]
  }

  function VoidWrites(original: Transaction, reversal: Transaction, user: Uuid): WriteSet {
    WriteSet({original.id}, [reversal], VoidAudit(original, reversal, user))
  }

  /******* What create_transaction accepts *******/

  predicate HasActiveAccount(accounts: seq<Account>, id: Uuid, currency: string) {
    exists i :: 0 <= i < |accounts| && accounts[i] == Account(id, currency, true)
  }

  predicate AllActive(accounts: seq<Account>, entries: seq<EntryIn>) {
    forall i | 0 <= i < |entries| :: HasActiveAccount(accounts, entries[i].account, entries[i].currency)
  }

  predicate HasDirection(entries: seq<EntryIn>, d: Direction) {
    exists i :: 0 <= i < |entries| && entries[i].direction == d
  }

  predicate SameCurrency(entries: seq<EntryIn>) {
    forall i, j | 0 <= i < j < |entries| :: entries[i].currency == entries[j].currency
  }

  predicate FitsBigint(e: EntryIn, rate: Rate)
    requires 0 < e.amount
  {
    e.amount <= BIGINT_MAX && Usd(e.amount, rate) <= BIGINT_MAX
  }

  predicate Postable(accounts: seq<Account>, entries: seq<EntryIn>) {
    && AllActive(accounts, entries)
    && HasDirection(entries, Debit)
    && HasDirection(entries, Credit)
    && SameCurrency(entries)
    && Sum(entries, DebitIn) == Sum(entries, CreditIn)
  }

  /** The payloads the service promises to post. */
  predicate Acceptable(t: Tables, p: Payload)
    requires IsPayload(p)
  {
    var rate := ResolveUsdRate(t.currencies, t.rates, p.currencyCode, p.date);
    && Postable(t.accounts, p.entries)
    && rate.Ok?
    && forall i | 0 <= i < |p.entries| :: FitsBigint(p.entries[i], rate.value)
  }

  /** stored keeps the entry given, with the exact conversion of its own amount. */
  predicate StoredAs(given: EntryIn, stored: Entry, rate: Rate)
    requires 0 < given.amount
  {
    stored == Entry(given.account, given.direction, given.amount, given.currency, Usd(given.amount, rate))
  }

  lemma {:induction false} ActiveById(accounts: seq<Account>, ids: set<Uuid>, id: Uuid)
    requires UniqueAccounts(accounts)
    ensures id in FindActiveByIds(accounts, ids) <==> id in ids && exists c :: HasActiveAccount(accounts, id, c)
    ensures forall c :: (id in ids && HasActiveAccount(accounts, id, c)
                         <==> id in FindActiveByIds(accounts, ids) && FindActiveByIds(accounts, ids)[id] == c)
  {
    if accounts != [] {
      var rest, last := accounts[..|accounts| - 1], accounts[|accounts| - 1];
      assert forall i | 0 <= i < |rest| :: rest[i] == accounts[i];
      ActiveById(rest, ids, id);
      forall c | HasActiveAccount(accounts, id, c) && last.id != id ensures HasActiveAccount(rest, id, c) {
        var i :| 0 <= i < |accounts| && accounts[i] == Account(id, c, true);
        assert rest[i] == accounts[i];
      }
      forall c | HasActiveAccount(rest, id, c) ensures HasActiveAccount(accounts, id, c) && last.id != id {
        var i :| 0 <= i < |rest| && rest[i] == Account(id, c, true);
        assert accounts[i] == rest[i];
      }
      if last.id == id && last.active {
        assert HasActiveAccount(accounts, id, last.currency);
      }
    }
  }

  lemma {:induction false} NoneMismatched(entries: seq<EntryIn>, found: map<Uuid, string>)
    requires forall i | 0 <= i < |entries| :: entries[i].account in found
    ensures Mismatched(entries, found) == []
       <==> forall i | 0 <= i < |entries| :: entries[i].currency == found[entries[i].account]
  {
    if entries != [] {
      var rest := entries[..|entries| - 1];
      assert forall i | 0 <= i < |rest| :: rest[i] == entries[i];
      NoneMismatched(rest, found);
    }
  }

  lemma {:induction false} AtMostOne<T>(s: set<T>)
    ensures |s| <= 1 <==> forall x, y | x in s && y in s :: x == y
  {
    if s != {} {
      var x :| x in s;
      assert |s| == |s - {x}| + 1;
      if |s| > 1 {
        assert s - {x} != {};
        var y :| y in s - {x};
        assert x != y;
      } else {
        assert s - {x} == {};
        assert forall y | y in s :: y == x;
      }
    }
  }

  lemma {:induction false} OneCurrency(entries: seq<EntryIn>)
    ensures |CurrenciesIn(entries)| <= 1 <==> SameCurrency(entries)
  {
    AtMostOne(CurrenciesIn(entries));
    assert forall i | 0 <= i < |entries| :: entries[i].currency in CurrenciesIn(entries);
    forall x, y | x in CurrenciesIn(entries) && y in CurrenciesIn(entries) && SameCurrency(entries)
      ensures x == y
    {
      var i :| 0 <= i < |entries| && entries[i].currency == x;
      var j :| 0 <= j < |entries| && entries[j].currency == y;
    }
  }

  lemma {:induction false} BothDirections(entries: seq<EntryIn>, d: Direction)
    ensures d in DirectionsIn(entries) <==> HasDirection(entries, d)
  {
    if HasDirection(entries, d) {
      var i :| 0 <= i < |entries| && entries[i].direction == d;
      assert entries[i] in entries;
    }
  }

  lemma {:induction false} AccountsCheck(accounts: seq<Account>, entries: seq<EntryIn>)
    requires UniqueAccounts(accounts)
    requires AccountsIn(entries) <= FindActiveByIds(accounts, AccountsIn(entries)).Keys
    ensures (forall i | 0 <= i < |entries| :: entries[i].account in FindActiveByIds(accounts, AccountsIn(entries)))
    ensures Mismatched(entries, FindActiveByIds(accounts, AccountsIn(entries))) == [] <==> AllActive(accounts, entries)
  {
    var found := FindActiveByIds(accounts, AccountsIn(entries));
    EntryAccounts(entries);
    NoneMismatched(entries, found);
    forall i | 0 <= i < |entries|
      ensures HasActiveAccount(accounts, entries[i].account, entries[i].currency)
         <==> found[entries[i].account] == entries[i].currency
    {
      ActiveById(accounts, AccountsIn(entries), entries[i].account);
    }
  }

  lemma {:induction false} ActiveAreFound(accounts: seq<Account>, entries: seq<EntryIn>)
    requires UniqueAccounts(accounts) && AllActive(accounts, entries)
    ensures AccountsIn(entries) <= FindActiveByIds(accounts, AccountsIn(entries)).Keys
  {
    forall id | id in AccountsIn(entries) ensures id in FindActiveByIds(accounts, AccountsIn(entries)) {
      var i :| 0 <= i < |entries| && entries[i].account == id;
      assert HasActiveAccount(accounts, id, entries[i].currency);
      ActiveById(accounts, AccountsIn(entries), id);
    }
  }

  lemma {:induction false} CheckEntriesExactly(accounts: seq<Account>, entries: seq<EntryIn>)
    requires UniqueAccounts(accounts)
    ensures CheckEntries(accounts, entries).None? <==> Postable(accounts, entries)
  {
    NothingMissing(AccountsIn(entries), FindActiveByIds(accounts, AccountsIn(entries)).Keys);
    if AccountsIn(entries) - FindActiveByIds(accounts, AccountsIn(entries)).Keys == {} {
      AccountsCheck(accounts, entries);
    } else if AllActive(accounts, entries) {
      ActiveAreFound(accounts, entries);
    }
    BothDirections(entries, Debit);
    BothDirections(entries, Credit);
    OneCurrency(entries);
  }

  lemma {:induction false} BuildExactly(p: Payload, rate: Rate, id: Uuid, now: Instant)
    requires IsPayload(p) && IsRate(rate)
    ensures var r := BuildTransaction(p, rate, id, now);
            && (r.Ok? <==> forall i | 0 <= i < |p.entries| :: FitsBigint(p.entries[i], rate))
            && (r.Ok? ==> |r.value.entries| == |p.entries| && forall i | 0 <= i < |p.entries| ::
                  StoredAs(p.entries[i], r.value.entries[i], rate))
  {
    forall i | 0 <= i < |p.entries| {
      StoredIsExact(p.entries[i].amount, rate);
    }
    if Convertible(p, rate) {
      var entries := ConvertEntries(p, rate);
      forall i | 0 <= i < |p.entries|
        ensures Storable(entries[i]) <==> FitsBigint(p.entries[i], rate)
      {
        StoredIsExact(p.entries[i].amount, rate);
      }
    }
  }

  /******* Which failure is told *******/

  predicate IsActive(accounts: seq<Account>, id: Uuid) {
    exists i :: 0 <= i < |accounts| && accounts[i].id == id && accounts[i].active
  }

  /** The accounts that the entries name and that do not exist or are inactive. */
  function Inactive(accounts: seq<Account>, entries: seq<EntryIn>): set<Uuid> {
    set e | e in entries && !IsActive(accounts, e.account) :: e.account
  }

  lemma {:induction false} FoundAreActive(accounts: seq<Account>, entries: seq<EntryIn>)
    requires UniqueAccounts(accounts)
    ensures AccountsIn(entries) - FindActiveByIds(accounts, AccountsIn(entries)).Keys == Inactive(accounts, entries)
  {
    var found := FindActiveByIds(accounts, AccountsIn(entries));
    forall e | e in entries ensures e.account in found <==> IsActive(accounts, e.account) {
      ActiveById(accounts, AccountsIn(entries), e.account);
      assert e.account in AccountsIn(entries);
      if i :| 0 <= i < |accounts| && accounts[i].id == e.account && accounts[i].active {
        assert HasActiveAccount(accounts, e.account, accounts[i].currency);
      }
    }
  }

  lemma {:induction false} MismatchedAre(entries: seq<EntryIn>, found: map<Uuid, string>)
    requires forall i | 0 <= i < |entries| :: entries[i].account in found
    ensures forall e :: e in Mismatched(entries, found) <==> e in entries && e.currency != found[e.account]
  {
    if entries != [] {
      var rest := entries[..|entries| - 1];
      assert forall i | 0 <= i < |rest| :: rest[i] == entries[i];
      MismatchedAre(rest, found);
      assert entries == rest + [entries[|entries| - 1]];
    }
  }

  /** The entry is not in its account's currency. */
  predicate IsMismatched(accounts: seq<Account>, e: EntryIn) {
    !HasActiveAccount(accounts, e.account, e.currency)
  }

  lemma {:induction false} MismatchesFound(accounts: seq<Account>, entries: seq<EntryIn>)
    requires UniqueAccounts(accounts)
    requires AccountsIn(entries) <= FindActiveByIds(accounts, AccountsIn(entries)).Keys
    requires forall i | 0 <= i < |entries| :: entries[i].account in FindActiveByIds(accounts, AccountsIn(entries))
    ensures forall e :: e in Mismatched(entries, FindActiveByIds(accounts, AccountsIn(entries)))
                   <==> e in entries && IsMismatched(accounts, e)
  {
    var found := FindActiveByIds(accounts, AccountsIn(entries));
    MismatchedAre(entries, found);
    forall e | e in entries ensures e.currency != found[e.account] <==> IsMismatched(accounts, e) {
      ActiveById(accounts, AccountsIn(entries), e.account);
    }
  }

  lemma {:induction false} NothingWrong<T>(s: seq<T>)
    ensures s == [] <==> forall x | x in s :: false
  {
    if s != [] {
      assert s[0] in s;
    }
  }

  /** What a failure says of the entries, which pass every check made before it. */
  predicate IsTold(accounts: seq<Account>, entries: seq<EntryIn>, failure: PostError) {
    var known := Inactive(accounts, entries) == {};
    var sided := HasDirection(entries, Debit) && HasDirection(entries, Credit);
    var matching := forall e | e in entries :: !IsMismatched(accounts, e);
    match failure
    case UnknownAccounts(ids) => !known && ids == Inactive(accounts, entries)
    case MissingDirection => known && !sided
    case MixedCurrencies => known && sided && !SameCurrency(entries)
    case CurrencyMismatch(wrong) =>
      && known && sided && SameCurrency(entries) && wrong != []
      && (forall e | e in wrong :: e in entries && IsMismatched(accounts, e))
      && (forall e | e in entries && IsMismatched(accounts, e) :: e in wrong)
    case Unbalanced(debit, credit) =>
      && known && sided && SameCurrency(entries) && matching
      && debit == Sum(entries, DebitIn) && credit == Sum(entries, CreditIn) && debit != credit
    case _ => false
  }

  /** Of the checks on the entries the first one that fails is told, with what it found. */
  lemma {:induction false} FirstFailureIsTold(accounts: seq<Account>, entries: seq<EntryIn>)
    requires UniqueAccounts(accounts) && CheckEntries(accounts, entries).Some?
    ensures IsTold(accounts, entries, CheckEntries(accounts, entries).value)
  {
    var found := FindActiveByIds(accounts, AccountsIn(entries));
    FoundAreActive(accounts, entries);
    NothingMissing(AccountsIn(entries), found.Keys);
    BothDirections(entries, Debit);
    BothDirections(entries, Credit);
    OneCurrency(entries);
    EntryAccounts(entries);
    if AccountsIn(entries) <= found.Keys {
      MismatchesFound(accounts, entries);
      NothingWrong(Mismatched(entries, found));
    }
  }

  /** A build that fails converts some entry to more digits than the context has, or has one out of range. */
  lemma {:induction false} BuildFailsExactly(p: Payload, rate: Rate, id: Uuid, now: Instant)
    requires IsPayload(p) && IsRate(rate)
    ensures var r := BuildTransaction(p, rate, id, now);
            && (r == Err(ConversionOverflow)
                <==> exists i :: 0 <= i < |p.entries| && ConvertAmountUsd(p.entries[i].amount, rate).Err?)
            && (r == Err(NumericOutOfRange)
                <==> (forall i | 0 <= i < |p.entries| :: ConvertAmountUsd(p.entries[i].amount, rate).Ok?)
                     && exists i :: 0 <= i < |p.entries| && !FitsBigint(p.entries[i], rate))
            && (r.Err? ==> r.error.ConversionOverflow? || r.error.NumericOutOfRange?)
  {
    forall i | 0 <= i < |p.entries| {
      StoredIsExact(p.entries[i].amount, rate);
    }
    if Convertible(p, rate) {
      var entries := ConvertEntries(p, rate);
      forall i | 0 <= i < |p.entries|
        ensures Storable(entries[i]) <==> FitsBigint(p.entries[i], rate)
      {
        StoredIsExact(p.entries[i].amount, rate);
      }
    }
  }

  /** What is built at a rate, once the checks have passed. */
  lemma {:induction false} CreateIsBuild(t: Tables, p: Payload, id: Uuid, now: Instant)
    requires IsPayload(p) && CheckEntries(t.accounts, p.entries).None?
    ensures var rate := ResolveUsdRate(t.currencies, t.rates, p.currencyCode, p.date);
            CreateTransaction(t, p, id, now)
              == if rate.Err? then Err(Unresolved(rate.error)) else BuildTransaction(p, rate.value, id, now)
  {
  }

  lemma {:induction false} BuildIsAccepted(t: Tables, p: Payload, id: Uuid, now: Instant)
    requires IsPayload(p) && Postable(t.accounts, p.entries)
    requires var rate := ResolveUsdRate(t.currencies, t.rates, p.currencyCode, p.date); rate.Ok? && IsRate(rate.value)
    ensures var rate := ResolveUsdRate(t.currencies, t.rates, p.currencyCode, p.date).value;
            var r := BuildTransaction(p, rate, id, now);
            && (r.Ok? <==> Acceptable(t, p))
            && (r.Ok? ==>
                  && r.value == Transaction(id, p.description, p.date, Posted, Some(now), None, r.value.entries)
                  && |r.value.entries| == |p.entries|
                  && forall i | 0 <= i < |p.entries| :: StoredAs(p.entries[i], r.value.entries[i], rate))
  {
    BuildExactly(p, ResolveUsdRate(t.currencies, t.rates, p.currencyCode, p.date).value, id, now);
  }

  /**
   * create_transaction posts exactly the acceptable payloads, and stores each entry of the payload,
   * in order, with its own exact conversion.
   */
  lemma {:induction false} CreateAcceptsExactly(t: Tables, p: Payload, id: Uuid, now: Instant)
    requires IsPayload(p) && UniqueAccounts(t.accounts) && IsRateTable(t.rates)
    ensures var r := CreateTransaction(t, p, id, now);
            && (r.Ok? <==> Acceptable(t, p))
            && (r.Ok? ==>
                  && r.value == Transaction(id, p.description, p.date, Posted, Some(now), None, r.value.entries)
                  && |r.value.entries| == |p.entries|
                  && forall i | 0 <= i < |p.entries| :: StoredAs(p.entries[i], r.value.entries[i],
                       ResolveUsdRate(t.currencies, t.rates, p.currencyCode, p.date).value))
  {
    CheckEntriesExactly(t.accounts, p.entries);
    ResolvedIsRate(t.currencies, t.rates, p.currencyCode, p.date);
    if CheckEntries(t.accounts, p.entries).None? {
      CreateIsBuild(t, p, id, now);
      if ResolveUsdRate(t.currencies, t.rates, p.currencyCode, p.date).Ok? {
        BuildIsAccepted(t, p, id, now);
      }
    }
  }

  /** Every stored USD value is the amount at the rate, rounded to the nearest cent with ties up. */
  predicate AreNearest(given: seq<EntryIn>, stored: seq<Entry>, rate: Rate) {
    && |stored| == |given|
    && forall i | 0 <= i < |given| :: 0 < given[i].amount
         && Nearest(stored[i].usd, given[i].amount * rate.coefficient, Unit(rate))
  }

  lemma {:induction false} StoredAreNearest(given: seq<EntryIn>, stored: seq<Entry>, rate: Rate)
    requires |stored| == |given| && forall i | 0 <= i < |given| :: 0 < given[i].amount
    requires forall i | 0 <= i < |given| :: StoredAs(given[i], stored[i], rate)
    ensures AreNearest(given, stored, rate)
  {
    forall i | 0 <= i < |given| ensures Nearest(stored[i].usd, given[i].amount * rate.coefficient, Unit(rate)) {
      HalfUpIsNearest(given[i].amount * rate.coefficient, Unit(rate));
    }
  }

  /**
   * A payload in the base currency is stored with its own amounts in USD, and any other with its amounts at
   * the latest rate, on or before its date, from the currency of its code to USD.
   */
  lemma {:induction false} CreateConvertsAtLatestRate(t: Tables, p: Payload, id: Uuid, now: Instant)
    requires IsPayload(p) && UniqueAccounts(t.accounts) && IsRateTable(t.rates)
    requires CreateTransaction(t, p, id, now).Ok?
    ensures var stored := CreateTransaction(t, p, id, now).value.entries;
            if p.currencyCode == "USD" then
              |stored| == |p.entries| && forall i | 0 <= i < |stored| :: stored[i].usd == p.entries[i].amount
            else
              exists rate :: ResolvesTo(t.currencies, t.rates, p.currencyCode, p.date, rate)
                             && AreNearest(p.entries, stored, rate)
  {
    CreateAcceptsExactly(t, p, id, now);
    var stored := CreateTransaction(t, p, id, now).value.entries;
    var rate := ResolveUsdRate(t.currencies, t.rates, p.currencyCode, p.date).value;
    if p.currencyCode == "USD" {
      forall i | 0 <= i < |stored| ensures stored[i].usd == p.entries[i].amount {
        assert Usd(p.entries[i].amount, Rate(1, 0)) == p.entries[i].amount;
      }
    } else {
      ResolvedExactly(t.currencies, t.rates, p.currencyCode, p.date, rate);
      StoredAreNearest(p.entries, stored, rate);
    }
  }

  /******* Rows as stored *******/

  predicate AllAt(entries: seq<Entry>, rate: Rate) {
    IsRate(rate) && forall i | 0 <= i < |entries| :: ConvertedAt(entries[i], rate)
  }

  /** Every USD value is the exact half-up conversion of its amount, at one rate. */
  ghost predicate Converted(entries: seq<Entry>) {
    exists rate :: AllAt(entries, rate)
  }

  predicate HasAccount(accounts: seq<Account>, id: Uuid, currency: string) {
    exists i :: 0 <= i < |accounts| && accounts[i].id == id && accounts[i].currency == currency
  }

  predicate InAccounts(accounts: seq<Account>, entries: seq<Entry>) {
    forall i | 0 <= i < |entries| :: HasAccount(accounts, entries[i].account, entries[i].currency)
  }

  predicate OneCurrencyOnly(entries: seq<Entry>) {
    forall i, j | 0 <= i < j < |entries| :: entries[i].currency == entries[j].currency
  }

  predicate HasSide(entries: seq<Entry>, d: Direction) {
    exists i :: 0 <= i < |entries| && entries[i].direction == d
  }

  predicate AmountsStorable(entries: seq<Entry>) {
    forall i | 0 <= i < |entries| :: 0 < entries[i].amount && Storable(entries[i])
  }

  /** What every stored transaction's entries satisfy. */
  ghost predicate SoundEntries(accounts: seq<Account>, entries: seq<Entry>) {
    && 2 <= |entries|
    && AmountsStorable(entries)
    && InAccounts(accounts, entries)
    && OneCurrencyOnly(entries)
    && HasSide(entries, Debit)
    && HasSide(entries, Credit)
    && Converted(entries)
    && TriggerPasses(entries)
  }

  lemma {:induction false} NetIsDifference(entries: seq<Entry>)
    ensures Net(entries) == DebitTotal(entries) - CreditTotal(entries)
  {
    SumLinear(entries, 1, DebitAmount, -1, CreditAmount, Signed);
  }

  lemma {:induction false} StoredTotals(given: seq<EntryIn>, stored: seq<Entry>, rate: Rate)
    requires |stored| == |given|
    requires forall i | 0 <= i < |given| :: 0 < given[i].amount && StoredAs(given[i], stored[i], rate)
    ensures DebitTotal(stored) == Sum(given, DebitIn)
    ensures CreditTotal(stored) == Sum(given, CreditIn)
  {
    SumPointwise(stored, DebitAmount, given, DebitIn);
    SumPointwise(stored, CreditAmount, given, CreditIn);
  }

  /** What a payload's entries keep satisfying after the checks, even if an account is then deactivated. */
  predicate Known(accounts: seq<Account>, entries: seq<EntryIn>) {
    && (forall i | 0 <= i < |entries| :: HasAccount(accounts, entries[i].account, entries[i].currency))
    && HasDirection(entries, Debit)
    && HasDirection(entries, Credit)
    && SameCurrency(entries)
    && Sum(entries, DebitIn) == Sum(entries, CreditIn)
  }

  lemma {:induction false} PostableIsKnown(accounts: seq<Account>, entries: seq<EntryIn>)
    requires Postable(accounts, entries)
    ensures Known(accounts, entries)
  {
    forall i | 0 <= i < |entries| ensures HasAccount(accounts, entries[i].account, entries[i].currency) {
      assert HasActiveAccount(accounts, entries[i].account, entries[i].currency);
    }
  }

  lemma {:induction false} StoredShape(accounts: seq<Account>, given: seq<EntryIn>, stored: seq<Entry>, rate: Rate)
    requires |stored| == |given| && IsRate(rate) && Known(accounts, given)
    requires forall i | 0 <= i < |given| ::
               0 < given[i].amount && FitsBigint(given[i], rate) && StoredAs(given[i], stored[i], rate)
    ensures AmountsStorable(stored) && InAccounts(accounts, stored) && OneCurrencyOnly(stored)
    ensures HasSide(stored, Debit) && HasSide(stored, Credit) && Converted(stored)
  {
    assert AllAt(stored, rate);
    forall i | 0 <= i < |stored| ensures HasAccount(accounts, stored[i].account, stored[i].currency) {
      assert HasAccount(accounts, given[i].account, given[i].currency);
    }
    forall d | d in {Debit, Credit} ensures HasSide(stored, d) {
      var i :| 0 <= i < |given| && given[i].direction == d;
      assert stored[i].direction == d;
    }
  }

  lemma {:induction false} CheckedIsKnown(accounts: seq<Account>, entries: seq<EntryIn>)
    requires UniqueAccounts(accounts) && CheckEntries(accounts, entries).None?
    ensures Known(accounts, entries)
  {
    CheckEntriesExactly(accounts, entries);
    PostableIsKnown(accounts, entries);
  }

  lemma {:induction false} BuiltIsSound(accounts: seq<Account>, p: Payload, rate: Rate, id: Uuid, now: Instant)
    requires IsPayload(p) && IsRate(rate) && Known(accounts, p.entries)
    requires BuildTransaction(p, rate, id, now).Ok?
    ensures var entries := BuildTransaction(p, rate, id, now).value.entries;
            && Net(entries) == 0
            && (TriggerPasses(entries) <==> Sum(p.entries, DebitIn) <= BIGINT_MAX)
            && (TriggerPasses(entries) ==> SoundEntries(accounts, entries))
  {
    BuildExactly(p, rate, id, now);
    var entries := BuildTransaction(p, rate, id, now).value.entries;
    StoredTotals(p.entries, entries, rate);
    StoredShape(accounts, p.entries, entries, rate);
    NetIsDifference(entries);
  }

  /**
   * What create_transaction builds is balanced; the commit-time trigger still refuses it exactly
   * when one side's total does not fit a BIGINT. Otherwise its entries are sound.
   */
  lemma {:induction false} CreatedIsSound(t: Tables, p: Payload, id: Uuid, now: Instant)
    requires IsPayload(p) && UniqueAccounts(t.accounts) && IsRateTable(t.rates)
    requires CreateTransaction(t, p, id, now).Ok?
    ensures var entries := CreateTransaction(t, p, id, now).value.entries;
            && Net(entries) == 0
            && (TriggerPasses(entries) <==> Sum(p.entries, DebitIn) <= BIGINT_MAX)
            && (TriggerPasses(entries) ==> SoundEntries(t.accounts, entries))
  {
    CheckEntriesExactly(t.accounts, p.entries);
    PostableIsKnown(t.accounts, p.entries);
    ResolvedIsRate(t.currencies, t.rates, p.currencyCode, p.date);
    BuiltIsSound(t.accounts, p, ResolveUsdRate(t.currencies, t.rates, p.currencyCode, p.date).value, id, now);
  }

  lemma {:induction false} FlipTotals(entries: seq<Entry>)
    ensures DebitTotal(FlipAll(entries)) == CreditTotal(entries)
    ensures CreditTotal(FlipAll(entries)) == DebitTotal(entries)
  {
    SumPointwise(FlipAll(entries), DebitAmount, entries, CreditAmount);
    SumPointwise(FlipAll(entries), CreditAmount, entries, DebitAmount);
  }

  lemma {:induction false} FlipTwice(entries: seq<Entry>)
    ensures FlipAll(FlipAll(entries)) == entries
  {
  }

  lemma {:induction false} SumNegated<T>(s: seq<T>, f: T -> int, t: seq<T>, g: T -> int)
    requires |s| == |t|
    requires forall i | 0 <= i < |s| :: g(t[i]) == -f(s[i])
    ensures Sum(t, g) == -Sum(s, f)
  {
    if s != [] {
      var last := |s| - 1;
      assert forall i | 0 <= i < last :: s[..last][i] == s[i] && t[..last][i] == t[i];
      SumNegated(s[..last], f, t[..last], g);
    }
  }

  /** Flipping every direction negates each account's effect and the USD net, keeps the accounts, and undoes itself. */
  lemma {:induction false} FlipNegates(entries: seq<Entry>, account: Uuid)
    ensures Sum(FlipAll(entries), SignedFor(account)) == -Sum(entries, SignedFor(account))
    ensures NetUsd(FlipAll(entries)) + NetUsd(entries) == 0
    ensures Accounts(FlipAll(entries)) == Accounts(entries)
    ensures FlipAll(FlipAll(entries)) == entries
  {
    var flipped := FlipAll(entries);
    SumNegated(entries, SignedFor(account), flipped, SignedFor(account));
    SumNegated(entries, SignedUsd, flipped, SignedUsd);
    forall a | a in Accounts(entries) ensures a in Accounts(flipped) {
      var i :| 0 <= i < |entries| && entries[i].account == a;
      assert flipped[i] in flipped;
    }
  }

  /** A reversal of a sound transaction is sound: it can never trip the commit-time trigger. */
  lemma {:induction false} ReversalIsSound(accounts: seq<Account>, original: Transaction, id: Uuid, now: Instant)
    requires SoundEntries(accounts, original.entries)
    ensures SoundEntries(accounts, Reversal(original, id, now).entries)
  {
    var entries := original.entries;
    var flipped := FlipAll(entries);
    FlipTotals(entries);
    var rate :| AllAt(entries, rate);
    assert AllAt(flipped, rate);
    forall d | d in {Debit, Credit} ensures HasSide(flipped, d.Flip()) {
      var i :| 0 <= i < |entries| && entries[i].direction == d;
      assert flipped[i].direction == d.Flip();
    }
    assert HasSide(flipped, Debit.Flip()) && HasSide(flipped, Credit.Flip());
  }

  /** A stored transaction of N entries is out of balance in USD by less than N / 2 cents. */
  lemma {:induction false} StoredUsdImbalance(accounts: seq<Account>, entries: seq<Entry>)
    requires SoundEntries(accounts, entries)
    ensures Net(entries) == 0
    ensures -|entries| < 2 * NetUsd(entries) < |entries|
    ensures |entries| == 2 ==> NetUsd(entries) == 0
  {
    NetIsDifference(entries);
    var rate :| AllAt(entries, rate);
    var d :| 0 <= d < |entries| && entries[d].direction == Debit;
    var c :| 0 <= c < |entries| && entries[c].direction == Credit;
    assert entries[d].direction.Debit? && entries[c].direction.Credit?;
    UsdImbalanceBound(entries, rate);
  }
}
