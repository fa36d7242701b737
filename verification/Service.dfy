/** The service's writes, step by step, through a database session that holds them until it commits. */
module Service {
  import opened Prelude
  import opened Ledger
  import opened Rates
  import opened Posting

  /** A row of entries: the foreign key is set when the row is saved. */
  datatype EntryRow = EntryRow(transactionId: Option<Uuid>, entry: Entry)

  class Database {
    var tables: Tables

    constructor (tables: Tables)
      ensures this.tables == tables
    {
      this.tables := tables;
    }
  }

  /** The entries that the rows hold for a transaction. */
  function EntriesOf(rows: seq<EntryRow>, id: Uuid): seq<Entry> {
    if rows == [] then []
    else
      var last := rows[|rows| - 1];
      EntriesOf(rows[..|rows| - 1], id) + if last.transactionId == Some(id) then [last.entry] else []
  }

  function Load(header: Transaction, rows: seq<EntryRow>): Transaction {
    header.(entries := EntriesOf(rows, header.id))
  }

  function LoadAll(headers: seq<Transaction>, rows: seq<EntryRow>): (r: seq<Transaction>)
    ensures |r| == |headers|
  {
    seq(|headers|, i requires 0 <= i < |headers| => Load(headers[i], rows))
  }

  function NewRows(entries: seq<Entry>): (r: seq<EntryRow>)
    ensures |r| == |entries|
  {
    seq(|entries|, i requires 0 <= i < |entries| => EntryRow(None, entries[i]))
  }

  function Owned(rows: seq<EntryRow>, id: Uuid): (r: seq<EntryRow>)
    ensures |r| == |rows|
  {
    seq(|rows|, i requires 0 <= i < |rows| => rows[i].(transactionId := Some(id)))
  }

  lemma {:induction false} EntriesOfConcat(rows: seq<EntryRow>, more: seq<EntryRow>, id: Uuid)
    ensures EntriesOf(rows + more, id) == EntriesOf(rows, id) + EntriesOf(more, id)
  {
    if more == [] {
      assert rows + more == rows;
    } else {
      var last := |more| - 1;
      assert (rows + more)[..|rows + more| - 1] == rows + more[..last];
      EntriesOfConcat(rows, more[..last], id);
    }
  }

  lemma {:induction false} EntriesOfOthers(rows: seq<EntryRow>, id: Uuid)
    requires forall i | 0 <= i < |rows| :: rows[i].transactionId != Some(id)
    ensures EntriesOf(rows, id) == []
  {
    if rows != [] {
      var rest := rows[..|rows| - 1];
      assert forall i | 0 <= i < |rest| :: rest[i] == rows[i];
      EntriesOfOthers(rest, id);
    }
  }

  lemma {:induction false} EntriesOfOwned(entries: seq<Entry>, id: Uuid)
    ensures EntriesOf(Owned(NewRows(entries), id), id) == entries
  {
    if entries != [] {
      var last := |entries| - 1;
      assert Owned(NewRows(entries), id)[..last] == Owned(NewRows(entries[..last]), id);
      EntriesOfOwned(entries[..last], id);
      assert entries == entries[..last] + [entries[last]];
    }
  }

  /** Saved rows are found by their own transaction, and change what no other one has. */
  lemma {:induction false} SavedRows(headers: seq<Transaction>, rows: seq<EntryRow>, header: Transaction,
                                     entries: seq<Entry>)
    requires forall i | 0 <= i < |headers| :: headers[i].id != header.id
    requires forall i | 0 <= i < |rows| :: rows[i].transactionId != Some(header.id)
    ensures var rows' := rows + Owned(NewRows(entries), header.id);
            LoadAll(headers + [header], rows') == LoadAll(headers, rows) + [header.(entries := entries)]
  {
    var added := Owned(NewRows(entries), header.id);
    forall i | 0 <= i < |headers| ensures Load(headers[i], rows + added) == Load(headers[i], rows) {
      EntriesOfConcat(rows, added, headers[i].id);
      EntriesOfOthers(added, headers[i].id);
    }
    EntriesOfConcat(rows, added, header.id);
    EntriesOfOthers(rows, header.id);
    EntriesOfOwned(entries, header.id);
    assert LoadAll(headers + [header], rows + added)[..|headers|] == LoadAll(headers, rows);
    assert Load(header, rows + added) == header.(entries := entries);
  }

  predicate AllStorable(entries: seq<Entry>) {
    forall i | 0 <= i < |entries| :: Storable(entries[i])
  }

  /** What every stored transaction has, by the types of its columns. */
  predicate ColumnsHold(txs: seq<Transaction>) {
    forall i | 0 <= i < |txs| :: AllStorable(txs[i].entries)
  }

  function Adding(w: WriteSet, more: WriteSet): WriteSet {
    WriteSet(w.marks + more.marks, w.txs + more.txs, w.audit + more.audit)
  }

  /** The deferred trigger's verdict on the transactions of a session. */
  predicate AllPass(txs: seq<Transaction>) {
    forall i | 0 <= i < |txs| :: TriggerPasses(txs[i].entries)
  }

  predicate IsFlushed(headers: seq<Transaction>, row: EntryRow) {
    exists j :: 0 <= j < |headers| && row.transactionId == Some(headers[j].id)
  }

  lemma {:induction false} StayFlushed(headers: seq<Transaction>, header: Transaction, rows: seq<EntryRow>)
    requires forall i | 0 <= i < |rows| :: IsFlushed(headers, rows[i])
    ensures forall i | 0 <= i < |rows| :: IsFlushed(headers + [header], rows[i])
  {
    forall i | 0 <= i < |rows| ensures IsFlushed(headers + [header], rows[i]) {
      assert IsFlushed(headers, rows[i]);
      var j :| 0 <= j < |headers| && rows[i].transactionId == Some(headers[j].id);
      assert 0 <= j < |headers + [header]| && (headers + [header])[j] == headers[j];
    }
  }

  class Session {
    const db: Database
    var marks: set<Uuid>
    var headers: seq<Transaction>
    var rows: seq<EntryRow>
    var audit: seq<AuditRow>

    /** Every flushed row belongs to a flushed transaction. */
    predicate Valid() reads this {
      forall i | 0 <= i < |rows| :: IsFlushed(headers, rows[i])
    }

    function Pending(): WriteSet reads this {
      WriteSet(marks, LoadAll(headers, rows), audit)
    }

    constructor (db: Database)
      ensures this.db == db && Valid() && Pending() == NO_WRITES
    {
      this.db := db;
      marks, headers, rows, audit := {}, [], [], [];
    }

    predicate IsNew(id: Uuid) reads this {
      forall i | 0 <= i < |headers| :: headers[i].id != id
    }

    /** Flushes a transaction, gives its entries its id in place, flushes them, and loads it back. */
    method Save(header: Transaction, entries: array<EntryRow>) returns (r: Result<Transaction, PostError>)
      requires Valid() && IsNew(header.id)
      modifies this, entries
      ensures Valid()
      ensures entries[..] == Owned(old(entries[..]), header.id)
      ensures r.Ok? <==> forall i | 0 <= i < entries.Length :: Storable(entries[i].entry)
      ensures r.Err? ==> r.error == NumericOutOfRange
      ensures marks == old(marks) && audit == old(audit)
      ensures forall given | old(entries[..]) == NewRows(given) ::
                r.Ok? ==> r.value == header.(entries := given)
                          && Pending() == old(Adding(Pending(), WriteSet({}, [header.(entries := given)], [])))
    {
      headers := headers + [header];
      StayFlushed(old(headers), header, rows);
      var i := 0;
      var storable := true;
      while i < entries.Length
        invariant 0 <= i <= entries.Length
        invariant forall k | 0 <= k < i :: entries[k] == old(entries[k]).(transactionId := Some(header.id))
        invariant forall k | i <= k < entries.Length :: entries[k] == old(entries[k])
        invariant storable <==> forall k | 0 <= k < i :: Storable(entries[k].entry)
        invariant headers == old(headers) + [header] && rows == old(rows) && marks == old(marks) && audit == old(audit)
      {
        entries[i] := entries[i].(transactionId := Some(header.id));
        storable := storable && Storable(entries[i].entry);
        i := i + 1;
      }
      assert entries[..] == Owned(old(entries[..]), header.id);
      if !storable {
        return Err(NumericOutOfRange);
      }
      assert forall k | 0 <= k < |rows| :: rows[k].transactionId != Some(header.id);
      rows := rows + entries[..];
      assert forall k | |old(rows)| <= k < |rows| :: rows[k].transactionId == Some(headers[|headers| - 1].id);
      forall given | old(entries[..]) == NewRows(given)
        ensures LoadAll(headers, rows) == old(LoadAll(headers, rows)) + [header.(entries := given)]
      {
        SavedRows(old(headers), old(rows), header, given);
      }
      var loaded := Load(header, rows);
      assert LoadAll(headers, rows)[|headers| - 1] == loaded;
      r := Ok(loaded);
    }

    /** Appends one audit row. */
    method Log(row: AuditRow)
      requires Valid()
      modifies this
      ensures Valid()
      ensures Pending() == old(Adding(Pending(), WriteSet({}, [], [row])))
    {
      audit := audit + [row];
      assert marks == old(marks) + {} && LoadAll(headers, rows) == old(LoadAll(headers, rows)) + [];
    }

    /** The status a row has for this session. */
    predicate SeesPosted(id: Uuid) reads this, db {
      exists i :: 0 <= i < |db.tables.txs| && db.tables.txs[i].id == id
                  && db.tables.txs[i].status == Posted && id !in marks
    }

    /** UPDATE ... WHERE id AND status = POSTED; whether it hit a row. */
    method MarkVoidedIfPosted(id: Uuid) returns (voided: bool)
      requires Valid()
      modifies this
      ensures Valid()
      ensures voided == old(SeesPosted(id))
      ensures Pending() == if voided then old(Adding(Pending(), WriteSet({id}, [], []))) else old(Pending())
    {
      assert LoadAll(headers, rows) == old(LoadAll(headers, rows)) + [] && audit == old(audit) + [];
      voided := exists i :: 0 <= i < |db.tables.txs| && db.tables.txs[i].id == id
                            && db.tables.txs[i].status == Posted && id !in marks;
      if voided {
        marks := marks + {id};
      }
    }

    /** Runs the deferred trigger for what was inserted, and publishes the writes or drops them all. */
    method Commit() returns (ok: bool)
      requires Valid()
      modifies this, db
      ensures Valid() && Pending() == NO_WRITES
      ensures ok <==> AllPass(old(Pending().txs))
      ensures db.tables == if ok then old(Publish(db.tables, Pending())) else old(db.tables)
    {
      var w := Pending();
      ok := true;
      for i := 0 to |w.txs|
        invariant ok <==> forall k | 0 <= k < i :: TriggerPasses(w.txs[k].entries)
      {
        ok := ok && TriggerPasses(w.txs[i].entries);
      }
      if ok {
        db.tables := Publish(db.tables, w);
      }
      Rollback();
    }

    method Rollback()
      modifies this
      ensures Valid() && Pending() == NO_WRITES
    {
      marks, headers, rows, audit := {}, [], [], [];
    }
  }

  /******* create_transaction and void_transaction *******/

  /** The entries as new rows, saved under their transaction. */
  method SaveEntries(s: Session, header: Transaction, entries: seq<Entry>) returns (r: Result<Transaction, PostError>)
    requires s.Valid() && s.IsNew(header.id)
    modifies s
    ensures s.Valid()
    ensures r == if AllStorable(entries) then Ok(header.(entries := entries)) else Err(NumericOutOfRange)
    ensures r.Ok? ==> s.Pending() == old(Adding(s.Pending(), WriteSet({}, [r.value], [])))
  {
    var rows := new EntryRow[|entries|](i requires 0 <= i < |entries| => EntryRow(None, entries[i]));
    assert rows[..] == NewRows(entries);
    r := s.Save(header, rows);
    assert forall i | 0 <= i < |entries| :: rows[i].entry == entries[i];
  }

  method CreateTransaction(s: Session, p: Payload, user: Uuid, id: Uuid, now: Instant)
    returns (r: Result<Transaction, PostError>)
    requires s.Valid() && s.Pending() == NO_WRITES && IsPayload(p)
    modifies s
    ensures s.Valid()
    ensures r == Posting.CreateTransaction(s.db.tables, p, id, now)
    ensures r.Ok? ==> s.Pending() == CreateWrites(r.value, user)
  {
    var failure := CheckEntries(s.db.tables.accounts, p.entries);
    if failure.Some? {
      return Err(failure.value);
    }
    var rate := ResolveUsdRate(s.db.tables.currencies, s.db.tables.rates, p.currencyCode, p.date);
    if rate.Err? {
      return Err(Unresolved(rate.error));
    }
    if !Convertible(p, rate.value) {
      return Err(ConversionOverflow);
    }
    var entries := ConvertEntries(p, rate.value);
    assert s.headers == [];
    r := SaveEntries(s, Transaction(id, p.description, p.date, Posted, Some(now), None, []), entries);
    if r.Ok? {
      s.Log(AuditRow(user, r.value.id, Create, None,
                     Snapshot(r.value.id, r.value.status, Some(r.value.description), Some(r.value.date), None, None)));
    }
  }

  datatype VoidError = AlreadyVoided | NotStorable

  /** The voided original and its reversal; None where there is no such transaction. */
  method VoidTransaction(s: Session, transactionId: Uuid, user: Uuid, id: Uuid, now: Instant)
    returns (r: Result<Option<(Transaction, Transaction)>, VoidError>)
    requires s.Valid() && s.Pending() == NO_WRITES
    requires UniqueIds(s.db.tables.txs) && ColumnsHold(s.db.tables.txs)
    modifies s
    ensures s.Valid()
    ensures var txs := s.db.tables.txs; var i := Find(txs, transactionId);
            if i.None? then r == Ok(None) && s.Pending() == NO_WRITES
            else if txs[i.value].status != Posted then r == Err(AlreadyVoided) && s.Pending() == NO_WRITES
            else
              var original := txs[i.value];
              var reversal := Reversal(original, id, now);
              && r == Ok(Some((original.(status := Voided), reversal)))
              && s.Pending() == VoidWrites(original, reversal, user)
  {
    var i := Find(s.db.tables.txs, transactionId);
    if i.None? {
      return Ok(None);
    }
    var original := s.db.tables.txs[i.value];
    var before := Snapshot(original.id, original.status, Some(original.description), Some(original.date), None, None);
    assert s.headers == [] && s.marks == {};
    var voided := s.MarkVoidedIfPosted(transactionId);
    if !voided {
      return Err(AlreadyVoided);
    }
    original := original.(status := Voided);
    var flipped := FlipAll(original.entries);
    var header := Transaction(id, "Reversal of: " + original.description, original.date, Posted, Some(now),
                              Some(original.id), []);
    var saved := SaveEntries(s, header, flipped);
    if saved.Err? {
      return Err(NotStorable);
    }
    var reversal := saved.value;
    s.Log(AuditRow(user, reversal.id, Create, None,
                   Snapshot(reversal.id, reversal.status, Some(reversal.description), None, Some(original.id), None)));
    s.Log(AuditRow(user, original.id, Void, Some(before),
                   Snapshot(original.id, original.status, None, None, None, Some(reversal.id))));
    r := Ok(Some((original, reversal)));
  }
}
