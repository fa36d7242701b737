/** What the committed tables satisfy, and that every commit of the service keeps it. */
module Books {
  import opened Prelude
  import opened Ledger
  import opened Rates
  import opened Posting

  /******* Reversal links *******/

  predicate IsReversal(r: Transaction, original: Transaction) {
    && r.reversalOf == Some(original.id)
    && r.date == original.date
    && r.entries == FlipAll(original.entries)
  }

  /** The transaction at j, if a reversal, reverses one committed before it. */
  predicate HasOriginal(txs: seq<Transaction>, j: nat)
    requires j < |txs| && txs[j].reversalOf.Some?
  {
    var p := Find(txs[..j], txs[j].reversalOf.value);
    p.Some? && IsReversal(txs[j], txs[p.value])
  }

  predicate HasReversal(txs: seq<Transaction>, id: Uuid) {
    exists j :: 0 <= j < |txs| && txs[j].reversalOf == Some(id)
  }

  /** Ids are unique, reversals mirror an earlier transaction, and nothing is reversed twice. */
  predicate Linked(txs: seq<Transaction>) {
    && UniqueIds(txs)
    && (forall j | 0 <= j < |txs| && txs[j].reversalOf.Some? :: HasOriginal(txs, j))
    && (forall j, k | 0 <= j < k < |txs| && txs[j].reversalOf.Some? :: txs[j].reversalOf != txs[k].reversalOf)
  }

  /** No transaction is pending, and the voided ones are exactly those with a reversal. */
  predicate Settled(txs: seq<Transaction>) {
    forall i | 0 <= i < |txs| ::
      && Counts(txs[i].status)
      && (txs[i].status == Voided <==> HasReversal(txs, txs[i].id))
  }

  predicate Fresh(txs: seq<Transaction>, id: Uuid) {
    forall i | 0 <= i < |txs| :: txs[i].id != id
  }

  /** Equal but for the status. */
  predicate SameButStatus(txs: seq<Transaction>, txs': seq<Transaction>) {
    |txs| == |txs'| && forall i | 0 <= i < |txs| :: txs'[i] == txs[i].(status := txs'[i].status)
  }

  lemma {:induction false} FindSame(txs: seq<Transaction>, txs': seq<Transaction>, id: Uuid)
    requires SameButStatus(txs, txs')
    ensures Find(txs', id) == Find(txs, id)
  {
    if txs != [] {
      var last := |txs| - 1;
      assert SameButStatus(txs[..last], txs'[..last]);
      FindSame(txs[..last], txs'[..last], id);
    }
  }

  lemma {:induction false} FindIs(txs: seq<Transaction>, i: nat)
    requires UniqueIds(txs) && i < |txs|
    ensures Find(txs, txs[i].id) == Some(i)
  {
  }

  lemma {:induction false} StatusKeepsLinks(txs: seq<Transaction>, txs': seq<Transaction>)
    requires Linked(txs) && SameButStatus(txs, txs')
    ensures Linked(txs')
    ensures forall id: Uuid :: HasReversal(txs', id) <==> HasReversal(txs, id)
  {
    forall j | 0 <= j < |txs'| && txs'[j].reversalOf.Some? ensures HasOriginal(txs', j) {
      assert SameButStatus(txs[..j], txs'[..j]);
      FindSame(txs[..j], txs'[..j], txs'[j].reversalOf.value);
      assert HasOriginal(txs, j);
    }
    forall id: Uuid, j | 0 <= j < |txs| && (txs[j].reversalOf == Some(id) || txs'[j].reversalOf == Some(id))
      ensures HasReversal(txs, id) && HasReversal(txs', id)
    {
      assert txs'[j].reversalOf == txs[j].reversalOf;
    }
  }

  lemma {:induction false} AppendKeepsReversals(txs: seq<Transaction>, t: Transaction)
    ensures forall id: Uuid :: HasReversal(txs + [t], id) <==> HasReversal(txs, id) || t.reversalOf == Some(id)
  {
    var all := txs + [t];
    forall id: Uuid | HasReversal(txs, id) || t.reversalOf == Some(id) ensures HasReversal(all, id) {
      if HasReversal(txs, id) {
        var j :| 0 <= j < |txs| && txs[j].reversalOf == Some(id);
        assert all[j].reversalOf == Some(id);
      } else {
        assert all[|txs|].reversalOf == Some(id);
      }
    }
  }

  /** A new root, or a reversal of something not yet reversed, keeps the links. */
  lemma {:induction false} AppendKeepsLinks(txs: seq<Transaction>, t: Transaction)
    requires Linked(txs) && Fresh(txs, t.id)
    requires t.reversalOf.Some? ==>
               !HasReversal(txs, t.reversalOf.value) && exists i :: 0 <= i < |txs| && IsReversal(t, txs[i])
    ensures Linked(txs + [t])
  {
    var all := txs + [t];
    forall j | 0 <= j < |all| && all[j].reversalOf.Some? ensures HasOriginal(all, j) {
      if j < |txs| {
        assert all[..j] == txs[..j];
        assert HasOriginal(txs, j);
      } else {
        assert all[..j] == txs;
        var i :| 0 <= i < |txs| && IsReversal(t, txs[i]);
        FindIs(txs, i);
      }
    }
  }

  lemma {:induction false} PrefixIsLinked(txs: seq<Transaction>, n: nat)
    requires Linked(txs) && n <= |txs|
    ensures Linked(txs[..n])
  {
    forall j | 0 <= j < n && txs[..n][j].reversalOf.Some? ensures HasOriginal(txs[..n], j) {
      assert txs[..n][..j] == txs[..j];
      assert HasOriginal(txs, j);
    }
  }

  /** Links only name committed ids. */
  lemma {:induction false} ReversedIdIsCommitted(txs: seq<Transaction>, id: Uuid)
    requires Linked(txs) && HasReversal(txs, id)
    ensures !Fresh(txs, id)
  {
    var j :| 0 <= j < |txs| && txs[j].reversalOf == Some(id);
    assert HasOriginal(txs, j);
    var p := Find(txs[..j], id);
    assert txs[p.value].id == id;
  }

  lemma {:induction false} MarkIsStatusOnly(txs: seq<Transaction>, marks: set<Uuid>)
    ensures SameButStatus(txs, Mark(txs, marks))
    ensures marks == {} ==> Mark(txs, marks) == txs
  {
  }

  /******* The audit trail *******/

  function Erase(audit: seq<AuditRow>): (r: seq<AuditRow>)
    ensures |r| == |audit|
  {
    seq(|audit|, i requires 0 <= i < |audit| => audit[i].(user := 0))
  }

  /** The audit rows, users aside, that the commit of txs[j] must have written. */
  function ExpectedRows(txs: seq<Transaction>, j: nat): seq<AuditRow>
    requires j < |txs|
  {
    var t := txs[j].(status := Posted);
    if t.reversalOf.None? then [CreateAudit(t, 0)]
    else
      var p := Find(txs[..j], t.reversalOf.value);
      if p.None? then [] else VoidAudit(txs[p.value].(status := Posted), t, 0)
  }

  function ExpectedAudit(txs: seq<Transaction>): seq<AuditRow> {
    if txs == [] then [] else ExpectedAudit(txs[..|txs| - 1]) + ExpectedRows(txs, |txs| - 1)
  }

  lemma {:induction false} AuditIgnoresStatus(txs: seq<Transaction>, txs': seq<Transaction>)
    requires SameButStatus(txs, txs')
    ensures ExpectedAudit(txs') == ExpectedAudit(txs)
  {
    if txs != [] {
      var last := |txs| - 1;
      assert SameButStatus(txs[..last], txs'[..last]);
      AuditIgnoresStatus(txs[..last], txs'[..last]);
      if txs[last].reversalOf.Some? {
        FindSame(txs[..last], txs'[..last], txs[last].reversalOf.value);
      }
    }
  }

  lemma {:induction false} EraseConcat(a: seq<AuditRow>, b: seq<AuditRow>)
    ensures Erase(a + b) == Erase(a) + Erase(b)
  {
  }

  lemma {:induction false} ExpectedSnoc(txs: seq<Transaction>, t: Transaction)
    ensures ExpectedAudit(txs + [t]) == ExpectedAudit(txs) + ExpectedRows(txs + [t], |txs|)
  {
    assert (txs + [t])[..|txs|] == txs;
  }

  /** Replaying audit rows in commit order: the last status logged for each transaction. */
  function Replay(audit: seq<AuditRow>): map<Uuid, Status> {
    if audit == [] then map[]
    else
      var last := audit[|audit| - 1];
      Replay(audit[..|audit| - 1])[last.entity := last.after.status]
  }

  function Ids(txs: seq<Transaction>): set<Uuid> {
    set t | t in txs :: t.id
  }

  /** The statuses the reversal links imply. */
  function LinkStatuses(txs: seq<Transaction>): map<Uuid, Status> {
    map id | id in Ids(txs) :: if HasReversal(txs, id) then Voided else Posted
  }

  lemma {:induction false} ReplaySnoc(audit: seq<AuditRow>, row: AuditRow)
    ensures Replay(audit + [row]) == Replay(audit)[row.entity := row.after.status]
  {
    assert (audit + [row])[..|audit|] == audit;
  }

  lemma {:induction false} IdsSnoc(txs: seq<Transaction>, t: Transaction)
    ensures Ids(txs + [t]) == Ids(txs) + {t.id}
  {
    assert forall x :: x in txs + [t] <==> x in txs || x == t;
  }

  lemma {:induction false} LinkStatusesOfRoot(txs: seq<Transaction>, t: Transaction)
    requires Linked(txs) && Fresh(txs, t.id) && t.reversalOf.None?
    ensures LinkStatuses(txs + [t]) == LinkStatuses(txs)[t.id := Posted]
  {
    IdsSnoc(txs, t);
    AppendKeepsReversals(txs, t);
    if HasReversal(txs, t.id) {
      ReversedIdIsCommitted(txs, t.id);
    }
  }

  lemma {:induction false} LinkStatusesAfter(txs: seq<Transaction>, t: Transaction, id: Uuid)
    requires Ids(txs + [t]) == Ids(txs) + {t.id} && id in Ids(txs) && t.id !in Ids(txs) && !HasReversal(txs, t.id)
    requires forall other :: HasReversal(txs + [t], other) <==> HasReversal(txs, other) || other == id
    ensures LinkStatuses(txs + [t]) == LinkStatuses(txs)[t.id := Posted][id := Voided]
  {
  }

  lemma {:induction false} LinkStatusesOfReversal(txs: seq<Transaction>, t: Transaction, p: nat)
    requires Linked(txs) && Fresh(txs, t.id) && p < |txs| && t.reversalOf == Some(txs[p].id)
    ensures LinkStatuses(txs + [t]) == LinkStatuses(txs)[t.id := Posted][txs[p].id := Voided]
  {
    IdsSnoc(txs, t);
    AppendKeepsReversals(txs, t);
    assert txs[p] in txs;
    if HasReversal(txs, t.id) {
      ReversedIdIsCommitted(txs, t.id);
    }
    LinkStatusesAfter(txs, t, txs[p].id);
  }

  lemma {:induction false} ReplayOfReversal(audit: seq<AuditRow>, original: Transaction, reversal: Transaction)
    requires reversal.status == Posted
    ensures Replay(audit + VoidAudit(original, reversal, 0))
         == Replay(audit)[reversal.id := Posted][original.id := Voided]
  {
    var rows := VoidAudit(original, reversal, 0);
    assert audit + rows == (audit + [rows[0]]) + [rows[1]];
    ReplaySnoc(audit, rows[0]);
    ReplaySnoc(audit + [rows[0]], rows[1]);
  }

  lemma {:induction false} ReplayRebuildsStatuses(txs: seq<Transaction>)
    requires Linked(txs)
    ensures Replay(ExpectedAudit(txs)) == LinkStatuses(txs)
  {
    if txs != [] {
      var rest, t := txs[..|txs| - 1], txs[|txs| - 1];
      assert txs == rest + [t];
      PrefixIsLinked(txs, |txs| - 1);
      ReplayRebuildsStatuses(rest);
      if t.reversalOf.None? {
        ReplaySnoc(ExpectedAudit(rest), CreateAudit(t.(status := Posted), 0));
        LinkStatusesOfRoot(rest, t);
      } else {
        assert HasOriginal(txs, |rest|);
        var p := Find(rest, t.reversalOf.value).value;
        ReplayOfReversal(ExpectedAudit(rest), rest[p].(status := Posted), t.(status := Posted));
        LinkStatusesOfReversal(rest, t, p);
      }
    }
  }

  /******* The invariant of the committed tables *******/

  ghost predicate SoundRows(t: Tables) {
    forall i | 0 <= i < |t.txs| :: SoundEntries(t.accounts, t.txs[i].entries)
  }

  ghost predicate Inv(t: Tables) {
    && UniqueAccounts(t.accounts)
    && IsRateTable(t.rates)
    && SoundRows(t)
    && Linked(t.txs)
    && Settled(t.txs)
    && Erase(t.audit) == ExpectedAudit(t.txs)
  }

  /** What a session that is about to commit a new transaction has ready. */
  ghost predicate Created(t: Tables, tx: Transaction) {
    && Fresh(t.txs, tx.id)
    && tx.status == Posted
    && tx.reversalOf.None?
    && SoundEntries(t.accounts, tx.entries)
  }

  lemma {:induction false} AppendKeepsSound(accounts: seq<Account>, txs: seq<Transaction>, marks: set<Uuid>,
                                            t: Transaction)
    requires forall i | 0 <= i < |txs| :: SoundEntries(accounts, txs[i].entries)
    requires SoundEntries(accounts, t.entries)
    ensures var txs' := Mark(txs, marks) + [t];
            forall i | 0 <= i < |txs'| :: SoundEntries(accounts, txs'[i].entries)
  {
    var txs' := Mark(txs, marks) + [t];
    forall i | 0 <= i < |txs'| ensures SoundEntries(accounts, txs'[i].entries) {
      if i < |txs| {
        assert txs'[i].entries == txs[i].entries;
      }
    }
  }

  lemma {:induction false} CreateKeepsSettled(txs: seq<Transaction>, t: Transaction)
    requires Linked(txs) && Settled(txs) && Fresh(txs, t.id) && t.status == Posted && t.reversalOf.None?
    ensures Settled(txs + [t])
  {
    AppendKeepsReversals(txs, t);
    if HasReversal(txs, t.id) {
      ReversedIdIsCommitted(txs, t.id);
    }
  }

  lemma {:induction false} CreateAuditIsExpected(t: Tables, tx: Transaction, user: Uuid)
    requires Erase(t.audit) == ExpectedAudit(t.txs) && tx.status == Posted && tx.reversalOf.None?
    ensures Erase(t.audit + [CreateAudit(tx, user)]) == ExpectedAudit(t.txs + [tx])
  {
    EraseConcat(t.audit, [CreateAudit(tx, user)]);
    ExpectedSnoc(t.txs, tx);
    assert Erase([CreateAudit(tx, user)]) == [CreateAudit(tx, 0)];
  }

  lemma {:induction false} CommitCreateKeepsInv(t: Tables, tx: Transaction, user: Uuid)
    requires Inv(t) && Created(t, tx)
    ensures Inv(Publish(t, CreateWrites(tx, user)))
  {
    MarkIsStatusOnly(t.txs, {});
    AppendKeepsSound(t.accounts, t.txs, {}, tx);
    AppendKeepsLinks(t.txs, tx);
    CreateKeepsSettled(t.txs, tx);
    CreateAuditIsExpected(t, tx, user);
  }

  lemma {:induction false} VoidKeepsSettled(txs: seq<Transaction>, i: nat, reversal: Transaction)
    requires Linked(txs) && Settled(txs) && i < |txs|
    requires Fresh(txs, reversal.id) && reversal.status == Posted && reversal.reversalOf == Some(txs[i].id)
    ensures Settled(Mark(txs, {txs[i].id}) + [reversal])
  {
    var marked := Mark(txs, {txs[i].id});
    MarkIsStatusOnly(txs, {txs[i].id});
    StatusKeepsLinks(txs, marked);
    AppendKeepsReversals(marked, reversal);
    if HasReversal(txs, reversal.id) {
      ReversedIdIsCommitted(txs, reversal.id);
    }
  }

  lemma {:induction false} VoidKeepsLinks(txs: seq<Transaction>, i: nat, reversal: Transaction)
    requires Linked(txs) && i < |txs| && !HasReversal(txs, txs[i].id)
    requires Fresh(txs, reversal.id) && IsReversal(reversal, txs[i])
    ensures Linked(Mark(txs, {txs[i].id}) + [reversal])
  {
    var marked := Mark(txs, {txs[i].id});
    MarkIsStatusOnly(txs, {txs[i].id});
    StatusKeepsLinks(txs, marked);
    assert IsReversal(reversal, marked[i]);
    AppendKeepsLinks(marked, reversal);
  }

  lemma {:induction false} VoidAuditIsExpected(t: Tables, i: nat, reversal: Transaction, user: Uuid)
    requires Linked(t.txs) && Erase(t.audit) == ExpectedAudit(t.txs)
    requires i < |t.txs| && t.txs[i].status == Posted
    requires reversal.status == Posted && reversal.reversalOf == Some(t.txs[i].id)
    ensures var t' := Publish(t, VoidWrites(t.txs[i], reversal, user)); Erase(t'.audit) == ExpectedAudit(t'.txs)
  {
    var original := t.txs[i];
    var marked := Mark(t.txs, {original.id});
    MarkIsStatusOnly(t.txs, {original.id});
    AuditIgnoresStatus(t.txs, marked);
    FindIs(t.txs, i);
    FindSame(t.txs, marked, original.id);
    ExpectedSnoc(marked, reversal);
    assert (marked + [reversal])[..|marked|] == marked;
    EraseConcat(t.audit, VoidAudit(original, reversal, user));
    assert Erase(VoidAudit(original, reversal, user)) == VoidAudit(original, reversal, 0);
  }

  lemma {:induction false} CommitVoidKeepsInv(t: Tables, i: nat, reversal: Transaction, now: Instant, user: Uuid)
    requires Inv(t) && i < |t.txs| && t.txs[i].status == Posted
    requires Fresh(t.txs, reversal.id) && reversal == Reversal(t.txs[i], reversal.id, now)
    ensures Inv(Publish(t, VoidWrites(t.txs[i], reversal, user)))
  {
    VoidKeepsLinks(t.txs, i, reversal);
    VoidKeepsSettled(t.txs, i, reversal);
    ReversalIsSound(t.accounts, t.txs[i], reversal.id, now);
    AppendKeepsSound(t.accounts, t.txs, {t.txs[i].id}, reversal);
    VoidAuditIsExpected(t, i, reversal, user);
  }

  /******* What a commit does to balances *******/

  lemma {:induction false} MarkKeepsBalances(txs: seq<Transaction>, marks: set<Uuid>, account: Uuid, asOf: Date)
    requires forall i | 0 <= i < |txs| :: Counts(txs[i].status)
    ensures Balance(Mark(txs, marks), account, asOf) == Balance(txs, account, asOf)
  {
    SumPointwise(Mark(txs, marks), EffectOn(account, asOf), txs, EffectOn(account, asOf));
  }

  /** A commit adds its new transaction's effect and changes no other balance. */
  lemma {:induction false} CommitAddsEffect(t: Tables, w: WriteSet, account: Uuid, asOf: Date)
    requires (forall i | 0 <= i < |t.txs| :: Counts(t.txs[i].status)) && |w.txs| == 1
    ensures CalculateBalance(Publish(t, w).txs, account, asOf)
         == CalculateBalance(t.txs, account, asOf) + Effect(w.txs[0], account, asOf)
    ensures account !in Accounts(w.txs[0].entries) || asOf < w.txs[0].date ==>
              CalculateBalance(Publish(t, w).txs, account, asOf) == CalculateBalance(t.txs, account, asOf)
  {
    assert w.txs == [w.txs[0]];
    QueryIsSignedFold(t.txs, account, asOf);
    QueryIsSignedFold(Publish(t, w).txs, account, asOf);
    MarkKeepsBalances(t.txs, w.marks, account, asOf);
    BalanceSnoc(Mark(t.txs, w.marks), w.txs[0], account, asOf);
    if account !in Accounts(w.txs[0].entries) || asOf < w.txs[0].date {
      EffectIsLocal(w.txs[0], account, asOf);
    }
  }

  /******* What the audit trail says *******/

  /** The creation of a reversal and the void that made it: posted before, voided after, naming each other. */
  predicate VoidPair(creation: AuditRow, void: AuditRow) {
    && creation.action == Create && creation.before.None? && creation.after.status == Posted
    && creation.after.reversalOf == Some(void.entity)
    && void.action == Void && void.before.Some? && void.before.value.status == Posted
    && void.after.status == Voided
    && void.after.reversalId == Some(creation.entity)
  }

  /** Row a is a void row whose reversal was logged as created right before it, or the other way round. */
  predicate PairedAt(audit: seq<AuditRow>, a: nat)
    requires a < |audit|
  {
    && (audit[a].action == Void ==> 0 < a && VoidPair(audit[a - 1], audit[a]))
    && (audit[a].action == Create && audit[a].after.reversalOf.Some? ==>
          a + 1 < |audit| && VoidPair(audit[a], audit[a + 1]))
  }

  predicate Paired(audit: seq<AuditRow>) {
    forall a | 0 <= a < |audit| :: PairedAt(audit, a)
  }

  lemma {:induction false} PairedConcat(x: seq<AuditRow>, y: seq<AuditRow>)
    requires Paired(x) && Paired(y)
    ensures Paired(x + y)
  {
    forall a | 0 <= a < |x + y| ensures PairedAt(x + y, a) {
      if a < |x| {
        assert PairedAt(x, a);
      } else {
        assert PairedAt(y, a - |x|);
      }
    }
  }

  lemma {:induction false} ExpectedIsPaired(txs: seq<Transaction>)
    ensures Paired(ExpectedAudit(txs))
  {
    if txs != [] {
      ExpectedIsPaired(txs[..|txs| - 1]);
      PairedConcat(ExpectedAudit(txs[..|txs| - 1]), ExpectedRows(txs, |txs| - 1));
    }
  }

  lemma {:induction false} AuditIsPaired(audit: seq<AuditRow>, txs: seq<Transaction>)
    requires Erase(audit) == ExpectedAudit(txs)
    ensures Paired(audit)
  {
    ExpectedIsPaired(txs);
    var erased := Erase(audit);
    assert forall a | 0 <= a < |audit| :: erased[a] == audit[a].(user := 0);
    forall a | 0 <= a < |audit| ensures PairedAt(audit, a) {
      assert PairedAt(erased, a);
    }
  }

  lemma {:induction false} ReplayIgnoresUsers(audit: seq<AuditRow>)
    ensures Replay(Erase(audit)) == Replay(audit)
  {
    if audit != [] {
      var rest := audit[..|audit| - 1];
      assert Erase(audit) == Erase(rest) + [audit[|rest|].(user := 0)];
      ReplayIgnoresUsers(rest);
      ReplaySnoc(Erase(rest), audit[|rest|].(user := 0));
    }
  }

  /** The row tells of the creation of one of the transactions. */
  predicate TellsCreation(txs: seq<Transaction>, row: AuditRow) {
    exists i :: && 0 <= i < |txs| && row.entity == txs[i].id && row.action == Create && row.before == None
                && row.after == Snapshot(txs[i].id, Posted, Some(txs[i].description),
                                         if txs[i].reversalOf.None? then Some(txs[i].date) else None,
                                         txs[i].reversalOf, None)
  }

  /** The row tells of the void of one of the transactions by another. */
  predicate TellsVoid(txs: seq<Transaction>, row: AuditRow) {
    exists i, j :: && 0 <= i < |txs| && 0 <= j < |txs| && txs[j].reversalOf == Some(txs[i].id)
                   && row.entity == txs[i].id && row.action == Void
                   && row.before == Some(Snapshot(txs[i].id, Posted, Some(txs[i].description), Some(txs[i].date),
                                                  None, None))
                   && row.after == Snapshot(txs[i].id, Voided, None, None, None, Some(txs[j].id))
  }

  lemma {:induction false} StillTells(txs: seq<Transaction>, t: Transaction, row: AuditRow)
    requires TellsCreation(txs, row) || TellsVoid(txs, row)
    ensures TellsCreation(txs + [t], row) || TellsVoid(txs + [t], row)
  {
    assert forall i | 0 <= i < |txs| :: (txs + [t])[i] == txs[i];
    if TellsCreation(txs, row) {
      var i :| && 0 <= i < |txs| && row.entity == txs[i].id && row.action == Create && row.before == None
               && row.after == Snapshot(txs[i].id, Posted, Some(txs[i].description),
                                        if txs[i].reversalOf.None? then Some(txs[i].date) else None,
                                        txs[i].reversalOf, None);
      assert (txs + [t])[i] == txs[i];
    }
  }

  lemma {:induction false} NewRowsTell(rest: seq<Transaction>, t: Transaction, row: AuditRow)
    requires row in ExpectedRows(rest + [t], |rest|)
    ensures TellsCreation(rest + [t], row) || TellsVoid(rest + [t], row)
  {
    var txs := rest + [t];
    assert txs[..|rest|] == rest && txs[|rest|] == t;
    if row.action == Void {
      var p := Find(rest, t.reversalOf.value).value;
      assert txs[p] == rest[p];
    }
  }

  /** Each audit row tells of the creation of a committed transaction, or of its void, before and after. */
  lemma {:induction false} RowsTell(txs: seq<Transaction>, row: AuditRow)
    requires row in ExpectedAudit(txs)
    ensures TellsCreation(txs, row) || TellsVoid(txs, row)
  {
    var rest, t := txs[..|txs| - 1], txs[|txs| - 1];
    assert txs == rest + [t];
    if row in ExpectedAudit(rest) {
      RowsTell(rest, row);
      StillTells(rest, t, row);
    } else {
      NewRowsTell(rest, t, row);
    }
  }

  lemma {:induction false} AuditTells(audit: seq<AuditRow>, txs: seq<Transaction>, a: nat)
    requires Erase(audit) == ExpectedAudit(txs) && a < |audit|
    ensures TellsCreation(txs, audit[a]) || TellsVoid(txs, audit[a])
  {
    var row := audit[a].(user := 0);
    assert Erase(audit)[a] == row;
    RowsTell(txs, row);
  }
}
