/**
 * Cached balances: readers that get, compute and set, and writers that commit, then scan and delete the
 * keys of their accounts, interleaved one command at a time.
 */
module BalanceCache {
  import opened Prelude
  import opened Ledger
  import opened Posting
  import Books

  type ReaderId = nat

  const TTL_SECONDS := 60
  const TTL_HISTORICAL_SECONDS := 86_400

  datatype Key = Key(account: Uuid, asOf: Date)

  datatype Answer = Answer(balance: int, currency: string)

  /**
   * What was read, and when: `seen` commits were in the database, `readAt` is the step and `loadedAt` the
   * time of the read.
   */
  datatype Load = Load(answer: Answer, seen: nat, readAt: nat, loadedAt: Instant)

  /**
   * A cached answer and its expiry; the rest remembers where it came from, when it was set, and what day it
   * was then.
   */
  datatype Slot = Slot(load: Load, expires: Instant, setAt: nat, storedAt: Instant, today: Date)

  datatype Reader =
    | Missed(key: Key)
    | Loaded(key: Key, load: Load)
    | NotFound
    | Served(answer: Answer)

  datatype Scan = Scan(account: Uuid, keys: set<Key>)

  /**
   * The request that made a commit: the accounts it has still to invalidate, the scan whose keys it is
   * about to delete, the steps of its scans, and whether Redis or the process has failed it.
   */
  datatype Writer = Writer(
    committedAt: nat,
    time: Instant,
    todo: set<Uuid>,
    scan: Option<Scan>,
    scans: map<Uuid, nat>,
    gaveUp: bool)

  /** Writer c made the commit txs[c]. */
  datatype State = State(
    accounts: map<Uuid, string>,
    txs: seq<Transaction>,
    writers: seq<Writer>,
    cache: map<Key, Slot>,
    readers: map<ReaderId, Reader>,
    clock: nat,
    now: Instant)

  datatype Event =
    | AddAccount(account: Uuid, currency: string)
    | Commit(marks: set<Uuid>, tx: Transaction)
    | ScanKeys(c: nat, account: Uuid)
    | DeleteKeys(c: nat)
    | GiveUp(c: nat)
    | Get(r: ReaderId, key: Key, redisFails: bool)
    | ReadDatabase(r: ReaderId)
    | Set(r: ReaderId, today: Date, redisFails: bool)
    | Evict(key: Key)
    | Tick(seconds: nat)

  function Ttl(asOf: Date, today: Date): nat {
    if asOf < today then TTL_HISTORICAL_SECONDS else TTL_SECONDS
  }

  /** What GET returns: nothing once the entry has expired. */
  function Cached(st: State, key: Key): Option<Slot> {
    if key in st.cache && st.now < st.cache[key].expires then Some(st.cache[key]) else None
  }

  function KeysOf(cache: map<Key, Slot>, account: Uuid): set<Key> {
    set k | k in cache && k.account == account
  }

  function CommitStep(st: State, marks: set<Uuid>, tx: Transaction): State {
    st.(txs := Mark(st.txs, marks) + [tx],
        writers := st.writers + [Writer(st.clock, st.now, Accounts(tx.entries), None, map[], false)])
  }

  predicate CanScan(st: State, c: nat, account: Uuid) {
    c < |st.writers| && !st.writers[c].gaveUp && st.writers[c].scan.None? && account in st.writers[c].todo
  }

  function ScanStep(st: State, c: nat, account: Uuid): State
    requires CanScan(st, c, account)
  {
    var w := st.writers[c];
    st.(writers := st.writers[c := w.(scan := Some(Scan(account, KeysOf(st.cache, account))),
                                      scans := w.scans[account := st.clock])])
  }

  predicate CanDelete(st: State, c: nat) {
    c < |st.writers| && !st.writers[c].gaveUp && st.writers[c].scan.Some?
  }

  function DeleteStep(st: State, c: nat): State
    requires CanDelete(st, c)
  {
    var w := st.writers[c];
    st.(writers := st.writers[c := w.(scan := None, todo := w.todo - {w.scan.value.account})],
        cache := st.cache - w.scan.value.keys)
  }

  function ReadStep(st: State, r: ReaderId, key: Key): State {
    st.(readers := st.readers[r :=
      if key.account !in st.accounts then NotFound
      else Loaded(key, Load(Answer(CalculateBalance(st.txs, key.account, key.asOf), st.accounts[key.account]),
                            |st.txs|, st.clock, st.now))])
  }

  function SetStep(st: State, r: ReaderId, key: Key, load: Load, today: Date, redisFails: bool): State {
    st.(readers := st.readers[r := Served(load.answer)],
        cache := if redisFails then st.cache
                 else st.cache[key := Slot(load, st.now + Ttl(key.asOf, today), st.clock, st.now, today)])
  }

  function GetStep(st: State, r: ReaderId, key: Key, redisFails: bool): State {
    var cached := if redisFails then None else Cached(st, key);
    st.(readers := st.readers[r := if cached.Some? then Served(cached.value.load.answer) else Missed(key)])
  }

  function Act(st: State, ev: Event): State {
    match ev
    case AddAccount(a, currency) =>
      if a in st.accounts then st else st.(accounts := st.accounts[a := currency])
    case Commit(marks, tx) => if tx.status == Posted then CommitStep(st, marks, tx) else st
    case ScanKeys(c, account) => if CanScan(st, c, account) then ScanStep(st, c, account) else st
    case DeleteKeys(c) => if CanDelete(st, c) then DeleteStep(st, c) else st
    case GiveUp(c) =>
      if c < |st.writers| then st.(writers := st.writers[c := st.writers[c].(gaveUp := true)]) else st
    case Get(r, key, redisFails) => if r in st.readers then st else GetStep(st, r, key, redisFails)
    case ReadDatabase(r) =>
      if r in st.readers && st.readers[r].Missed? then ReadStep(st, r, st.readers[r].key) else st
    case Set(r, today, redisFails) =>
      if r in st.readers && st.readers[r].Loaded?
      then SetStep(st, r, st.readers[r].key, st.readers[r].load, today, redisFails) else st
    case Evict(key) => st.(cache := st.cache - {key})
    case Tick(seconds) => st.(now := st.now + seconds)
  }

  function Step(st: State, ev: Event): State {
    Act(st, ev).(clock := st.clock + 1)
  }

  const INIT := State(map[], [], [], map[], map[], 0, 0)

  function Run(events: seq<Event>): State {
    if events == [] then INIT else Step(Run(events[..|events| - 1]), events[|events| - 1])
  }

  /******* Where every cached value comes from *******/

  /** The answer is the account's balance after the first `seen` commits. */
  predicate TrueOf(st: State, key: Key, load: Load) {
    && load.seen <= |st.txs|
    && load.answer.balance == CalculateBalance(st.txs[..load.seen], key.account, key.asOf)
    && key.account in st.accounts && load.answer.currency == st.accounts[key.account]
  }

  /** The read came after the commits it saw and before the others. */
  predicate Timed(st: State, load: Load) {
    && load.readAt < st.clock && load.loadedAt <= st.now
    && forall c: nat | c < |st.writers| ::
         if c < load.seen then st.writers[c].committedAt < load.readAt && st.writers[c].time <= load.loadedAt
         else load.readAt < st.writers[c].committedAt && load.loadedAt <= st.writers[c].time
  }

  /** Writer w scanned the account's keys after the slot's answer was read and before it was set. */
  predicate Overtaken(w: Writer, account: Uuid, slot: Slot) {
    account in w.scans && slot.load.readAt < w.scans[account] < slot.setAt
  }

  /** Each commit to the key's account that the slot missed is still to be invalidated, or was overtaken. */
  predicate Accounted(st: State, key: Key, slot: Slot) {
    forall c: nat | slot.load.seen <= c < |st.txs| && c < |st.writers| && key.account in Accounts(st.txs[c].entries) ::
      key.account in st.writers[c].todo || Overtaken(st.writers[c], key.account, slot)
  }

  predicate SlotTimes(st: State, key: Key, slot: Slot) {
    && slot.setAt < st.clock && slot.load.readAt < slot.setAt
    && slot.load.loadedAt <= slot.storedAt <= st.now
    && slot.expires == slot.storedAt + Ttl(key.asOf, slot.today)
  }

  predicate SlotInv(st: State, key: Key, slot: Slot) {
    TrueOf(st, key, slot.load) && Timed(st, slot.load) && SlotTimes(st, key, slot) && Accounted(st, key, slot)
  }

  predicate WriterInv(st: State, c: nat)
    requires c < |st.writers| == |st.txs|
  {
    var w := st.writers[c];
    && w.committedAt < st.clock && w.time <= st.now
    && (forall a | a in Accounts(st.txs[c].entries) :: a in w.todo || a in w.scans)
    && (forall a | a in w.scans :: w.committedAt < w.scans[a] < st.clock)
    && (w.scan.Some? ==> w.scan.value.account in w.scans)
  }

  /** Cached keys of the scanned account that the scan did not find were set after it. */
  predicate ScanInv(cache: map<Key, Slot>, w: Writer) {
    w.scan.Some? && w.scan.value.account in w.scans ==>
      forall k | k in cache && k.account == w.scan.value.account && k !in w.scan.value.keys ::
        w.scans[k.account] < cache[k].setAt
  }

  predicate ReaderInv(st: State, reader: Reader) {
    reader.Loaded? ==> TrueOf(st, reader.key, reader.load) && Timed(st, reader.load)
  }

  predicate Basics(st: State) {
    && |st.writers| == |st.txs|
    && (forall i | 0 <= i < |st.txs| :: Counts(st.txs[i].status))
    && (forall c: nat | c < |st.writers| :: WriterInv(st, c))
  }

  predicate CacheInv(st: State) {
    && (forall k | k in st.cache :: SlotInv(st, k, st.cache[k]))
    && (forall c: nat | c < |st.writers| :: ScanInv(st.cache, st.writers[c]))
  }

  predicate ReadersInv(st: State) {
    forall r | r in st.readers :: ReaderInv(st, st.readers[r])
  }

  predicate Inv(st: State) {
    Basics(st) && CacheInv(st) && ReadersInv(st)
  }

  /******* Steps that commit nothing *******/

  predicate SameWriter(w: Writer, w': Writer) {
    w'.committedAt == w.committedAt && w'.time == w.time
  }

  predicate Later(st: State, st': State) {
    && st'.txs == st.txs && |st'.writers| == |st.writers|
    && (forall a | a in st.accounts :: a in st'.accounts && st'.accounts[a] == st.accounts[a])
    && (forall c: nat | c < |st.writers| :: SameWriter(st.writers[c], st'.writers[c]))
    && st.clock <= st'.clock && st.now <= st'.now
  }

  lemma {:induction false} LoadStays(st: State, st': State, key: Key, load: Load)
    requires Later(st, st') && TrueOf(st, key, load) && Timed(st, load)
    ensures TrueOf(st', key, load) && Timed(st', load)
  {
    forall c: nat | c < |st'.writers|
      ensures if c < load.seen then st'.writers[c].committedAt < load.readAt && st'.writers[c].time <= load.loadedAt
              else load.readAt < st'.writers[c].committedAt && load.loadedAt <= st'.writers[c].time
    {
      assert SameWriter(st.writers[c], st'.writers[c]);
    }
  }

  lemma {:induction false} ReadersStay(st: State, st': State)
    requires Later(st, st') && ReadersInv(st) && st'.readers == st.readers
    ensures ReadersInv(st')
  {
    forall r | r in st'.readers ensures ReaderInv(st', st'.readers[r]) {
      assert ReaderInv(st, st.readers[r]);
      if st.readers[r].Loaded? {
        LoadStays(st, st', st.readers[r].key, st.readers[r].load);
      }
    }
  }

  lemma {:induction false} SlotStays(st: State, st': State, key: Key, slot: Slot)
    requires Later(st, st') && SlotInv(st, key, slot) && Accounted(st', key, slot)
    ensures SlotInv(st', key, slot)
  {
    LoadStays(st, st', key, slot.load);
  }

  /** Writers unchanged, and at most keys gone from the cache. */
  lemma {:induction false} SlotsStay(st: State, st': State)
    requires Later(st, st') && st'.writers == st.writers && CacheInv(st)
    requires forall k | k in st'.cache :: k in st.cache && st'.cache[k] == st.cache[k]
    ensures CacheInv(st')
  {
    forall k | k in st'.cache ensures SlotInv(st', k, st'.cache[k]) {
      assert SlotInv(st, k, st.cache[k]);
      assert Accounted(st', k, st.cache[k]) == Accounted(st, k, st.cache[k]);
      SlotStays(st, st', k, st.cache[k]);
    }
    forall c: nat | c < |st'.writers| ensures ScanInv(st'.cache, st'.writers[c]) {
      assert ScanInv(st.cache, st.writers[c]);
    }
  }

  lemma {:induction false} BasicsStay(st: State, st': State)
    requires Later(st, st') && st'.writers == st.writers && Basics(st)
    ensures Basics(st')
  {
    forall c: nat | c < |st'.writers| ensures WriterInv(st', c) {
      assert WriterInv(st, c);
    }
  }

  /** An event that does nothing still takes a step. */
  lemma {:induction false} TickClock(st: State)
    requires Inv(st)
    ensures Inv(st.(clock := st.clock + 1))
  {
    BasicsStay(st, st.(clock := st.clock + 1));
    SlotsStay(st, st.(clock := st.clock + 1));
    ReadersStay(st, st.(clock := st.clock + 1));
  }

  /** Eviction, time, new accounts. */
  lemma {:induction false} QuietStepKeepsInv(st: State, ev: Event)
    requires ev.AddAccount? || ev.Evict? || ev.Tick?
    requires Inv(st)
    ensures Inv(Step(st, ev))
  {
    var st' := Step(st, ev);
    BasicsStay(st, st');
    SlotsStay(st, st');
    ReadersStay(st, st');
  }

  /******* Readers *******/

  lemma {:induction false} ReaderBecomes(st: State, r: ReaderId, reader: Reader)
    requires ReaderInv(st, reader)
    requires Inv(st)
    ensures Inv(st.(readers := st.readers[r := reader]))
  {
    var st' := st.(readers := st.readers[r := reader]);
    BasicsStay(st, st');
    SlotsStay(st, st');
    forall s | s in st'.readers ensures ReaderInv(st', st'.readers[s]) {
      if s != r {
        assert ReaderInv(st, st.readers[s]);
      }
    }
  }

  lemma {:induction false} ReadIsTrue(st: State, r: ReaderId, key: Key)
    requires Basics(st)
    ensures ReaderInv(st.(clock := st.clock + 1), ReadStep(st, r, key).readers[r])
  {
    assert st.txs[..|st.txs|] == st.txs;
    forall c: nat | c < |st.writers| ensures st.writers[c].committedAt < st.clock && st.writers[c].time <= st.now {
      assert WriterInv(st, c);
    }
  }

  lemma {:induction false} StoredSlot(st: State, key: Key, load: Load, today: Date)
    requires TrueOf(st, key, load) && Timed(st, load)
    requires Basics(st)
    ensures var slot := Slot(load, st.now + Ttl(key.asOf, today), st.clock, st.now, today);
            SlotInv(st.(clock := st.clock + 1), key, slot)
  {
    var slot := Slot(load, st.now + Ttl(key.asOf, today), st.clock, st.now, today);
    forall c: nat | load.seen <= c < |st.txs| && key.account in Accounts(st.txs[c].entries)
      ensures key.account in st.writers[c].todo || Overtaken(st.writers[c], key.account, slot)
    {
      assert WriterInv(st, c);
    }
  }

  lemma {:induction false} StoredAfterScans(st: State, key: Key, slot: Slot)
    requires slot.setAt == st.clock
    requires Basics(st) && CacheInv(st)
    ensures forall c: nat | c < |st.writers| :: ScanInv(st.cache[key := slot], st.writers[c])
  {
    forall c: nat | c < |st.writers| ensures ScanInv(st.cache[key := slot], st.writers[c]) {
      assert ScanInv(st.cache, st.writers[c]) && WriterInv(st, c);
    }
  }

  lemma {:induction false} CacheApart(st: State, cache: map<Key, Slot>, k: Key, slot: Slot)
    requires SlotInv(st, k, slot)
    ensures SlotInv(st.(cache := cache), k, slot)
  {
    assert Accounted(st.(cache := cache), k, slot);
  }

  lemma {:induction false} InsertKeepsCache(st: State, key: Key, slot: Slot)
    requires SlotInv(st, key, slot)
    requires forall c: nat | c < |st.writers| :: ScanInv(st.cache[key := slot], st.writers[c])
    requires CacheInv(st)
    ensures CacheInv(st.(cache := st.cache[key := slot]))
  {
    var st' := st.(cache := st.cache[key := slot]);
    forall k | k in st'.cache ensures SlotInv(st', k, st'.cache[k]) {
      CacheApart(st, st'.cache, k, st'.cache[k]);
    }
  }

  lemma {:induction false} SetKeepsCache(st: State, key: Key, load: Load, today: Date)
    requires TrueOf(st, key, load) && Timed(st, load)
    requires CacheInv(st.(clock := st.clock + 1))
    requires Basics(st) && CacheInv(st)
    ensures CacheInv(st.(cache := st.cache[key := Slot(load, st.now + Ttl(key.asOf, today), st.clock, st.now, today)],
                         clock := st.clock + 1))
  {
    var slot := Slot(load, st.now + Ttl(key.asOf, today), st.clock, st.now, today);
    StoredSlot(st, key, load, today);
    StoredAfterScans(st, key, slot);
    InsertKeepsCache(st.(clock := st.clock + 1), key, slot);
  }

  lemma {:induction false} SetKeepsInv(st: State, key: Key, load: Load, today: Date)
    requires TrueOf(st, key, load) && Timed(st, load)
    requires Inv(st)
    ensures Inv(st.(cache := st.cache[key := Slot(load, st.now + Ttl(key.asOf, today), st.clock, st.now, today)],
                    clock := st.clock + 1))
  {
    var st' := st.(cache := st.cache[key := Slot(load, st.now + Ttl(key.asOf, today), st.clock, st.now, today)],
                   clock := st.clock + 1);
    BasicsStay(st, st');
    TickClock(st);
    SetKeepsCache(st, key, load, today);
    ReadersStay(st, st');
  }

  lemma {:induction false} GetKeepsInv(st: State, r: ReaderId, key: Key, redisFails: bool)
    requires Inv(st)
    ensures Inv(Step(st, Get(r, key, redisFails)))
  {
    TickClock(st);
    if r !in st.readers {
      ReaderBecomes(st.(clock := st.clock + 1), r, GetStep(st, r, key, redisFails).readers[r]);
    }
  }

  lemma {:induction false} ReadKeepsInv(st: State, r: ReaderId)
    requires Inv(st)
    ensures Inv(Step(st, ReadDatabase(r)))
  {
    TickClock(st);
    if r in st.readers && st.readers[r].Missed? {
      ReadIsTrue(st, r, st.readers[r].key);
      ReaderBecomes(st.(clock := st.clock + 1), r, ReadStep(st, r, st.readers[r].key).readers[r]);
    }
  }

  lemma {:induction false} SetStepKeepsInv(st: State, r: ReaderId, today: Date, redisFails: bool)
    requires Inv(st)
    ensures Inv(Step(st, Set(r, today, redisFails)))
  {
    TickClock(st);
    if r in st.readers && st.readers[r].Loaded? {
      var key, load := st.readers[r].key, st.readers[r].load;
      assert ReaderInv(st, st.readers[r]);
      SetKeepsInv(st, key, load, today);
      ReaderBecomes(st.(cache := SetStep(st, r, key, load, today, redisFails).cache, clock := st.clock + 1), r,
                    Served(load.answer));
    }
  }

  /******* Writers *******/

  /** Writer c takes a step of its own. */
  lemma {:induction false} WriterMoves(st: State, st': State, c: nat, w: Writer)
    requires c < |st.writers| && st' == st.(writers := st.writers[c := w], clock := st.clock + 1)
    requires SameWriter(st.writers[c], w)
    requires |st.writers| == |st.txs| && WriterInv(st', c)
    requires Basics(st)
    ensures Basics(st') && Later(st, st')
  {
    forall d: nat | d < |st'.writers| ensures WriterInv(st', d) {
      if d != c {
        assert WriterInv(st, d);
      }
    }
  }

  /** A writer that only gains scans or gives up leaves every slot accounted for. */
  lemma {:induction false} SlotsStayBut(st: State, st': State, c: nat, w: Writer)
    requires c < |st.writers| && st' == st.(writers := st.writers[c := w], clock := st.clock + 1)
    requires Later(st, st') && st.writers[c].todo == w.todo
    requires forall a | a in st.writers[c].scans && a !in w.todo :: a in w.scans && w.scans[a] == st.writers[c].scans[a]
    requires ScanInv(st.cache, w)
    requires CacheInv(st)
    ensures CacheInv(st')
  {
    forall k | k in st'.cache ensures SlotInv(st', k, st'.cache[k]) {
      assert SlotInv(st, k, st.cache[k]);
      assert Accounted(st', k, st.cache[k]);
      SlotStays(st, st', k, st.cache[k]);
    }
    forall d: nat | d < |st'.writers| ensures ScanInv(st'.cache, st'.writers[d]) {
      if d != c {
        assert ScanInv(st.cache, st.writers[d]);
      }
    }
  }

  lemma {:induction false} ScanKeepsInv(st: State, c: nat, account: Uuid)
    requires CanScan(st, c, account)
    requires Inv(st)
    ensures Inv(Step(st, ScanKeys(c, account)))
  {
    var st' := Step(st, ScanKeys(c, account));
    var w := st'.writers[c];
    assert WriterInv(st, c);
    WriterMoves(st, st', c, w);
    SlotsStayBut(st, st', c, w);
    ReadersStay(st, st');
  }

  lemma {:induction false} GiveUpKeepsInv(st: State, c: nat)
    requires c < |st.writers|
    requires Inv(st)
    ensures Inv(Step(st, GiveUp(c)))
  {
    var st' := Step(st, GiveUp(c));
    var w := st'.writers[c];
    assert WriterInv(st, c) && ScanInv(st.cache, st.writers[c]);
    WriterMoves(st, st', c, w);
    SlotsStayBut(st, st', c, w);
    ReadersStay(st, st');
  }

  lemma {:induction false} DeletedAccountIsOvertaken(st: State, c: nat, k: Key, slot: Slot)
    requires CanDelete(st, c) && k in st.cache && st.cache[k] == slot
    requires k.account == st.writers[c].scan.value.account && k !in st.writers[c].scan.value.keys
    requires slot.load.seen <= c && Timed(st, slot.load) && ScanInv(st.cache, st.writers[c])
    requires |st.writers| == |st.txs| && WriterInv(st, c)
    ensures Overtaken(st.writers[c], k.account, slot)
  {
  }

  lemma {:induction false} DeleteKeepsCache(st: State, c: nat)
    requires CanDelete(st, c) && Later(st, Step(st, DeleteKeys(c)))
    requires Basics(st) && CacheInv(st)
    ensures CacheInv(Step(st, DeleteKeys(c)))
  {
    var st' := Step(st, DeleteKeys(c));
    var scan := st.writers[c].scan.value;
    forall k | k in st'.cache ensures SlotInv(st', k, st'.cache[k]) {
      var slot := st.cache[k];
      assert SlotInv(st, k, slot) && WriterInv(st, c) && ScanInv(st.cache, st.writers[c]);
      if k.account == scan.account && slot.load.seen <= c {
        DeletedAccountIsOvertaken(st, c, k, slot);
      }
      assert Accounted(st', k, slot);
      SlotStays(st, st', k, slot);
    }
    forall d: nat | d < |st'.writers| ensures ScanInv(st'.cache, st'.writers[d]) {
      assert ScanInv(st.cache, st.writers[d]);
    }
  }

  lemma {:induction false} DeleteKeepsInv(st: State, c: nat)
    requires CanDelete(st, c)
    requires Inv(st)
    ensures Inv(Step(st, DeleteKeys(c)))
  {
    var st' := Step(st, DeleteKeys(c));
    var w := st'.writers[c];
    var moved := st.(writers := st.writers[c := w], clock := st.clock + 1);
    assert WriterInv(st, c);
    WriterMoves(st, moved, c, w);
    BasicsStay(moved, st');
    DeleteKeepsCache(st, c);
    ReadersStay(st, st');
  }

  /******* Commits *******/

  /** Voiding rows and adding one leaves the balances of every earlier prefix. */
  lemma {:induction false} PrefixBalance(txs: seq<Transaction>, marks: set<Uuid>, tx: Transaction, n: nat,
                                         account: Uuid, asOf: Date)
    requires n <= |txs| && forall i | 0 <= i < |txs| :: Counts(txs[i].status)
    ensures CalculateBalance((Mark(txs, marks) + [tx])[..n], account, asOf) == CalculateBalance(txs[..n], account, asOf)
  {
    assert (Mark(txs, marks) + [tx])[..n] == Mark(txs[..n], marks);
    Books.MarkKeepsBalances(txs[..n], marks, account, asOf);
    QueryIsSignedFold(Mark(txs[..n], marks), account, asOf);
    QueryIsSignedFold(txs[..n], account, asOf);
  }

  lemma {:induction false} LoadOutlivesCommit(st: State, marks: set<Uuid>, tx: Transaction, key: Key, load: Load)
    requires TrueOf(st, key, load) && Timed(st, load)
    requires |st.writers| == |st.txs| && forall i | 0 <= i < |st.txs| :: Counts(st.txs[i].status)
    ensures var st' := CommitStep(st, marks, tx).(clock := st.clock + 1); TrueOf(st', key, load) && Timed(st', load)
  {
    PrefixBalance(st.txs, marks, tx, load.seen, key.account, key.asOf);
  }

  lemma {:induction false} AccountedOutlivesCommit(st: State, marks: set<Uuid>, tx: Transaction, key: Key, slot: Slot)
    requires Accounted(st, key, slot) && |st.writers| == |st.txs|
    ensures Accounted(CommitStep(st, marks, tx).(clock := st.clock + 1), key, slot)
  {
    var st' := CommitStep(st, marks, tx);
    assert forall c: nat | c < |st.txs| :: st'.txs[c].entries == st.txs[c].entries && st'.writers[c] == st.writers[c];
  }

  lemma {:induction false} CommitKeepsBasics(st: State, marks: set<Uuid>, tx: Transaction)
    requires Basics(st) && tx.status == Posted
    ensures Basics(CommitStep(st, marks, tx).(clock := st.clock + 1))
  {
    var st' := CommitStep(st, marks, tx).(clock := st.clock + 1);
    forall c: nat | c < |st'.writers| ensures WriterInv(st', c) {
      if c < |st.writers| {
        assert WriterInv(st, c);
        assert st'.txs[c].entries == st.txs[c].entries;
      }
    }
  }

  lemma {:induction false} CommitKeepsCache(st: State, marks: set<Uuid>, tx: Transaction)
    requires Basics(st) && CacheInv(st)
    ensures CacheInv(CommitStep(st, marks, tx).(clock := st.clock + 1))
  {
    var st' := CommitStep(st, marks, tx).(clock := st.clock + 1);
    forall k | k in st'.cache ensures SlotInv(st', k, st'.cache[k]) {
      assert SlotInv(st, k, st.cache[k]);
      LoadOutlivesCommit(st, marks, tx, k, st.cache[k].load);
      AccountedOutlivesCommit(st, marks, tx, k, st.cache[k]);
    }
    forall c: nat | c < |st'.writers| ensures ScanInv(st'.cache, st'.writers[c]) {
      if c < |st.writers| {
        assert ScanInv(st.cache, st.writers[c]);
      }
    }
  }

  lemma {:induction false} CommitKeepsInv(st: State, marks: set<Uuid>, tx: Transaction)
    requires tx.status == Posted
    requires Inv(st)
    ensures Inv(Step(st, Commit(marks, tx)))
  {
    var st' := Step(st, Commit(marks, tx));
    CommitKeepsBasics(st, marks, tx);
    CommitKeepsCache(st, marks, tx);
    forall r | r in st'.readers ensures ReaderInv(st', st'.readers[r]) {
      assert ReaderInv(st, st.readers[r]);
      if st.readers[r].Loaded? {
        LoadOutlivesCommit(st, marks, tx, st.readers[r].key, st.readers[r].load);
      }
    }
  }

  lemma {:induction false} StepKeepsInv(st: State, ev: Event)
    requires Inv(st)
    ensures Inv(Step(st, ev))
  {
    TickClock(st);
    match ev
    case Commit(marks, tx) => if tx.status == Posted { CommitKeepsInv(st, marks, tx); }
    case ScanKeys(c, account) => if CanScan(st, c, account) { ScanKeepsInv(st, c, account); }
    case DeleteKeys(c) => if CanDelete(st, c) { DeleteKeepsInv(st, c); }
    case GiveUp(c) => if c < |st.writers| { GiveUpKeepsInv(st, c); }
    case Get(r, key, redisFails) => GetKeepsInv(st, r, key, redisFails);
    case ReadDatabase(r) => ReadKeepsInv(st, r);
    case Set(r, today, redisFails) => SetStepKeepsInv(st, r, today, redisFails);
    case _ => QuietStepKeepsInv(st, ev);
  }

  lemma {:induction false} RunKeepsInv(events: seq<Event>)
    ensures Inv(Run(events))
  {
    if events != [] {
      RunKeepsInv(events[..|events| - 1]);
      StepKeepsInv(Run(events[..|events| - 1]), events[|events| - 1]);
    }
  }

  /******* What a hit says *******/

  function Current(st: State, key: Key): int {
    CalculateBalance(st.txs, key.account, key.asOf)
  }

  lemma {:induction false} ReachableSlot(events: seq<Event>, key: Key)
    requires key in Run(events).cache
    ensures SlotInv(Run(events), key, Run(events).cache[key])
    ensures |Run(events).writers| == |Run(events).txs|
  {
    RunKeepsInv(events);
  }

  lemma {:induction false} ReachableWriters(events: seq<Event>)
    ensures var writers := Run(events).writers;
            forall c: nat, a | c < |writers| && a in writers[c].scans :: writers[c].committedAt < writers[c].scans[a]
  {
    RunKeepsInv(events);
    var st := Run(events);
    forall c: nat, a | c < |st.writers| && a in st.writers[c].scans
      ensures st.writers[c].committedAt < st.writers[c].scans[a]
    {
      assert WriterInv(st, c);
    }
  }

  /**
   * In every interleaving a cached value is the balance after the commits made before it was read, and each
   * later commit to its account is still to be invalidated by its writer, or was made and scanned by it
   * between that read and the set.
   */
  lemma {:induction false} CachedValuesAreAccounted(events: seq<Event>, key: Key)
    requires key in Run(events).cache
    ensures var st := Run(events); var slot := st.cache[key]; var load := slot.load;
            && load.seen <= |st.txs| == |st.writers|
            && load.answer.balance == CalculateBalance(st.txs[..load.seen], key.account, key.asOf)
            && (forall c: nat | c < load.seen :: st.writers[c].committedAt < load.readAt)
            && (forall c: nat | load.seen <= c < |st.txs| && key.account in Accounts(st.txs[c].entries) ::
                  || key.account in st.writers[c].todo
                  || (key.account in st.writers[c].scans
                      && load.readAt < st.writers[c].committedAt < st.writers[c].scans[key.account] < slot.setAt))
  {
    ReachableSlot(events, key);
    ReachableWriters(events);
  }

  /** A cached value is off by what the commits it missed did to the balance: it is current iff they cancel out. */
  lemma {:induction false} StalenessIsUnseenCommits(events: seq<Event>, key: Key)
    requires key in Run(events).cache
    ensures var st := Run(events); var load := st.cache[key].load;
            && load.seen <= |st.txs|
            && Current(st, key) - load.answer.balance == Sum(st.txs[load.seen..], EffectOn(key.account, key.asOf))
  {
    ReachableSlot(events, key);
    var st, seen := Run(events), Run(events).cache[key].load.seen;
    assert st.txs == st.txs[..seen] + st.txs[seen..];
    SumConcat(st.txs[..seen], st.txs[seen..], EffectOn(key.account, key.asOf));
    QueryIsSignedFold(st.txs, key.account, key.asOf);
    QueryIsSignedFold(st.txs[..seen], key.account, key.asOf);
  }

  /**
   * A set that reaches Redis stores the reader's answer to last a day if its date is past and a minute if not;
   * any set serves it.
   */
  lemma {:induction false} SetIsDecided(st: State, r: ReaderId, today: Date, redisFails: bool)
    requires r in st.readers && st.readers[r].Loaded?
    ensures var st', key, load := Step(st, Set(r, today, redisFails)), st.readers[r].key, st.readers[r].load;
            && st'.readers[r] == Served(load.answer)
            && (redisFails ==> st'.cache == st.cache)
            && (!redisFails ==>
                  && key in st'.cache && st'.cache - {key} == st.cache - {key}
                  && st'.cache[key].load == load
                  && st'.cache[key].expires == st.now + if key.asOf < today then 86_400 else 60)
  {
  }

  /** Entries go, time passes, accounts come and writers fail without anything else changing. */
  lemma {:induction false} WorldMoves(st: State, key: Key, seconds: nat, account: Uuid, currency: string, c: nat)
    ensures Step(st, Evict(key)) == st.(cache := st.cache - {key}, clock := st.clock + 1)
    ensures Step(st, Tick(seconds)) == st.(now := st.now + seconds, clock := st.clock + 1)
    ensures account !in st.accounts ==>
              Step(st, AddAccount(account, currency)).accounts == st.accounts[account := currency]
    ensures c < |st.writers| ==>
              var after := Step(st, GiveUp(c));
              && |after.writers| == |st.writers| && after.writers[c] == st.writers[c].(gaveUp := true)
              && after.cache == st.cache && after.txs == st.txs
  {
  }

  /** A get that reaches Redis is served exactly if the entry is there and has not expired. */
  lemma {:induction false} GetIsDecided(st: State, r: ReaderId, key: Key, redisFails: bool)
    requires r !in st.readers
    ensures var st' := Step(st, Get(r, key, redisFails));
            && r in st'.readers && st'.cache == st.cache
            && st'.readers[r] == if !redisFails && key in st.cache && st.now < st.cache[key].expires
                                 then Served(st.cache[key].load.answer) else Missed(key)
  {
  }

  /**
   * Whatever fails, a value served at time t counts every commit older than t less the time it was set to
   * last, a day if its date was past and a minute if not, and the time its reader took from its read to its
   * set.
   */
  lemma {:induction false} HitsAreBoundedlyStale(events: seq<Event>, r: ReaderId, key: Key)
    requires var st := Run(events); r !in st.readers && key in st.cache && st.now < st.cache[key].expires
    ensures var st := Run(events); var slot := st.cache[key]; var load := slot.load;
            && Step(st, Get(r, key, false)).readers[r] == Served(load.answer)
            && load.seen <= |st.txs| == |st.writers|
            && key.account in st.accounts
            && load.answer == Answer(CalculateBalance(st.txs[..load.seen], key.account, key.asOf),
                                     st.accounts[key.account])
            && (forall c: nat | load.seen <= c < |st.writers| ::
                  st.now - (if key.asOf < slot.today then 86_400 else 60) - (slot.storedAt - load.loadedAt)
                    < st.writers[c].time)
  {
    ReachableSlot(events, key);
  }

  /******* Reads that no commit overtakes *******/

  predicate Reading(st: State, account: Uuid) {
    exists r | r in st.readers :: st.readers[r].Loaded? && st.readers[r].key.account == account
  }

  /** No commit to an account between a reader's database read of that account and its set. */
  predicate NoOverlap(events: seq<Event>) {
    if events == [] then true
    else
      var before, ev := events[..|events| - 1], events[|events| - 1];
      && NoOverlap(before)
      && (ev.Commit? && ev.tx.status == Posted ==>
            forall e | e in ev.tx.entries :: !Reading(Run(before), e.account))
  }

  /** No commit to the account is missing from the load. */
  predicate UpToDate(st: State, key: Key, load: Load) {
    forall c: nat | load.seen <= c < |st.txs| :: key.account !in Accounts(st.txs[c].entries)
  }

  /** Every commit to the account that the slot missed came after its set. */
  predicate MissedLater(st: State, key: Key, slot: Slot) {
    forall c: nat | slot.load.seen <= c < |st.txs| && c < |st.writers| && key.account in Accounts(st.txs[c].entries) ::
      slot.setAt < st.writers[c].committedAt
  }

  predicate SlotsApart(st: State) {
    forall k | k in st.cache :: MissedLater(st, k, st.cache[k]) && st.cache[k].setAt < st.clock
  }

  predicate ReadersApart(st: State) {
    forall r | r in st.readers && st.readers[r].Loaded? :: UpToDate(st, st.readers[r].key, st.readers[r].load)
  }

  lemma {:induction false} MissedLaterStays(st: State, st': State, key: Key, slot: Slot)
    requires Later(st, st') && MissedLater(st, key, slot)
    ensures MissedLater(st', key, slot)
  {
    forall c: nat | slot.load.seen <= c < |st'.txs| && c < |st'.writers| && key.account in Accounts(st'.txs[c].entries)
      ensures slot.setAt < st'.writers[c].committedAt
    {
      assert SameWriter(st.writers[c], st'.writers[c]);
    }
  }

  lemma {:induction false} OtherStepsAreLater(st: State, ev: Event)
    requires !ev.Commit?
    ensures Later(st, Step(st, ev))
  {
  }

  lemma {:induction false} ReadersStayApart(st: State, ev: Event)
    requires !ev.Commit? && ReadersApart(st)
    ensures ReadersApart(Step(st, ev))
  {
    var st' := Step(st, ev);
    forall r | r in st'.readers && st'.readers[r].Loaded?
      ensures UpToDate(st', st'.readers[r].key, st'.readers[r].load)
    {
      if r in st.readers && st.readers[r] == st'.readers[r] {
        assert UpToDate(st, st.readers[r].key, st.readers[r].load);
      }
    }
  }

  /** A slot after a step that commits nothing was there before, or was just set from a reader's load. */
  lemma {:induction false} SlotsComeFromReaders(st: State, ev: Event, k: Key)
    requires !ev.Commit? && k in Step(st, ev).cache
    ensures var slot := Step(st, ev).cache[k];
            || (k in st.cache && st.cache[k] == slot)
            || (slot.setAt == st.clock && exists r :: r in st.readers && st.readers[r] == Loaded(k, slot.load))
  {
    if ev.Set? && ev.r in st.readers && st.readers[ev.r].Loaded? && st.readers[ev.r].key == k {
      assert st.readers[ev.r] == Loaded(k, st.readers[ev.r].load);
    }
  }

  lemma {:induction false} SlotsStayApart(st: State, ev: Event)
    requires !ev.Commit? && SlotsApart(st) && ReadersApart(st)
    ensures SlotsApart(Step(st, ev))
  {
    var st' := Step(st, ev);
    OtherStepsAreLater(st, ev);
    forall k | k in st'.cache ensures MissedLater(st', k, st'.cache[k]) && st'.cache[k].setAt < st'.clock {
      var slot := st'.cache[k];
      SlotsComeFromReaders(st, ev, k);
      if k in st.cache && st.cache[k] == slot {
        MissedLaterStays(st, st', k, slot);
      } else {
        var r :| r in st.readers && st.readers[r] == Loaded(k, slot.load);
        assert UpToDate(st, k, slot.load);
        assert MissedLater(st, k, slot);
        MissedLaterStays(st, st', k, slot);
      }
    }
  }

  lemma {:induction false} CommitStaysApart(st: State, marks: set<Uuid>, tx: Transaction)
    requires |st.writers| == |st.txs| && SlotsApart(st) && ReadersApart(st)
    requires forall e | e in tx.entries :: !Reading(st, e.account)
    ensures var st' := CommitStep(st, marks, tx).(clock := st.clock + 1); SlotsApart(st') && ReadersApart(st')
  {
    var st' := CommitStep(st, marks, tx).(clock := st.clock + 1);
    assert forall c: nat | c < |st.txs| :: st'.txs[c].entries == st.txs[c].entries && st'.writers[c] == st.writers[c];
    forall k | k in st'.cache ensures MissedLater(st', k, st'.cache[k]) && st'.cache[k].setAt < st'.clock {
      assert MissedLater(st, k, st.cache[k]);
    }
    forall r | r in st'.readers && st'.readers[r].Loaded?
      ensures UpToDate(st', st'.readers[r].key, st'.readers[r].load)
    {
      assert UpToDate(st, st.readers[r].key, st.readers[r].load);
      assert Reading(st, st.readers[r].key.account);
    }
  }

  lemma {:induction false} RunStaysApart(events: seq<Event>)
    requires NoOverlap(events)
    ensures SlotsApart(Run(events)) && ReadersApart(Run(events))
  {
    if events != [] {
      var before, ev := events[..|events| - 1], events[|events| - 1];
      RunStaysApart(before);
      if ev.Commit? {
        RunKeepsInv(before);
        if ev.tx.status == Posted {
          CommitStaysApart(Run(before), ev.marks, ev.tx);
        }
      } else {
        ReadersStayApart(Run(before), ev);
        SlotsStayApart(Run(before), ev);
      }
    }
  }

  lemma {:induction false} NoEffect(txs: seq<Transaction>, account: Uuid, asOf: Date)
    requires forall i | 0 <= i < |txs| :: account !in Accounts(txs[i].entries) || asOf < txs[i].date
    ensures Sum(txs, EffectOn(account, asOf)) == 0
  {
    forall i | 0 <= i < |txs| ensures EffectOn(account, asOf)(txs[i]) == 0 {
      EffectIsLocal(txs[i], account, asOf);
    }
    SumZero(txs, EffectOn(account, asOf));
  }

  /** The account's writers, for commits as of the key's date, have invalidated it. */
  predicate Invalidated(st: State, key: Key) {
    forall c: nat | c < |st.txs| && c < |st.writers| && st.txs[c].date <= key.asOf :: key.account !in st.writers[c].todo
  }

  /** With no scan overtaking the slot, what it missed is still to be invalidated or does not matter to it. */
  lemma {:induction false} MissedDoNotMatter(st: State, key: Key, slot: Slot)
    requires MissedLater(st, key, slot) && Accounted(st, key, slot) && Invalidated(st, key)
    requires |st.writers| == |st.txs| && slot.load.seen <= |st.txs|
    requires forall c: nat, a | c < |st.writers| && a in st.writers[c].scans ::
               st.writers[c].committedAt < st.writers[c].scans[a]
    ensures Sum(st.txs[slot.load.seen..], EffectOn(key.account, key.asOf)) == 0
  {
    var unseen := st.txs[slot.load.seen..];
    forall i | 0 <= i < |unseen| ensures key.account !in Accounts(unseen[i].entries) || key.asOf < unseen[i].date {
      var c := slot.load.seen + i;
      assert unseen[i] == st.txs[c];
    }
    NoEffect(unseen, key.account, key.asOf);
  }

  /** The commits made after one step and before another. */
  function Window(txs: seq<Transaction>, writers: seq<Writer>, after: nat, before: nat): seq<Transaction>
    requires |txs| == |writers|
  {
    if txs == [] then []
    else
      var last := |txs| - 1;
      Window(txs[..last], writers[..last], after, before)
      + if after < writers[last].committedAt < before then [txs[last]] else []
  }

  lemma {:induction false} NothingInWindow(txs: seq<Transaction>, writers: seq<Writer>, after: nat, before: nat)
    requires |txs| == |writers|
    requires forall c: nat | c < |txs| :: writers[c].committedAt < after
    ensures Window(txs, writers, after, before) == []
  {
    if txs != [] {
      NothingInWindow(txs[..|txs| - 1], writers[..|txs| - 1], after, before);
    }
  }

  lemma {:induction false} SumOfTail(txs: seq<Transaction>, seen: nat, f: Transaction -> int)
    requires seen < |txs|
    ensures Sum(txs[seen..], f) == Sum(txs[..|txs| - 1][seen..], f) + f(txs[|txs| - 1])
  {
    var last := |txs| - 1;
    assert txs[seen..] == txs[..last][seen..] + [txs[last]];
    SumSnoc(txs[..last][seen..], txs[last], f);
  }

  lemma {:induction false} WindowSnoc(txs: seq<Transaction>, writers: seq<Writer>, after: nat, before: nat)
    requires |txs| == |writers| && txs != []
    ensures var last := |txs| - 1;
            var rest := Window(txs[..last], writers[..last], after, before);
            Window(txs, writers, after, before)
              == if after < writers[last].committedAt < before then rest + [txs[last]] else rest
  {
  }

  lemma {:induction false} WindowSum(txs: seq<Transaction>, writers: seq<Writer>, seen: nat, after: nat, before: nat,
                                     f: Transaction -> int)
    requires seen <= |txs| == |writers|
    requires forall c: nat | c < seen :: writers[c].committedAt < after
    requires forall c: nat | seen <= c < |txs| && !(after < writers[c].committedAt < before) :: f(txs[c]) == 0
    ensures Sum(Window(txs, writers, after, before), f) == Sum(txs[seen..], f)
  {
    if seen == |txs| {
      NothingInWindow(txs, writers, after, before);
      assert txs[seen..] == [];
    } else {
      var last := |txs| - 1;
      WindowSum(txs[..last], writers[..last], seen, after, before, f);
      SumOfTail(txs, seen, f);
      SumSnoc(Window(txs[..last], writers[..last], after, before), txs[last], f);
      WindowSnoc(txs, writers, after, before);
    }
  }

  /** Once a slot is invalidated, a commit outside its read-to-set window has no effect on its key. */
  lemma {:induction false} OutsideWindowIsIdle(st: State, key: Key, slot: Slot, c: nat)
    requires Timed(st, slot.load) && Accounted(st, key, slot) && Invalidated(st, key)
    requires |st.writers| == |st.txs| && slot.load.seen <= c < |st.txs|
    requires forall a | a in st.writers[c].scans :: st.writers[c].committedAt < st.writers[c].scans[a]
    requires !(slot.load.readAt < st.writers[c].committedAt < slot.setAt)
    ensures Effect(st.txs[c], key.account, key.asOf) == 0
  {
    assert key.account in st.writers[c].scans ==> !Overtaken(st.writers[c], key.account, slot);
    EffectIsLocal(st.txs[c], key.account, key.asOf);
  }

  /**
   * The race window, exactly: once the writers have invalidated the account, a cached value is off by what
   * the commits between its reader's database read and its set add, so it is current if and only if they
   * cancel out.
   */
  lemma {:induction false} WindowDecides(events: seq<Event>, key: Key)
    requires key in Run(events).cache && Invalidated(Run(events), key)
    ensures var st := Run(events);
            var slot := st.cache[key];
            && |st.writers| == |st.txs|
            && var overlapping := Window(st.txs, st.writers, slot.load.readAt, slot.setAt);
            var off := Sum(overlapping, EffectOn(key.account, key.asOf));
            && Current(st, key) - slot.load.answer.balance == off
            && (slot.load.answer.balance == Current(st, key) <==> off == 0)
  {
    var st, slot := Run(events), Run(events).cache[key];
    var f := EffectOn(key.account, key.asOf);
    StalenessIsUnseenCommits(events, key);
    ReachableSlot(events, key);
    ReachableWriters(events);
    forall c: nat
      | slot.load.seen <= c < |st.txs| && !(slot.load.readAt < st.writers[c].committedAt < slot.setAt)
      ensures f(st.txs[c]) == 0
    {
      OutsideWindowIsIdle(st, key, slot, c);
    }
    WindowSum(st.txs, st.writers, slot.load.seen, slot.load.readAt, slot.setAt, f);
  }

  /**
   * Where no commit to an account falls between a reader's database read and its set, every value cached
   * for the account is its current balance as soon as its writers have invalidated it.
   */
  lemma {:induction false} UnovertakenHitsAreExact(events: seq<Event>, key: Key)
    requires NoOverlap(events) && key in Run(events).cache && Invalidated(Run(events), key)
    ensures Run(events).cache[key].load.answer.balance == Current(Run(events), key)
  {
    RunStaysApart(events);
    StalenessIsUnseenCommits(events, key);
    ReachableSlot(events, key);
    ReachableWriters(events);
    MissedDoNotMatter(Run(events), key, Run(events).cache[key]);
  }

  /******* The race *******/

  lemma {:induction false} Snoc(events: seq<Event>, ev: Event)
    ensures Run(events + [ev]) == Step(Run(events), ev)
  {
    assert (events + [ev])[..|events|] == events;
  }

  /** A reader misses the cache and reads the database. */
  function ReadFirst(events: seq<Event>, r: ReaderId, key: Key): seq<Event> {
    events + [Get(r, key, false)] + [ReadDatabase(r)]
  }

  /** A writer commits tx and invalidates the account in full. */
  function WriteAll(events: seq<Event>, marks: set<Uuid>, tx: Transaction, c: nat, account: Uuid): seq<Event> {
    events + [Commit(marks, tx)] + [ScanKeys(c, account)] + [DeleteKeys(c)]
  }

  lemma {:induction false} ReadFirstLoads(events: seq<Event>, r: ReaderId, key: Key)
    requires var st := Run(events); key.account in st.accounts && key !in st.cache && r !in st.readers
    ensures var st, st' := Run(events), Run(ReadFirst(events, r, key));
            && r in st'.readers && st'.readers[r].Loaded? && st'.readers[r].key == key
            && st'.readers[r].load.answer.balance == Current(st, key)
            && st'.txs == st.txs && st'.writers == st.writers
  {
    Snoc(events, Get(r, key, false));
    Snoc(events + [Get(r, key, false)], ReadDatabase(r));
  }

  lemma {:induction false} WriteAllInvalidates(events: seq<Event>, marks: set<Uuid>, tx: Transaction, account: Uuid)
    requires tx.status == Posted && account in Accounts(tx.entries)
    ensures var st := Run(events); var c := |st.writers|; var st' := Run(WriteAll(events, marks, tx, c, account));
            && st'.txs == Mark(st.txs, marks) + [tx] && st'.readers == st.readers
            && |st'.writers| == c + 1 && account !in st'.writers[c].todo && !st'.writers[c].gaveUp
  {
    var c := |Run(events).writers|;
    Snoc(events, Commit(marks, tx));
    Snoc(events + [Commit(marks, tx)], ScanKeys(c, account));
    Snoc(events + [Commit(marks, tx)] + [ScanKeys(c, account)], DeleteKeys(c));
  }

  lemma {:induction false} SetStores(st: State, r: ReaderId, today: Date)
    requires r in st.readers && st.readers[r].Loaded?
    ensures var st', key := Step(st, Set(r, today, false)), st.readers[r].key;
            && Cached(st', key).Some? && Cached(st', key).value.load == st.readers[r].load
            && st'.txs == st.txs && st'.writers == st.writers
  {
  }

  lemma {:induction false} AddedEffect(txs: seq<Transaction>, marks: set<Uuid>, tx: Transaction, key: Key)
    requires forall i | 0 <= i < |txs| :: Counts(txs[i].status)
    ensures CalculateBalance(Mark(txs, marks) + [tx], key.account, key.asOf)
         == CalculateBalance(txs, key.account, key.asOf) + Effect(tx, key.account, key.asOf)
  {
    QueryIsSignedFold(txs, key.account, key.asOf);
    QueryIsSignedFold(Mark(txs, marks) + [tx], key.account, key.asOf);
    Books.MarkKeepsBalances(txs, marks, key.account, key.asOf);
    BalanceSnoc(Mark(txs, marks), tx, key.account, key.asOf);
  }

  /**
   * The cache does have a race window: in every reachable state a reader that misses and reads the database
   * before a commit, and sets after the commit's invalidation, leaves a value that is wrong by the commit's
   * effect although the writer has nothing left to invalidate for the account.
   */
  lemma {:induction false} LateSetLeavesStale(events: seq<Event>, r: ReaderId, key: Key, marks: set<Uuid>,
                                              tx: Transaction, today: Date)
    requires var st := Run(events); key.account in st.accounts && key !in st.cache && r !in st.readers
    requires tx.status == Posted && key.account in Accounts(tx.entries)
    ensures var c := |Run(events).writers|;
            var st := Run(WriteAll(ReadFirst(events, r, key), marks, tx, c, key.account) + [Set(r, today, false)]);
            && Cached(st, key).Some? && |st.writers| == c + 1
            && key.account !in st.writers[c].todo && !st.writers[c].gaveUp
            && Current(st, key) - Cached(st, key).value.load.answer.balance == Effect(tx, key.account, key.asOf)
  {
    var read := ReadFirst(events, r, key);
    var st, c := Run(events), |Run(events).writers|;
    RunKeepsInv(events);
    ReadFirstLoads(events, r, key);
    WriteAllInvalidates(read, marks, tx, key.account);
    Snoc(WriteAll(read, marks, tx, c, key.account), Set(r, today, false));
    SetStores(Run(WriteAll(read, marks, tx, c, key.account)), r, today);
    AddedEffect(st.txs, marks, tx, key);
  }
}
