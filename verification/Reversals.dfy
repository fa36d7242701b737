/** Chains of reversals, and the abstract ledger in which a void switches its root on or off. */
module Reversals {
  import opened Prelude
  import opened Ledger
  import opened Posting
  import opened Books

  /******* Chains *******/

  /** The transaction that j reverses, or j itself. */
  function Parent(txs: seq<Transaction>, j: nat): (p: nat)
    requires j < |txs|
    ensures p <= j
  {
    if txs[j].reversalOf.None? then j
    else
      var p := Find(txs[..j], txs[j].reversalOf.value);
      if p.None? then j else p.value
  }

  /** Where the reversal links from j lead. */
  function Root(txs: seq<Transaction>, j: nat): (r: nat)
    requires j < |txs|
    ensures r <= j
  {
    var p := Parent(txs, j);
    if p == j then j else Root(txs, p)
  }

  function Depth(txs: seq<Transaction>, j: nat): (d: nat)
    requires j < |txs|
    ensures d <= j
  {
    var p := Parent(txs, j);
    if p == j then 0 else 1 + Depth(txs, p)
  }

  lemma {:induction false} ParentIsOriginal(txs: seq<Transaction>, j: nat)
    requires Linked(txs) && j < |txs| && txs[j].reversalOf.Some?
    ensures Parent(txs, j) < j && IsReversal(txs[j], txs[Parent(txs, j)])
  {
    assert HasOriginal(txs, j);
  }

  /** Every chain ends, after finitely many links, in a transaction that reverses nothing. */
  lemma {:induction false} ChainsEndInRoots(txs: seq<Transaction>, j: nat)
    requires Linked(txs) && j < |txs|
    ensures txs[Root(txs, j)].reversalOf.None?
  {
    if txs[j].reversalOf.Some? {
      ParentIsOriginal(txs, j);
      ChainsEndInRoots(txs, Parent(txs, j));
    }
  }

  /** Below one root the transactions form a single chain: at each depth there is at most one. */
  lemma {:induction false} ChainsAreLinear(txs: seq<Transaction>, j: nat, k: nat)
    requires Linked(txs) && j < |txs| && k < |txs|
    requires Root(txs, j) == Root(txs, k) && Depth(txs, j) == Depth(txs, k)
    ensures j == k
    decreases j
  {
    if txs[j].reversalOf.Some? {
      ParentIsOriginal(txs, j);
      ParentIsOriginal(txs, k);
      ChainsAreLinear(txs, Parent(txs, j), Parent(txs, k));
      assert txs[j].reversalOf == txs[k].reversalOf;
    }
  }

  /** A transaction repeats its root's entries at even depth, and flips them at odd depth, on the same date. */
  lemma {:induction false} EntriesByDepth(txs: seq<Transaction>, j: nat)
    requires Linked(txs) && j < |txs|
    ensures var root := txs[Root(txs, j)];
            && txs[j].date == root.date
            && txs[j].entries == if Depth(txs, j) % 2 == 0 then root.entries else FlipAll(root.entries)
  {
    if txs[j].reversalOf.Some? {
      ParentIsOriginal(txs, j);
      EntriesByDepth(txs, Parent(txs, j));
      FlipTwice(txs[Root(txs, j)].entries);
    }
  }

  lemma {:induction false} ChainStays(txs: seq<Transaction>, t: Transaction, j: nat)
    requires j < |txs|
    ensures Parent(txs + [t], j) == Parent(txs, j)
    ensures Root(txs + [t], j) == Root(txs, j) && Depth(txs + [t], j) == Depth(txs, j)
  {
    assert (txs + [t])[..j] == txs[..j];
    if Parent(txs, j) != j {
      ChainStays(txs, t, Parent(txs, j));
    }
  }

  lemma {:induction false} ChainIgnoresStatus(txs: seq<Transaction>, txs': seq<Transaction>, j: nat)
    requires SameButStatus(txs, txs') && j < |txs|
    ensures Root(txs', j) == Root(txs, j) && Depth(txs', j) == Depth(txs, j)
  {
    if txs[j].reversalOf.Some? {
      assert SameButStatus(txs[..j], txs'[..j]);
      FindSame(txs[..j], txs'[..j], txs[j].reversalOf.value);
      if Parent(txs, j) != j {
        ChainIgnoresStatus(txs, txs', Parent(txs, j));
      }
    }
  }

  /******* The abstract ledger *******/

  /** The transactions posted by create, and those of them that are switched off. */
  datatype Switched = Switched(posted: seq<Transaction>, off: set<Uuid>)

  function Post(s: Switched, t: Transaction): Switched {
    s.(posted := s.posted + [t])
  }

  function Toggle(s: Switched, id: Uuid): Switched {
    s.(off := if id in s.off then s.off - {id} else s.off + {id})
  }

  /** What a posted transaction contributes while it is on. */
  function Raw(t: Transaction, account: Uuid, asOf: Date): int {
    if t.date <= asOf then Sum(t.entries, SignedFor(account)) else 0
  }

  function Live(off: set<Uuid>, account: Uuid, asOf: Date): Transaction -> int {
    (t: Transaction) => if t.id in off then 0 else Raw(t, account, asOf)
  }

  function SwitchedBalance(s: Switched, account: Uuid, asOf: Date): int {
    Sum(s.posted, Live(s.off, account, asOf))
  }

  /** A ledger as seen abstractly: each create posts, each reversal toggles its root. */
  function Abstract(txs: seq<Transaction>): Switched {
    if txs == [] then Switched([], {})
    else
      var earlier, last := Abstract(txs[..|txs| - 1]), |txs| - 1;
      if txs[last].reversalOf.None? then Post(earlier, txs[last].(status := Posted))
      else Toggle(earlier, txs[Root(txs, last)].id)
  }

  lemma {:induction false} AbstractOfRoot(rest: seq<Transaction>, t: Transaction)
    requires t.reversalOf.None?
    ensures Abstract(rest + [t]) == Post(Abstract(rest), t.(status := Posted))
    ensures Root(rest + [t], |rest|) == |rest| && Depth(rest + [t], |rest|) == 0
  {
    assert (rest + [t])[..|rest|] == rest;
  }

  /** t, appended to rest, reverses rest[p]. */
  predicate Reverses(rest: seq<Transaction>, t: Transaction, p: nat) {
    t.reversalOf.Some? && p < |rest| && Parent(rest + [t], |rest|) == p
  }

  lemma {:induction false} AbstractOfReversal(rest: seq<Transaction>, t: Transaction, p: nat)
    requires Reverses(rest, t, p)
    ensures Abstract(rest + [t]) == Toggle(Abstract(rest), rest[Root(rest, p)].id)
    ensures Root(rest + [t], |rest|) == Root(rest, p)
    ensures Depth(rest + [t], |rest|) == 1 + Depth(rest, p)
  {
    assert (rest + [t])[..|rest|] == rest;
    ChainStays(rest, t, p);
  }

  lemma {:induction false} ReversedOne(rest: seq<Transaction>, t: Transaction) returns (p: nat)
    requires Linked(rest + [t]) && t.reversalOf.Some?
    ensures Reverses(rest, t, p) && IsReversal(t, rest[p])
  {
    ParentIsOriginal(rest + [t], |rest|);
    p := Parent(rest + [t], |rest|);
  }

  lemma {:induction false} AbstractIgnoresStatus(txs: seq<Transaction>, txs': seq<Transaction>)
    requires SameButStatus(txs, txs')
    ensures Abstract(txs') == Abstract(txs)
  {
    if txs != [] {
      var last := |txs| - 1;
      assert SameButStatus(txs[..last], txs'[..last]);
      AbstractIgnoresStatus(txs[..last], txs'[..last]);
      ChainIgnoresStatus(txs, txs', last);
    }
  }

  /** The last transaction of its chain. */
  predicate IsTip(txs: seq<Transaction>, i: nat)
    requires i < |txs|
  {
    !HasReversal(txs, txs[i].id)
  }

  /** The posted list holds every root, once, and only roots are switched. */
  predicate ListsRoots(txs: seq<Transaction>) {
    var s := Abstract(txs);
    && UniqueIds(s.posted)
    && (forall r | 0 <= r < |txs| && txs[r].reversalOf.None? :: txs[r].(status := Posted) in s.posted)
    && (forall k | 0 <= k < |s.posted| :: s.posted[k].id in Ids(txs))
    && s.off <= Ids(txs)
  }

  lemma {:induction false} ListingOfRoot(rest: seq<Transaction>, t: Transaction)
    requires ListsRoots(rest) && t.reversalOf.None? && t.id !in Ids(rest)
    ensures ListsRoots(rest + [t])
  {
    IdsSnoc(rest, t);
    AbstractOfRoot(rest, t);
    var posted := Abstract(rest + [t]).posted;
    assert posted[|posted| - 1] == t.(status := Posted);
    assert forall x | x in Abstract(rest).posted :: x in posted;
    assert forall r | 0 <= r < |rest| :: (rest + [t])[r] == rest[r];
  }

  lemma {:induction false} ListingOfReversal(rest: seq<Transaction>, t: Transaction, p: nat)
    requires ListsRoots(rest) && Reverses(rest, t, p)
    ensures ListsRoots(rest + [t])
  {
    IdsSnoc(rest, t);
    AbstractOfReversal(rest, t, p);
    assert rest[Root(rest, p)] in rest;
    assert forall r | 0 <= r < |rest| :: (rest + [t])[r] == rest[r];
  }

  lemma {:induction false} FreshLast(rest: seq<Transaction>, t: Transaction)
    requires Linked(rest) && Linked(rest + [t])
    ensures Fresh(rest, t.id) && t.id !in Ids(rest) && !HasReversal(rest, t.id)
  {
    forall i | 0 <= i < |rest| ensures rest[i].id != t.id {
      assert (rest + [t])[i] == rest[i] && (rest + [t])[|rest|] == t;
    }
    if HasReversal(rest, t.id) {
      ReversedIdIsCommitted(rest, t.id);
    }
  }

  lemma {:induction false} ListingStep(rest: seq<Transaction>, t: Transaction)
    requires Linked(rest) && Linked(rest + [t]) && ListsRoots(rest)
    ensures ListsRoots(rest + [t])
  {
    if t.reversalOf.None? {
      FreshLast(rest, t);
      ListingOfRoot(rest, t);
    } else {
      var p := ReversedOne(rest, t);
      ListingOfReversal(rest, t, p);
    }
  }

  lemma {:induction false} RootsAreListed(txs: seq<Transaction>)
    requires Linked(txs)
    ensures ListsRoots(txs)
  {
    if txs != [] {
      var rest, t := txs[..|txs| - 1], txs[|txs| - 1];
      assert txs == rest + [t];
      PrefixIsLinked(txs, |txs| - 1);
      RootsAreListed(rest);
      ListingStep(rest, t);
    }
  }

  lemma {:induction false} ReversalNamesTip(rest: seq<Transaction>, t: Transaction, p: nat)
    requires Linked(rest + [t]) && p < |rest| && t.reversalOf == Some(rest[p].id)
    ensures IsTip(rest, p)
  {
    forall j | 0 <= j < |rest| ensures rest[j].reversalOf != Some(rest[p].id) {
      assert (rest + [t])[j] == rest[j] && (rest + [t])[|rest|] == t;
    }
  }

  /** The tips after one more transaction: itself, and the earlier ones it does not reverse. */
  lemma {:induction false} TipsAfter(rest: seq<Transaction>, t: Transaction, i: nat)
    requires Linked(rest) && Linked(rest + [t]) && i < |rest|
    ensures IsTip(rest + [t], i) <==> IsTip(rest, i) && t.reversalOf != Some(rest[i].id)
    ensures Root(rest + [t], i) == Root(rest, i) && Depth(rest + [t], i) == Depth(rest, i)
  {
    AppendKeepsReversals(rest, t);
    ChainStays(rest, t, i);
  }

  lemma {:induction false} RootsStayApart(rest: seq<Transaction>, t: Transaction, p: nat, i: nat)
    requires Reverses(rest, t, p) && i < |rest| && Root(rest, i) != Root(rest, p)
    ensures Root(rest + [t], i) != Root(rest + [t], |rest|)
  {
    ChainStays(rest, t, i);
    AbstractOfReversal(rest, t, p);
  }

  /** Two tips never share a chain. */
  lemma {:induction false} OneTipPerChain(txs: seq<Transaction>, i: nat, k: nat)
    requires Linked(txs) && i < |txs| && k < |txs| && i != k && IsTip(txs, i) && IsTip(txs, k)
    ensures Root(txs, i) != Root(txs, k)
    decreases |txs|, if i < k then 0 else 1
  {
    if k < i {
      OneTipPerChain(txs, k, i);
    } else {
      var rest, t := txs[..|txs| - 1], txs[|txs| - 1];
      assert txs == rest + [t];
      PrefixIsLinked(txs, |txs| - 1);
      TipsAfter(rest, t, i);
      if k < |rest| {
        TipsAfter(rest, t, k);
        OneTipPerChain(rest, i, k);
      } else if t.reversalOf.Some? {
        var p := ReversedOne(rest, t);
        ReversalNamesTip(rest, t, p);
        OneTipPerChain(rest, i, p);
        RootsStayApart(rest, t, p, i);
      }
    }
  }

  /** A reversal leaves the switches of all other tips' roots alone. */
  lemma {:induction false} OtherChainsUntoggled(rest: seq<Transaction>, t: Transaction, p: nat, i: nat)
    requires Linked(rest) && Linked(rest + [t]) && Reverses(rest, t, p) && IsReversal(t, rest[p])
    requires i < |rest| && IsTip(rest + [t], i)
    ensures rest[Root(rest, i)].id != rest[Root(rest, p)].id
  {
    TipsAfter(rest, t, i);
    ReversalNamesTip(rest, t, p);
    OneTipPerChain(rest, i, p);
  }

  /** The root of i's chain is on exactly when i lies at even depth. */
  predicate Decided(txs: seq<Transaction>, i: nat)
    requires i < |txs|
  {
    txs[Root(txs, i)].id !in Abstract(txs).off <==> Depth(txs, i) % 2 == 0
  }

  lemma {:induction false} TipStaysDecided(rest: seq<Transaction>, t: Transaction, i: nat)
    requires i < |rest| && Decided(rest, i)
    requires rest[Root(rest, i)].id in Abstract(rest + [t]).off <==> rest[Root(rest, i)].id in Abstract(rest).off
    ensures Decided(rest + [t], i)
  {
    ChainStays(rest, t, i);
  }

  lemma {:induction false} NewTipDecided(rest: seq<Transaction>, t: Transaction, p: nat)
    requires Reverses(rest, t, p) && Decided(rest, p)
    ensures Decided(rest + [t], |rest|)
  {
    AbstractOfReversal(rest, t, p);
  }

  lemma {:induction false} NewRootIsOn(rest: seq<Transaction>, t: Transaction)
    requires Linked(rest) && Linked(rest + [t]) && t.reversalOf.None?
    ensures t.id !in Abstract(rest + [t]).off
    ensures Root(rest + [t], |rest|) == |rest| && Depth(rest + [t], |rest|) == 0
  {
    AbstractOfRoot(rest, t);
    RootsAreListed(rest);
    FreshLast(rest, t);
  }

  lemma {:induction false} TipDecides(txs: seq<Transaction>, i: nat)
    requires Linked(txs) && i < |txs| && IsTip(txs, i)
    ensures Decided(txs, i)
    decreases |txs|
  {
    var rest, t := txs[..|txs| - 1], txs[|txs| - 1];
    assert txs == rest + [t];
    PrefixIsLinked(txs, |txs| - 1);
    if t.reversalOf.None? {
      AbstractOfRoot(rest, t);
      if i < |rest| {
        TipsAfter(rest, t, i);
        TipDecides(rest, i);
        TipStaysDecided(rest, t, i);
      } else {
        NewRootIsOn(rest, t);
      }
    } else {
      var p := ReversedOne(rest, t);
      AbstractOfReversal(rest, t, p);
      if i < |rest| {
        TipsAfter(rest, t, i);
        TipDecides(rest, i);
        OtherChainsUntoggled(rest, t, p, i);
        TipStaysDecided(rest, t, i);
      } else {
        ReversalNamesTip(rest, t, p);
        TipDecides(rest, p);
        NewTipDecided(rest, t, p);
      }
    }
  }

  /** What toggling a transaction does to the balances. */
  function ToggleChange(s: Switched, root: Transaction, account: Uuid, asOf: Date): int {
    if root.id in s.off then Raw(root, account, asOf) else -Raw(root, account, asOf)
  }

  lemma {:induction false} ToggleBalance(s: Switched, k: nat, account: Uuid, asOf: Date)
    requires UniqueIds(s.posted) && k < |s.posted|
    ensures SwitchedBalance(Toggle(s, s.posted[k].id), account, asOf)
         == SwitchedBalance(s, account, asOf) + ToggleChange(s, s.posted[k], account, asOf)
  {
    var s' := Toggle(s, s.posted[k].id);
    var f, f' := Live(s.off, account, asOf), Live(s'.off, account, asOf);
    var others := s.posted[..k] + s.posted[k + 1..];
    SumRemove(s.posted, k, f);
    SumRemove(s.posted, k, f');
    forall i | 0 <= i < |others| ensures f(others[i]) == f'(others[i]) {
      assert others[i].id != s.posted[k].id;
    }
    SumPointwise(others, f, others, f');
  }

  /** What a reversal adds is what toggling its root adds. */
  lemma {:induction false} ReversalContributes(rest: seq<Transaction>, t: Transaction, p: nat, account: Uuid,
                                               asOf: Date)
    requires Linked(rest) && p < |rest| && IsTip(rest, p) && IsReversal(t, rest[p])
    ensures Raw(t, account, asOf) == ToggleChange(Abstract(rest), rest[Root(rest, p)], account, asOf)
  {
    TipDecides(rest, p);
    EntriesByDepth(rest, p);
    FlipNegates(rest[Root(rest, p)].entries, account);
    FlipNegates(rest[p].entries, account);
  }

  lemma {:induction false} ToggleListed(s: Switched, root: Transaction, account: Uuid, asOf: Date)
    requires UniqueIds(s.posted) && root.(status := Posted) in s.posted
    ensures SwitchedBalance(Toggle(s, root.id), account, asOf)
         == SwitchedBalance(s, account, asOf) + ToggleChange(s, root, account, asOf)
  {
    var k :| 0 <= k < |s.posted| && s.posted[k] == root.(status := Posted);
    ToggleBalance(s, k, account, asOf);
  }

  lemma {:induction false} RootIsListed(txs: seq<Transaction>, r: nat, account: Uuid, asOf: Date)
    requires Linked(txs) && r < |txs| && txs[r].reversalOf.None?
    ensures SwitchedBalance(Toggle(Abstract(txs), txs[r].id), account, asOf)
         == SwitchedBalance(Abstract(txs), account, asOf) + ToggleChange(Abstract(txs), txs[r], account, asOf)
  {
    RootsAreListed(txs);
    ToggleListed(Abstract(txs), txs[r], account, asOf);
  }

  lemma {:induction false} ReversalToggles(rest: seq<Transaction>, t: Transaction, account: Uuid, asOf: Date)
    requires Linked(rest) && Linked(rest + [t]) && t.reversalOf.Some?
    ensures SwitchedBalance(Abstract(rest + [t]), account, asOf)
         == SwitchedBalance(Abstract(rest), account, asOf) + Raw(t, account, asOf)
  {
    var p := ReversedOne(rest, t);
    ReversalNamesTip(rest, t, p);
    ReversalContributes(rest, t, p, account, asOf);
    AbstractOfReversal(rest, t, p);
    ChainsEndInRoots(rest, p);
    RootIsListed(rest, Root(rest, p), account, asOf);
  }

  lemma {:induction false} RootPosts(rest: seq<Transaction>, t: Transaction, account: Uuid, asOf: Date)
    requires Linked(rest) && Linked(rest + [t]) && t.reversalOf.None?
    ensures SwitchedBalance(Abstract(rest + [t]), account, asOf)
         == SwitchedBalance(Abstract(rest), account, asOf) + Raw(t, account, asOf)
  {
    var s := Abstract(rest);
    AbstractOfRoot(rest, t);
    RootsAreListed(rest);
    FreshLast(rest, t);
    SumSnoc(s.posted, t.(status := Posted), Live(s.off, account, asOf));
  }

  /**
   * The query over all posted and voided rows computes the abstract ledger's balance: each
   * transaction counts in full or not at all, according to the switch its chain has toggled.
   */
  lemma {:induction false} BalanceIsSwitched(txs: seq<Transaction>, account: Uuid, asOf: Date)
    requires Linked(txs) && forall i | 0 <= i < |txs| :: Counts(txs[i].status)
    ensures CalculateBalance(txs, account, asOf) == SwitchedBalance(Abstract(txs), account, asOf)
  {
    QueryIsSignedFold(txs, account, asOf);
    if txs != [] {
      var rest, t := txs[..|txs| - 1], txs[|txs| - 1];
      assert txs == rest + [t];
      assert forall i | 0 <= i < |rest| :: rest[i] == txs[i];
      PrefixIsLinked(txs, |txs| - 1);
      BalanceIsSwitched(rest, account, asOf);
      QueryIsSignedFold(rest, account, asOf);
      if t.reversalOf.None? {
        RootPosts(rest, t, account, asOf);
      } else {
        ReversalToggles(rest, t, account, asOf);
      }
      BalanceSnoc(rest, t, account, asOf);
    }
  }

  /** How many reversals lie on the chain of root r. */
  function ReversalsOf(txs: seq<Transaction>, r: nat): nat {
    if txs == [] then 0
    else
      var last := |txs| - 1;
      ReversalsOf(txs[..last], r) + if txs[last].reversalOf.Some? && Root(txs, last) == r then 1 else 0
  }

  lemma {:induction false} ReversalsSnoc(rest: seq<Transaction>, t: Transaction, r: nat)
    ensures ReversalsOf(rest + [t], r)
         == ReversalsOf(rest, r) + if t.reversalOf.Some? && Root(rest + [t], |rest|) == r then 1 else 0
  {
    assert (rest + [t])[..|rest|] == rest;
  }

  predicate OddWhenOff(s: Switched, id: Uuid, n: nat) {
    id in s.off <==> n % 2 == 1
  }

  lemma {:induction false} SameId(txs: seq<Transaction>, i: nat, k: nat)
    requires UniqueIds(txs) && i < |txs| && k < |txs|
    ensures txs[i].id == txs[k].id <==> i == k
  {
  }

  lemma {:induction false} ToggleParity(s: Switched, id: Uuid, other: Uuid, n: nat)
    requires OddWhenOff(s, other, n)
    ensures OddWhenOff(Toggle(s, id), other, if id == other then n + 1 else n)
  {
  }

  lemma {:induction false} ParityStep(rest: seq<Transaction>, t: Transaction, p: nat, r: nat)
    requires Reverses(rest, t, p) && r < |rest|
    requires rest[Root(rest, p)].id == rest[r].id <==> Root(rest, p) == r
    requires OddWhenOff(Abstract(rest), rest[r].id, ReversalsOf(rest, r))
    ensures OddWhenOff(Abstract(rest + [t]), rest[r].id, ReversalsOf(rest + [t], r))
  {
    AbstractOfReversal(rest, t, p);
    ReversalsSnoc(rest, t, r);
    ToggleParity(Abstract(rest), rest[Root(rest, p)].id, rest[r].id, ReversalsOf(rest, r));
  }

  lemma {:induction false} NoReversalsYet(txs: seq<Transaction>, r: nat)
    requires Linked(txs) && r >= |txs|
    ensures ReversalsOf(txs, r) == 0
  {
    if txs != [] {
      PrefixIsLinked(txs, |txs| - 1);
      NoReversalsYet(txs[..|txs| - 1], r);
    }
  }

  /** An even number of reversals restores a transaction, an odd number erases it. */
  lemma {:induction false} ParityDecides(txs: seq<Transaction>, r: nat)
    requires Linked(txs) && r < |txs| && txs[r].reversalOf.None?
    ensures OddWhenOff(Abstract(txs), txs[r].id, ReversalsOf(txs, r))
    decreases |txs|
  {
    var rest, t := txs[..|txs| - 1], txs[|txs| - 1];
    assert txs == rest + [t];
    PrefixIsLinked(txs, |txs| - 1);
    if r == |rest| {
      ReversalsSnoc(rest, t, r);
      NewRootIsOn(rest, t);
      NoReversalsYet(rest, r);
    } else {
      ParityDecides(rest, r);
      if t.reversalOf.None? {
        ReversalsSnoc(rest, t, r);
        AbstractOfRoot(rest, t);
      } else {
        var p := ReversedOne(rest, t);
        SameId(rest, Root(rest, p), r);
        ParityStep(rest, t, p, r);
      }
    }
  }

  /** A committed create posts; a committed void toggles the root of what it voids. */
  lemma {:induction false} CommitsRefine(t: Tables, w: WriteSet)
    requires Linked(t.txs) && Linked(Publish(t, w).txs) && |w.txs| == 1
    ensures var before, after, tx := Abstract(t.txs), Abstract(Publish(t, w).txs), w.txs[0];
            if tx.reversalOf.None? then after == Post(before, tx.(status := Posted))
            else exists i :: && 0 <= i < |t.txs|
                             && tx.reversalOf == Some(t.txs[i].id)
                             && after == Toggle(before, t.txs[Root(t.txs, i)].id)
  {
    var marked, tx := Mark(t.txs, w.marks), w.txs[0];
    assert w.txs == [tx];
    MarkIsStatusOnly(t.txs, w.marks);
    StatusKeepsLinks(t.txs, marked);
    AbstractIgnoresStatus(t.txs, marked);
    if tx.reversalOf.Some? {
      var p := ReversedOne(marked, tx);
      AbstractOfReversal(marked, tx, p);
      ChainIgnoresStatus(t.txs, marked, p);
      assert tx.reversalOf == Some(t.txs[p].id);
    } else {
      AbstractOfRoot(marked, tx);
    }
  }
}
