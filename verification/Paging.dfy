/** Listing transactions: newest date first, then newest posting, then id; read page by page. */
module Paging {
  import opened Prelude
  import opened Ledger
  import opened Posting

  /** posted_at DESC puts NULL first. */
  predicate PostedAfter(a: Option<Instant>, b: Option<Instant>) {
    b.Some? && (a.None? || a.value > b.value)
  }

  /** The order of the listing. */
  predicate Before(a: Transaction, b: Transaction) {
    || a.date > b.date
    || (a.date == b.date && PostedAfter(a.postedAt, b.postedAt))
    || (a.date == b.date && a.postedAt == b.postedAt && a.id < b.id)
  }

  predicate Ordered(s: seq<Transaction>) {
    forall i, j | 0 <= i < j < |s| :: Before(s[i], s[j])
  }

  predicate IsListing(table: seq<Transaction>, s: seq<Transaction>) {
    Ordered(s) && multiset(s) == multiset(table)
  }

  function Slice<T>(s: seq<T>, limit: nat, offset: nat): seq<T> {
    if |s| <= offset then [] else if |s| <= offset + limit then s[offset..] else s[offset..offset + limit]
  }

  /** A page as the database may return it: cut from some arrangement of the table in the listing's order. */
  ghost predicate IsPage(table: seq<Transaction>, limit: nat, offset: nat, page: seq<Transaction>) {
    exists s :: IsListing(table, s) && page == Slice(s, limit, offset)
  }

  /** Before is a strict total order on transactions with different ids. */
  lemma {:induction false} BeforeIsTotal(a: Transaction, b: Transaction, c: Transaction)
    ensures !Before(a, a)
    ensures Before(a, b) ==> !Before(b, a)
    ensures Before(a, b) && Before(b, c) ==> Before(a, c)
    ensures a.id != b.id ==> Before(a, b) || Before(b, a)
  {
  }

  lemma {:induction false} SameTails<T>(s: seq<T>, t: seq<T>)
    requires s != [] && t != [] && multiset(s) == multiset(t) && s[0] == t[0]
    ensures multiset(s[1..]) == multiset(t[1..])
  {
    assert s == [s[0]] + s[1..] && t == [t[0]] + t[1..];
    assert multiset(s[1..]) == multiset(s) - multiset{s[0]};
    assert multiset(t[1..]) == multiset(t) - multiset{t[0]};
  }

  lemma {:induction false} SameLength<T>(s: seq<T>, t: seq<T>)
    requires multiset(s) == multiset(t)
    ensures |s| == |t|
  {
    assert |s| == |multiset(s)| == |multiset(t)| == |t|;
  }

  lemma {:induction false} FirstPrecedes(s: seq<Transaction>, x: Transaction)
    requires s != [] && Ordered(s) && x in s
    ensures x == s[0] || Before(s[0], x)
  {
  }

  lemma {:induction false} SameElements<T>(s: seq<T>, t: seq<T>, x: T)
    requires multiset(s) == multiset(t) && x in s
    ensures x in t
  {
    assert x in multiset(s);
  }

  lemma {:induction false} SameFirst(s: seq<Transaction>, t: seq<Transaction>)
    requires s != [] && t != [] && Ordered(s) && Ordered(t) && multiset(s) == multiset(t)
    ensures s[0] == t[0]
  {
    SameElements(s, t, s[0]);
    SameElements(t, s, t[0]);
    FirstPrecedes(s, t[0]);
    FirstPrecedes(t, s[0]);
    BeforeIsTotal(s[0], t[0], t[0]);
  }

  /** A table has at most one arrangement in the listing's order. */
  lemma {:induction false} ListingIsUnique(s: seq<Transaction>, t: seq<Transaction>)
    requires Ordered(s) && Ordered(t) && multiset(s) == multiset(t)
    ensures s == t
  {
    SameLength(s, t);
    if s != [] {
      SameFirst(s, t);
      SameTails(s, t);
      ListingIsUnique(s[1..], t[1..]);
      assert s == [s[0]] + s[1..];
    }
  }

  /** Where tx goes in an ordered list. */
  function Place(s: seq<Transaction>, tx: Transaction): (i: nat)
    ensures i <= |s|
    ensures forall j | 0 <= j < i :: Before(s[j], tx)
    ensures i < |s| ==> !Before(s[i], tx)
  {
    if s == [] || !Before(s[0], tx) then 0 else Place(s[1..], tx) + 1
  }

  function Listing(table: seq<Transaction>): seq<Transaction> {
    if table == [] then []
    else
      var rest, last := Listing(table[..|table| - 1]), table[|table| - 1];
      var i := Place(rest, last);
      rest[..i] + [last] + rest[i..]
  }

  lemma {:induction false} InsertMultiset<T>(s: seq<T>, x: T, i: nat)
    requires i <= |s|
    ensures multiset(s[..i] + [x] + s[i..]) == multiset(s) + multiset{x}
  {
    assert s == s[..i] + s[i..];
  }

  lemma {:induction false} InsertOrdered(s: seq<Transaction>, tx: Transaction, i: nat)
    requires i == Place(s, tx) && forall j | 0 <= j < |s| :: s[j].id != tx.id
    requires Ordered(s)
    ensures Ordered(s[..i] + [tx] + s[i..])
  {
    if i < |s| {
      BeforeIsTotal(tx, s[i], s[i]);
    }
    forall j | i <= j < |s| ensures Before(tx, s[j]) {
      BeforeIsTotal(tx, s[i], s[j]);
    }
  }

  lemma {:induction false} SameIds(s: seq<Transaction>, t: seq<Transaction>, id: Uuid)
    requires multiset(s) == multiset(t) && forall i | 0 <= i < |t| :: t[i].id != id
    ensures forall i | 0 <= i < |s| :: s[i].id != id
  {
    forall i | 0 <= i < |s| ensures s[i].id != id {
      SameElements(s, t, s[i]);
    }
  }

  /** A table whose ids are unique has an arrangement in the listing's order. */
  lemma {:induction false} ListingExists(table: seq<Transaction>)
    requires UniqueIds(table)
    ensures IsListing(table, Listing(table))
  {
    if table != [] {
      var rest, last := table[..|table| - 1], table[|table| - 1];
      ListingExists(rest);
      SameIds(Listing(rest), rest, last.id);
      InsertOrdered(Listing(rest), last, Place(Listing(rest), last));
      InsertMultiset(Listing(rest), last, Place(Listing(rest), last));
      assert table == rest + [last];
    }
  }

  /** list_all is determined by the table: whatever arrangement the database used, the page is the same. */
  lemma {:induction false} PageIsDetermined(table: seq<Transaction>, limit: nat, offset: nat, page: seq<Transaction>)
    requires UniqueIds(table)
    ensures IsPage(table, limit, offset, page) <==> page == Slice(Listing(table), limit, offset)
  {
    ListingExists(table);
    forall s | IsListing(table, s) ensures s == Listing(table) {
      ListingIsUnique(s, Listing(table));
    }
  }

  function Total(limits: seq<nat>): nat {
    if limits == [] then 0 else Total(limits[..|limits| - 1]) + limits[|limits| - 1]
  }

  function Flatten<T>(pages: seq<seq<T>>): seq<T> {
    if pages == [] then [] else Flatten(pages[..|pages| - 1]) + pages[|pages| - 1]
  }

  lemma {:induction false} SlicesJoin<T>(s: seq<T>, m: nat, n: nat)
    ensures Slice(s, m, 0) + Slice(s, n, m) == Slice(s, m + n, 0)
  {
  }

  /** Each page starts where the pages before it end. */
  ghost predicate AreConsecutive(table: seq<Transaction>, limits: seq<nat>, pages: seq<seq<Transaction>>) {
    |pages| == |limits| && forall i | 0 <= i < |limits| :: IsPage(table, limits[i], Total(limits[..i]), pages[i])
  }

  lemma {:induction false} LastPage(table: seq<Transaction>, limits: seq<nat>, pages: seq<seq<Transaction>>)
    requires limits != [] && AreConsecutive(table, limits, pages)
    ensures var last := |limits| - 1;
            && AreConsecutive(table, limits[..last], pages[..last])
            && IsPage(table, limits[last], Total(limits[..last]), pages[last])
  {
    var last := |limits| - 1;
    forall i | 0 <= i < last ensures IsPage(table, limits[..last][i], Total(limits[..last][..i]), pages[..last][i]) {
      assert limits[..last][..i] == limits[..i];
    }
  }

  /** Consecutive pages of any limits, read from an unchanged table, join up to the start of its listing. */
  lemma {:induction false} PagesJoin(table: seq<Transaction>, limits: seq<nat>, pages: seq<seq<Transaction>>)
    requires UniqueIds(table) && AreConsecutive(table, limits, pages)
    ensures Flatten(pages) == Slice(Listing(table), Total(limits), 0)
  {
    if limits != [] {
      var last := |limits| - 1;
      LastPage(table, limits, pages);
      PagesJoin(table, limits[..last], pages[..last]);
      PageIsDetermined(table, limits[last], Total(limits[..last]), pages[last]);
      SlicesJoin(Listing(table), Total(limits[..last]), limits[last]);
    }
  }

  /** Paging to the end of the table shows every transaction exactly once, in the listing's order. */
  lemma {:induction false} PagesTile(table: seq<Transaction>, limits: seq<nat>, pages: seq<seq<Transaction>>)
    requires UniqueIds(table) && AreConsecutive(table, limits, pages) && |table| <= Total(limits)
    ensures Ordered(Flatten(pages)) && multiset(Flatten(pages)) == multiset(table)
  {
    PagesJoin(table, limits, pages);
    ListingExists(table);
    SameLength(Listing(table), table);
  }

  /**
   * Newest date first; on one date a missing posting time first and then the latest; at one time the
   * smallest id.
   */
  predicate NewestFirst(s: seq<Transaction>) {
    forall i, j | 0 <= i < j < |s| ::
      && s[i].date >= s[j].date
      && (s[i].date == s[j].date ==> s[j].postedAt.None? ==> s[i].postedAt.None?)
      && (s[i].date == s[j].date && s[i].postedAt.Some? && s[j].postedAt.Some? ==>
            s[i].postedAt.value >= s[j].postedAt.value)
      && (s[i].date == s[j].date && s[i].postedAt == s[j].postedAt ==> s[i].id < s[j].id)
  }

  /** The listing's order, in the terms of its columns. */
  lemma {:induction false} OrderedIsNewestFirst(s: seq<Transaction>)
    ensures Ordered(s) <==> NewestFirst(s)
  {
    forall i, j | 0 <= i < j < |s| && NewestFirst(s) ensures Before(s[i], s[j]) {
      assert s[i].date >= s[j].date;
    }
  }

  lemma {:induction false} SliceIsOrdered(s: seq<Transaction>, limit: nat, offset: nat)
    requires Ordered(s)
    ensures Ordered(Slice(s, limit, offset))
  {
  }

  /** A page has as many rows as its limit allows and the table holds past its offset, newest first. */
  lemma {:induction false} PageShows(table: seq<Transaction>, limit: nat, offset: nat, page: seq<Transaction>)
    requires UniqueIds(table) && IsPage(table, limit, offset, page)
    ensures |page| == if |table| <= offset then 0
                      else if |table| - offset < limit then |table| - offset else limit
    ensures NewestFirst(page)
    ensures forall i | 0 <= i < |page| :: |Listing(table)| == |table| && page[i] == Listing(table)[offset + i]
  {
    PageIsDetermined(table, limit, offset, page);
    ListingExists(table);
    SameLength(Listing(table), table);
    SliceIsOrdered(Listing(table), limit, offset);
    OrderedIsNewestFirst(page);
  }
}
