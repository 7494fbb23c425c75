/**
 The paginated activity-log walk.  Pages are newest-first offsets into a server log that may grow
 between requests; everything collected is committed once, at the end of the walk.  The law is that
 the stored log never has a gap below its newest entry.
 */
module ActivityLogSync {
  import opened Options
  import opened Sequences
  import opened Sets
  import opened SessionBuilder
  import opened SessionStore
  import opened Pipeline

  const PAGE_SIZE := 8000
  const MAX_ENTRIES_PER_RUN := 200_000
  const MAX_PAGES := 25
  const BATCH_SIZE := 2000

  /** One answer of the server: an error, or its log, oldest entry first, at the moment of the request. */
  datatype Reply = Failed | Served(log: seq<Entry>)

  /** The page at `start`: up to PAGE_SIZE entries, newest first. */
  function Page(log: seq<Entry>, start: nat): (r: seq<Entry>)
    ensures |r| <= PAGE_SIZE
    ensures |r| == if |log| <= start then 0 else if |log| - start < PAGE_SIZE then |log| - start else PAGE_SIZE
  {
    var n := if |log| <= start then 0 else if |log| - start < PAGE_SIZE then |log| - start else PAGE_SIZE;
    seq(n, t requires 0 <= t < n => log[|log| - 1 - start - t])
  }

  /** What one request asks for: `start` entries down from the newest, the next 8000, or what is left of them. */
  lemma PageIs(log: seq<Entry>, start: nat, e: Entry)
    ensures e in Page(log, start) <==> exists x :: 0 <= x < |log| && |log| - start - 8_000 <= x < |log| - start && log[x] == e
    ensures forall t, u :: 0 <= t < u < |Page(log, start)| && Rising(log) ==> Page(log, start)[t].id > Page(log, start)[u].id
  {
    if e in Page(log, start) {
      var t :| 0 <= t < |Page(log, start)| && Page(log, start)[t] == e;
      assert log[|log| - 1 - start - t] == e;
    }
    if x :| 0 <= x < |log| && |log| - start - 8_000 <= x < |log| - start && log[x] == e {
      assert Page(log, start)[|log| - 1 - start - x] == e;
    }
  }

  ghost predicate Rising(log: seq<Entry>) {
    forall a, b :: 0 <= a < b < |log| ==> log[a].id < log[b].id
  }

  predicate IsNew(last: Option<int>, e: Entry) {
    last.None? || e.id > last.value
  }

  function NewItems(last: Option<int>, items: seq<Entry>): (r: seq<Entry>)
    ensures forall e :: e in r <==> e in items && IsNew(last, e)
  {
    if items == [] then []
    else
      assert items == [items[0]] + items[1..];
      (if IsNew(last, items[0]) then [items[0]] else []) + NewItems(last, items[1..])
  }

  /** The walk ends on this page because it is empty, brings nothing new, or is short. */
  ghost predicate EndsWalk(last: Option<int>, items: seq<Entry>) {
    items == [] || NewItems(last, items) == [] || |items| < PAGE_SIZE
  }

  /** `e` is on one of the first `pages` pages and is new. */
  ghost predicate Collected(last: Option<int>, replies: seq<Reply>, pages: nat, e: Entry) {
    exists q :: 0 <= q < pages <= |replies| && replies[q].Served? && e in Page(replies[q].log, q * PAGE_SIZE) && IsNew(last, e)
  }

  /** The newest id stored, if any. */
  ghost predicate IsMaxKey(table: map<int, Entry>, last: Option<int>) {
    match last
    case None => table == map[]
    case Some(m) => m in table && forall id :: id in table ==> id <= m
  }

  /** One sync run: the table it started from, the answers it got, how many pages it took, the newest id it
      read at its start, and the table it left. */
  datatype Run = Run(before: map<int, Entry>, replies: seq<Reply>, pages: nat, last: Option<int>, after: map<int, Entry>)

  /** The first `pages` pages were all served and none of them ended the walk. */
  ghost predicate PagesContinue(last: Option<int>, replies: seq<Reply>, pages: nat) {
    pages <= |replies| &&
    forall q :: 0 <= q < pages ==> replies[q].Served? && !EndsWalk(last, Page(replies[q].log, q * PAGE_SIZE))
  }

  /** The run walked page after page until one ended the walk or the cap did. */
  ghost predicate Walked(w: Run) {
    && IsMaxKey(w.before, w.last)
    && 1 <= w.pages <= |w.replies| && w.pages <= MAX_PAGES
    && w.replies[w.pages - 1].Served?
    && PagesContinue(w.last, w.replies, w.pages - 1)
    && (EndsWalk(w.last, Page(w.replies[w.pages - 1].log, (w.pages - 1) * PAGE_SIZE)) || w.pages == MAX_PAGES)
  }

  ghost function Members(s: seq<Entry>): iset<Entry> {
    iset e | e in s
  }

  ghost predicate IdIn(s: iset<Entry>, id: int) {
    exists e :: e in s && e.id == id
  }

  ghost predicate LastOfItsId(entries: seq<Entry>, k: int) {
    0 <= k < |entries| && forall j :: k < j < |entries| ==> entries[j].id != entries[k].id
  }

  /** What the first `i` entries, one after another, have left. */
  ghost predicate UpsertedUpTo(before: map<int, Entry>, entries: seq<Entry>, i: nat, table: map<int, Entry>)
    requires i <= |entries|
  {
    Upserted(before, Members(entries[..i]), table) && LastsWin(entries[..i], table)
  }

  ghost predicate LastsWin(entries: seq<Entry>, table: map<int, Entry>) {
    forall k :: LastOfItsId(entries, k) ==> entries[k].id in table && table[entries[k].id] == entries[k]
  }

  /** `after` is `before` with the entries of `s` upserted by id. */
  ghost predicate Upserted(before: map<int, Entry>, s: iset<Entry>, after: map<int, Entry>) {
    && (forall id :: id in after <==> id in before || IdIn(s, id))
    && (forall id :: id in after && !IdIn(s, id) ==> after[id] == before[id])
    && (forall id :: id in after && IdIn(s, id) ==> after[id] in s && after[id].id == id)
  }

  ghost function CollectedSet(w: Run): iset<Entry> {
    iset e | Collected(w.last, w.replies, w.pages, e)
  }

  /** What a run that no error stops does: it walks, and commits everything collected. */
  ghost predicate Completed(w: Run) {
    Walked(w) && Upserted(w.before, CollectedSet(w), w.after)
  }

  class ActivityLog {
    var table: map<int, Entry>

    constructor ()
      ensures table == map[]
    {
      table := map[];
    }

    method GetMaxEntryId() returns (last: Option<int>)
      ensures IsMaxKey(table, last)
    {
      last := None;
      var stored := table;
      var todo: set<int> := stored.Keys;
      while todo != {}
        invariant todo <= stored.Keys
        invariant last.None? ==> todo == stored.Keys
        invariant last.Some? ==> last.value in stored && forall k :: k in stored ==> k in todo || k <= last.value
        decreases todo
      {
        IntMember(todo);
        var id :| id in todo;
        if last.None? || id > last.value {
          last := Some(id);
        }
        todo := todo - {id};
      }
    }

    /** Batched upsert in one transaction: rows of the same id are replaced, the last of several entries with
        one id wins, and other rows stay. */
    method UpsertEntries(entries: seq<Entry>)
      modifies this
      ensures Upserted(old(table), Members(entries), table)
      ensures LastsWin(entries, table)
    {
      var i := 0;
      while i < |entries|
        invariant 0 <= i <= |entries|
        invariant UpsertedUpTo(old(table), entries, i, table)
      {
        var end := if i + BATCH_SIZE < |entries| then i + BATCH_SIZE else |entries|;
        while i < end
          invariant 0 <= i <= end <= |entries|
          invariant UpsertedUpTo(old(table), entries, i, table)
        {
          UpsertNext(old(table), entries, i, table);
          table := table[entries[i].id := entries[i]];
          i := i + 1;
        }
      }
      assert entries[..|entries|] == entries;
    }

    /** One sync run against the answers the server would give.  A failed request stores nothing; otherwise
        the run commits what `Walked` says, after `pages` answers. */
    method SyncOneInstance(replies: seq<Reply>) returns (ok: bool, pages: nat, ghost last: Option<int>)
      requires |replies| >= MAX_PAGES
      modifies this
      ensures !ok ==> table == old(table) && pages < MAX_PAGES && replies[pages].Failed?
      ensures ok ==> Completed(Run(old(table), replies, pages, last, table))
    {
      var lastEntryId := GetMaxEntryId();
      last := lastEntryId;
      var startIndex := 0;
      var pending: seq<Entry> := [];
      pages := 0;
      while true
        invariant startIndex == pages * PAGE_SIZE < MAX_ENTRIES_PER_RUN
        invariant table == old(table)
        invariant CollectedSoFar(last, replies, pages, pending)
        decreases MAX_ENTRIES_PER_RUN - startIndex
      {
        var reply := replies[pages];
        if reply.Failed? {
          return false, pages, last;
        }
        var items := Page(reply.log, startIndex);
        var newItems := NewItems(lastEntryId, items);
        PageStep(last, replies, pages, pending, items, newItems);
        assert newItems == [] ==> pending + newItems == pending;
        pages := pages + 1;
        if items == [] {
          break;
        }
        if newItems == [] {
          break;
        }
        pending := pending + newItems;
        if |items| < PAGE_SIZE {
          break;
        }
        startIndex := startIndex + PAGE_SIZE;
        if startIndex >= MAX_ENTRIES_PER_RUN {
          break;
        }
      }
      if pending != [] {
        UpsertEntries(pending);
      }
      WalkCompletes(Run(old(table), replies, pages, last, table), pending);
      ok := true;
    }
  }

  ghost predicate CollectedSoFar(last: Option<int>, replies: seq<Reply>, pages: nat, pending: seq<Entry>) {
    PagesContinue(last, replies, pages) && forall e :: e in pending <==> Collected(last, replies, pages, e)
  }

  ghost predicate WalkDone(last: Option<int>, replies: seq<Reply>, pages: nat, pending: seq<Entry>) {
    && 1 <= pages <= |replies| && pages <= MAX_PAGES
    && replies[pages - 1].Served?
    && PagesContinue(last, replies, pages - 1)
    && (EndsWalk(last, Page(replies[pages - 1].log, (pages - 1) * PAGE_SIZE)) || pages == MAX_PAGES)
    && forall e :: e in pending <==> Collected(last, replies, pages, e)
  }

  lemma WalkCompletes(w: Run, pending: seq<Entry>)
    requires IsMaxKey(w.before, w.last) && WalkDone(w.last, w.replies, w.pages, pending)
    requires if pending == [] then w.after == w.before else Upserted(w.before, Members(pending), w.after)
    ensures Completed(w)
  {
    assert CollectedSet(w) == Members(pending);
  }

  /** One served page's new items are collected, and the page either ends the walk or extends it. */
  lemma PageStep(last: Option<int>, replies: seq<Reply>, pages: nat, pending: seq<Entry>, items: seq<Entry>, newItems: seq<Entry>)
    requires pages < |replies| && pages < MAX_PAGES && replies[pages].Served?
    requires CollectedSoFar(last, replies, pages, pending)
    requires items == Page(replies[pages].log, pages * PAGE_SIZE) && newItems == NewItems(last, items)
    ensures items == [] ==> newItems == []
    ensures !EndsWalk(last, items) ==> CollectedSoFar(last, replies, pages + 1, pending + newItems)
    ensures EndsWalk(last, items) || pages + 1 == MAX_PAGES ==> WalkDone(last, replies, pages + 1, pending + newItems)
  {
    PageIsCollected(last, replies, pages, pending, items, newItems);
    if !EndsWalk(last, items) {
      PagesExtend(last, replies, pages);
    }
  }

  lemma PageIsCollected(last: Option<int>, replies: seq<Reply>, pages: nat, pending: seq<Entry>, items: seq<Entry>, newItems: seq<Entry>)
    requires pages < |replies| && replies[pages].Served?
    requires forall e :: e in pending <==> Collected(last, replies, pages, e)
    requires items == Page(replies[pages].log, pages * PAGE_SIZE) && newItems == NewItems(last, items)
    ensures forall e :: e in pending + newItems <==> Collected(last, replies, pages + 1, e)
  {
    CollectPage(last, replies, pages);
  }

  lemma PagesExtend(last: Option<int>, replies: seq<Reply>, pages: nat)
    requires pages < |replies| && replies[pages].Served? && PagesContinue(last, replies, pages)
    requires !EndsWalk(last, Page(replies[pages].log, pages * PAGE_SIZE))
    ensures PagesContinue(last, replies, pages + 1)
  {
  }

  lemma UpsertOne(before: map<int, Entry>, entries: seq<Entry>, i: nat, table: map<int, Entry>)
    requires i < |entries| && Upserted(before, Members(entries[..i]), table)
    ensures Upserted(before, Members(entries[..i + 1]), table[entries[i].id := entries[i]])
  {
    var x := entries[i];
    var s, t := Members(entries[..i]), Members(entries[..i + 1]);
    assert entries[..i + 1] == entries[..i] + [x];
    assert forall e :: e in t <==> e in s || e == x;
    forall id
      ensures IdIn(t, id) <==> IdIn(s, id) || id == x.id
    {
      assert x in t;
      if IdIn(s, id) {
        var e :| e in s && e.id == id;
        assert e in t;
      }
    }
  }

  lemma LastOneWins(entries: seq<Entry>, i: nat, table: map<int, Entry>)
    requires i < |entries| && LastsWin(entries[..i], table)
    ensures LastsWin(entries[..i + 1], table[entries[i].id := entries[i]])
  {
    var more := entries[..i + 1];
    forall k | LastOfItsId(more, k)
      ensures var after := table[entries[i].id := entries[i]]; more[k].id in after && after[more[k].id] == more[k]
    {
      if k < i {
        assert more[i].id != more[k].id;
        assert LastOfItsId(entries[..i], k) by {
          assert forall j :: k < j < i ==> entries[..i][j] == more[j];
        }
      }
    }
  }

  lemma UpsertNext(before: map<int, Entry>, entries: seq<Entry>, i: nat, table: map<int, Entry>)
    requires i < |entries| && UpsertedUpTo(before, entries, i, table)
    ensures UpsertedUpTo(before, entries, i + 1, table[entries[i].id := entries[i]])
  {
    UpsertOne(before, entries, i, table);
    LastOneWins(entries, i, table);
  }

  /** One more page adds exactly its new items. */
  lemma CollectPage(last: Option<int>, replies: seq<Reply>, pages: nat)
    requires pages < |replies| && replies[pages].Served?
    ensures forall e :: Collected(last, replies, pages + 1, e) <==>
                        Collected(last, replies, pages, e) || e in NewItems(last, Page(replies[pages].log, pages * PAGE_SIZE))
  {
    forall e
      ensures Collected(last, replies, pages + 1, e) <==>
              Collected(last, replies, pages, e) || e in NewItems(last, Page(replies[pages].log, pages * PAGE_SIZE))
    {
      if Collected(last, replies, pages + 1, e) {
        var q :| 0 <= q < pages + 1 && replies[q].Served? && e in Page(replies[q].log, q * PAGE_SIZE) && IsNew(last, e);
      }
    }
  }

  // ----- gap-freedom -----

  /** The table holding exactly the entries of `log`. */
  ghost predicate Holds(table: map<int, Entry>, log: seq<Entry>) {
    && (forall k :: 0 <= k < |log| ==> log[k].id in table && table[log[k].id] == log[k])
    && (forall id :: id in table ==> exists k :: 0 <= k < |log| && log[k].id == id)
  }

  /** The answers come from one log that only grows, from `start` when the run begins to `final` when it ends. */
  ghost predicate Growing(start: seq<Entry>, replies: seq<Reply>, final: seq<Entry>) {
    && start <= final
    && (forall q :: 0 <= q < |replies| && replies[q].Served? ==> start <= replies[q].log && replies[q].log <= final)
    && (forall a, b :: 0 <= a < b < |replies| && replies[a].Served? && replies[b].Served? ==> replies[a].log <= replies[b].log)
  }

  /** The log position just above page `q`, and the lowest position on it. */
  function Top(replies: seq<Reply>, q: nat): int
    requires q < |replies| && replies[q].Served?
  {
    |replies[q].log| - q * PAGE_SIZE
  }

  function Bottom(replies: seq<Reply>, q: nat): int
    requires q < |replies| && replies[q].Served?
  {
    if Top(replies, q) < PAGE_SIZE then 0 else Top(replies, q) - PAGE_SIZE
  }

  /** The cap does not matter: the walk ended before it, or its last page met the stored entries. */
  ghost predicate CapHarmless(w: Run)
    requires 1 <= w.pages <= |w.replies| && w.replies[w.pages - 1].Served?
  {
    || EndsWalk(w.last, Page(w.replies[w.pages - 1].log, (w.pages - 1) * PAGE_SIZE))
    || |w.replies[w.pages - 1].log| <= |w.before| + MAX_ENTRIES_PER_RUN
  }

  /** The stored table holds the prefix `base` of the log `final`, and `last` is its newest id. */
  ghost predicate Stored(table: map<int, Entry>, last: Option<int>, base: seq<Entry>, final: seq<Entry>) {
    IsMaxKey(table, last) && Holds(table, base) && base <= final && Rising(final)
  }

  /** A run over a growing log, started on a table holding the prefix `base` of it. */
  ghost predicate Setting(w: Run, base: seq<Entry>, final: seq<Entry>) {
    && Stored(w.before, w.last, base, final)
    && Growing(base, w.replies, final)
    && 1 <= w.pages <= |w.replies|
    && forall q :: 0 <= q < w.pages ==> w.replies[q].Served?
  }

  /** The last page reached down to the stored prefix. */
  ghost predicate Reached(w: Run, stored: nat)
    requires 1 <= w.pages <= |w.replies| && w.replies[w.pages - 1].Served?
  {
    Bottom(w.replies, w.pages - 1) <= stored || Top(w.replies, w.pages - 1) <= stored
  }

  lemma {:induction false} HoldsCount(table: map<int, Entry>, log: seq<Entry>)
    requires Holds(table, log) && Rising(log)
    ensures |table| == |log|
  {
    if log == [] {
      assert table == map[];
    } else {
      var before, e := Front(log), Last(log);
      var smaller := table - {e.id};
      assert table.Keys == smaller.Keys + {e.id};
      assert forall k :: 0 <= k < |before| ==> before[k] == log[k] && log[k].id < log[|log| - 1].id;
      forall id | id in smaller
        ensures exists k :: 0 <= k < |before| && before[k].id == id
      {
        var k :| 0 <= k < |log| && log[k].id == id;
        assert before[k].id == id;
      }
      HoldsCount(smaller, before);
      assert |table.Keys| == |smaller.Keys| + 1;
    }
  }

  /** The newest id separates the stored prefix from the rest. */
  lemma NewIsBeyondPrefix(table: map<int, Entry>, last: Option<int>, base: seq<Entry>, final: seq<Entry>, x: nat)
    requires Stored(table, last, base, final) && x < |final|
    ensures IsNew(last, final[x]) <==> x >= |base|
  {
    if base == [] {
      assert forall id :: id !in table;
      assert table == map[];
    } else {
      var m := |base| - 1;
      assert base[m].id in table && base[m] == final[m];
      var k :| 0 <= k < |base| && base[k].id == last.value;
      assert base[k] == final[k];
      assert k == m;
    }
  }

  /** The page's entries by log position. */
  lemma PagePositions(log: seq<Entry>, start: nat, x: nat)
    requires x < |log| && |log| - start - PAGE_SIZE <= x < |log| - start
    ensures log[x] in Page(log, start)
  {
    assert Page(log, start)[|log| - 1 - start - x] == log[x];
  }

  /** A page that ends the walk is short or lies within the stored prefix. */
  lemma EndingPageReaches(
      table: map<int, Entry>, last: Option<int>, base: seq<Entry>, final: seq<Entry>, log: seq<Entry>, start: nat)
    requires Stored(table, last, base, final) && log <= final
    requires EndsWalk(last, Page(log, start))
    ensures |log| - start < PAGE_SIZE || |log| - start <= |base|
  {
    if |log| - start >= PAGE_SIZE {
      var x := |log| - start - 1;
      PagePositions(log, start, x);
      assert final[x] == log[x];
      assert !IsNew(last, final[x]);
      NewIsBeyondPrefix(table, last, base, final, x);
    }
  }

  /** The walk stops only once its last page has reached the stored prefix. */
  lemma LastPageReaches(w: Run, base: seq<Entry>, final: seq<Entry>)
    requires Setting(w, base, final) && Walked(w) && CapHarmless(w)
    ensures Reached(w, |base|)
  {
    var q := w.pages - 1;
    var log := w.replies[q].log;
    if EndsWalk(w.last, Page(log, q * PAGE_SIZE)) {
      assert log <= final;
      EndingPageReaches(w.before, w.last, base, final, log, q * PAGE_SIZE);
    } else {
      HoldsCountOfPrefix(w.before, base, final);
    }
  }

  lemma WalkedSetting(w: Run, base: seq<Entry>, final: seq<Entry>)
    requires Walked(w) && Stored(w.before, w.last, base, final) && Growing(base, w.replies, final)
    ensures Setting(w, base, final)
  {
  }

  lemma HoldsCountOfPrefix(table: map<int, Entry>, base: seq<Entry>, final: seq<Entry>)
    requires Holds(table, base) && base <= final && Rising(final)
    ensures |table| == |base|
  {
    assert forall k :: 0 <= k < |base| ==> base[k] == final[k];
    HoldsCount(table, base);
  }

  /** Below the top of any fetched page and above the stored prefix there is no hole: that page or one
      after it holds the position, because growth only moves later pages up. */
  lemma {:induction false} SomePageHolds(w: Run, base: seq<Entry>, final: seq<Entry>, q: nat, x: nat) returns (r: nat)
    requires Setting(w, base, final) && Reached(w, |base|)
    requires q < w.pages && |base| <= x < Top(w.replies, q)
    ensures q <= r < w.pages && Bottom(w.replies, r) <= x < Top(w.replies, r)
    decreases w.pages - q
  {
    if Bottom(w.replies, q) <= x {
      r := q;
    } else {
      assert w.replies[q].log <= w.replies[q + 1].log;
      r := SomePageHolds(w, base, final, q + 1, x);
    }
  }

  /** The highest position any of the pages reached. */
  function Highest(replies: seq<Reply>, pages: nat, stored: nat): (r: nat)
    requires pages <= |replies| && forall q :: 0 <= q < pages ==> replies[q].Served?
    ensures r >= stored && forall q :: 0 <= q < pages ==> Top(replies, q) <= r
    ensures r == stored || exists q :: 0 <= q < pages && r == Top(replies, q)
  {
    if pages == 0 then stored
    else
      var h := Highest(replies, pages - 1, stored);
      if Top(replies, pages - 1) > h then Top(replies, pages - 1) else h
  }

  /** The position of a page's entry. */
  lemma EntryPosition(log: seq<Entry>, start: nat, e: Entry) returns (x: nat)
    requires e in Page(log, start)
    ensures x < |log| && log[x] == e && |log| - start - PAGE_SIZE <= x < |log| - start
  {
    var items := Page(log, start);
    var t :| 0 <= t < |items| && items[t] == e;
    x := |log| - 1 - start - t;
  }

  lemma ServedIsFinal(start: seq<Entry>, replies: seq<Reply>, final: seq<Entry>, q: nat, x: nat)
    requires Growing(start, replies, final)
    requires q < |replies| && replies[q].Served? && x < |replies[q].log|
    ensures x < |final| && final[x] == replies[q].log[x]
  {
    assert replies[q].log <= final;
  }

  /** Everything a walk collects lies beyond the stored prefix and below the highest position reached. */
  lemma CollectedPositions(w: Run, base: seq<Entry>, final: seq<Entry>, e: Entry) returns (x: nat)
    requires Setting(w, base, final)
    requires Collected(w.last, w.replies, w.pages, e)
    ensures |base| <= x < |final| && final[x] == e && x < Highest(w.replies, w.pages, |base|)
  {
    var q :| 0 <= q < w.pages && w.replies[q].Served? && e in Page(w.replies[q].log, q * PAGE_SIZE) && IsNew(w.last, e);
    x := EntryPosition(w.replies[q].log, q * PAGE_SIZE, e);
    ServedIsFinal(base, w.replies, final, q, x);
    NewIsBeyondPrefix(w.before, w.last, base, final, x);
    assert Top(w.replies, q) <= Highest(w.replies, w.pages, |base|);
  }

  /** And every such position is collected. */
  lemma PositionIsCollected(w: Run, base: seq<Entry>, final: seq<Entry>, x: nat)
    requires Setting(w, base, final) && Reached(w, |base|)
    requires |base| <= x < Highest(w.replies, w.pages, |base|)
    ensures x < |final| && Collected(w.last, w.replies, w.pages, final[x])
  {
    var q :| 0 <= q < w.pages && Highest(w.replies, w.pages, |base|) == Top(w.replies, q);
    var r := SomePageHolds(w, base, final, q, x);
    PagePositions(w.replies[r].log, r * PAGE_SIZE, x);
    ServedIsFinal(base, w.replies, final, r, x);
    NewIsBeyondPrefix(w.before, w.last, base, final, x);
  }

  /** A stored id holds the server's entry of that id. */
  lemma StoredIsServed(w: Run, base: seq<Entry>, final: seq<Entry>, k: nat)
    requires Setting(w, base, final) && Upserted(w.before, CollectedSet(w), w.after)
    requires k < |final| && final[k].id in w.after
    ensures w.after[final[k].id] == final[k]
  {
    var id := final[k].id;
    if IdIn(CollectedSet(w), id) {
      var x := CollectedPositions(w, base, final, w.after[id]);
      assert x == k;
    } else {
      var j :| 0 <= j < |base| && base[j].id == id;
      assert base[j] == final[j];
      assert j == k;
    }
  }

  /** Gap-freedom of one completed run: from a table holding a prefix of the server's log, a walk over a log
      that grows meanwhile leaves a table holding a prefix again, one that includes everything the server
      had at the first request. */
  lemma WalkKeepsPrefix(w: Run, base: seq<Entry>, final: seq<Entry>) returns (m: nat)
    requires Completed(w) && CapHarmless(w)
    requires Stored(w.before, w.last, base, final) && Growing(base, w.replies, final)
    ensures |base| <= m <= |final| && Holds(w.after, final[..m])
    ensures w.replies[0].Served? && |w.replies[0].log| <= m
  {
    WalkedSetting(w, base, final);
    LastPageReaches(w, base, final);
    m := Highest(w.replies, w.pages, |base|);
    HighestIsInLog(w, base, final);
    HoldsUpToHighest(w, base, final, m);
  }

  lemma HoldsUpToHighest(w: Run, base: seq<Entry>, final: seq<Entry>, m: nat)
    requires Setting(w, base, final) && Reached(w, |base|) && Upserted(w.before, CollectedSet(w), w.after)
    requires m == Highest(w.replies, w.pages, |base|) <= |final|
    ensures Holds(w.after, final[..m])
  {
    forall k | 0 <= k < m
      ensures final[..m][k].id in w.after && w.after[final[..m][k].id] == final[..m][k]
    {
      PrefixIsStored(w, base, final, k);
    }
    forall id | id in w.after
      ensures exists k :: 0 <= k < m && final[..m][k].id == id
    {
      AfterIsPosition(w, base, final, id);
      var k :| 0 <= k < |final| && k < m && final[k].id == id;
      assert final[..m][k].id == id;
    }
  }

  lemma HighestIsInLog(w: Run, base: seq<Entry>, final: seq<Entry>)
    requires Setting(w, base, final)
    ensures |base| <= Highest(w.replies, w.pages, |base|) <= |final|
    ensures |w.replies[0].log| <= Highest(w.replies, w.pages, |base|)
  {
    assert Top(w.replies, 0) == |w.replies[0].log|;
    forall q | 0 <= q < w.pages
      ensures Top(w.replies, q) <= |final|
    {
      assert w.replies[q].log <= final;
    }
  }

  lemma PrefixIsStored(w: Run, base: seq<Entry>, final: seq<Entry>, k: nat)
    requires Setting(w, base, final) && Reached(w, |base|) && Upserted(w.before, CollectedSet(w), w.after)
    requires k < |final| && k < Highest(w.replies, w.pages, |base|)
    ensures final[k].id in w.after && w.after[final[k].id] == final[k]
  {
    if k >= |base| {
      PositionIsCollected(w, base, final, k);
      assert final[k] in CollectedSet(w);
    } else {
      assert base[k] == final[k];
    }
    StoredIsServed(w, base, final, k);
  }

  lemma AfterIsPosition(w: Run, base: seq<Entry>, final: seq<Entry>, id: int)
    requires Setting(w, base, final) && Upserted(w.before, CollectedSet(w), w.after) && id in w.after
    ensures exists k :: 0 <= k < |final| && k < Highest(w.replies, w.pages, |base|) && final[k].id == id
  {
    if id in w.before {
      var k :| 0 <= k < |base| && base[k].id == id;
      assert final[k] == base[k];
    } else {
      var e :| e in CollectedSet(w) && e.id == id;
      var x := CollectedPositions(w, base, final, e);
    }
  }

  // ----- any sequence of runs -----

  /** Runs one after another from an empty table; `logs[i]` is the server's log when run i starts.  A run
      either failed and stored nothing or completed without its cap cutting entries off. */
  ghost predicate Runs(runs: seq<Run>, logs: seq<seq<Entry>>) {
    && |logs| == |runs| + 1
    && forall i :: 0 <= i < |runs| ==>
         && runs[i].before == TableAfter(map[], runs[..i])
         && Growing(logs[i], runs[i].replies, logs[i + 1])
         && (runs[i].after == runs[i].before || (Completed(runs[i]) && CapHarmless(runs[i])))
  }

  function TableAfter(start: map<int, Entry>, runs: seq<Run>): map<int, Entry> {
    if runs == [] then start else Last(runs).after
  }

  /** Gap-freedom over every sequence of completed and failing runs: the stored log is always exactly the
      server's entries up to the newest one stored. */
  lemma {:induction false} RunsNeverLeaveGaps(runs: seq<Run>, logs: seq<seq<Entry>>) returns (m: nat)
    requires Runs(runs, logs) && Rising(Last(logs))
    ensures m <= |Last(logs)| && Holds(TableAfter(map[], runs), Last(logs)[..m])
  {
    if runs == [] {
      m := 0;
    } else {
      var w, start, final := Last(runs), logs[|runs| - 1], Last(logs);
      EarlierRuns(runs, logs);
      var n := RunsNeverLeaveGaps(Front(runs), Front(logs));
      if w.after == w.before {
        m := n;
        assert final[..m] == start[..m];
      } else {
        GrowingFromPrefix(start, n, w.replies, final);
        assert Stored(w.before, w.last, start[..n], final);
        m := WalkKeepsPrefix(w, start[..n], final);
      }
    }
  }

  lemma EarlierRuns(runs: seq<Run>, logs: seq<seq<Entry>>)
    requires Runs(runs, logs) && Rising(Last(logs)) && runs != []
    ensures Runs(Front(runs), Front(logs)) && Last(Front(logs)) == logs[|runs| - 1] && Rising(Last(Front(logs)))
    ensures Last(runs).before == TableAfter(map[], Front(runs))
    ensures Growing(logs[|runs| - 1], Last(runs).replies, Last(logs))
  {
    var start, final := logs[|runs| - 1], Last(logs);
    assert Growing(start, Last(runs).replies, final);
    assert forall k :: 0 <= k < |start| ==> start[k] == final[k];
    assert runs[..|runs| - 1] == Front(runs);
    forall i | 0 <= i < |Front(runs)|
      ensures Front(runs)[i] == runs[i] && Front(runs)[..i] == runs[..i]
    {
    }
    assert forall i :: 0 <= i < |runs| ==> Front(logs)[i] == logs[i];
  }

  lemma GrowingFromPrefix(start: seq<Entry>, n: nat, replies: seq<Reply>, final: seq<Entry>)
    requires Growing(start, replies, final) && n <= |start|
    ensures Growing(start[..n], replies, final)
  {
    assert start[..n] <= start;
  }

  // ----- exactly when the cap loses entries -----

  ghost predicate AllServe(replies: seq<Reply>, log: seq<Entry>) {
    forall q :: 0 <= q < |replies| ==> replies[q] == Served(log)
  }

  /** With nothing new arriving during the walk, the run leaves no gap if and only if the server holds at
      most 200 000 entries beyond the stored ones. */
  lemma CapLosesEntriesIff(w: Run, base: seq<Entry>, log: seq<Entry>)
    requires Completed(w) && Stored(w.before, w.last, base, log) && AllServe(w.replies, log)
    ensures (exists m :: 0 <= m <= |log| && Holds(w.after, log[..m])) <==> |log| - |base| <= 200_000
  {
    HoldsCountOfPrefix(w.before, base, log);
    if |log| - |base| <= MAX_ENTRIES_PER_RUN {
      var m := WalkKeepsPrefix(w, base, log);
    } else {
      OverfullWalkIsCapped(w, base, log);
      BelowTheCapIsLost(w, base, log, |log| - MAX_ENTRIES_PER_RUN - 1);
      forall m | 0 <= m <= |log|
        ensures !Holds(w.after, log[..m])
      {
        HoleIsNoPrefix(w.after, log, |log| - MAX_ENTRIES_PER_RUN - 1, m);
      }
    }
  }

  /** A table with the newest entry and without an older one holds no prefix. */
  lemma HoleIsNoPrefix(table: map<int, Entry>, log: seq<Entry>, lost: nat, m: nat)
    requires Rising(log) && lost < |log| && m <= |log|
    requires log[|log| - 1].id in table && log[lost].id !in table
    ensures !Holds(table, log[..m])
  {
    if m > lost {
      assert log[..m][lost].id == log[lost].id;
    } else {
      assert forall k :: 0 <= k < m ==> log[..m][k].id < log[|log| - 1].id;
    }
  }

  /** Every page lies wholly beyond the stored prefix, so only the cap stops the walk. */
  lemma OverfullWalkIsCapped(w: Run, base: seq<Entry>, log: seq<Entry>)
    requires Walked(w) && Stored(w.before, w.last, base, log) && AllServe(w.replies, log)
    requires |log| - |base| > MAX_ENTRIES_PER_RUN
    ensures w.pages == MAX_PAGES
  {
    var q := w.pages - 1;
    var items := Page(log, q * PAGE_SIZE);
    var x := |log| - 1 - q * PAGE_SIZE;
    PagePositions(log, q * PAGE_SIZE, x);
    NewIsBeyondPrefix(w.before, w.last, base, log, x);
    assert w.replies[q] == Served(log);
    assert log[x] in NewItems(w.last, items);
  }

  /** Every collected entry comes from one of the newest MAX_ENTRIES_PER_RUN positions. */
  lemma CollectedIsRecent(w: Run, log: seq<Entry>, e: Entry) returns (x: nat)
    requires Walked(w) && AllServe(w.replies, log) && Collected(w.last, w.replies, w.pages, e)
    ensures |log| - MAX_ENTRIES_PER_RUN <= x < |log| && log[x] == e
  {
    var q :| 0 <= q < w.pages && w.replies[q].Served? && e in Page(w.replies[q].log, q * PAGE_SIZE) && IsNew(w.last, e);
    assert w.replies[q] == Served(log);
    x := EntryPosition(log, q * PAGE_SIZE, e);
  }

  /** What the walk never reaches is not stored, while the newest entry is. */
  lemma BelowTheCapIsLost(w: Run, base: seq<Entry>, log: seq<Entry>, x: nat)
    requires Completed(w) && Stored(w.before, w.last, base, log) && AllServe(w.replies, log)
    requires |base| <= x < |log| - MAX_ENTRIES_PER_RUN
    ensures log[|log| - 1].id in w.after
    ensures log[x].id !in w.after
  {
    var top := |log| - 1;
    assert w.replies[0] == Served(log);
    PagePositions(log, 0, top);
    NewIsBeyondPrefix(w.before, w.last, base, log, top);
    assert log[top] in CollectedSet(w);
    assert log[x].id !in w.before by {
      assert forall k :: 0 <= k < |base| ==> base[k] == log[k] && log[k].id < log[x].id;
    }
    forall e | e in CollectedSet(w)
      ensures e.id != log[x].id
    {
      var y := CollectedIsRecent(w, log, e);
    }
  }

  /** Every position the capped walk does reach is stored. */
  lemma AboveTheCapIsStored(w: Run, base: seq<Entry>, log: seq<Entry>, x: nat)
    requires Completed(w) && Stored(w.before, w.last, base, log) && AllServe(w.replies, log)
    requires |log| - |base| > MAX_ENTRIES_PER_RUN && |log| - MAX_ENTRIES_PER_RUN <= x < |log|
    ensures log[x].id in w.after
  {
    OverfullWalkIsCapped(w, base, log);
    var q := (|log| - 1 - x) / PAGE_SIZE;
    assert w.replies[q] == Served(log);
    PagePositions(log, q * PAGE_SIZE, x);
    NewIsBeyondPrefix(w.before, w.last, base, log, x);
    assert log[x] in CollectedSet(w);
  }

  /** Exactly which entries a run over a log that does not change leaves out: those not stored before and
      more than 200 000 from the newest. */
  lemma LostEntriesIff(w: Run, base: seq<Entry>, log: seq<Entry>, x: nat)
    requires Completed(w) && Stored(w.before, w.last, base, log) && AllServe(w.replies, log) && x < |log|
    ensures log[x].id !in w.after <==> |base| <= x < |log| - 200_000
  {
    if |base| <= x < |log| - MAX_ENTRIES_PER_RUN {
      BelowTheCapIsLost(w, base, log, x);
    } else if x < |base| {
      assert base[x] == log[x];
    } else if |log| - |base| > MAX_ENTRIES_PER_RUN {
      AboveTheCapIsStored(w, base, log, x);
    } else {
      HoldsCountOfPrefix(w.before, base, log);
      var m := WalkKeepsPrefix(w, base, log);
      assert w.replies[0] == Served(log);
      assert log[..m][x] == log[x];
    }
  }

  // ----- and why no later run finds them -----

  /** Runs one after another from a table; nothing is asked of what the server answers them. */
  ghost predicate LaterRuns(table: map<int, Entry>, runs: seq<Run>) {
    forall i :: 0 <= i < |runs| ==>
      && runs[i].before == TableAfter(table, runs[..i])
      && (runs[i].after == runs[i].before || Completed(runs[i]))
  }

  lemma EarlierLaterRuns(table: map<int, Entry>, runs: seq<Run>)
    requires LaterRuns(table, runs) && runs != []
    ensures LaterRuns(table, Front(runs)) && Last(runs).before == TableAfter(table, Front(runs))
    ensures Last(runs).after == Last(runs).before || Completed(Last(runs))
  {
    assert runs[..|runs| - 1] == Front(runs);
    forall i | 0 <= i < |Front(runs)|
      ensures Front(runs)[i] == runs[i] && Front(runs)[..i] == runs[..i]
    {
    }
  }

  /** Later runs keep every stored id, and store none below the newest: a walk only collects what is newer. */
  lemma {:induction false} OldIdsStayAsTheyAre(table: map<int, Entry>, runs: seq<Run>, newest: int, id: int)
    requires LaterRuns(table, runs) && newest in table && id <= newest
    ensures newest in TableAfter(table, runs)
    ensures id in TableAfter(table, runs) <==> id in table
  {
    if runs != [] {
      var w := Last(runs);
      EarlierLaterRuns(table, runs);
      OldIdsStayAsTheyAre(table, Front(runs), newest, id);
      if w.after != w.before {
        assert forall e :: e in CollectedSet(w) ==> e.id > newest;
      }
    }
  }

  lemma NewestHasLargestId(log: seq<Entry>, top: nat, x: nat)
    requires Rising(log) && x <= top < |log|
    ensures log[x].id <= log[top].id
  {
  }

  /** What the cap cuts off is lost for good: after any later runs, whatever the server answers them, exactly
      the entries the capped run left out are still missing. */
  lemma LostEntriesStayLost(w: Run, base: seq<Entry>, log: seq<Entry>, later: seq<Run>, x: nat)
    requires Completed(w) && Stored(w.before, w.last, base, log) && AllServe(w.replies, log) && x < |log|
    requires LaterRuns(w.after, later)
    ensures log[x].id !in TableAfter(w.after, later) <==> |base| <= x < |log| - 200_000
  {
    var top: nat := |log| - 1;
    LostEntriesIff(w, base, log, x);
    LostEntriesIff(w, base, log, top);
    NewestHasLargestId(log, top, x);
    OldIdsStayAsTheyAre(w.after, later, log[top].id, log[x].id);
  }

  // ----- the link to the pipeline -----

  /** One instance's entries, in the order they were appended. */
  function InstanceLog(log: seq<Entry>, instance: int): seq<Entry> {
    if log == [] then []
    else if Last(log).instance == instance then InstanceLog(Front(log), instance) + [Last(log)]
    else InstanceLog(Front(log), instance)
  }

  lemma {:induction false} InstanceLogMembers(log: seq<Entry>, instance: int)
    ensures forall k :: 0 <= k < |log| && log[k].instance == instance ==> log[k] in InstanceLog(log, instance)
  {
    if log != [] {
      InstanceLogMembers(Front(log), instance);
      assert forall k :: 0 <= k < |log| - 1 ==> Front(log)[k] == log[k];
    }
  }

  lemma {:induction false} InstanceLogAppend(log: seq<Entry>, more: seq<Entry>, instance: int)
    ensures InstanceLog(log + more, instance) == InstanceLog(log, instance) + InstanceLog(more, instance)
  {
    if more == [] {
      assert log + more == log;
    } else {
      InstanceLogAppend(log, Front(more), instance);
      assert Front(log + more) == log + Front(more);
    }
  }

  lemma {:induction false} InstanceLogOfOne(log: seq<Entry>, from: int, instance: int)
    requires forall k :: 0 <= k < |log| ==> log[k].instance == from
    ensures InstanceLog(log, instance) == if instance == from then log else []
  {
    if log != [] {
      InstanceLogOfOne(Front(log), from, instance);
      assert log == Front(log) + [Last(log)];
    }
  }

  /** The server's next entries have ids above all those of their instance in the log. */
  lemma NextEntriesRise(log: seq<Entry>, instance: int, final: seq<Entry>, n: nat, m: nat)
    requires IdsRise(log) && Rising(final) && n <= m <= |final|
    requires forall e :: e in final ==> e.instance == instance
    requires InstanceLog(log, instance) == final[..n]
    ensures IdsRise(log + final[n..m])
  {
    var all := log + final[n..m];
    InstanceLogMembers(log, instance);
    assert forall b :: |log| <= b < |all| ==> all[b] == final[n + b - |log|];
    forall a, b | 0 <= a < b < |all| && all[a].instance == all[b].instance
      ensures all[a].id < all[b].id
    {
      if b < |log| {
        assert all[a] == log[a] && all[b] == log[b];
      } else if a < |log| {
        assert final[n + b - |log|] in final;
        assert log[a] in final[..n];
        var j :| 0 <= j < n && final[j] == log[a];
      }
    }
  }

  /** A completed sync run that its cap does not cut short is an append step of the pipeline: where the machine's log holds of this instance
      what the table held before the run, the entries the run added are ones the machine may append, and then
      its log holds what the table holds, with every other instance's entries as they were. */
  lemma SyncIsAppend(s: State, w: Run, instance: int, final: seq<Entry>, n: nat) returns (m: nat)
    requires Completed(w) && CapHarmless(w) && n <= |final|
    requires Stored(w.before, w.last, final[..n], final) && Growing(final[..n], w.replies, final)
    requires forall e :: e in final ==> e.instance == instance
    requires IdsRise(s.log) && InstanceLog(s.log, instance) == final[..n]
    ensures n <= m <= |final| && Holds(w.after, final[..m])
    ensures Enabled(s, Append(final[n..m]))
    ensures InstanceLog(s.log + final[n..m], instance) == final[..m]
    ensures forall i :: i != instance ==> InstanceLog(s.log + final[n..m], i) == InstanceLog(s.log, i)
  {
    m := WalkKeepsPrefix(w, final[..n], final);
    NextEntriesRise(s.log, instance, final, n, m);
    NextEntriesExtend(s.log, instance, final, n, m);
  }

  lemma NextEntriesExtend(log: seq<Entry>, instance: int, final: seq<Entry>, n: nat, m: nat)
    requires n <= m <= |final| && InstanceLog(log, instance) == final[..n]
    requires forall e :: e in final ==> e.instance == instance
    ensures InstanceLog(log + final[n..m], instance) == final[..m]
    ensures forall i :: i != instance ==> InstanceLog(log + final[n..m], i) == InstanceLog(log, i)
  {
    var more := final[n..m];
    assert final[..n] + more == final[..m];
    assert forall k :: 0 <= k < |more| ==> more[k] == final[n + k] && more[k] in final;
    forall i
      ensures InstanceLog(log + more, i) == InstanceLog(log, i) + if i == instance then more else []
    {
      InstanceLogAppend(log, more, i);
      InstanceLogOfOne(more, instance, i);
    }
  }
}
