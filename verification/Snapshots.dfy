/**
 The daily snapshot tables: plays and watch time per (day, instance), per user and per item, and the
 DELETE + re-aggregate pass from a local day on.
 */
module Snapshots {
  import opened Options
  import opened Sequences
  import opened Stamps
  import opened SessionBuilder
  import opened SessionStore

  /** The primary keys of the three snapshot tables. */
  datatype SnapKey =
    | Total(day: int, instance: int)
    | PerUser(day: int, instance: int, user: int)
    | PerItem(day: int, instance: int, item: int)

  /** The per-item table stores no watch time. */
  datatype Agg = Agg(plays: nat, watch: int)

  type SnapTable = map<SnapKey, Agg>

  /** `stat_date`; stored rows always carry a parsed start. */
  function DayOf(zone: int -> int, s: Session): int {
    if s.start.At? then LocalDay(zone, s.start.micros) else 0
  }

  predicate InKey(zone: int -> int, s: Session, k: SnapKey) {
    && DayOf(zone, s) == k.day
    && s.group.instance == k.instance
    && match k
       case Total(_, _) => true
       case PerUser(_, _, u) => s.group.user == u
       case PerItem(_, _, i) => s.group.item == i
  }

  function KeysOf(zone: int -> int, s: Session): set<SnapKey> {
    var d := DayOf(zone, s);
    {Total(d, s.group.instance), PerUser(d, s.group.instance, s.group.user), PerItem(d, s.group.instance, s.group.item)}
  }

  function Keys(zone: int -> int, rows: seq<Session>): set<SnapKey> {
    if rows == [] then {} else Keys(zone, Front(rows)) + KeysOf(zone, Last(rows))
  }

  /** COUNT(*) of one group. */
  function Plays(zone: int -> int, rows: seq<Session>, k: SnapKey): nat {
    if rows == [] then 0
    else Plays(zone, Front(rows), k) + if InKey(zone, Last(rows), k) then 1 else 0
  }

  /** SUM(duration_seconds) of one group. */
  function Watch(zone: int -> int, rows: seq<Session>, k: SnapKey): int {
    if rows == [] || k.PerItem? then 0
    else Watch(zone, Front(rows), k) + if InKey(zone, Last(rows), k) then Last(rows).duration else 0
  }

  /** INSERT ... SELECT ... GROUP BY over the given rows. */
  function Aggregate(zone: int -> int, rows: seq<Session>): SnapTable {
    map k | k in Keys(zone, rows) :: Agg(Plays(zone, rows, k), Watch(zone, rows, k))
  }

  /** `start_time >= since_lo`: not before midnight UTC of the day before `since`. */
  predicate PassesPrefilter(s: Session, since: int) {
    Le(At((since - 1) * SECONDS_PER_DAY * MICROS_PER_SECOND), s.start)
  }

  /** The rows a pass reads: the raw-text prefilter and the exact local-day predicate. */
  function Scan(zone: int -> int, rows: seq<Session>, since: Option<int>): seq<Session> {
    if rows == [] then []
    else if since.None? || (PassesPrefilter(Last(rows), since.value) && DayOf(zone, Last(rows)) >= since.value) then
      Scan(zone, Front(rows), since) + [Last(rows)]
    else Scan(zone, Front(rows), since)
  }

  function RebuildSnapshots(zone: int -> int, snaps: SnapTable, rows: seq<Session>, since: Option<int>): SnapTable {
    var kept := map k | k in snaps && since.Some? && k.day < since.value :: snaps[k];
    kept + Aggregate(zone, Scan(zone, rows, since))
  }

  /** The stored snapshot of local day `d` is the aggregate of the stored sessions. */
  ghost predicate Agrees(zone: int -> int, snaps: SnapTable, rows: seq<Session>, d: int) {
    forall k: SnapKey :: k.day == d ==>
      && (k in snaps <==> Plays(zone, rows, k) > 0)
      && (k in snaps ==> snaps[k] == Agg(Plays(zone, rows, k), Watch(zone, rows, k)))
  }

  // ----- aggregates -----

  lemma {:induction false} KeysHavePlays(zone: int -> int, rows: seq<Session>, k: SnapKey)
    ensures k in Keys(zone, rows) <==> Plays(zone, rows, k) > 0
  {
    if rows != [] {
      KeysHavePlays(zone, Front(rows), k);
      assert k in KeysOf(zone, Last(rows)) <==> InKey(zone, Last(rows), k);
    }
  }

  ghost predicate AllParsed(rows: seq<Session>) {
    forall s :: s in rows ==> s.start.At?
  }

  lemma {:induction false} PlaysIsSize(zone: int -> int, rows: seq<Session>, k: SnapKey, at: set<int>)
    requires forall n :: n in at <==> 0 <= n < |rows| && InKey(zone, rows[n], k)
    ensures Plays(zone, rows, k) == |at|
  {
    if rows == [] {
      assert forall n :: n !in at;
    } else {
      var last := |rows| - 1;
      PlaysIsSize(zone, Front(rows), k, at - {last});
      assert last in at ==> at == at - {last} + {last};
      assert last !in at ==> at == at - {last};
    }
  }

  /** Plays are counts of rows: those that start on the key's local day, on its instance, and by its user or of
      its item. */
  lemma PlaysAreCounts(zone: int -> int, rows: seq<Session>, d: int, i: int, x: int)
    requires AllParsed(rows)
    ensures Plays(zone, rows, Total(d, i)) ==
            |set n | 0 <= n < |rows| && LocalDay(zone, rows[n].start.micros) == d && rows[n].group.instance == i|
    ensures Plays(zone, rows, PerUser(d, i, x)) ==
            |set n | 0 <= n < |rows| && LocalDay(zone, rows[n].start.micros) == d && rows[n].group.instance == i
                     && rows[n].group.user == x|
    ensures Plays(zone, rows, PerItem(d, i, x)) ==
            |set n | 0 <= n < |rows| && LocalDay(zone, rows[n].start.micros) == d && rows[n].group.instance == i
                     && rows[n].group.item == x|
  {
    PlaysIsSize(zone, rows, Total(d, i),
                set n | 0 <= n < |rows| && LocalDay(zone, rows[n].start.micros) == d && rows[n].group.instance == i);
    PlaysIsSize(zone, rows, PerUser(d, i, x),
                set n | 0 <= n < |rows| && LocalDay(zone, rows[n].start.micros) == d && rows[n].group.instance == i
                        && rows[n].group.user == x);
    PlaysIsSize(zone, rows, PerItem(d, i, x),
                set n | 0 <= n < |rows| && LocalDay(zone, rows[n].start.micros) == d && rows[n].group.instance == i
                        && rows[n].group.item == x);
  }

  /** Watch time is the sum of the durations of those rows; the per-item table has none. */
  lemma WatchAddsDurations(zone: int -> int, rows: seq<Session>, s: Session, d: int, i: int, x: int)
    requires s.start.At?
    ensures var here := LocalDay(zone, s.start.micros) == d && s.group.instance == i;
            && Watch(zone, [], Total(d, i)) == Watch(zone, [], PerUser(d, i, x)) == Watch(zone, rows, PerItem(d, i, x)) == 0
            && Watch(zone, rows + [s], Total(d, i)) == Watch(zone, rows, Total(d, i)) + (if here then s.duration else 0)
            && Watch(zone, rows + [s], PerUser(d, i, x))
               == Watch(zone, rows, PerUser(d, i, x)) + (if here && s.group.user == x then s.duration else 0)
  {
    assert Front(rows + [s]) == rows;
  }

  /** The text prefilter keeps what starts at or after midnight UTC of the day before, so it never drops a row the
      exact predicate keeps. */
  lemma PrefilterIsRedundant(zone: int -> int, s: Session, since: int)
    requires ValidZone(zone) && s.start.At?
    ensures PassesPrefilter(s, since) <==> s.start.micros >= (since - 1) * 86_400_000_000
    ensures DayOf(zone, s) >= since ==> PassesPrefilter(s, since)
  {
    var sec := Second(s.start.micros);
    assert -SECONDS_PER_DAY < zone(sec) < SECONDS_PER_DAY;
    assert DayOf(zone, s) >= since ==> sec + zone(sec) >= since * SECONDS_PER_DAY;
  }

  lemma {:induction false} ScanKeepsDay(zone: int -> int, rows: seq<Session>, since: Option<int>, k: SnapKey)
    requires ValidZone(zone) && AllParsed(rows)
    ensures Plays(zone, Scan(zone, rows, since), k) ==
            if since.None? || k.day >= since.value then Plays(zone, rows, k) else 0
    ensures Watch(zone, Scan(zone, rows, since), k) ==
            if since.None? || k.day >= since.value then Watch(zone, rows, k) else 0
  {
    if rows != [] {
      var before, s := Front(rows), Last(rows);
      assert rows == before + [s];
      ScanKeepsDay(zone, before, since, k);
      if since.Some? && DayOf(zone, s) >= since.value {
        PrefilterIsRedundant(zone, s, since.value);
      }
      assert Front(Scan(zone, before, since) + [s]) == Scan(zone, before, since);
    }
  }

  /** A pass from `since` makes every day from there on agree and leaves every earlier day as it was, row by row. */
  lemma RebuildMakesDaysAgree(zone: int -> int, snaps: SnapTable, rows: seq<Session>, since: Option<int>, d: int)
    requires ValidZone(zone) && AllParsed(rows)
    ensures Agrees(zone, RebuildSnapshots(zone, snaps, rows, since), rows, d)
            <==> (since.None? || since.value <= d || Agrees(zone, snaps, rows, d))
    ensures forall k: SnapKey :: since.Some? && k.day < since.value ==>
              var after := RebuildSnapshots(zone, snaps, rows, since);
              (k in after <==> k in snaps) && (k in after ==> after[k] == snaps[k])
  {
    var r := RebuildSnapshots(zone, snaps, rows, since);
    forall k: SnapKey
      ensures since.None? || since.value <= k.day ==>
                && (k in r <==> Plays(zone, rows, k) > 0)
                && (k in r ==> r[k] == Agg(Plays(zone, rows, k), Watch(zone, rows, k)))
      ensures since.Some? && k.day < since.value ==> (k in r <==> k in snaps) && (k in r ==> r[k] == snaps[k])
    {
      ScanKeepsDay(zone, rows, since, k);
      KeysHavePlays(zone, Scan(zone, rows, since), k);
    }
  }

  lemma {:induction false} AggregateSnoc(zone: int -> int, rows: seq<Session>, s: Session, k: SnapKey)
    ensures Plays(zone, rows + [s], k) == Plays(zone, rows, k) + if InKey(zone, s, k) then 1 else 0
    ensures Watch(zone, rows + [s], k) ==
            Watch(zone, rows, k) + if InKey(zone, s, k) && !k.PerItem? then s.duration else 0
  {
    assert Front(rows + [s]) == rows;
  }

  lemma {:induction false} AggregateAppend(zone: int -> int, a: seq<Session>, b: seq<Session>, k: SnapKey)
    ensures Plays(zone, a + b, k) == Plays(zone, a, k) + Plays(zone, b, k)
    ensures Watch(zone, a + b, k) == Watch(zone, a, k) + Watch(zone, b, k)
  {
    if b == [] {
      assert a + b == a;
    } else {
      AggregateAppend(zone, a, Front(b), k);
      assert a + b == (a + Front(b)) + [Last(b)];
      AggregateSnoc(zone, a + Front(b), Last(b), k);
    }
  }

  ghost predicate SameRowsInKey(zone: int -> int, a: seq<Session>, b: seq<Session>, k: SnapKey) {
    forall s :: InKey(zone, s, k) ==> multiset(a)[s] == multiset(b)[s]
  }

  /** Aggregates depend only on how often each row of the group occurs, not on row order. */
  lemma {:induction false} AggregateByMultiset(zone: int -> int, a: seq<Session>, b: seq<Session>, k: SnapKey)
    requires SameRowsInKey(zone, a, b, k)
    ensures Plays(zone, a, k) == Plays(zone, b, k)
    ensures Watch(zone, a, k) == Watch(zone, b, k)
    decreases |a| + |b|
  {
    if a != [] {
      var x := Last(a);
      assert a == Front(a) + [x];
      if !InKey(zone, x, k) {
        AggregateByMultiset(zone, Front(a), b, k);
      } else {
        assert multiset(b)[x] > 0;
        var j :| 0 <= j < |b| && b[j] == x;
        var c := b[..j] + b[j + 1..];
        assert b == b[..j] + [x] + b[j + 1..];
        AggregateAppend(zone, b[..j] + [x], b[j + 1..], k);
        AggregateSnoc(zone, b[..j], x, k);
        AggregateAppend(zone, b[..j], b[j + 1..], k);
        AggregateByMultiset(zone, Front(a), c, k);
      }
    } else if b != [] {
      assert b == Front(b) + [Last(b)];
      assert multiset(b)[Last(b)] > 0;
      AggregateByMultiset(zone, a, Front(b), k);
    }
  }

  lemma {:induction false} RowCountByGroup(rows: seq<Session>, s: Session)
    ensures multiset(rows)[s] == multiset(RowsOf(rows, s.group))[s]
  {
    if rows != [] {
      RowCountByGroup(Front(rows), s);
      assert rows == Front(rows) + [Last(rows)];
    }
  }

  /** Tables with the same rows per group have the same aggregates. */
  lemma AggregateByGroup(zone: int -> int, a: seq<Session>, b: seq<Session>)
    requires forall g :: RowsOf(a, g) == RowsOf(b, g)
    ensures Aggregate(zone, a) == Aggregate(zone, b)
  {
    forall k: SnapKey
      ensures Plays(zone, a, k) == Plays(zone, b, k) && Watch(zone, a, k) == Watch(zone, b, k)
      ensures k in Keys(zone, a) <==> k in Keys(zone, b)
    {
      forall s
        ensures multiset(a)[s] == multiset(b)[s]
      {
        RowCountByGroup(a, s);
        RowCountByGroup(b, s);
      }
      AggregateByMultiset(zone, a, b, k);
      KeysHavePlays(zone, a, k);
      KeysHavePlays(zone, b, k);
    }
  }

  /** Days on which no group's rows differ agree before exactly when they agree after. */
  lemma AgreesByDayRows(zone: int -> int, snaps: SnapTable, a: seq<Session>, b: seq<Session>, d: int)
    requires forall s :: DayOf(zone, s) == d ==> multiset(RowsOf(a, s.group))[s] == multiset(RowsOf(b, s.group))[s]
    ensures Agrees(zone, snaps, a, d) <==> Agrees(zone, snaps, b, d)
  {
    forall k: SnapKey | k.day == d
      ensures Plays(zone, a, k) == Plays(zone, b, k) && Watch(zone, a, k) == Watch(zone, b, k)
    {
      forall s | InKey(zone, s, k)
        ensures multiset(a)[s] == multiset(b)[s]
      {
        RowCountByGroup(a, s);
        RowCountByGroup(b, s);
      }
      AggregateByMultiset(zone, a, b, k);
    }
  }

  /** When every day agrees, the tables are exactly the full aggregation. */
  lemma AllDaysAgree(zone: int -> int, snaps: SnapTable, rows: seq<Session>)
    requires forall d :: Agrees(zone, snaps, rows, d)
    ensures snaps == Aggregate(zone, rows)
  {
    forall k: SnapKey
      ensures k in snaps <==> k in Aggregate(zone, rows)
      ensures k in snaps ==> snaps[k] == Aggregate(zone, rows)[k]
    {
      assert Agrees(zone, snaps, rows, k.day);
      KeysHavePlays(zone, rows, k);
    }
  }

  // ----- change locality -----

  /** Entries of a group dated at or after `d` change only sessions that end at or after `d`, so start less
      than the longest duration and a second before it, on a local day the rebuild day covers. */
  lemma ChangeLocality(zone: int -> int, log: seq<Entry>, more: seq<Entry>, g: Group, d: Stamp, s: Session)
    requires ValidZone(zone)
    requires forall k :: 0 <= k < |more| && more[k].Of(g) ==> Le(d, more[k].date)
    requires multiset(GroupSessions(log, g))[s] != multiset(GroupSessions(log + more, g))[s]
    ensures Le(d, s.end) && s.start.At? && Reaches(zone, d, DayOf(zone, s))
    ensures d.At? ==> d.micros - (MAX_DURATION_SECONDS + 1) * MICROS_PER_SECOND < s.start.micros
    ensures RebuildCovers(SnapshotRebuildSince(zone, d), DayOf(zone, s))
  {
    var kept := LateEntriesAreLocal(log, more, g, d);
    var a, b := GroupSessions(log, g), GroupSessions(log + more, g);
    assert a == kept + a[|kept|..] && b == kept + b[|kept|..];
    assert s in a[|kept|..] || s in b[|kept|..];
    var evs := if s in a[|kept|..] then Sort(EventsOf(Playback(log), g)) else Sort(EventsOf(Playback(log + more), g));
    assert s in Sessions(evs);
    SessionsIff(evs, s);
    SessionWithinReach(zone, d, s.start, s.end);
    RebuildDayCoversReach(zone, d, DayOf(zone, s));
  }
}
