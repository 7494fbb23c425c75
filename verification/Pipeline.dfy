/**
 The incremental playback pipeline as a state machine.  Every committed transaction and every
 stretch of code between two awaits is one atomic step; any number of session-rebuild passes (for any
 instances) and snapshot passes may be suspended between their steps, fail there, or be lost in a
 process restart.
 */
module Pipeline {
  import opened Options
  import opened Sequences
  import opened Stamps
  import opened SessionBuilder
  import opened SessionStore
  import opened Snapshots

  /** A suspended `_rebuild_playback_sessions`, by the value it has read or written last. */
  datatype Pass =
    | AfterMax(instance: int, max: int)
    | AfterLast(instance: int, max: int, last: Option<int>)
    | AfterSince(instance: int, max: int, since: Stamp)
    | AfterRebuild(instance: int, max: int, changed: Option<Stamp>)
    | AfterNote(instance: int, max: int)

  datatype State = State(
    // tables
    log: seq<Entry>,
    table: seq<Session>,
    watermark: map<int, int>,
    snaps: SnapTable,
    // module globals
    fullPending: bool,
    since: Option<int>,
    lastRebuild: int,
    // suspended coroutines; a snapshot pass holds the bound it took over until it commits, and then only
    // has the cache to clear
    passes: map<nat, Pass>,
    snapPasses: map<nat, Option<int>>,
    clearing: set<nat>
  )

  datatype Step =
    | Append(entries: seq<Entry>)
    | ReadMax(pass: nat, instance: int)
    | ReadLast(pass: nat)
    | ReadSince(pass: nat)
    | CommitRebuild(pass: nat)
    | Note(pass: nat)
    | SetWatermark(pass: nat)
    | LosePass(pass: nat)
    | BeginSnapshot(snapPass: nat, now: int, interval: int)
    | CommitSnapshot(snapPass: nat)
    | FailSnapshot(snapPass: nat)
    | ClearCache(snapPass: nat, fails: bool)
    | Restart

  function Boot(): State {
    State([], [], map[], map[], true, None, 0, map[], map[], {})
  }

  // ----- what the steps compute -----

  ghost predicate HasId(log: seq<Entry>, instance: int, id: int) {
    exists k :: 0 <= k < |log| && log[k].instance == instance && log[k].id == id
  }

  /** MAX(entry_id) of one instance. */
  function MaxId(log: seq<Entry>, instance: int): (r: Option<int>)
    ensures r.Some? ==> HasId(log, instance, r.value)
    ensures forall k :: 0 <= k < |log| && log[k].instance == instance ==> r.Some? && log[k].id <= r.value
  {
    if log == [] then None
    else
      var m := MaxId(Front(log), instance);
      assert m.Some? ==> exists k :: 0 <= k < |Front(log)| && log[k].instance == instance && log[k].id == m.value;
      if Last(log).instance != instance then m
      else
        assert log[|log| - 1] == Last(log);
        if m.Some? && m.value >= Last(log).id then m else Some(Last(log).id)
  }

  ghost predicate IsDateAfter(log: seq<Entry>, instance: int, last: int, date: Stamp) {
    exists k :: 0 <= k < |log| && log[k].instance == instance && log[k].id > last && log[k].date == date
  }

  /** MIN(date) over one instance's entries with an id above `last`; None exactly when there is no such entry. */
  function MinDateAfter(log: seq<Entry>, instance: int, last: int): (r: Option<Stamp>)
    ensures r.Some? ==> IsDateAfter(log, instance, last, r.value)
    ensures forall k :: 0 <= k < |log| && log[k].instance == instance && log[k].id > last ==> r.Some? && Le(r.value, log[k].date)
  {
    if log == [] then None
    else
      var m := MinDateAfter(Front(log), instance, last);
      assert m.Some? ==> exists k :: 0 <= k < |Front(log)| && log[k].instance == instance && log[k].id > last && log[k].date == m.value;
      assert log[|log| - 1] == Last(log);
      if Last(log).instance != instance || Last(log).id <= last then m
      else if m.Some? && Le(m.value, Last(log).date) then m
      else Some(Last(log).date)
  }

  /** Entries a sync run may commit: ids rise, and lie above everything stored for their instance. */
  ghost predicate IdsRise(log: seq<Entry>) {
    forall a, b :: 0 <= a < b < |log| && log[a].instance == log[b].instance ==> log[a].id < log[b].id
  }

  function AffectedGroups(log: seq<Entry>, instance: int, since: Stamp): set<Group> {
    set k | 0 <= k < |log| && log[k].IsPlayback() && log[k].instance == instance && Le(since, log[k].date)
      :: log[k].ToEvent().group
  }

  /** `if since_date:` treats the empty text as no date: the whole instance is rebuilt. */
  function RebuildScope(log: seq<Entry>, instance: int, since: Option<Stamp>): Scope {
    if since.None? || since.value.Blank? then Instance(instance)
    else Groups(AffectedGroups(log, instance, since.value))
  }

  /** The committed effect of `rebuild_sessions`. */
  function RebuiltTable(table: seq<Session>, log: seq<Entry>, instance: int, since: Option<Stamp>): seq<Session> {
    var scope := RebuildScope(log, instance, since);
    if scope.Groups? && scope.groups == {} then table else Rebuild(table, log, scope)
  }

  /** `_note_snapshot_change`. */
  function NoteChange(zone: int -> int, s: State, changed: Option<Stamp>): State {
    var day := match changed case None => None case Some(c) => SnapshotRebuildSince(zone, c);
    match day
    case None => s.(fullPending := true)
    case Some(d) => if s.since.None? || d < s.since.value then s.(since := Some(d)) else s
  }

  /** The range `_maybe_rebuild_dashboard_snapshots` takes over, or None when it returns early; `interval` is
      the throttle's setting, read at every call. */
  function TakeRange(s: State, now: int, interval: int): Option<Option<int>> {
    if now - s.lastRebuild < interval || (!s.fullPending && s.since.None?) then None
    else Some(if s.fullPending then None else s.since)
  }

  function ReadLastStep(s: State, p: nat, q: Pass): State
    requires q.AfterMax?
  {
    if q.instance !in s.watermark then s.(passes := s.passes[p := AfterLast(q.instance, q.max, None)])
    else if q.max > s.watermark[q.instance] then
      s.(passes := s.passes[p := AfterLast(q.instance, q.max, Some(s.watermark[q.instance]))])
    else s.(passes := s.passes - {p})
  }

  /** With nothing processed yet there is no date to read; with no entry found only the watermark moves. */
  function ReadSinceStep(s: State, p: nat, q: Pass): State
    requires q.AfterLast? && q.last.Some?
  {
    match MinDateAfter(s.log, q.instance, q.last.value)
    case Some(d) => s.(passes := s.passes[p := AfterSince(q.instance, q.max, d)])
    case None => s.(passes := s.passes[p := AfterNote(q.instance, q.max)])
  }

  /** The since date a pass about to rebuild works from. */
  function RebuildFrom(q: Pass): Option<Stamp>
    requires q.AfterSince? || (q.AfterLast? && q.last.None?)
  {
    if q.AfterSince? then Some(q.since) else None
  }

  function CommitRebuildStep(s: State, p: nat, q: Pass): State
    requires q.AfterSince? || (q.AfterLast? && q.last.None?)
  {
    var from := RebuildFrom(q);
    s.(table := RebuiltTable(s.table, s.log, q.instance, from),
       passes := s.passes[p := AfterRebuild(q.instance, q.max, from)])
  }

  function BeginSnapshotStep(s: State, p: nat, now: int, interval: int): State {
    match TakeRange(s, now, interval)
    case None => s
    case Some(bound) =>
      s.(lastRebuild := now, fullPending := false, since := None, snapPasses := s.snapPasses[p := bound])
  }

  ghost predicate Enabled(s: State, step: Step) {
    match step
    case Append(entries) => IdsRise(s.log + entries)
    case ReadMax(p, i) => p !in s.passes && MaxId(s.log, i).Some?
    case ReadLast(p) => p in s.passes && s.passes[p].AfterMax?
    case ReadSince(p) => p in s.passes && s.passes[p].AfterLast? && s.passes[p].last.Some?
    case CommitRebuild(p) =>
      p in s.passes && (s.passes[p].AfterSince? || (s.passes[p].AfterLast? && s.passes[p].last.None?))
    case Note(p) => p in s.passes && s.passes[p].AfterRebuild?
    case SetWatermark(p) => p in s.passes && s.passes[p].AfterNote?
    case LosePass(p) => p in s.passes
    case BeginSnapshot(p, _, _) => p !in s.snapPasses && p !in s.clearing
    case CommitSnapshot(p) => p in s.snapPasses
    case FailSnapshot(p) => p in s.snapPasses
    case ClearCache(p, _) => p in s.clearing
    case Restart => true
  }

  ghost function Apply(zone: int -> int, s: State, step: Step): State
    requires Enabled(s, step)
  {
    match step
    case Append(entries) => s.(log := s.log + entries)
    case ReadMax(p, i) => s.(passes := s.passes[p := AfterMax(i, MaxId(s.log, i).value)])
    case ReadLast(p) => ReadLastStep(s, p, s.passes[p])
    case ReadSince(p) => ReadSinceStep(s, p, s.passes[p])
    case CommitRebuild(p) => CommitRebuildStep(s, p, s.passes[p])
    case Note(p) =>
      var q := s.passes[p];
      NoteChange(zone, s, q.changed).(passes := s.passes[p := AfterNote(q.instance, q.max)])
    case SetWatermark(p) =>
      s.(watermark := s.watermark[s.passes[p].instance := s.passes[p].max], passes := s.passes - {p})
    case LosePass(p) => s.(passes := s.passes - {p})
    case BeginSnapshot(p, now, interval) => BeginSnapshotStep(s, p, now, interval)
    case CommitSnapshot(p) =>
      s.(snaps := RebuildSnapshots(zone, s.snaps, s.table, s.snapPasses[p]),
         snapPasses := s.snapPasses - {p}, clearing := s.clearing + {p})
    case FailSnapshot(p) => s.(fullPending := true, snapPasses := s.snapPasses - {p})
    case ClearCache(p, fails) => s.(fullPending := s.fullPending || fails, clearing := s.clearing - {p})
    case Restart =>
      s.(fullPending := true, since := None, lastRebuild := 0, passes := map[], snapPasses := map[], clearing := {})
  }

  /** A run: every step enabled where it is taken. */
  ghost predicate IsRun(zone: int -> int, steps: seq<Step>)
    decreases |steps|, 0
  {
    steps != [] ==> IsRun(zone, Front(steps)) && Enabled(After(zone, Front(steps)), Last(steps))
  }

  ghost function After(zone: int -> int, steps: seq<Step>): State
    requires IsRun(zone, steps)
    decreases |steps|, 1
  {
    if steps == [] then Boot() else Apply(zone, After(zone, Front(steps)), Last(steps))
  }

  // ----- what must hold in every reachable state -----

  /** An entry not yet behind the given per-instance mark. */
  predicate Above(mark: int -> Option<int>, e: Entry) {
    mark(e.instance).None? || e.id > mark(e.instance).value
  }

  function Watermarks(s: State): int -> Option<int> {
    i => if i in s.watermark then Some(s.watermark[i]) else None
  }

  ghost predicate PendingCovers(s: State, d: int) {
    || s.fullPending
    || (s.since.Some? && s.since.value <= d)
    || exists p :: p in s.snapPasses && (s.snapPasses[p].None? || s.snapPasses[p].value <= d)
  }

  /** Day `d` is owed a rebuild: pending, taken over by a pass in flight, or still to be noted because an
      entry above the mark reaches it. */
  ghost predicate Covered(zone: int -> int, s: State, mark: int -> Option<int>, d: int) {
    || PendingCovers(s, d)
    || exists k :: 0 <= k < |s.log| && Above(mark, s.log[k]) && Reaches(zone, s.log[k].date, d)
  }

  /** Bookkeeping no step reads: how much of the log each group's rows were built from, and the highest
      entry id whose change has been noted, per instance. */
  datatype History = History(seen: Group -> nat, noted: int -> Option<int>)

  function SeenAfter(seen: Group -> nat, scope: Scope, n: nat): Group -> nat {
    (g: Group) => if scope.Has(g) then n else seen(g)
  }

  function NextHistory(s: State, h: History, step: Step): History {
    match step
    case CommitRebuild(p) =>
      if p in s.passes && (s.passes[p].AfterSince? || (s.passes[p].AfterLast? && s.passes[p].last.None?)) then
        var scope := RebuildScope(s.log, s.passes[p].instance, RebuildFrom(s.passes[p]));
        h.(seen := SeenAfter(h.seen, scope, |s.log|))
      else h
    case Note(p) =>
      if p in s.passes then
        var q := s.passes[p];
        h.(noted := i => if i == q.instance && (h.noted(i).None? || h.noted(i).value < q.max) then Some(q.max) else h.noted(i))
      else h
    case _ => h
  }

  ghost function HistoryAfter(zone: int -> int, steps: seq<Step>): History
    requires IsRun(zone, steps)
  {
    if steps == [] then History(_ => 0, _ => None)
    else NextHistory(After(zone, Front(steps)), HistoryAfter(zone, Front(steps)), Last(steps))
  }

  ghost predicate RowsAreBuilt(s: State, h: History) {
    && AllParsed(s.table)
    && forall g :: h.seen(g) <= |s.log| && RowsOf(s.table, g) == GroupSessions(s.log[..h.seen(g)], g)
  }

  ghost predicate UnseenAbove(s: State, h: History) {
    forall g, k :: h.seen(g) <= k < |s.log| && s.log[k].Of(g) ==> Above(h.noted, s.log[k])
  }

  ghost predicate MarksAreStored(s: State, h: History) {
    && (forall i :: i in s.watermark ==> h.noted(i).Some? && s.watermark[i] <= h.noted(i).value)
    && (forall i :: h.noted(i).Some? ==> HasId(s.log, i, h.noted(i).value))
  }

  /** No entry this pass is about to mark as processed predates the date it works from. */
  ghost predicate DateBounds(s: State, h: History, instance: int, max: int, since: Stamp) {
    forall k :: 0 <= k < |s.log| && s.log[k].instance == instance && Above(h.noted, s.log[k]) && s.log[k].id <= max ==>
                  Le(since, s.log[k].date)
  }

  ghost predicate UnseenAboveMax(s: State, h: History, instance: int, max: int) {
    forall g: Group, k :: g.instance == instance && h.seen(g) <= k < |s.log| && s.log[k].Of(g) ==> s.log[k].id > max
  }

  ghost predicate PassOk(s: State, h: History, q: Pass) {
    && HasId(s.log, q.instance, q.max)
    && match q
       case AfterMax(_, _) => true
       case AfterLast(i, max, last) =>
         last.Some? ==> last.value < max && h.noted(i).Some? && last.value <= h.noted(i).value
       case AfterSince(i, max, since) => DateBounds(s, h, i, max, since)
       case AfterRebuild(i, max, changed) =>
         UnseenAboveMax(s, h, i, max) && (changed.Some? ==> DateBounds(s, h, i, max, changed.value))
       case AfterNote(i, max) => h.noted(i).Some? && max <= h.noted(i).value
  }

  ghost predicate DaysCovered(zone: int -> int, s: State, h: History) {
    forall d :: !Agrees(zone, s.snaps, s.table, d) ==> Covered(zone, s, h.noted, d)
  }

  ghost predicate Inv(zone: int -> int, s: State, h: History) {
    && IdsRise(s.log)
    && RowsAreBuilt(s, h)
    && UnseenAbove(s, h)
    && MarksAreStored(s, h)
    && (forall p :: p in s.passes ==> PassOk(s, h, s.passes[p]))
    && DaysCovered(zone, s, h)
  }

  // ----- one lemma per kind of step -----

  lemma BootInv(zone: int -> int)
    ensures Inv(zone, Boot(), History(_ => 0, _ => None))
  {
  }

  lemma AppendKeepsIds(log: seq<Entry>, entries: seq<Entry>, i: int, id: int)
    requires IdsRise(log + entries) && HasId(log, i, id)
    ensures HasId(log + entries, i, id)
    ensures forall k :: 0 <= k < |entries| && entries[k].instance == i ==> entries[k].id > id
  {
    var j :| 0 <= j < |log| && log[j].instance == i && log[j].id == id;
    assert (log + entries)[j] == log[j];
    forall k | 0 <= k < |entries| && entries[k].instance == i
      ensures entries[k].id > id
    {
      assert (log + entries)[|log| + k] == entries[k];
    }
  }

  lemma AppendKeepsUnseen(s: State, h: History, entries: seq<Entry>)
    requires UnseenAbove(s, h) && MarksAreStored(s, h) && IdsRise(s.log + entries)
    ensures UnseenAbove(s.(log := s.log + entries), h)
    ensures MarksAreStored(s.(log := s.log + entries), h)
    ensures forall k :: 0 <= k < |entries| ==> Above(h.noted, entries[k])
  {
    forall i | h.noted(i).Some?
      ensures HasId(s.log + entries, i, h.noted(i).value)
      ensures forall k :: 0 <= k < |entries| && entries[k].instance == i ==> entries[k].id > h.noted(i).value
    {
      AppendKeepsIds(s.log, entries, i, h.noted(i).value);
    }
  }

  lemma AppendKeepsRows(s: State, h: History, entries: seq<Entry>)
    requires RowsAreBuilt(s, h)
    ensures RowsAreBuilt(s.(log := s.log + entries), h)
  {
    forall g
      ensures (s.log + entries)[..h.seen(g)] == s.log[..h.seen(g)]
    {
      assert h.seen(g) <= |s.log|;
    }
  }

  lemma AppendKeepsPass(s: State, h: History, entries: seq<Entry>, q: Pass)
    requires PassOk(s, h, q) && IdsRise(s.log + entries)
    ensures PassOk(s.(log := s.log + entries), h, q)
  {
    AppendKeepsIds(s.log, entries, q.instance, q.max);
  }

  lemma AppendKeepsDaysCovered(zone: int -> int, s: State, h: History, entries: seq<Entry>)
    requires DaysCovered(zone, s, h)
    ensures DaysCovered(zone, s.(log := s.log + entries), h)
  {
    var t := s.(log := s.log + entries);
    forall d | !Agrees(zone, t.snaps, t.table, d)
      ensures Covered(zone, t, h.noted, d)
    {
      assert Covered(zone, s, h.noted, d);
      assert PendingCovers(s, d) ==> PendingCovers(t, d);
      if !PendingCovers(s, d) {
        var k :| 0 <= k < |s.log| && Above(h.noted, s.log[k]) && Reaches(zone, s.log[k].date, d);
        assert t.log[k] == s.log[k];
      }
    }
  }

  lemma AppendInv(zone: int -> int, s: State, h: History, entries: seq<Entry>)
    requires Inv(zone, s, h) && IdsRise(s.log + entries)
    ensures Inv(zone, s.(log := s.log + entries), h)
  {
    AppendKeepsRows(s, h, entries);
    AppendKeepsUnseen(s, h, entries);
    AppendKeepsDaysCovered(zone, s, h, entries);
    forall p | p in s.passes
      ensures PassOk(s.(log := s.log + entries), h, s.passes[p])
    {
      AppendKeepsPass(s, h, entries, s.passes[p]);
    }
  }

  /** A step that only moves a pass, keeping everything else. */
  lemma PassesInv(zone: int -> int, s: State, h: History, passes: map<nat, Pass>)
    requires Inv(zone, s, h)
    requires forall p :: p in passes ==> PassOk(s, h, passes[p])
    ensures Inv(zone, s.(passes := passes), h)
  {
    var t := s.(passes := passes);
    forall d | !Agrees(zone, t.snaps, t.table, d)
      ensures Covered(zone, t, h.noted, d)
    {
      assert Covered(zone, s, h.noted, d);
      assert PendingCovers(s, d) ==> PendingCovers(t, d);
    }
    assert forall p :: p in passes ==> (PassOk(s, h, passes[p]) ==> PassOk(t, h, passes[p]));
  }

  lemma ReadSinceOk(zone: int -> int, s: State, h: History, q: Pass)
    requires Inv(zone, s, h) && PassOk(s, h, q) && q.AfterLast? && q.last.Some?
    ensures MinDateAfter(s.log, q.instance, q.last.value).Some?
    ensures PassOk(s, h, AfterSince(q.instance, q.max, MinDateAfter(s.log, q.instance, q.last.value).value))
  {
    assert HasId(s.log, q.instance, q.max);
  }

  /** The row counts of a group change on a day only if an entry not yet built in reaches that day. */
  lemma ChangedRowIsReached(zone: int -> int, log: seq<Entry>, n: nat, g: Group, s: Session) returns (k: int)
    requires ValidZone(zone) && n <= |log|
    requires multiset(GroupSessions(log[..n], g))[s] != multiset(GroupSessions(log, g))[s]
    ensures n <= k < |log| && log[k].Of(g) && Reaches(zone, log[k].date, DayOf(zone, s))
  {
    var more := log[n..];
    assert log == log[..n] + more;
    var e := EarliestOf(more, g);
    if e.None? {
      NoEntriesNoChange(log[..n], more, g);
      assert false;
    }
    k := n + e.value;
    assert log[k] == more[e.value];
    ChangeLocality(zone, log[..n], more, g, log[k].date, s);
  }

  lemma {:induction false} EarliestOf(more: seq<Entry>, g: Group) returns (e: Option<nat>)
    ensures e.None? ==> forall k :: 0 <= k < |more| ==> !more[k].Of(g)
    ensures e.Some? ==> e.value < |more| && more[e.value].Of(g) &&
                        forall k :: 0 <= k < |more| && more[k].Of(g) ==> Le(more[e.value].date, more[k].date)
  {
    e := None;
    for n := 0 to |more|
      invariant e.None? ==> forall k :: 0 <= k < n ==> !more[k].Of(g)
      invariant e.Some? ==> e.value < n && more[e.value].Of(g) &&
                            forall k :: 0 <= k < n && more[k].Of(g) ==> Le(more[e.value].date, more[k].date)
    {
      if more[n].Of(g) && (e.None? || !Le(more[e.value].date, more[n].date)) {
        e := Some(n);
      }
    }
  }

  lemma GroupEventsHaveEntries(log: seq<Entry>, g: Group)
    ensures EventsOf(Playback(log), g) != [] ==> exists k :: 0 <= k < |log| && log[k].Of(g)
  {
    EventsOfMembers(Playback(log), g);
    PlaybackMembers(log);
    if EventsOf(Playback(log), g) != [] {
      var e := EventsOf(Playback(log), g)[0];
      assert e in Playback(log);
      var k :| 0 <= k < |log| && log[k].IsPlayback() && log[k].ToEvent() == e;
      assert log[k].Of(g);
    }
  }

  lemma NoEntriesNoChange(log: seq<Entry>, more: seq<Entry>, g: Group)
    requires forall k :: 0 <= k < |more| ==> !more[k].Of(g)
    ensures GroupSessions(log + more, g) == GroupSessions(log, g)
  {
    PlaybackAppend(log, more);
    EventsOfAppend(Playback(log), Playback(more), g);
    GroupEventsHaveEntries(more, g);
    assert EventsOf(Playback(log), g) + [] == EventsOf(Playback(log), g);
  }

  /** After a rebuild every group's rows are the build over the log, or what they were. */
  lemma RebuiltTableRows(table: seq<Session>, log: seq<Entry>, instance: int, since: Option<Stamp>, g: Group)
    ensures RowsOf(RebuiltTable(table, log, instance, since), g) ==
            if RebuildScope(log, instance, since).Has(g) then GroupSessions(log, g) else RowsOf(table, g)
  {
    RebuildRows(table, log, RebuildScope(log, instance, since), g);
  }

  /** In plain terms: with no since date, or the empty one, every group of the instance is rebuilt, and with one
      exactly the groups of the instance with a playback entry at or after it; all other rows stay. */
  lemma RebuiltTableScope(table: seq<Session>, log: seq<Entry>, instance: int, since: Option<Stamp>, g: Group)
    ensures RowsOf(RebuiltTable(table, log, instance, since), g) ==
            if g.instance == instance
               && (since.None? || since == Some(Blank) || exists k :: 0 <= k < |log| && log[k].Of(g) && Le(since.value, log[k].date))
            then GroupSessions(log, g)
            else RowsOf(table, g)
  {
    RebuiltTableRows(table, log, instance, since, g);
  }

  lemma {:induction false} RowsAreMembers(rows: seq<Session>, s: Session)
    ensures s in rows <==> s in RowsOf(rows, s.group)
  {
    if rows != [] {
      RowsAreMembers(Front(rows), s);
      assert rows == Front(rows) + [Last(rows)];
    }
  }

  lemma RebuildKeepsRowsBuilt(s: State, h: History, t: State, h': History, instance: int, since: Option<Stamp>)
    requires RowsAreBuilt(s, h)
    requires t.log == s.log && t.table == RebuiltTable(s.table, s.log, instance, since)
    requires forall g :: h'.seen(g) == if RebuildScope(s.log, instance, since).Has(g) then |s.log| else h.seen(g)
    ensures RowsAreBuilt(t, h')
  {
    assert s.log[..|s.log|] == s.log;
    forall g
      ensures h'.seen(g) <= |t.log| && RowsOf(t.table, g) == GroupSessions(t.log[..h'.seen(g)], g)
    {
      RebuiltTableRows(s.table, s.log, instance, since, g);
    }
    forall r | r in t.table
      ensures r.start.At?
    {
      RowsAreMembers(t.table, r);
      assert RowsOf(t.table, r.group) == GroupSessions(t.log[..h'.seen(r.group)], r.group);
      SessionsIff(Sort(EventsOf(Playback(t.log[..h'.seen(r.group)]), r.group)), r);
    }
  }

  /** A day that agreed before a rebuild and not after it is reached by an entry whose change is still
      to be noted. */
  lemma RebuildReachesChangedDays(zone: int -> int, s: State, h: History, instance: int, since: Option<Stamp>, d: int)
    requires ValidZone(zone)
    requires RowsAreBuilt(s, h) && UnseenAbove(s, h)
    requires Agrees(zone, s.snaps, s.table, d)
    requires !Agrees(zone, s.snaps, RebuiltTable(s.table, s.log, instance, since), d)
    ensures exists k :: 0 <= k < |s.log| && Above(h.noted, s.log[k]) && Reaches(zone, s.log[k].date, d)
  {
    var table := RebuiltTable(s.table, s.log, instance, since);
    var r := ChangedRow(zone, s.snaps, s.table, table, d);
    RebuiltTableRows(s.table, s.log, instance, since, r.group);
    var n := h.seen(r.group);
    assert n <= |s.log| && RowsOf(s.table, r.group) == GroupSessions(s.log[..n], r.group);
    var k := ChangedRowIsReached(zone, s.log, n, r.group, r);
    assert Above(h.noted, s.log[k]);
  }

  lemma ChangedRow(zone: int -> int, snaps: SnapTable, a: seq<Session>, b: seq<Session>, d: int) returns (r: Session)
    requires Agrees(zone, snaps, a, d) && !Agrees(zone, snaps, b, d)
    ensures DayOf(zone, r) == d && multiset(RowsOf(a, r.group))[r] != multiset(RowsOf(b, r.group))[r]
  {
    if forall r :: DayOf(zone, r) == d ==> multiset(RowsOf(a, r.group))[r] == multiset(RowsOf(b, r.group))[r] {
      AgreesByDayRows(zone, snaps, a, b, d);
      assert false;
    }
    r :| DayOf(zone, r) == d && multiset(RowsOf(a, r.group))[r] != multiset(RowsOf(b, r.group))[r];
  }

  lemma RebuildKeepsDaysCovered(zone: int -> int, s: State, h: History, t: State, instance: int, since: Option<Stamp>)
    requires ValidZone(zone) && Inv(zone, s, h)
    requires t.log == s.log && t.snaps == s.snaps && t.table == RebuiltTable(s.table, s.log, instance, since)
    requires t.fullPending == s.fullPending && t.since == s.since && t.snapPasses == s.snapPasses
    ensures DaysCovered(zone, t, h)
  {
    forall d | !Agrees(zone, t.snaps, t.table, d)
      ensures Covered(zone, t, h.noted, d)
    {
      if !Agrees(zone, s.snaps, s.table, d) {
        assert Covered(zone, s, h.noted, d);
        assert PendingCovers(s, d) ==> PendingCovers(t, d);
      } else {
        RebuildReachesChangedDays(zone, s, h, instance, since, d);
      }
    }
  }

  /** Every group with an unseen entry at or below the pass's maximum is in the rebuild's scope. */
  lemma RebuildSeesUpToMax(zone: int -> int, s: State, h: History, h': History, q: Pass)
    requires Inv(zone, s, h) && PassOk(s, h, q)
    requires q.AfterSince? || (q.AfterLast? && q.last.None?)
    requires forall g :: h'.seen(g) == if RebuildScope(s.log, q.instance, RebuildFrom(q)).Has(g) then |s.log| else h.seen(g)
    ensures UnseenAboveMax(s, h', q.instance, q.max)
  {
    var scope := RebuildScope(s.log, q.instance, RebuildFrom(q));
    forall g: Group, k | g.instance == q.instance && h'.seen(g) <= k < |s.log| && s.log[k].Of(g)
      ensures s.log[k].id > q.max
    {
      assert !scope.Has(g);
      assert Above(h.noted, s.log[k]);
      assert s.log[k].ToEvent().group == g;
      assert !Le(q.since, s.log[k].date);
    }
  }

  lemma CommitRebuildInv(zone: int -> int, s: State, h: History, p: nat)
    requires ValidZone(zone) && Inv(zone, s, h) && Enabled(s, CommitRebuild(p))
    ensures Inv(zone, Apply(zone, s, CommitRebuild(p)), NextHistory(s, h, CommitRebuild(p)))
  {
    var q := s.passes[p];
    var from := RebuildFrom(q);
    var t, h' := Apply(zone, s, CommitRebuild(p)), NextHistory(s, h, CommitRebuild(p));
    RebuildKeepsRowsBuilt(s, h, t, h', q.instance, from);
    RebuildKeepsDaysCovered(zone, s, h, t, q.instance, from);
    RebuildSeesUpToMax(zone, s, h, h', q);
    RebuildKeepsUnseen(s, h, t, h');
    assert h'.noted == h.noted;
    forall d | !Agrees(zone, t.snaps, t.table, d)
      ensures Covered(zone, t, h'.noted, d)
    {
      assert Covered(zone, t, h.noted, d);
    }
    forall p' | p' in t.passes
      ensures PassOk(t, h', t.passes[p'])
    {
      if p' == p {
        assert PassOk(s, h, q);
      } else {
        RebuildKeepsPass(s, h, t, h', s.passes[p']);
      }
    }
  }

  /** Seeing more of the log only weakens what is asked of the unseen part. */
  lemma RebuildKeepsUnseen(s: State, h: History, t: State, h': History)
    requires UnseenAbove(s, h) && t.log == s.log && h'.noted == h.noted
    requires forall g :: h'.seen(g) == h.seen(g) || h'.seen(g) == |s.log|
    ensures UnseenAbove(t, h')
  {
  }

  lemma RebuildKeepsPass(s: State, h: History, t: State, h': History, q: Pass)
    requires PassOk(s, h, q) && t.log == s.log && h'.noted == h.noted
    requires forall g :: h'.seen(g) == h.seen(g) || h'.seen(g) == |s.log|
    ensures PassOk(t, h', q)
  {
  }

  /** Noting a change adds exactly the days from its rebuild day on to what is pending, or all of them; so the
      days pending stay pending and every day the change reaches becomes pending. */
  lemma NoteChangePends(zone: int -> int, s: State, changed: Option<Stamp>, d: int)
    ensures PendingCovers(NoteChange(zone, s, changed), d) <==>
            || PendingCovers(s, d)
            || changed.None?
            || RebuildCovers(SnapshotRebuildSince(zone, changed.value), d)
    ensures DatesFallAtMostADay(zone) && (changed.None? || Reaches(zone, changed.value, d)) ==>
              PendingCovers(NoteChange(zone, s, changed), d)
    ensures var (t, day) := (NoteChange(zone, s, changed), if changed.None? then None else SnapshotRebuildSince(zone, changed.value));
            if day.None? then t == s.(fullPending := true)
            else t == s.(since := Some(if s.since.Some? && s.since.value < day.value then s.since.value else day.value))
  {
    var t := NoteChange(zone, s, changed);
    assert t.snapPasses == s.snapPasses;
    if DatesFallAtMostADay(zone) && changed.Some? && Reaches(zone, changed.value, d) {
      RebuildDayCoversReach(zone, changed.value, d);
    }
  }

  /** Noting a change covers every day reached by the entries it stands for. */
  lemma NoteCoversDay(zone: int -> int, s: State, h: History, p: nat, d: int)
    requires ValidZone(zone)
    requires Enabled(s, Note(p)) && PassOk(s, h, s.passes[p])
    requires Covered(zone, s, h.noted, d)
    ensures Covered(zone, Apply(zone, s, Note(p)), NextHistory(s, h, Note(p)).noted, d)
  {
    var q := s.passes[p];
    var t, h' := Apply(zone, s, Note(p)), NextHistory(s, h, Note(p));
    var noted := NoteChange(zone, s, q.changed);
    NoteChangePends(zone, s, q.changed, d);
    assert PendingCovers(noted, d) ==> PendingCovers(t, d);
    if !PendingCovers(s, d) {
      var k :| 0 <= k < |s.log| && Above(h.noted, s.log[k]) && Reaches(zone, s.log[k].date, d);
      if !Above(h'.noted, s.log[k]) && q.changed.Some? {
        assert s.log[k].instance == q.instance && s.log[k].id <= q.max;
        ReachesIsMonotone(zone, q.changed.value, s.log[k].date, d);
      }
    }
  }

  lemma NoteKeepsPass(zone: int -> int, s: State, h: History, p: nat, q: Pass)
    requires Enabled(s, Note(p)) && PassOk(s, h, q)
    ensures PassOk(Apply(zone, s, Note(p)), NextHistory(s, h, Note(p)), q)
  {
    var h' := NextHistory(s, h, Note(p));
    assert forall e: Entry :: Above(h'.noted, e) ==> Above(h.noted, e);
  }

  lemma NoteKeepsUnseen(zone: int -> int, s: State, h: History, p: nat)
    requires UnseenAbove(s, h) && Enabled(s, Note(p)) && PassOk(s, h, s.passes[p])
    ensures UnseenAbove(Apply(zone, s, Note(p)), NextHistory(s, h, Note(p)))
  {
    var q := s.passes[p];
    var t, h' := Apply(zone, s, Note(p)), NextHistory(s, h, Note(p));
    forall g, k | h'.seen(g) <= k < |t.log| && t.log[k].Of(g)
      ensures Above(h'.noted, t.log[k])
    {
      assert Above(h.noted, s.log[k]);
      assert g.instance == q.instance ==> s.log[k].id > q.max;
    }
  }

  lemma NoteKeepsMarks(zone: int -> int, s: State, h: History, p: nat)
    requires MarksAreStored(s, h) && Enabled(s, Note(p)) && PassOk(s, h, s.passes[p])
    ensures MarksAreStored(Apply(zone, s, Note(p)), NextHistory(s, h, Note(p)))
  {
  }

  lemma NoteKeepsRows(zone: int -> int, s: State, h: History, p: nat)
    requires RowsAreBuilt(s, h) && Enabled(s, Note(p))
    ensures RowsAreBuilt(Apply(zone, s, Note(p)), NextHistory(s, h, Note(p)))
  {
    assert NextHistory(s, h, Note(p)).seen == h.seen;
  }

  lemma NoteInv(zone: int -> int, s: State, h: History, p: nat)
    requires ValidZone(zone)
    requires Inv(zone, s, h) && Enabled(s, Note(p))
    ensures Inv(zone, Apply(zone, s, Note(p)), NextHistory(s, h, Note(p)))
  {
    var q := s.passes[p];
    var t, h' := Apply(zone, s, Note(p)), NextHistory(s, h, Note(p));
    assert PassOk(s, h, q);
    NoteKeepsRows(zone, s, h, p);
    NoteKeepsUnseen(zone, s, h, p);
    NoteKeepsMarks(zone, s, h, p);
    assert DaysCovered(zone, t, h') by {
      forall d | !Agrees(zone, t.snaps, t.table, d)
        ensures Covered(zone, t, h'.noted, d)
      {
        NoteCoversDay(zone, s, h, p, d);
      }
    }
    forall p' | p' in t.passes
      ensures PassOk(t, h', t.passes[p'])
    {
      if p' == p {
        NoteFinishes(zone, s, h, p);
      } else {
        NoteKeepsPass(zone, s, h, p, s.passes[p']);
      }
    }
  }

  lemma NoteFinishes(zone: int -> int, s: State, h: History, p: nat)
    requires Enabled(s, Note(p)) && PassOk(s, h, s.passes[p])
    ensures var t := Apply(zone, s, Note(p)); p in t.passes && PassOk(t, NextHistory(s, h, Note(p)), t.passes[p])
  {
  }

  lemma SetWatermarkKeepsMarks(s: State, h: History, i: int, max: int)
    requires MarksAreStored(s, h) && h.noted(i).Some? && max <= h.noted(i).value
    ensures MarksAreStored(s.(watermark := s.watermark[i := max]), h)
  {
  }

  lemma SetWatermarkInv(zone: int -> int, s: State, h: History, p: nat)
    requires Inv(zone, s, h) && Enabled(s, SetWatermark(p))
    ensures Inv(zone, Apply(zone, s, SetWatermark(p)), h)
  {
    var q := s.passes[p];
    assert PassOk(s, h, q);
    PassesInv(zone, s, h, s.passes - {p});
    var moved := s.(passes := s.passes - {p});
    SetWatermarkKeepsMarks(moved, h, q.instance, q.max);
    WatermarkFrame(zone, moved, h, moved.watermark[q.instance := q.max]);
  }

  /** Nothing but the marks depends on the watermarks. */
  lemma WatermarkFrame(zone: int -> int, s: State, h: History, watermark: map<int, int>)
    requires Inv(zone, s, h) && MarksAreStored(s.(watermark := watermark), h)
    ensures Inv(zone, s.(watermark := watermark), h)
  {
    var t := s.(watermark := watermark);
    forall p | p in t.passes
      ensures PassOk(t, h, t.passes[p])
    {
      assert PassOk(s, h, s.passes[p]);
    }
    forall d | !Agrees(zone, t.snaps, t.table, d)
      ensures Covered(zone, t, h.noted, d)
    {
      assert Covered(zone, s, h.noted, d);
      assert PendingCovers(s, d) ==> PendingCovers(t, d);
    }
  }

  /** The snapshot steps keep `Inv` as long as they keep the days covered. */
  lemma SnapshotFrame(zone: int -> int, s: State, h: History, t: State)
    requires Inv(zone, s, h)
    requires t.log == s.log && t.table == s.table && t.watermark == s.watermark
    requires t.passes == s.passes || t.passes == map[]
    requires forall d :: !Agrees(zone, t.snaps, t.table, d) ==> Covered(zone, t, h.noted, d)
    ensures Inv(zone, t, h)
  {
    forall p | p in t.passes
      ensures PassOk(t, h, t.passes[p])
    {
      assert PassOk(s, h, s.passes[p]);
    }
  }

  lemma BeginSnapshotInv(zone: int -> int, s: State, h: History, p: nat, now: int, interval: int)
    requires Inv(zone, s, h) && p !in s.snapPasses
    ensures Inv(zone, BeginSnapshotStep(s, p, now, interval), h)
  {
    var t := BeginSnapshotStep(s, p, now, interval);
    forall d | !Agrees(zone, t.snaps, t.table, d)
      ensures Covered(zone, t, h.noted, d)
    {
      assert Covered(zone, s, h.noted, d);
      if PendingCovers(s, d) && TakeRange(s, now, interval).Some? {
        if s.fullPending || (s.since.Some? && s.since.value <= d) {
          assert p in t.snapPasses;
        } else {
          var p' :| p' in s.snapPasses && (s.snapPasses[p'].None? || s.snapPasses[p'].value <= d);
          assert p' in t.snapPasses;
        }
      }
    }
    SnapshotFrame(zone, s, h, t);
  }

  lemma CommitSnapshotInv(zone: int -> int, s: State, h: History, p: nat)
    requires ValidZone(zone)
    requires Inv(zone, s, h) && p in s.snapPasses
    ensures Inv(zone, Apply(zone, s, CommitSnapshot(p)), h)
  {
    var t := Apply(zone, s, CommitSnapshot(p));
    forall d | !Agrees(zone, t.snaps, t.table, d)
      ensures Covered(zone, t, h.noted, d)
    {
      RebuildMakesDaysAgree(zone, s.snaps, s.table, s.snapPasses[p], d);
      assert Covered(zone, s, h.noted, d);
      if PendingCovers(s, d) && !s.fullPending && !(s.since.Some? && s.since.value <= d) {
        var p' :| p' in s.snapPasses && (s.snapPasses[p'].None? || s.snapPasses[p'].value <= d);
        assert p' in t.snapPasses;
      }
    }
    SnapshotFrame(zone, s, h, t);
  }

  /** A pass that reads moves on with what it read. */
  lemma ReadStepInv(zone: int -> int, s: State, h: History, step: Step)
    requires Inv(zone, s, h) && Enabled(s, step)
    requires step.ReadMax? || step.ReadLast? || step.ReadSince? || step.LosePass?
    ensures Inv(zone, Apply(zone, s, step), h)
  {
    if step.ReadLast? {
      assert PassOk(s, h, s.passes[step.pass]);
    } else if step.ReadSince? {
      ReadSinceOk(zone, s, h, s.passes[step.pass]);
    }
    PassesInv(zone, s, h, Apply(zone, s, step).passes);
  }

  lemma PendingStepInv(zone: int -> int, s: State, h: History, step: Step)
    requires Inv(zone, s, h) && Enabled(s, step) && (step.FailSnapshot? || step.ClearCache? || step.Restart?)
    ensures Inv(zone, Apply(zone, s, step), h)
  {
    SnapshotFrame(zone, s, h, Apply(zone, s, step));
  }

  lemma StepInv(zone: int -> int, s: State, h: History, step: Step)
    requires ValidZone(zone)
    requires Inv(zone, s, h) && Enabled(s, step)
    ensures Inv(zone, Apply(zone, s, step), NextHistory(s, h, step))
  {
    match step
    case Append(entries) => AppendInv(zone, s, h, entries);
    case ReadMax(_, _) => ReadStepInv(zone, s, h, step);
    case ReadLast(_) => ReadStepInv(zone, s, h, step);
    case ReadSince(_) => ReadStepInv(zone, s, h, step);
    case LosePass(_) => ReadStepInv(zone, s, h, step);
    case CommitRebuild(p) => CommitRebuildInv(zone, s, h, p);
    case Note(p) => NoteInv(zone, s, h, p);
    case SetWatermark(p) => SetWatermarkInv(zone, s, h, p);
    case BeginSnapshot(p, now, interval) => BeginSnapshotInv(zone, s, h, p, now, interval);
    case CommitSnapshot(p) => CommitSnapshotInv(zone, s, h, p);
    case FailSnapshot(_) => PendingStepInv(zone, s, h, step);
    case ClearCache(_, _) => PendingStepInv(zone, s, h, step);
    case Restart => PendingStepInv(zone, s, h, step);
  }

  lemma {:induction false} RunInv(zone: int -> int, steps: seq<Step>)
    requires ValidZone(zone) && IsRun(zone, steps)
    ensures Inv(zone, After(zone, steps), HistoryAfter(zone, steps))
  {
    if steps == [] {
      BootInv(zone);
    } else {
      RunInv(zone, Front(steps));
      StepInv(zone, After(zone, Front(steps)), HistoryAfter(zone, Front(steps)), Last(steps));
    }
  }

  lemma AboveNotedIsAboveWatermark(s: State, h: History, e: Entry)
    requires MarksAreStored(s, h) && Above(h.noted, e)
    ensures Above(Watermarks(s), e)
  {
    assert e.instance in s.watermark ==> s.watermark[e.instance] <= h.noted(e.instance).value;
  }

  // ----- what each step touches -----

  lemma NoteKeepsRest(zone: int -> int, s: State, changed: Option<Stamp>)
    ensures var t := NoteChange(zone, s, changed);
            && t.passes == s.passes && t.watermark == s.watermark && t.log == s.log && t.table == s.table
            && t.lastRebuild == s.lastRebuild && t.snaps == s.snaps
  {
  }

  /** Each table is written by one kind of step only. */
  lemma TablesChangeOnlyBy(zone: int -> int, s: State, step: Step)
    requires Enabled(s, step)
    ensures var t := Apply(zone, s, step);
            && (t.log == s.log || (step.Append? && t.log == s.log + step.entries))
            && (t.table == s.table || step.CommitRebuild?)
            && (t.watermark == s.watermark || step.SetWatermark?)
            && (t.snaps == s.snaps || step.CommitSnapshot?)
  {
    match step
    case Note(p) => NoteKeepsRest(zone, s, s.passes[p].changed);
    case _ =>
  }

  /** A restart keeps the tables and forgets everything the process held: everything is pending, no pass has run
      yet and none is under way. */
  lemma RestartKeepsTables(zone: int -> int, s: State)
    ensures Apply(zone, s, Restart)
            == Boot().(log := s.log, table := s.table, watermark := s.watermark, snaps := s.snaps)
    ensures Boot().fullPending && Boot().since.None? && Boot().lastRebuild == 0
  {
  }

  // ----- no step waits for another -----

  /** How a suspended pass goes on. */
  function NextOf(p: nat, q: Pass): Step {
    match q
    case AfterMax(_, _) => ReadLast(p)
    case AfterLast(_, _, last) => if last.Some? then ReadSince(p) else CommitRebuild(p)
    case AfterSince(_, _, _) => CommitRebuild(p)
    case AfterRebuild(_, _, _) => Note(p)
    case AfterNote(_, _) => SetWatermark(p)
  }

  /** Passes interleave freely: whatever else is in flight, a pass can start on any instance with entries, every
      suspended pass can go on or be lost, every snapshot pass can start, commit, fail and clear the cache,
      and the process can restart. */
  lemma PassesInterleaveFreely(s: State, p: nat, instance: int, now: int, interval: int)
    ensures HasEntries(s.log, instance) && p !in s.passes ==> Enabled(s, ReadMax(p, instance))
    ensures p in s.passes ==> Enabled(s, NextOf(p, s.passes[p])) && Enabled(s, LosePass(p))
    ensures p !in s.snapPasses && p !in s.clearing ==> Enabled(s, BeginSnapshot(p, now, interval))
    ensures p in s.snapPasses ==> Enabled(s, CommitSnapshot(p)) && Enabled(s, FailSnapshot(p))
    ensures p in s.clearing ==> Enabled(s, ClearCache(p, true)) && Enabled(s, ClearCache(p, false))
    ensures Enabled(s, Restart)
  {
  }

  ghost predicate HasEntries(log: seq<Entry>, instance: int) {
    exists k :: 0 <= k < |log| && log[k].instance == instance
  }

  // ----- the throttle -----

  /** Within the interval since the last pass, or with nothing pending, the pass returns with nothing changed;
      otherwise it takes over the whole range pending, everything or the days from the earliest on. */
  lemma ThrottleIs(zone: int -> int, s: State, p: nat, now: int, interval: int)
    requires Enabled(s, BeginSnapshot(p, now, interval))
    ensures var t := Apply(zone, s, BeginSnapshot(p, now, interval));
            if now - s.lastRebuild < interval || (!s.fullPending && s.since.None?) then t == s
            else
              && t.lastRebuild == now && !t.fullPending && t.since.None?
              && p in t.snapPasses && t.snapPasses[p] == (if s.fullPending then None else s.since)
              && t.snapPasses - {p} == s.snapPasses && t.snaps == s.snaps && t.table == s.table
  {
    var t := Apply(zone, s, BeginSnapshot(p, now, interval));
    if now - s.lastRebuild >= interval && (s.fullPending || s.since.Some?) {
      assert t.snapPasses - {p} == s.snapPasses;
    }
  }

  lemma {:induction false} RunPrefix(zone: int -> int, steps: seq<Step>, n: nat)
    requires IsRun(zone, steps) && n <= |steps|
    ensures IsRun(zone, steps[..n])
    decreases |steps|
  {
    if n == |steps| {
      assert steps[..n] == steps;
    } else {
      RunPrefix(zone, Front(steps), n);
      assert Front(steps)[..n] == steps[..n];
    }
  }

  /** The state before step `n` of a run. */
  ghost function StateAt(zone: int -> int, steps: seq<Step>, n: nat): State
    requires IsRun(zone, steps) && n <= |steps|
  {
    RunPrefix(zone, steps, n);
    After(zone, steps[..n])
  }

  lemma StepAt(zone: int -> int, steps: seq<Step>, n: nat)
    requires IsRun(zone, steps) && n < |steps|
    ensures Enabled(StateAt(zone, steps, n), steps[n])
    ensures StateAt(zone, steps, n + 1) == Apply(zone, StateAt(zone, steps, n), steps[n])
  {
    RunPrefix(zone, steps, n + 1);
    assert Front(steps[..n + 1]) == steps[..n];
  }

  /** Step `n` starts a snapshot pass that is let through: the pass is in flight afterwards. */
  ghost predicate LetThrough(zone: int -> int, steps: seq<Step>, n: nat)
    requires IsRun(zone, steps) && n < |steps|
  {
    steps[n].BeginSnapshot? && steps[n].snapPass in StateAt(zone, steps, n + 1).snapPasses
  }

  /** The clock the passes read never runs backwards. */
  ghost predicate ClockRises(steps: seq<Step>) {
    forall a, b :: 0 <= a < b < |steps| && steps[a].BeginSnapshot? && steps[b].BeginSnapshot? ==> steps[a].now <= steps[b].now
  }

  lemma {:induction false} LastRebuildStays(zone: int -> int, steps: seq<Step>, a: nat, b: nat)
    requires IsRun(zone, steps) && a < b <= |steps| && LetThrough(zone, steps, a) && ClockRises(steps)
    requires forall n :: a < n < b ==> !steps[n].Restart?
    ensures StateAt(zone, steps, b).lastRebuild >= steps[a].now
    decreases b
  {
    StepAt(zone, steps, b - 1);
    if b - 1 == a {
      ThrottleIs(zone, StateAt(zone, steps, a), steps[a].snapPass, steps[a].now, steps[a].interval);
    } else {
      LastRebuildStays(zone, steps, a, b - 1);
      LastRebuildMoves(zone, StateAt(zone, steps, b - 1), steps[b - 1]);
    }
  }

  lemma LastRebuildMoves(zone: int -> int, s: State, step: Step)
    requires Enabled(s, step) && !step.Restart?
    ensures Apply(zone, s, step).lastRebuild == s.lastRebuild
            || (step.BeginSnapshot? && Apply(zone, s, step).lastRebuild == step.now)
  {
  }

  /** The throttle's meaning over a run: between restarts, two passes that are let through start at least the
      interval apart that the later one reads. */
  lemma PassesAreSpaced(zone: int -> int, steps: seq<Step>, a: nat, b: nat)
    requires IsRun(zone, steps) && a < b < |steps| && ClockRises(steps)
    requires LetThrough(zone, steps, a) && LetThrough(zone, steps, b)
    requires forall n :: a < n < b ==> !steps[n].Restart?
    ensures steps[b].now - steps[a].now >= steps[b].interval
  {
    LastRebuildStays(zone, steps, a, b);
    StepAt(zone, steps, b);
    ThrottleIs(zone, StateAt(zone, steps, b), steps[b].snapPass, steps[b].now, steps[b].interval);
  }

  // ----- the theorems -----

  /** Coverage: in every reachable state, each local day whose snapshot differs from the aggregate of the
      stored sessions is pending, in flight, or reached by an entry above its instance's watermark. */
  lemma StaleDaysAreCovered(zone: int -> int, steps: seq<Step>, d: int)
    requires ValidZone(zone) && IsRun(zone, steps)
    requires var s := After(zone, steps); !Agrees(zone, s.snaps, s.table, d)
    ensures var s := After(zone, steps);
            || s.fullPending
            || (s.since.Some? && s.since.value <= d)
            || (exists p :: p in s.snapPasses && (s.snapPasses[p].None? || s.snapPasses[p].value <= d))
            || exists k :: && 0 <= k < |s.log|
                           && (s.log[k].instance !in s.watermark || s.log[k].id > s.watermark[s.log[k].instance])
                           && Reaches(zone, s.log[k].date, d)
  {
    var s, h := After(zone, steps), HistoryAfter(zone, steps);
    RunInv(zone, steps);
    assert Covered(zone, s, h.noted, d);
    if !PendingCovers(s, d) {
      var k :| 0 <= k < |s.log| && Above(h.noted, s.log[k]) && Reaches(zone, s.log[k].date, d);
      AboveNotedIsAboveWatermark(s, h, s.log[k]);
    }
  }

  /** The entry is at or below its instance's watermark. */
  predicate Processed(s: State, e: Entry) {
    e.instance in s.watermark && e.id <= s.watermark[e.instance]
  }

  ghost predicate GroupProcessed(s: State, g: Group) {
    forall k :: 0 <= k < |s.log| && s.log[k].Of(g) ==> Processed(s, s.log[k])
  }

  ghost predicate AllProcessed(s: State) {
    forall k :: 0 <= k < |s.log| ==> Processed(s, s.log[k])
  }

  /** Incremental session rebuilds refine the full one: in every reachable state, a group none of whose
      entries lies above the watermark has exactly the rows a build over its whole log gives. */
  lemma ProcessedGroupsAreBuilt(zone: int -> int, steps: seq<Step>, g: Group)
    requires ValidZone(zone) && IsRun(zone, steps)
    requires GroupProcessed(After(zone, steps), g)
    ensures var s := After(zone, steps); RowsOf(s.table, g) == GroupSessions(s.log, g)
  {
    RunInv(zone, steps);
    ProcessedGroupIsBuilt(zone, After(zone, steps), HistoryAfter(zone, steps), g);
  }

  lemma ProcessedGroupIsBuilt(zone: int -> int, s: State, h: History, g: Group)
    requires Inv(zone, s, h) && GroupProcessed(s, g)
    ensures RowsOf(s.table, g) == GroupSessions(s.log, g)
  {
    var n := h.seen(g);
    assert s.log == s.log[..n] + s.log[n..];
    forall k | 0 <= k < |s.log[n..]|
      ensures !s.log[n..][k].Of(g)
    {
      var e := s.log[n + k];
      assert s.log[n..][k] == e;
      assert e.Of(g) ==> Above(h.noted, e);
      if Above(h.noted, e) {
        AboveNotedIsAboveWatermark(s, h, e);
      }
    }
    NoEntriesNoChange(s.log[..n], s.log[n..], g);
  }

  /** Everything built at once from the log alone. */
  function FromScratch(zone: int -> int, log: seq<Entry>): SnapTable {
    Aggregate(zone, Sessions(Sort(Playback(log))))
  }

  /** Once nothing is pending or in flight and no entry lies above a watermark, the incrementally kept
      snapshot tables are those a full recomputation from the raw log would give. */
  lemma QuiescentSnapshotsAreExact(zone: int -> int, steps: seq<Step>)
    requires ValidZone(zone) && IsRun(zone, steps)
    requires var s := After(zone, steps);
             && !s.fullPending && s.since.None? && s.snapPasses == map[]
             && AllProcessed(s)
    ensures var s := After(zone, steps); s.snaps == FromScratch(zone, s.log)
  {
    var s := After(zone, steps);
    forall d
      ensures Agrees(zone, s.snaps, s.table, d)
    {
      if !Agrees(zone, s.snaps, s.table, d) {
        StaleDaysAreCovered(zone, steps, d);
      }
    }
    AllDaysAgree(zone, s.snaps, s.table);
    var events := Playback(s.log);
    SortSorted(events);
    forall g
      ensures RowsOf(s.table, g) == RowsOf(Sessions(Sort(events)), g)
    {
      ProcessedGroupsAreBuilt(zone, steps, g);
      RowsOfSessions(Sort(events), g);
      EventsOfSort(events, g);
    }
    AggregateByGroup(zone, s.table, Sessions(Sort(events)));
  }
}
