/**
 The job as the program runs it: one object holding the tables and the module's pending range, its
 methods changing them in place.  A ghost trace ties every call to a run of the interleaved machine,
 so the theorems about runs hold of the object.
 */
module PlaybackJob {
  import opened Options
  import opened Sequences
  import opened Stamps
  import opened SessionBuilder
  import opened SessionStore
  import opened Snapshots
  import opened Pipeline

  /** A run extends by any enabled step. */
  lemma RunSnoc(zone: int -> int, steps: seq<Step>, step: Step)
    requires IsRun(zone, steps) && Enabled(After(zone, steps), step)
    ensures IsRun(zone, steps + [step])
    ensures After(zone, steps + [step]) == Apply(zone, After(zone, steps), step)
  {
    assert Front(steps + [step]) == steps;
  }

  /** How far a pass gets before an exception stops it. */
  datatype Reach = BeforeRebuild | BeforeNote | BeforeWatermark | Whole

  /** What `_rebuild_playback_sessions` leaves. */
  function PassResult(zone: int -> int, s: State, instance: int, reach: Reach): State {
    var max := MaxId(s.log, instance);
    if max.None? || (instance in s.watermark && max.value <= s.watermark[instance]) || reach.BeforeRebuild? then s
    else
      var from := if instance in s.watermark then MinDateAfter(s.log, instance, s.watermark[instance]) else None;
      var rebuilt := s.(table := RebuiltTable(s.table, s.log, instance, from));
      match reach
      case BeforeNote => rebuilt
      case BeforeWatermark => NoteChange(zone, rebuilt, from)
      case _ => NoteChange(zone, rebuilt, from).(watermark := s.watermark[instance := max.value])
  }

  /** How a snapshot pass ends: well, with an exception before its commit, or with one while it clears the
      dashboard cache after it. */
  datatype Ending = Succeeds | RebuildRaises | ClearRaises

  /** What `_maybe_rebuild_dashboard_snapshots` leaves: nothing changed, or the range rebuilt unless that raised,
      and after any exception everything pending. */
  function SnapshotResult(zone: int -> int, s: State, now: int, interval: int, ending: Ending): State {
    match TakeRange(s, now, interval)
    case None => s
    case Some(bound) =>
      var taken := s.(lastRebuild := now, fullPending := !ending.Succeeds?, since := None);
      if ending.RebuildRaises? then taken else taken.(snaps := RebuildSnapshots(zone, s.snaps, s.table, bound))
  }

  ghost predicate Reached(zone: int -> int, trace: seq<Step>, s: State) {
    IsRun(zone, trace) && After(zone, trace) == s
  }

  /** Take one enabled step of the machine. */
  lemma Advance(zone: int -> int, trace: seq<Step>, s: State, step: Step)
    requires Reached(zone, trace, s) && Enabled(s, step)
    ensures Reached(zone, trace + [step], Apply(zone, s, step))
  {
    RunSnoc(zone, trace, step);
  }

  /** A pass that has work reads its maximum, its watermark and its since date. */
  lemma PassReads(zone: int -> int, trace: seq<Step>, s: State, instance: int) returns (longer: seq<Step>, q: Pass)
    requires Reached(zone, trace, s) && s.passes == map[]
    requires var max := MaxId(s.log, instance); max.Some? && (instance in s.watermark ==> max.value > s.watermark[instance])
    ensures q.AfterSince? || (q.AfterLast? && q.last.None?)
    ensures q.instance == instance && q.max == MaxId(s.log, instance).value
    ensures RebuildFrom(q) == if instance in s.watermark then MinDateAfter(s.log, instance, s.watermark[instance]) else None
    ensures Reached(zone, longer, s.(passes := map[0 := q]))
  {
    var max := MaxId(s.log, instance).value;
    Advance(zone, trace, s, ReadMax(0, instance));
    var s1 := s.(passes := map[0 := AfterMax(instance, max)]);
    Advance(zone, trace + [ReadMax(0, instance)], s1, ReadLast(0));
    longer := trace + [ReadMax(0, instance)] + [ReadLast(0)];
    if instance in s.watermark {
      var s2 := s.(passes := map[0 := AfterLast(instance, max, Some(s.watermark[instance]))]);
      GrowingLogHasDate(s.log, s.log, instance, s.watermark[instance]);
      q := AfterSince(instance, max, MinDateAfter(s.log, instance, s.watermark[instance]).value);
      Advance(zone, longer, s2, ReadSince(0));
      longer := longer + [ReadSince(0)];
      assert Apply(zone, s2, ReadSince(0)) == s.(passes := map[0 := q]);
    } else {
      q := AfterLast(instance, max, None);
    }
  }

  /** The only pass is lost. */
  lemma LoseOnlyPass(zone: int -> int, trace: seq<Step>, s: State, q: Pass) returns (longer: seq<Step>)
    requires Reached(zone, trace, s.(passes := map[0 := q])) && s.passes == map[]
    ensures Reached(zone, longer, s)
  {
    Advance(zone, trace, s.(passes := map[0 := q]), LosePass(0));
    longer := trace + [LosePass(0)];
    assert map[0 := q] - {0} == map[];
  }

  /** It then commits the rebuilt sessions. */
  lemma PassRebuilds(zone: int -> int, trace: seq<Step>, s: State, q: Pass) returns (longer: seq<Step>)
    requires q.AfterSince? || (q.AfterLast? && q.last.None?)
    requires Reached(zone, trace, s.(passes := map[0 := q])) && s.passes == map[]
    ensures Reached(zone, longer,
              s.(table := RebuiltTable(s.table, s.log, q.instance, RebuildFrom(q)),
                 passes := map[0 := AfterRebuild(q.instance, q.max, RebuildFrom(q))]))
  {
    Advance(zone, trace, s.(passes := map[0 := q]), CommitRebuild(0));
    longer := trace + [CommitRebuild(0)];
  }

  /** Every outcome of a pass is a run of the machine. */
  lemma PassIsRun(zone: int -> int, trace: seq<Step>, s: State, instance: int, reach: Reach) returns (longer: seq<Step>)
    requires Reached(zone, trace, s) && s.passes == map[]
    ensures Reached(zone, longer, PassResult(zone, s, instance, reach))
  {
    longer := trace;
    var max := MaxId(s.log, instance);
    if max.Some? && (instance in s.watermark ==> max.value > s.watermark[instance]) && !reach.BeforeRebuild? {
      var q;
      longer, q := PassReads(zone, trace, s, instance);
      var from := RebuildFrom(q);
      longer := PassRebuilds(zone, longer, s, q);
      var rebuilt := s.(table := RebuiltTable(s.table, s.log, instance, from));
      var after := AfterRebuild(instance, max.value, from);
      if reach.BeforeNote? {
        longer := LoseOnlyPass(zone, longer, rebuilt, after);
      } else {
        longer := PassEnds(zone, longer, rebuilt, after, reach.BeforeWatermark?);
      }
    }
  }

  /** Noting a change only touches the pending range. */
  lemma NoteFrame(zone: int -> int, s: State, changed: Option<Stamp>, passes: map<nat, Pass>)
    ensures NoteChange(zone, s.(passes := passes), changed) == NoteChange(zone, s, changed).(passes := passes)
  {
  }

  lemma PassEnds(zone: int -> int, trace: seq<Step>, s: State, q: Pass, lost: bool) returns (longer: seq<Step>)
    requires q.AfterRebuild? && s.passes == map[]
    requires Reached(zone, trace, s.(passes := map[0 := q]))
    ensures Reached(zone, longer, if lost then NoteChange(zone, s, q.changed)
                                  else NoteChange(zone, s, q.changed).(watermark := s.watermark[q.instance := q.max]))
  {
    var noted := NoteChange(zone, s, q.changed);
    var after := AfterNote(q.instance, q.max);
    NoteFrame(zone, s, q.changed, map[0 := q]);
    NoteKeepsRest(zone, s, q.changed);
    Advance(zone, trace, s.(passes := map[0 := q]), Note(0));
    longer := trace + [Note(0)];
    assert Apply(zone, s.(passes := map[0 := q]), Note(0)) == noted.(passes := map[0 := after]);
    if lost {
      longer := LoseOnlyPass(zone, longer, noted, after);
    } else {
      Advance(zone, longer, noted.(passes := map[0 := after]), SetWatermark(0));
      longer := longer + [SetWatermark(0)];
      assert map[0 := after] - {0} == map[];
    }
  }

  /** So is every outcome of a snapshot pass. */
  lemma SnapshotIsRun(zone: int -> int, trace: seq<Step>, s: State, now: int, interval: int, ending: Ending)
    returns (longer: seq<Step>)
    requires Reached(zone, trace, s) && s.snapPasses == map[] && s.clearing == {}
    ensures Reached(zone, longer, SnapshotResult(zone, s, now, interval, ending))
  {
    longer := trace;
    var bound := TakeRange(s, now, interval);
    if bound.Some? {
      var taken := s.(lastRebuild := now, fullPending := false, since := None);
      var begun := taken.(snapPasses := map[0 := bound.value]);
      Advance(zone, trace, s, BeginSnapshot(0, now, interval));
      longer := trace + [BeginSnapshot(0, now, interval)];
      assert Apply(zone, s, BeginSnapshot(0, now, interval)) == begun;
      longer := SnapshotEnds(zone, longer, taken, bound.value, ending);
    }
  }

  /** A pass that holds its bound fails, or commits and then clears the cache, well or not. */
  lemma SnapshotEnds(zone: int -> int, trace: seq<Step>, s: State, bound: Option<int>, ending: Ending)
    returns (longer: seq<Step>)
    requires Reached(zone, trace, s.(snapPasses := map[0 := bound]))
    requires s.snapPasses == map[] && s.clearing == {} && !s.fullPending
    ensures var done := if ending.RebuildRaises? then s else s.(snaps := RebuildSnapshots(zone, s.snaps, s.table, bound));
            Reached(zone, longer, done.(fullPending := !ending.Succeeds?))
  {
    var begun := s.(snapPasses := map[0 := bound]);
    assert map[0 := bound] - {0} == map[];
    if ending.RebuildRaises? {
      Advance(zone, trace, begun, FailSnapshot(0));
      longer := trace + [FailSnapshot(0)];
    } else {
      var rebuilt := s.(snaps := RebuildSnapshots(zone, s.snaps, s.table, bound));
      Advance(zone, trace, begun, CommitSnapshot(0));
      longer := trace + [CommitSnapshot(0)];
      assert Apply(zone, begun, CommitSnapshot(0)) == rebuilt.(clearing := {0});
      Advance(zone, longer, rebuilt.(clearing := {0}), ClearCache(0, ending.ClearRaises?));
      longer := longer + [ClearCache(0, ending.ClearRaises?)];
      assert {0} - {0} == {};
    }
  }

  /** The guard for a missing since date fires exactly when the log at that read has no entry above the
      watermark. */
  lemma GuardFiresIff(log: seq<Entry>, instance: int, last: int)
    ensures MinDateAfter(log, instance, last).None? <==>
            MaxId(log, instance).None? || MaxId(log, instance).value <= last
  {
    assert MaxId(log, instance).Some? ==> HasId(log, instance, MaxId(log, instance).value);
    if MinDateAfter(log, instance, last).Some? {
      assert IsDateAfter(log, instance, last, MinDateAfter(log, instance, last).value);
    }
  }

  /** So it never fires while the log only grows between the two reads: the maximum read first is still there. */
  lemma GrowingLogHasDate(first: seq<Entry>, second: seq<Entry>, instance: int, last: int)
    requires MaxId(first, instance).Some? && MaxId(first, instance).value > last
    requires first <= second
    ensures MinDateAfter(second, instance, last).Some?
  {
    var max := MaxId(first, instance).value;
    var k :| 0 <= k < |first| && first[k].instance == instance && first[k].id == max;
    assert second[k] == first[k];
  }

  /** What a pass does to the log, the throttle and the watermarks. */
  lemma PassFrame(zone: int -> int, s: State, instance: int, reach: Reach)
    ensures var t := PassResult(zone, s, instance, reach);
            && t.log == s.log && t.lastRebuild == s.lastRebuild
            && if reach.Whole? && MaxId(s.log, instance).Some?
                  && (instance in s.watermark ==> MaxId(s.log, instance).value > s.watermark[instance])
               then t.watermark == s.watermark[instance := MaxId(s.log, instance).value]
               else t.watermark == s.watermark
  {
    var from := if instance in s.watermark then MinDateAfter(s.log, instance, s.watermark[instance]) else None;
    NoteKeepsRest(zone, s.(table := RebuiltTable(s.table, s.log, instance, from)), from);
  }

  /** A completed pass leaves no entry of its instance above the watermark, and no pass, however it ends, takes
      a watermark back. */
  lemma PassProcesses(zone: int -> int, s: State, instance: int, reach: Reach)
    ensures var t := PassResult(zone, s, instance, reach);
            && t.log == s.log && t.lastRebuild == s.lastRebuild
            && forall e :: e in s.log && ((reach.Whole? && e.instance == instance) || Processed(s, e)) ==> Processed(t, e)
  {
    PassFrame(zone, s, instance, reach);
    var t := PassResult(zone, s, instance, reach);
    forall e | e in s.log && ((reach.Whole? && e.instance == instance) || Processed(s, e))
      ensures Processed(t, e)
    {
      var k :| 0 <= k < |s.log| && s.log[k] == e;
      assert e.instance == instance ==> MaxId(s.log, instance).Some? && s.log[k].id <= MaxId(s.log, instance).value;
    }
  }

  /** What a pass leaves, in plain terms. */
  lemma PassDoes(zone: int -> int, s: State, instance: int, reach: Reach)
    ensures var t := PassResult(zone, s, instance, reach);
            && t.log == s.log && t.snaps == s.snaps && t.lastRebuild == s.lastRebuild
            && ((forall e :: e in s.log && e.instance == instance ==> Processed(s, e)) ==> t == s)
            && (forall i :: i != instance ==>
                  (i in t.watermark <==> i in s.watermark) && (i in t.watermark ==> t.watermark[i] == s.watermark[i]))
            && forall g :: RowsOf(t.table, g) == RowsOf(s.table, g)
                           || (g.instance == instance && RowsOf(t.table, g) == GroupSessions(s.log, g))
  {
    PassFrame(zone, s, instance, reach);
    var t := PassResult(zone, s, instance, reach);
    var from := if instance in s.watermark then MinDateAfter(s.log, instance, s.watermark[instance]) else None;
    if MaxId(s.log, instance).Some? {
      var k :| 0 <= k < |s.log| && s.log[k].instance == instance && s.log[k].id == MaxId(s.log, instance).value;
      assert s.log[k] in s.log;
    }
    NoteKeepsRest(zone, s.(table := RebuiltTable(s.table, s.log, instance, from)), from);
    forall g
      ensures RowsOf(t.table, g) == RowsOf(s.table, g)
              || (g.instance == instance && RowsOf(t.table, g) == GroupSessions(s.log, g))
    {
      RebuiltTableScope(s.table, s.log, instance, from, g);
    }
  }

  /** And what it catches up with: once its rebuild is committed, every group of the instance with an entry above
      the watermark has the build over its whole log, and once the change is noted every day such an entry
      reaches is pending. */
  lemma PassCatchesUp(zone: int -> int, s: State, instance: int, reach: Reach, e: Entry)
    requires e in s.log && e.instance == instance && !Processed(s, e)
    ensures var t := PassResult(zone, s, instance, reach);
            && (reach.BeforeRebuild? ==> t == s)
            && (!reach.BeforeRebuild? && e.IsPlayback() ==>
                  RowsOf(t.table, e.ToEvent().group) == GroupSessions(s.log, e.ToEvent().group))
            && (DatesFallAtMostADay(zone) && (reach.BeforeWatermark? || reach.Whole?) ==>
                  forall d :: Reaches(zone, e.date, d) ==> PendingCovers(t, d))
  {
    var k :| 0 <= k < |s.log| && s.log[k] == e;
    if !reach.BeforeRebuild? {
      var from := if instance in s.watermark then MinDateAfter(s.log, instance, s.watermark[instance]) else None;
      var rebuilt := s.(table := RebuiltTable(s.table, s.log, instance, from));
      NoteKeepsRest(zone, rebuilt, from);
      if e.IsPlayback() {
        RebuiltTableScope(s.table, s.log, instance, from, e.ToEvent().group);
      }
      forall d | DatesFallAtMostADay(zone) && (reach.BeforeWatermark? || reach.Whole?) && Reaches(zone, e.date, d)
        ensures PendingCovers(PassResult(zone, s, instance, reach), d)
      {
        if from.Some? {
          ReachesIsMonotone(zone, from.value, e.date, d);
        }
        NoteChangePends(zone, rebuilt, from, d);
      }
    }
  }

  /** What a snapshot pass leaves, in plain terms: nothing changed when it is throttled or has nothing to do;
      otherwise the pending range is taken and, unless the rebuild raises, every day of it agrees with the
      stored sessions while every snapshot row before it is as it was; after an exception everything is
      pending again. */
  lemma SnapshotPassDoes(zone: int -> int, trace: seq<Step>, s: State, now: int, interval: int, ending: Ending)
    requires ValidZone(zone) && Reached(zone, trace, s)
    ensures var t := SnapshotResult(zone, s, now, interval, ending);
            if now - s.lastRebuild < interval || (!s.fullPending && s.since.None?) then t == s
            else
              && t.lastRebuild == now && t.since.None? && (t.fullPending <==> !ending.Succeeds?)
              && t.log == s.log && t.table == s.table && t.watermark == s.watermark
              && if ending.RebuildRaises? then t.snaps == s.snaps
                 else
                   && (forall d :: s.fullPending || s.since.value <= d ==> Agrees(zone, t.snaps, t.table, d))
                   && forall k: SnapKey :: !s.fullPending && k.day < s.since.value ==>
                        (k in t.snaps <==> k in s.snaps) && (k in t.snaps ==> t.snaps[k] == s.snaps[k])
  {
    var t := SnapshotResult(zone, s, now, interval, ending);
    RunInv(zone, trace);
    if now - s.lastRebuild >= interval && (s.fullPending || s.since.Some?) && !ending.RebuildRaises? {
      var bound := if s.fullPending then None else s.since;
      forall d
        ensures bound.None? || bound.value <= d ==> Agrees(zone, t.snaps, t.table, d)
      {
        RebuildMakesDaysAgree(zone, s.snaps, s.table, bound, d);
      }
      RebuildMakesDaysAgree(zone, s.snaps, s.table, bound, 0);
    }
  }

  /** A committed snapshot pass with every entry processed makes the tables exact. */
  lemma SnapshotAfterAllPasses(zone: int -> int, trace: seq<Step>, before: State, now: int, interval: int, ending: Ending)
    requires ValidZone(zone) && Reached(zone, trace, before)
    requires before.snapPasses == map[] && before.clearing == {}
    requires now - before.lastRebuild >= interval && !ending.RebuildRaises?
    requires forall e :: e in before.log ==> Processed(before, e)
    ensures SnapshotResult(zone, before, now, interval, ending).snaps == FromScratch(zone, before.log)
  {
    var after := SnapshotResult(zone, before, now, interval, Succeeds);
    var longer := SnapshotIsRun(zone, trace, before, now, interval, Succeeds);
    forall k | 0 <= k < |after.log|
      ensures Processed(after, after.log[k])
    {
      assert before.log[k] in before.log;
    }
    QuiescentSnapshotsAreExact(zone, longer);
  }

  function Flatten(parts: seq<seq<Entry>>): seq<Entry> {
    if parts == [] then [] else Flatten(Front(parts)) + Last(parts)
  }

  lemma IdsRiseOfPrefix(log: seq<Entry>, more: seq<Entry>)
    requires IdsRise(log + more)
    ensures IdsRise(log)
  {
    assert forall k :: 0 <= k < |log| ==> (log + more)[k] == log[k];
  }

  /** The entries of the first runs keep rising ids when those of all of them do. */
  lemma {:induction false} FlattenPrefix(log: seq<Entry>, parts: seq<seq<Entry>>, k: nat)
    requires k <= |parts| && IdsRise(log + Flatten(parts))
    ensures IdsRise(log + Flatten(parts[..k]))
  {
    if k == |parts| {
      assert parts[..k] == parts;
    } else {
      AppendAssociates(log, Flatten(Front(parts)), Last(parts));
      IdsRiseOfPrefix(log + Flatten(Front(parts)), Last(parts));
      FlattenPrefix(log, Front(parts), k);
      assert Front(parts)[..k] == parts[..k];
    }
  }

  lemma FlattenSnoc(log: seq<Entry>, parts: seq<seq<Entry>>, k: nat)
    requires k < |parts|
    ensures log + Flatten(parts[..k + 1]) == log + Flatten(parts[..k]) + parts[k]
  {
    assert Front(parts[..k + 1]) == parts[..k];
    AppendAssociates(log, Flatten(parts[..k]), parts[k]);
  }

  /** An emptied scope deletes nothing. */
  lemma {:induction false} DropNothing(table: seq<Session>)
    ensures Drop(table, Groups({})) == table
  {
    if table != [] {
      DropNothing(Front(table));
    }
  }

  /** A whole-pass sync completes the session pass of this instance. */
  ghost predicate PassCompletes(instances: seq<int>, reaches: seq<Reach>, instance: int)
    requires |reaches| == |instances|
  {
    exists k :: 0 <= k < |instances| && instances[k] == instance && reaches[k].Whole?
  }

  lemma OneMorePass(instances: seq<int>, reaches: seq<Reach>, k: nat)
    requires |reaches| == |instances| && k < |instances|
    ensures forall i :: PassCompletes(instances[..k + 1], reaches[..k + 1], i) ==>
                          PassCompletes(instances[..k], reaches[..k], i) || (i == instances[k] && reaches[k].Whole?)
  {
    forall i | PassCompletes(instances[..k + 1], reaches[..k + 1], i) && !(i == instances[k] && reaches[k].Whole?)
      ensures PassCompletes(instances[..k], reaches[..k], i)
    {
      var j :| 0 <= j < k + 1 && instances[..k + 1][j] == i && reaches[..k + 1][j].Whole?;
      assert instances[..k][j] == i && reaches[..k][j].Whole?;
    }
  }

  class Job {
    const zone: int -> int
    var log: seq<Entry>
    var table: seq<Session>
    var watermark: map<int, int>
    var snaps: SnapTable
    var fullPending: bool
    var since: Option<int>
    var lastRebuild: int
    ghost var trace: seq<Step>

    function Now(): State
      reads this
    {
      State(log, table, watermark, snaps, fullPending, since, lastRebuild, map[], map[], {})
    }

    ghost predicate Valid()
      reads this
    {
      ValidZone(zone) && IsRun(zone, trace) && After(zone, trace) == Now()
    }

    constructor (zone: int -> int)
      requires ValidZone(zone)
      ensures Valid() && Now() == Boot()
    {
      this.zone := zone;
      log, table, watermark, snaps := [], [], map[], map[];
      fullPending, since, lastRebuild := true, None, 0;
      trace := [];
    }

    /** Committing one sync run's entries. */
    method UpsertEntries(entries: seq<Entry>)
      requires Valid() && IdsRise(log + entries)
      modifies this
      ensures Valid()
      ensures Now() == old(Now()).(log := old(log) + entries)
    {
      RunSnoc(zone, trace, Append(entries));
      trace := trace + [Append(entries)];
      log := log + entries;
    }

    method NoteSnapshotChange(changed: Option<Stamp>)
      modifies this`fullPending, this`since
      ensures Now() == NoteChange(zone, old(Now()), changed)
      ensures forall d :: PendingCovers(old(Now()), d) ==> PendingCovers(Now(), d)
      ensures DatesFallAtMostADay(zone) ==>
                forall d :: changed.None? || Reaches(zone, changed.value, d) ==> PendingCovers(Now(), d)
    {
      ghost var before := Now();
      var day := None;
      if changed.Some? {
        day := SnapshotRebuildSince(zone, changed.value);
      }
      if day.None? {
        fullPending := true;
      } else if since.None? || day.value < since.value {
        since := day;
      }
      forall d
        ensures PendingCovers(before, d) ==> PendingCovers(Now(), d)
        ensures DatesFallAtMostADay(zone) && (changed.None? || Reaches(zone, changed.value, d)) ==> PendingCovers(Now(), d)
      {
        NoteChangePends(zone, before, changed, d);
      }
    }

    /** DELETE, fetch in order, build, INSERT, in one transaction; `n` rows are inserted. */
    method RebuildSessions(instance: int, sinceDate: Option<Stamp>) returns (n: nat)
      modifies this`table
      ensures table == RebuiltTable(old(table), log, instance, sinceDate)
      ensures |table| == |Drop(old(table), RebuildScope(log, instance, sinceDate))| + n
      ensures forall g :: RowsOf(table, g) ==
                if g.instance == instance
                   && (sinceDate.None? || sinceDate == Some(Blank)
                       || exists k :: 0 <= k < |log| && log[k].Of(g) && Le(sinceDate.value, log[k].date))
                then GroupSessions(log, g)
                else RowsOf(old(table), g)
    {
      ghost var before := table;
      forall g
        ensures RowsOf(RebuiltTable(before, log, instance, sinceDate), g) ==
                if g.instance == instance
                   && (sinceDate.None? || sinceDate == Some(Blank)
                       || exists k :: 0 <= k < |log| && log[k].Of(g) && Le(sinceDate.value, log[k].date))
                then GroupSessions(log, g)
                else RowsOf(before, g)
      {
        RebuiltTableScope(before, log, instance, sinceDate, g);
      }
      var scope := RebuildScope(log, instance, sinceDate);
      if scope.Groups? && scope.groups == {} {
        DropNothing(table);
        return 0;
      }
      var rows := Fetch(log, scope);
      var sessions := BuildSessions(rows);
      table := Drop(table, scope) + sessions;
      n := |sessions|;
    }

    /** One pass for one instance, stopped by an exception where `reach` says. */
    method RebuildPlaybackSessions(instance: int, reach: Reach)
      requires Valid()
      modifies this
      ensures Valid()
      ensures Now() == PassResult(zone, old(Now()), instance, reach)
    {
      trace := PassIsRun(zone, trace, Now(), instance, reach);
      var max := MaxId(log, instance);
      if max.None? {
        return;
      }
      var changed := None;
      if instance in watermark {
        if max.value <= watermark[instance] {
          return;
        }
        changed := MinDateAfter(log, instance, watermark[instance]);
        // Nothing else touches the log here, so the maximum itself is an entry above the watermark.
        GrowingLogHasDate(log, log, instance, watermark[instance]);
      }
      if reach.BeforeRebuild? {
        return;
      }
      var n := RebuildSessions(instance, changed);
      if reach.BeforeNote? {
        return;
      }
      NoteSnapshotChange(changed);
      if reach.BeforeWatermark? {
        return;
      }
      watermark := watermark[instance := max.value];
    }

    /** The throttled snapshot pass; `ending` says where it raises an exception, if it does. */
    method MaybeRebuildDashboardSnapshots(now: int, interval: int, ending: Ending)
      requires Valid()
      modifies this
      ensures Valid()
      ensures Now() == SnapshotResult(zone, old(Now()), now, interval, ending)
      ensures now - old(lastRebuild) < interval || (!old(fullPending) && old(since).None?) ==> Now() == old(Now())
      ensures now - old(lastRebuild) >= interval && (old(fullPending) || old(since).Some?) ==>
                && lastRebuild == now && since.None? && (fullPending <==> !ending.Succeeds?)
    {
      trace := SnapshotIsRun(zone, trace, Now(), now, interval, ending);
      if now - lastRebuild < interval {
        return;
      }
      if !fullPending && since.None? {
        return;
      }
      lastRebuild := now;
      var bound := if fullPending then None else since;
      fullPending := false;
      since := None;
      if ending.RebuildRaises? {
        fullPending := true;
      } else {
        snaps := RebuildSnapshots(zone, snaps, table, bound);
        if ending.ClearRaises? {
          fullPending := true;
        }
      }
    }

    /** Every instance's new entries, `fetched[k]` empty where that sync fails or finds nothing. */
    method SyncAllEntries(fetched: seq<seq<Entry>>)
      requires Valid() && IdsRise(log + Flatten(fetched))
      modifies this
      ensures Valid()
      ensures Now() == old(Now()).(log := old(log) + Flatten(fetched))
    {
      for k := 0 to |fetched|
        invariant Valid()
        invariant Now() == old(Now()).(log := old(log) + Flatten(fetched[..k]))
      {
        FlattenPrefix(old(log), fetched, k + 1);
        FlattenSnoc(old(log), fetched, k);
        if fetched[k] != [] {
          UpsertEntries(fetched[k]);
        }
      }
      assert fetched[..|fetched|] == fetched;
    }

    /** Every instance's session pass, stopped by an exception where `reaches` says. */
    method RebuildAllPlaybackSessions(instances: seq<int>, reaches: seq<Reach>)
      requires Valid() && |reaches| == |instances|
      modifies this
      ensures Valid() && log == old(log) && lastRebuild == old(lastRebuild)
      ensures forall e :: e in log && PassCompletes(instances, reaches, e.instance) ==> Processed(Now(), e)
    {
      for k := 0 to |instances|
        invariant Valid() && log == old(log) && lastRebuild == old(lastRebuild)
        invariant forall e :: e in log && PassCompletes(instances[..k], reaches[..k], e.instance) ==>
                                Processed(Now(), e)
      {
        ghost var before := Now();
        PassProcesses(zone, before, instances[k], reaches[k]);
        RebuildPlaybackSessions(instances[k], reaches[k]);
        assert log == before.log;
        OneMorePass(instances, reaches, k);
      }
      assert instances[..|instances|] == instances && reaches[..|instances|] == reaches;
    }

    /** The whole-pass sync: every instance's new entries, then every instance's sessions, then the snapshots.
        Every instance whose session pass completes is processed; when these are all the instances in the log
        and the snapshot pass is let through and commits, the snapshots equal a recomputation from the raw
        log. */
    method RunActivityLogSync(
        instances: seq<int>, fetched: seq<seq<Entry>>, reaches: seq<Reach>, now: int, interval: int, ending: Ending)
      requires Valid()
      requires |fetched| == |reaches| == |instances| && IdsRise(log + Flatten(fetched))
      modifies this
      ensures Valid() && log == old(log) + Flatten(fetched)
      ensures forall e :: e in log && PassCompletes(instances, reaches, e.instance) ==> Processed(Now(), e)
      ensures (forall e :: e in log ==> PassCompletes(instances, reaches, e.instance))
              && now - old(lastRebuild) >= interval && !ending.RebuildRaises?
              ==> snaps == FromScratch(zone, log)
    {
      SyncAllEntries(fetched);
      RebuildAllPlaybackSessions(instances, reaches);
      ghost var before, steps := Now(), trace;
      MaybeRebuildDashboardSnapshots(now, interval, ending);
      if (forall e :: e in log ==> PassCompletes(instances, reaches, e.instance))
         && now - before.lastRebuild >= interval && !ending.RebuildRaises? {
        SnapshotAfterAllPasses(zone, steps, before, now, interval, ending);
      }
    }
  }
}
