/**
 The start/stop state machine that turns activity-log events into playback sessions.
 `Sessions` says what one pass must produce, `BuildSessions` is the loop that produces it, and
 `SessionsIff` ties both to a statement about pairs of event positions.
 */
module SessionBuilder {
  import opened Options
  import opened Sequences
  import opened Stamps

  datatype Backend = Emby | Jellyfin

  function StartTypes(backend: Backend): set<string> {
    if backend.Emby? then {"playback.start", "VideoPlayback"} else {"VideoPlayback", "AudioPlayback"}
  }

  function StopTypes(backend: Backend): set<string> {
    if backend.Emby? then {"playback.stop", "VideoPlaybackStopped"} else {"VideoPlaybackStopped", "AudioPlaybackStopped"}
  }

  /** The fetch keeps these types only; the walk takes a start type as a start and any other row as a stop. */
  function KindOf(backend: Backend, entryType: string): Option<Kind> {
    if entryType in StartTypes(backend) then Some(Start)
    else if entryType in StopTypes(backend) then Some(Stop)
    else None
  }

  datatype Group = Group(instance: int, user: int, item: int)
  datatype Kind = Start | Stop
  datatype Event = Event(group: Group, kind: Kind, date: Stamp)
  datatype Session = Session(group: Group, start: Stamp, end: Stamp, duration: int)

  /** The position whose date opened the session still open after `evs`. */
  function OpenIndex(evs: seq<Event>): (r: Option<nat>)
    ensures r.Some? ==> r.value < |evs|
  {
    if evs == [] || Last(evs).kind.Stop? then None
    else
      var before := Front(evs);
      if before != [] && Last(before).group == Last(evs).group && OpenIndex(before).Some? then OpenIndex(before)
      else Some(|evs| - 1)
  }

  /** The date of the start still open after `evs`. */
  function OpenStart(evs: seq<Event>): Option<Stamp> {
    match OpenIndex(evs)
    case Some(i) => Some(evs[i].date)
    case None => None
  }

  /** What closing `start` at `end` yields: a row, or nothing when the duration is unusable. */
  function CloseSession(group: Group, start: Stamp, end: Stamp): seq<Session> {
    match Duration(start, end)
    case None => []
    case Some(d) => if 0 < d <= MAX_DURATION_SECONDS then [Session(group, start, end, d)] else []
  }

  /** The rows the last event of `evs` adds. */
  function ClosedByLast(evs: seq<Event>): seq<Session>
    requires evs != []
  {
    var before := Front(evs);
    if Last(evs).kind.Stop? && before != [] && Last(before).group == Last(evs).group && OpenIndex(before).Some? then
      CloseSession(Last(evs).group, before[OpenIndex(before).value].date, Last(evs).date)
    else []
  }

  function Sessions(evs: seq<Event>): seq<Session> {
    if evs == [] then [] else Sessions(Front(evs)) + ClosedByLast(evs)
  }

  /** The walk over the fetched rows. */
  method BuildSessions(events: seq<Event>) returns (sessions: seq<Session>)
    ensures sessions == Sessions(events)
  {
    sessions := [];
    var currentGroup: Option<Group> := None;
    var sessionStart: Option<Stamp> := None;
    for k := 0 to |events|
      invariant sessions == Sessions(events[..k])
      invariant currentGroup == if k == 0 then None else Some(events[k - 1].group)
      invariant sessionStart == OpenStart(events[..k])
    {
      var e := events[k];
      assert Front(events[..k + 1]) == events[..k] && Last(events[..k + 1]) == e;
      assert k > 0 ==> Last(events[..k]) == events[k - 1];
      if currentGroup != Some(e.group) {
        currentGroup, sessionStart := Some(e.group), None;
      }
      if e.kind.Start? {
        if sessionStart.None? {
          sessionStart := Some(e.date);
        }
      } else if sessionStart.Some? {
        var duration := Duration(sessionStart.value, e.date);
        if duration.Some? && 0 < duration.value <= MAX_DURATION_SECONDS {
          sessions := sessions + [Session(e.group, sessionStart.value, e.date, duration.value)];
        }
        sessionStart := None;
      }
    }
    assert events[..|events|] == events;
  }

  // ----- the declarative reading -----

  /** `evs[i..j]` are starts of one group and `i` is the first of them since the group's last stop. */
  ghost predicate StartRun(evs: seq<Event>, i: int, j: int) {
    && 0 <= i < j <= |evs|
    && (forall m :: i <= m < j ==> evs[m].kind.Start? && evs[m].group == evs[i].group)
    && (i > 0 ==> evs[i - 1].kind.Stop? || evs[i - 1].group != evs[i].group)
  }

  /** Position `j` is the stop that ends the run opened at `i`, and the row built from the two dates is `s`. */
  ghost predicate PairsTo(evs: seq<Event>, i: int, j: int, s: Session) {
    && StartRun(evs, i, j)
    && j < |evs|
    && evs[j].kind.Stop?
    && evs[j].group == evs[i].group == s.group
    && s.start == evs[i].date
    && s.end == evs[j].date
    && Duration(s.start, s.end) == Some(s.duration)
    && 0 < s.duration <= 28_800
  }

  lemma {:induction false} OpenIndexIsRun(evs: seq<Event>)
    ensures OpenIndex(evs).Some? ==> StartRun(evs, OpenIndex(evs).value, |evs|)
    ensures OpenIndex(evs).None? <==> evs == [] || Last(evs).kind.Stop?
  {
    if evs != [] {
      OpenIndexIsRun(Front(evs));
    }
  }

  lemma StartRunIsUnique(evs: seq<Event>, i: int, i': int, j: int)
    requires StartRun(evs, i, j) && StartRun(evs, i', j)
    ensures i == i'
  {
    assert i < i' ==> i <= i' - 1 < j;
    assert i' < i ==> i' <= i - 1 < j;
  }

  lemma StartRunOfFront(evs: seq<Event>, i: int, j: int)
    requires j == |evs| - 1 && StartRun(evs, i, j)
    ensures StartRun(Front(evs), i, j)
  {
    assert forall m :: 0 <= m < j ==> Front(evs)[m] == evs[m];
  }

  /** The rows the last event adds are exactly those whose stop is the last event. */
  lemma ClosedByLastIff(evs: seq<Event>, j: int, s: Session)
    requires j == |evs| - 1 >= 0
    ensures s in ClosedByLast(evs) <==> exists i :: PairsTo(evs, i, j, s)
  {
    var before := Front(evs);
    OpenIndexIsRun(before);
    if s in ClosedByLast(evs) {
      assert PairsTo(evs, OpenIndex(before).value, j, s);
    }
    if i :| PairsTo(evs, i, j, s) {
      assert before[|before| - 1] == evs[j - 1];
      StartRunOfFront(evs, i, j);
      StartRunIsUnique(before, i, OpenIndex(before).value, |before|);
    }
  }

  lemma PairOfFront(evs: seq<Event>, i: int, j: int, s: Session)
    requires evs != [] && j < |evs|
    ensures j < |evs| - 1 ==> (PairsTo(Front(evs), i, j, s) <==> PairsTo(evs, i, j, s))
  {
  }

  /** The builder's meaning: a row is produced exactly for each run of starts of one group that a stop of
      that group follows, from the first start to that stop, lasting more than 0 s and at most 8 h. */
  lemma {:induction false} SessionsIff(evs: seq<Event>, s: Session)
    ensures s in Sessions(evs) <==> exists i, j :: PairsTo(evs, i, j, s)
  {
    if evs != [] {
      var before := Front(evs);
      SessionsIff(before, s);
      ClosedByLastIff(evs, |evs| - 1, s);
      if s in Sessions(before) {
        var i, j :| PairsTo(before, i, j, s);
        PairOfFront(evs, i, j, s);
      }
      if i, j :| PairsTo(evs, i, j, s) {
        PairOfFront(evs, i, j, s);
      }
    }
  }

  // ----- order and non-overlap -----

  ghost predicate OneGroupByDate(evs: seq<Event>) {
    forall a, b :: 0 <= a < b < |evs| ==> evs[a].group == evs[b].group && Le(evs[a].date, evs[b].date)
  }

  /** In one group's date order, sessions follow one another without overlapping. */
  lemma {:induction false} SessionsDoNotOverlap(evs: seq<Event>)
    requires OneGroupByDate(evs)
    ensures forall k :: 0 <= k < |Sessions(evs)| ==>
              Sessions(evs)[k].start.At? && Sessions(evs)[k].end.At? && Sessions(evs)[k].start.micros < Sessions(evs)[k].end.micros
    ensures forall a, b :: 0 <= a < b < |Sessions(evs)| ==> Sessions(evs)[a].end.micros <= Sessions(evs)[b].start.micros
  {
    if evs != [] {
      var before := Front(evs);
      SessionsDoNotOverlap(before);
      OpenIndexIsRun(before);
      if ClosedByLast(evs) != [] {
        var i := OpenIndex(before).value;
        forall s | s in Sessions(before)
          ensures s.end.At? && s.end.micros <= before[i].date.micros
        {
          SessionsIff(before, s);
          var i', j' :| PairsTo(before, i', j', s);
          assert j' < i;
          assert Le(before[j'].date, before[i].date);
        }
      }
    }
  }

  // ----- locality -----

  /** Appending events never changes the rows already built, and every further row ends at one of the
      appended events. */
  lemma {:induction false} SessionsGrow(p: seq<Event>, x: seq<Event>)
    ensures Sessions(p) <= Sessions(p + x)
    ensures forall s :: s in Sessions(p + x)[|Sessions(p)|..] ==> exists e :: e in x && s.end == e.date
  {
    if x == [] {
      assert p + x == p;
    } else {
      var y := Front(x);
      SessionsGrow(p, y);
      assert Front(p + x) == p + y;
      assert Last(p + x) == Last(x) && Last(x) in x;
      forall s | s in Sessions(p + x)[|Sessions(p)|..]
        ensures exists e :: e in x && s.end == e.date
      {
        if s in Sessions(p + y)[|Sessions(p)|..] {
          var e :| e in y && s.end == e.date;
          assert e in x;
        } else {
          assert s in ClosedByLast(p + x);
        }
      }
    }
  }

  lemma {:induction false} OpenIndexConcat(a: seq<Event>, b: seq<Event>)
    requires b != []
    requires a != [] ==> Last(a).group != b[0].group
    ensures OpenIndex(a + b) == match OpenIndex(b) case Some(i) => Some(|a| + i) case None => None
  {
    var c := Front(b);
    assert Front(a + b) == a + c;
    assert Last(a + b) == Last(b);
    if c == [] {
      assert a + c == a;
    } else {
      OpenIndexConcat(a, c);
      assert Last(a + c) == Last(c);
      OpenIndexIsRun(c);
    }
  }

  lemma ClosedByLastConcat(a: seq<Event>, b: seq<Event>)
    requires b != []
    requires a != [] ==> Last(a).group != b[0].group
    ensures ClosedByLast(a + b) == ClosedByLast(b)
  {
    var c := Front(b);
    assert Front(a + b) == a + c;
    assert Last(a + b) == Last(b);
    if c == [] {
      assert a + c == a;
    } else {
      OpenIndexConcat(a, c);
      assert Last(a + c) == Last(c);
      if OpenIndex(c).Some? {
        assert (a + c)[|a| + OpenIndex(c).value] == c[OpenIndex(c).value];
      }
    }
  }

  /** Two groups' events laid end to end build the two groups' sessions laid end to end. */
  lemma {:induction false} SessionsConcat(a: seq<Event>, b: seq<Event>)
    requires a != [] && b != [] ==> Last(a).group != b[0].group
    ensures Sessions(a + b) == Sessions(a) + Sessions(b)
  {
    if b == [] {
      assert a + b == a;
    } else {
      assert Front(a + b) == a + Front(b);
      SessionsConcat(a, Front(b));
      ClosedByLastConcat(a, b);
      AppendAssociates(Sessions(a), Sessions(Front(b)), ClosedByLast(b));
    }
  }
}
