/**
 The stored activity log, the ORDER BY that feeds the builder, and the DELETE + INSERT that rebuilds
 the sessions of a whole instance or of a set of groups.  `RebuildRows` says what one rebuild leaves
 for every group, rebuilt or not.
 */
module SessionStore {
  import opened Options
  import opened Sequences
  import opened Stamps
  import opened SessionBuilder

  /** A stored log entry of an instance served by `backend`. */
  datatype Entry = Entry(
    instance: int, id: int, user: Option<int>, item: Option<int>, backend: Backend, entryType: string, date: Stamp) {

    predicate IsPlayback() {
      KindOf(backend, entryType).Some? && user.Some? && item.Some?
    }

    function ToEvent(): Event
      requires IsPlayback()
    {
      Event(Group(instance, user.value, item.value), KindOf(backend, entryType).value, date)
    }

    predicate Of(g: Group) {
      IsPlayback() && ToEvent().group == g
    }
  }

  /** The rows a rebuild deletes and fetches. */
  datatype Scope = Instance(id: int) | Groups(groups: set<Group>) {
    predicate Has(g: Group) {
      match this
      case Instance(i) => g.instance == i
      case Groups(gs) => g in gs
    }
  }

  // ----- selections -----

  /** The playback events of the log, in insertion order. */
  function Playback(log: seq<Entry>): seq<Event> {
    if log == [] then []
    else if Last(log).IsPlayback() then Playback(Front(log)) + [Last(log).ToEvent()]
    else Playback(Front(log))
  }

  function Select(evs: seq<Event>, scope: Scope): seq<Event> {
    if evs == [] then []
    else if scope.Has(Last(evs).group) then Select(Front(evs), scope) + [Last(evs)]
    else Select(Front(evs), scope)
  }

  function EventsOf(evs: seq<Event>, g: Group): seq<Event> {
    if evs == [] then []
    else if Last(evs).group == g then EventsOf(Front(evs), g) + [Last(evs)]
    else EventsOf(Front(evs), g)
  }

  function RowsOf(table: seq<Session>, g: Group): seq<Session> {
    if table == [] then []
    else if Last(table).group == g then RowsOf(Front(table), g) + [Last(table)]
    else RowsOf(Front(table), g)
  }

  /** DELETE of the scope's rows. */
  function Drop(table: seq<Session>, scope: Scope): seq<Session> {
    if table == [] then []
    else if scope.Has(Last(table).group) then Drop(Front(table), scope)
    else Drop(Front(table), scope) + [Last(table)]
  }

  /** The events dated before `d`. */
  function Below(evs: seq<Event>, d: Stamp): seq<Event> {
    if evs == [] then []
    else if Le(d, Last(evs).date) then Below(Front(evs), d)
    else Below(Front(evs), d) + [Last(evs)]
  }

  // ----- ORDER BY instance_id, user_id, item_id, date; ties keep entry order -----

  predicate GroupLt(a: Group, b: Group) {
    || a.instance < b.instance
    || (a.instance == b.instance && (a.user < b.user || (a.user == b.user && a.item < b.item)))
  }

  predicate RowLe(a: Event, b: Event) {
    GroupLt(a.group, b.group) || (a.group == b.group && Le(a.date, b.date))
  }

  ghost predicate Sorted(evs: seq<Event>) {
    forall a, b :: 0 <= a < b < |evs| ==> RowLe(evs[a], evs[b])
  }

  function Insert(sorted: seq<Event>, e: Event): seq<Event> {
    if sorted == [] then [e]
    else if RowLe(Last(sorted), e) then sorted + [e]
    else Insert(Front(sorted), e) + [Last(sorted)]
  }

  function Sort(evs: seq<Event>): seq<Event> {
    if evs == [] then [] else Insert(Sort(Front(evs)), Last(evs))
  }

  // ----- the rebuild -----

  function Fetch(log: seq<Entry>, scope: Scope): seq<Event> {
    Sort(Select(Playback(log), scope))
  }

  function Rebuild(table: seq<Session>, log: seq<Entry>, scope: Scope): seq<Session> {
    Drop(table, scope) + Sessions(Fetch(log, scope))
  }

  /** What a group's rows must be: the build over that group's whole log. */
  function GroupSessions(log: seq<Entry>, g: Group): seq<Session> {
    Sessions(Sort(EventsOf(Playback(log), g)))
  }

  // ----- lemmas about the selections -----

  lemma {:induction false} RowsOfAppend(a: seq<Session>, b: seq<Session>, g: Group)
    ensures RowsOf(a + b, g) == RowsOf(a, g) + RowsOf(b, g)
  {
    if b == [] {
      assert a + b == a;
    } else {
      RowsOfAppend(a, Front(b), g);
      assert Front(a + b) == a + Front(b);
    }
  }

  lemma EventsOfSnoc(s: seq<Event>, e: Event, g: Group)
    ensures EventsOf(s + [e], g) == if e.group == g then EventsOf(s, g) + [e] else EventsOf(s, g)
  {
    assert Front(s + [e]) == s;
  }

  lemma {:induction false} EventsOfAppend(a: seq<Event>, b: seq<Event>, g: Group)
    ensures EventsOf(a + b, g) == EventsOf(a, g) + EventsOf(b, g)
  {
    if b == [] {
      assert a + b == a;
    } else {
      EventsOfAppend(a, Front(b), g);
      assert Front(a + b) == a + Front(b);
    }
  }

  lemma {:induction false} PlaybackAppend(a: seq<Entry>, b: seq<Entry>)
    ensures Playback(a + b) == Playback(a) + Playback(b)
  {
    if b == [] {
      assert a + b == a;
    } else {
      PlaybackAppend(a, Front(b));
      assert Front(a + b) == a + Front(b);
    }
  }

  lemma {:induction false} RowsOfDrop(table: seq<Session>, scope: Scope, g: Group)
    ensures RowsOf(Drop(table, scope), g) == if scope.Has(g) then [] else RowsOf(table, g)
  {
    if table != [] {
      RowsOfDrop(Front(table), scope, g);
      var kept := if scope.Has(Last(table).group) then [] else [Last(table)];
      RowsOfAppend(Drop(Front(table), scope), kept, g);
      assert kept != [] ==> Front(kept) == [];
    }
  }

  lemma {:induction false} EventsOfSelect(evs: seq<Event>, scope: Scope, g: Group)
    ensures EventsOf(Select(evs, scope), g) == if scope.Has(g) then EventsOf(evs, g) else []
  {
    if evs != [] {
      EventsOfSelect(Front(evs), scope, g);
      var kept := if scope.Has(Last(evs).group) then [Last(evs)] else [];
      EventsOfAppend(Select(Front(evs), scope), kept, g);
      assert kept != [] ==> Front(kept) == [];
    }
  }

  lemma {:induction false} EventsOfMembers(evs: seq<Event>, g: Group)
    ensures forall e :: e in EventsOf(evs, g) <==> e in evs && e.group == g
  {
    if evs != [] {
      EventsOfMembers(Front(evs), g);
      assert evs == Front(evs) + [Last(evs)];
    }
  }

  lemma {:induction false} PlaybackMembers(log: seq<Entry>)
    ensures forall e :: e in Playback(log) ==> exists k :: 0 <= k < |log| && log[k].IsPlayback() && log[k].ToEvent() == e
    ensures forall k :: 0 <= k < |log| && log[k].IsPlayback() ==> log[k].ToEvent() in Playback(log)
  {
    if log != [] {
      var before := Front(log);
      PlaybackMembers(before);
      forall e | e in Playback(log)
        ensures exists k :: 0 <= k < |log| && log[k].IsPlayback() && log[k].ToEvent() == e
      {
        if e in Playback(before) {
          var k :| 0 <= k < |before| && before[k].IsPlayback() && before[k].ToEvent() == e;
          assert log[k].ToEvent() == e;
        } else {
          assert log[|log| - 1].ToEvent() == e;
        }
      }
      forall k | 0 <= k < |log| && log[k].IsPlayback()
        ensures log[k].ToEvent() in Playback(log)
      {
        if k < |before| {
          assert before[k] == log[k];
        }
      }
    }
  }

  // ----- lemmas about the order -----

  lemma {:induction false} InsertMembers(s: seq<Event>, e: Event)
    ensures multiset(Insert(s, e)) == multiset(s) + multiset{e}
  {
    if s != [] && !RowLe(Last(s), e) {
      InsertMembers(Front(s), e);
      assert s == Front(s) + [Last(s)];
    }
  }

  lemma MultisetMembers<T>(a: seq<T>, b: seq<T>, x: T)
    requires multiset(a) == multiset(b)
    ensures x in a <==> x in b
  {
    assert x in a <==> x in multiset(a);
    assert x in b <==> x in multiset(b);
  }

  lemma {:induction false} InsertSorted(s: seq<Event>, e: Event)
    requires Sorted(s)
    ensures Sorted(Insert(s, e))
  {
    if s != [] {
      var before, z := Front(s), Last(s);
      if RowLe(z, e) {
        forall k | 0 <= k < |s|
          ensures RowLe(s[k], e)
        {
          assert k < |s| - 1 ==> RowLe(s[k], s[|s| - 1]);
        }
      } else {
        InsertSorted(before, e);
        InsertMembers(before, e);
        var r := Insert(before, e);
        forall k | 0 <= k < |r|
          ensures RowLe(r[k], z)
        {
          MultisetMembers(r, before + [e], r[k]);
          if r[k] in before {
            var j :| 0 <= j < |before| && before[j] == r[k];
            assert RowLe(s[j], s[|s| - 1]);
          }
        }
      }
    }
  }

  lemma {:induction false} SortSorted(evs: seq<Event>)
    ensures Sorted(Sort(evs))
    ensures forall a, b :: 0 <= a < b < |Sort(evs)| ==>
              var (x, y) := (Sort(evs)[a], Sort(evs)[b]);
              || x.group.instance < y.group.instance
              || (x.group.instance == y.group.instance &&
                  (|| x.group.user < y.group.user
                   || (x.group.user == y.group.user &&
                       (x.group.item < y.group.item || (x.group.item == y.group.item && Le(x.date, y.date))))))
    ensures multiset(Sort(evs)) == multiset(evs)
    ensures forall x :: x in Sort(evs) <==> x in evs
  {
    if evs != [] {
      SortSorted(Front(evs));
      InsertSorted(Sort(Front(evs)), Last(evs));
      InsertMembers(Sort(Front(evs)), Last(evs));
      assert evs == Front(evs) + [Last(evs)];
    }
    forall x
      ensures x in Sort(evs) <==> x in evs
    {
      MultisetMembers(Sort(evs), evs, x);
    }
  }

  /** Insertion goes last when nothing sorts after the new event. */
  lemma EventsOfLargest(s: seq<Event>, e: Event)
    requires Sorted(s) && s != [] && RowLe(Last(s), e)
    ensures Insert(EventsOf(s, e.group), e) == EventsOf(s, e.group) + [e]
  {
    EventsOfMembers(s, e.group);
    var own := EventsOf(s, e.group);
    if own != [] {
      assert Last(own) in own;
      var k :| 0 <= k < |s| && s[k] == Last(own);
      assert k < |s| - 1 ==> RowLe(s[k], s[|s| - 1]);
    }
  }

  lemma InsertBeforeLarger(s: seq<Event>, z: Event, e: Event)
    requires !RowLe(z, e)
    ensures Insert(s + [z], e) == Insert(s, e) + [z]
  {
    assert Front(s + [z]) == s;
  }

  lemma {:induction false} EventsOfInsert(s: seq<Event>, e: Event, g: Group)
    requires Sorted(s)
    ensures EventsOf(Insert(s, e), g) == if e.group == g then Insert(EventsOf(s, g), e) else EventsOf(s, g)
  {
    if s == [] {
      EventsOfSnoc([], e, g);
    } else if RowLe(Last(s), e) {
      EventsOfSnoc(s, e, g);
      EventsOfLargest(s, e);
    } else {
      EventsOfInsert(Front(s), e, g);
      EventsOfSnoc(Insert(Front(s), e), Last(s), g);
      InsertBeforeLarger(EventsOf(Front(s), g), Last(s), e);
    }
  }

  lemma SortSnoc(s: seq<Event>, e: Event)
    ensures Sort(s + [e]) == Insert(Sort(s), e)
  {
    assert Front(s + [e]) == s;
  }

  /** Sorting all rows and keeping one group is sorting that group's rows. */
  lemma {:induction false} EventsOfSort(evs: seq<Event>, g: Group)
    ensures EventsOf(Sort(evs), g) == Sort(EventsOf(evs, g))
  {
    if evs != [] {
      EventsOfSort(Front(evs), g);
      SortSorted(Front(evs));
      EventsOfInsert(Sort(Front(evs)), Last(evs), g);
      SortSnoc(EventsOf(Front(evs), g), Last(evs));
    }
  }

  // ----- building all groups at once is building each -----

  /** Where the group changes, the new group has not occurred before. */
  lemma NewGroupIsFirstSeen(evs: seq<Event>)
    requires Sorted(evs) && |evs| >= 2 && evs[|evs| - 2].group != Last(evs).group
    ensures EventsOf(Front(evs), Last(evs).group) == []
  {
    var own := EventsOf(Front(evs), Last(evs).group);
    EventsOfMembers(Front(evs), Last(evs).group);
    forall k | 0 <= k < |evs| - 1
      ensures evs[k].group != Last(evs).group
    {
      assert RowLe(evs[|evs| - 2], evs[|evs| - 1]);
      assert k < |evs| - 2 ==> RowLe(evs[k], evs[|evs| - 2]);
    }
    assert own != [] ==> Last(own) in own;
  }

  /** In the sorted rows a group is contiguous, so the open start is the group's own. */
  lemma {:induction false} OpenStartOfGroup(evs: seq<Event>)
    requires Sorted(evs) && evs != []
    ensures EventsOf(evs, Last(evs).group) != []
    ensures Last(EventsOf(evs, Last(evs).group)) == Last(evs)
    ensures OpenStart(EventsOf(evs, Last(evs).group)) == OpenStart(evs)
  {
    var before, e := Front(evs), Last(evs);
    var own := EventsOf(before, e.group);
    assert EventsOf(evs, e.group) == own + [e];
    assert Front(own + [e]) == own;
    EventsOfMembers(before, e.group);
    if before != [] && Last(before).group == e.group {
      OpenStartOfGroup(before);
      OpenIndexIsRun(own);
      OpenIndexIsRun(before);
      assert OpenIndex(own).Some? ==> OpenStart(own) == Some(own[OpenIndex(own).value].date);
    } else if before != [] {
      NewGroupIsFirstSeen(evs);
    }
  }

  lemma {:induction false} RowsOfSessions(evs: seq<Event>, g: Group)
    requires Sorted(evs)
    ensures RowsOf(Sessions(evs), g) == Sessions(EventsOf(evs, g))
  {
    if evs != [] {
      var before, e := Front(evs), Last(evs);
      RowsOfSessions(before, g);
      var closed := ClosedByLast(evs);
      RowsOfAppend(Sessions(before), closed, g);
      assert closed == [] || (|closed| == 1 && closed[0].group == e.group);
      assert RowsOf([], g) == [];
      if e.group == g {
        ClosedByLastOfGroup(evs);
        assert EventsOf(evs, g) == EventsOf(before, g) + [e];
        assert Front(EventsOf(evs, g)) == EventsOf(before, g);
        assert closed != [] ==> closed == [Last(closed)] && Front(closed) == [];
      } else {
        assert closed != [] ==> Last(closed).group != g && Front(closed) == [];
      }
    }
  }

  lemma ClosedByLastOfGroup(evs: seq<Event>)
    requires Sorted(evs) && evs != []
    ensures EventsOf(evs, Last(evs).group) != []
    ensures ClosedByLast(EventsOf(evs, Last(evs).group)) == ClosedByLast(evs)
  {
    var before, e := Front(evs), Last(evs);
    var own := EventsOf(before, e.group);
    assert EventsOf(evs, e.group) == own + [e];
    assert Front(own + [e]) == own;
    EventsOfMembers(before, e.group);
    if before != [] && Last(before).group == e.group {
      OpenStartOfGroup(before);
    } else if before != [] {
      NewGroupIsFirstSeen(evs);
    }
  }

  /** One rebuild leaves every group in scope with the build over its whole log, and every other group
      with the rows it had. */
  lemma RebuildRows(table: seq<Session>, log: seq<Entry>, scope: Scope, g: Group)
    ensures RowsOf(Rebuild(table, log, scope), g) == if scope.Has(g) then GroupSessions(log, g) else RowsOf(table, g)
  {
    var events := Select(Playback(log), scope);
    SortSorted(events);
    RowsOfAppend(Drop(table, scope), Sessions(Sort(events)), g);
    RowsOfDrop(table, scope, g);
    RowsOfSessions(Sort(events), g);
    EventsOfSort(events, g);
    EventsOfSelect(Playback(log), scope, g);
  }

  // ----- locality of late entries -----

  lemma {:induction false} BelowAppend(a: seq<Event>, b: seq<Event>, d: Stamp)
    ensures Below(a + b, d) == Below(a, d) + Below(b, d)
  {
    if b == [] {
      assert a + b == a;
    } else {
      BelowAppend(a, Front(b), d);
      assert Front(a + b) == a + Front(b);
    }
  }

  lemma BelowSnoc(s: seq<Event>, e: Event, d: Stamp)
    ensures Below(s + [e], d) == if Le(d, e.date) then Below(s, d) else Below(s, d) + [e]
  {
    assert Front(s + [e]) == s;
  }

  lemma {:induction false} BelowInsert(s: seq<Event>, e: Event, d: Stamp)
    requires Le(d, e.date)
    ensures Below(Insert(s, e), d) == Below(s, d)
  {
    if s == [] {
      BelowSnoc([], e, d);
    } else if RowLe(Last(s), e) {
      BelowSnoc(s, e, d);
    } else {
      BelowInsert(Front(s), e, d);
      BelowSnoc(Insert(Front(s), e), Last(s), d);
    }
  }

  lemma {:induction false} BelowSort(a: seq<Event>, b: seq<Event>, d: Stamp)
    requires forall e :: e in b ==> Le(d, e.date)
    ensures Below(Sort(a + b), d) == Below(Sort(a), d)
  {
    if b == [] {
      assert a + b == a;
    } else {
      BelowSort(a, Front(b), d);
      assert Front(a + b) == a + Front(b);
      assert Last(b) in b;
      BelowInsert(Sort(a + Front(b)), Last(b), d);
    }
  }

  lemma LaterIsLate(s: seq<Event>, n: nat, d: Stamp)
    requires OneGroupByDate(s) && n < |s| - 1 && Le(d, s[n].date)
    ensures Le(d, Last(s).date)
  {
    assert Le(s[n].date, s[|s| - 1].date);
  }

  /** The events before `d` come first. */
  ghost predicate SplitsAt(s: seq<Event>, d: Stamp) {
    && |Below(s, d)| <= |s|
    && s == Below(s, d) + s[|Below(s, d)|..]
    && forall e :: e in s[|Below(s, d)|..] ==> Le(d, e.date)
  }

  lemma SplitWithLate(s: seq<Event>, z: Event, d: Stamp)
    requires SplitsAt(s, d) && Le(d, z.date)
    ensures SplitsAt(s + [z], d)
  {
    var n := |Below(s, d)|;
    BelowSnoc(s, z, d);
    assert (s + [z])[n..] == s[n..] + [z];
  }

  lemma SplitWithEarly(s: seq<Event>, z: Event, d: Stamp)
    requires SplitsAt(s, d) && |Below(s, d)| == |s| && !Le(d, z.date)
    ensures SplitsAt(s + [z], d)
  {
    BelowSnoc(s, z, d);
    assert Below(s + [z], d) == s + [z];
  }

  /** In date order the events before `d` come first. */
  lemma {:induction false} BelowIsPrefix(s: seq<Event>, d: Stamp)
    requires OneGroupByDate(s)
    ensures SplitsAt(s, d)
  {
    if s != [] {
      var before, z := Front(s), Last(s);
      BelowIsPrefix(before, d);
      assert s == before + [z];
      var n := |Below(before, d)|;
      if n < |before| {
        assert before[n] in before[n..];
        LaterIsLate(s, n, d);
      }
      if Le(d, z.date) {
        SplitWithLate(before, z, d);
      } else {
        SplitWithEarly(before, z, d);
      }
    }
  }

  lemma SortOfGroupIsByDate(evs: seq<Event>, g: Group)
    ensures OneGroupByDate(Sort(EventsOf(evs, g)))
  {
    EventsOfMembers(evs, g);
    var s := Sort(EventsOf(evs, g));
    SortSorted(EventsOf(evs, g));
    forall a, b | 0 <= a < b < |s|
      ensures s[a].group == s[b].group && Le(s[a].date, s[b].date)
    {
      assert s[a] in s && s[b] in s;
      assert RowLe(s[a], s[b]);
    }
  }

  /** Change locality: entries of one group dated at or after `d` leave a common prefix of its sessions
      alone; every other session, before or after, ends at or after `d`. */
  lemma LateEntriesAreLocal(log: seq<Entry>, more: seq<Entry>, g: Group, d: Stamp) returns (kept: seq<Session>)
    requires forall k :: 0 <= k < |more| && more[k].Of(g) ==> Le(d, more[k].date)
    ensures kept <= GroupSessions(log, g) && kept <= GroupSessions(log + more, g)
    ensures forall s :: s in GroupSessions(log, g)[|kept|..] ==> Le(d, s.end)
    ensures forall s :: s in GroupSessions(log + more, g)[|kept|..] ==> Le(d, s.end)
  {
    var a, b := EventsOf(Playback(log), g), EventsOf(Playback(more), g);
    PlaybackAppend(log, more);
    EventsOfAppend(Playback(log), Playback(more), g);
    EventsOfMembers(Playback(more), g);
    PlaybackMembers(more);
    BelowSort(a, b, d);
    SortOfGroupIsByDate(Playback(log), g);
    SortOfGroupIsByDate(Playback(log + more), g);
    var p := Below(Sort(a), d);
    BelowIsPrefix(Sort(a), d);
    BelowIsPrefix(Sort(a + b), d);
    SessionsGrow(p, Sort(a)[|p|..]);
    SessionsGrow(p, Sort(a + b)[|p|..]);
    kept := Sessions(p);
  }

  // ----- the entry types -----

  /** The entry types that open a session, and those that close one. */
  ghost predicate OpeningType(backend: Backend, entryType: string) {
    match backend
    case Emby => entryType == "playback.start" || entryType == "VideoPlayback"
    case Jellyfin => entryType == "VideoPlayback" || entryType == "AudioPlayback"
  }

  ghost predicate ClosingType(backend: Backend, entryType: string) {
    match backend
    case Emby => entryType == "playback.stop" || entryType == "VideoPlaybackStopped"
    case Jellyfin => entryType == "VideoPlaybackStopped" || entryType == "AudioPlaybackStopped"
  }

  /** `e` is an entry of the group's user and item on its instance, at `date`. */
  ghost predicate EntryOf(e: Entry, g: Group, date: Stamp) {
    e.instance == g.instance && e.user == Some(g.user) && e.item == Some(g.item) && e.date == date
  }

  lemma KindOfIff(backend: Backend, entryType: string)
    ensures KindOf(backend, entryType) == Some(Start) <==> OpeningType(backend, entryType)
    ensures KindOf(backend, entryType) == Some(Stop) <==> ClosingType(backend, entryType)
  {
    assert |"playback.start"| == 14 && |"playback.stop"| == 13 && |"VideoPlayback"| == 13;
    assert "playback.stop"[0] == 'p' && "VideoPlayback"[0] == 'V' && "AudioPlayback"[0] == 'A';
    assert |"VideoPlaybackStopped"| == |"AudioPlaybackStopped"| == 20;
  }

  /** A group's log of two entries: one of a type that opens a session, and one of a type that closes it at
      least a second and less than 28 801 seconds later.  It makes exactly one session, from the one to the
      other, lasting the whole seconds between them. */
  lemma OpenAndCloseMakeSession(a: Entry, b: Entry, g: Group, x: int, y: int)
    requires EntryOf(a, g, At(x)) && OpeningType(a.backend, a.entryType)
    requires EntryOf(b, g, At(y)) && ClosingType(b.backend, b.entryType)
    requires 1_000_000 <= y - x < 28_801_000_000
    ensures GroupSessions([a, b], g) == [Session(g, At(x), At(y), (y - x) / 1_000_000)]
  {
    KindOfIff(a.backend, a.entryType);
    KindOfIff(b.backend, b.entryType);
    var first, second := a.ToEvent(), b.ToEvent();
    PlaybackOfTwo(a, b);
    var evs := [first, second];
    assert EventsOf(evs, g) == evs by {
      EventsOfSnoc([first], second, g);
      EventsOfSnoc([], first, g);
      assert evs == [first] + [second] && [first] == [] + [first];
    }
    assert Sort(evs) == evs by {
      SortSnoc([first], second);
      SortSnoc([], first);
      assert evs == [first] + [second] && [first] == [] + [first];
    }
    SessionsOfPair(first, second, x, y);
  }

  lemma PlaybackOfTwo(a: Entry, b: Entry)
    requires a.IsPlayback() && b.IsPlayback()
    ensures Playback([a, b]) == [a.ToEvent(), b.ToEvent()]
  {
    assert Front([a, b]) == [a] && Front([a]) == [];
    assert Playback([a]) == Playback([]) + [a.ToEvent()];
  }

  lemma SessionsOfPair(first: Event, second: Event, x: int, y: int)
    requires first.kind.Start? && second.kind.Stop? && first.group == second.group
    requires first.date == At(x) && second.date == At(y) && 1_000_000 <= y - x < 28_801_000_000
    ensures Sessions([first, second]) == [Session(first.group, At(x), At(y), (y - x) / 1_000_000)]
  {
    var evs := [first, second];
    assert Front(evs) == [first] && Front([first]) == [];
    assert OpenIndex([first]) == Some(0);
    assert ClosedByLast([first]) == [];
    assert Sessions([first]) == Sessions([]) + ClosedByLast([first]);
    assert Sessions(evs) == Sessions([first]) + ClosedByLast(evs);
    assert ClosedByLast(evs) == CloseSession(first.group, At(x), At(y));
    UsableIff(x, y);
  }

  /** Every session of a group starts at one of its entries of an opening type and ends at one of a closing
      type. */
  lemma SessionsComeFromEntries(log: seq<Entry>, g: Group, s: Session)
    requires s in GroupSessions(log, g)
    ensures s.group == g
    ensures exists a :: 0 <= a < |log| && EntryOf(log[a], g, s.start) && OpeningType(log[a].backend, log[a].entryType)
    ensures exists b :: 0 <= b < |log| && EntryOf(log[b], g, s.end) && ClosingType(log[b].backend, log[b].entryType)
  {
    var own := EventsOf(Playback(log), g);
    var evs := Sort(own);
    SessionsIff(evs, s);
    SortSorted(own);
    var i, j :| PairsTo(evs, i, j, s);
    assert evs[i] in evs && evs[j] in evs;
    var a := EntryOfEvent(log, g, evs[i]);
    var b := EntryOfEvent(log, g, evs[j]);
  }

  lemma EntryOfEvent(log: seq<Entry>, g: Group, e: Event) returns (k: nat)
    requires e in EventsOf(Playback(log), g)
    ensures k < |log| && EntryOf(log[k], g, e.date) && e.group == g
    ensures e.kind.Start? ==> OpeningType(log[k].backend, log[k].entryType)
    ensures e.kind.Stop? ==> ClosingType(log[k].backend, log[k].entryType)
  {
    EventsOfMembers(Playback(log), g);
    PlaybackMembers(log);
    k :| 0 <= k < |log| && log[k].IsPlayback() && log[k].ToEvent() == e;
    KindOfIff(log[k].backend, log[k].entryType);
  }
}
