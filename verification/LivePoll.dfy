/**
 Playback sessions derived from polling a server's live session list: a row is upserted on every poll
 that shows a key and finalised on the first poll that does not.  The batch reading is over the whole
 poll history: one row per maximal block of consecutive polls showing the key.
 */
module LivePoll {
  import opened Options
  import opened Sequences

  const MIN_WATCH_SECONDS := 30

  /** What a poll entry says; `meta` stands for the account and title fields carried along unchanged. */
  datatype Fields = Fields(meta: string, viewOffsetMs: int, durationMs: int)

  /** One entry of the polled list; `sessionId` is its key text with surrounding blanks removed. */
  datatype RawSession = NotADict | RawSession(hasUser: bool, sessionId: string, meta: string, viewOffset: Option<int>, duration: Option<int>)

  datatype Poll = Poll(instance: int, now: int, nowIso: int, sessions: seq<RawSession>)

  datatype Key = Key(instance: int, session: string)
  datatype ActiveRow = ActiveRow(fields: Fields, startedAt: int, lastSeenAt: int)
  datatype FinishedRow = FinishedRow(key: Key, meta: string, start: int, end: int, watched: int)

  function NonNegative(v: Option<int>): int {
    if v.Some? && v.value > 0 then v.value else 0
  }

  /** The key and fields of a trackable entry. */
  function Extract(s: RawSession): Option<(string, Fields)> {
    if s.NotADict? || !s.hasUser || s.sessionId == "" then None
    else Some((s.sessionId, Fields(s.meta, NonNegative(s.viewOffset), NonNegative(s.duration))))
  }

  /** The fields the last trackable entry with this key carries. */
  function Shown(sessions: seq<RawSession>, session: string): Option<Fields> {
    if sessions == [] then None
    else
      var last := Extract(sessions[|sessions| - 1]);
      if last.Some? && last.value.0 == session then Some(last.value.1) else Shown(sessions[..|sessions| - 1], session)
  }

  /** A dictionary with a user whose session id is this non-empty text. */
  predicate Names(entry: RawSession, session: string) {
    entry.RawSession? && entry.hasUser && entry.sessionId == session && session != ""
  }

  /** `f` is what an entry says: its own texts, and its numbers with a missing or negative one read as zero. */
  ghost predicate Says(entry: RawSession, f: Fields)
    requires entry.RawSession?
  {
    && f.meta == entry.meta
    && f.viewOffsetMs == (match entry.viewOffset case None => 0 case Some(v) => if v < 0 then 0 else v)
    && f.durationMs == (match entry.duration case None => 0 case Some(v) => if v < 0 then 0 else v)
  }

  ghost predicate LastEntry(sessions: seq<RawSession>, session: string, n: int, f: Fields) {
    && 0 <= n < |sessions| && Names(sessions[n], session) && Says(sessions[n], f)
    && forall m :: n < m < |sessions| ==> !Names(sessions[m], session)
  }

  /** A key is shown with exactly the fields of the last entry that names it, and not at all when none does. */
  lemma {:induction false} ShownIff(sessions: seq<RawSession>, session: string, f: Fields)
    ensures Shown(sessions, session) == Some(f) <==> exists n :: LastEntry(sessions, session, n, f)
    ensures Shown(sessions, session).Some? <==> exists n :: 0 <= n < |sessions| && Names(sessions[n], session)
  {
    if sessions != [] {
      var before, k := sessions[..|sessions| - 1], |sessions| - 1;
      ShownIff(before, session, f);
      if Names(sessions[k], session) {
        assert Says(sessions[k], f) ==> LastEntry(sessions, session, k, f);
      } else {
        forall n
          ensures LastEntry(before, session, n, f) <==> LastEntry(sessions, session, n, f)
        {
        }
        assert forall n :: 0 <= n < k ==> before[n] == sessions[n];
        if n :| 0 <= n < |sessions| && Names(sessions[n], session) {
          assert before[n] == sessions[n];
        }
      }
    }
  }

  /** The final playhead in seconds, capped by the item's length when that is known. */
  function WatchedSeconds(f: Fields): (r: int)
    ensures r <= f.viewOffsetMs / 1000 && (f.durationMs > 0 ==> r <= f.durationMs / 1000)
    ensures r == f.viewOffsetMs / 1000 || (f.durationMs > 0 && r == f.durationMs / 1000)
  {
    var watched := f.viewOffsetMs / 1000;
    if f.durationMs > 0 && f.durationMs / 1000 < watched then f.durationMs / 1000 else watched
  }

  /** At least thirty seconds were watched: the playhead says so and, when it is known, so does the length. */
  predicate WatchedEnough(f: Fields) {
    f.viewOffsetMs / 1000 >= 30 && (f.durationMs > 0 ==> f.durationMs / 1000 >= 30)
  }

  /** `r` is the row of a viewing from `start` to `end` whose last fields are `f`. */
  ghost predicate IsRowOf(r: FinishedRow, key: Key, f: Fields, start: int, end: int) {
    && r.key == key && r.meta == f.meta && r.start == start && r.end == end
    && r.watched == if f.durationMs > 0 && f.durationMs / 1000 < f.viewOffsetMs / 1000
                    then f.durationMs / 1000
                    else f.viewOffsetMs / 1000
  }

  /** What finalising a row stores: nothing under thirty seconds. */
  function Finalised(key: Key, row: ActiveRow, nowIso: int): seq<FinishedRow> {
    var watched := WatchedSeconds(row.fields);
    if watched < MIN_WATCH_SECONDS then []
    else [FinishedRow(key, row.fields.meta, row.startedAt, nowIso, watched)]
  }

  function RowsFor(finished: seq<FinishedRow>, key: Key): seq<FinishedRow> {
    if finished == [] then []
    else if finished[|finished| - 1].key == key then RowsFor(finished[..|finished| - 1], key) + [finished[|finished| - 1]]
    else RowsFor(finished[..|finished| - 1], key)
  }

  // ----- one poll -----

  datatype Tables = Tables(active: map<Key, ActiveRow>, finished: seq<FinishedRow>)

  function ActiveAfter(active: map<Key, ActiveRow>, poll: Poll, key: Key): Option<ActiveRow> {
    if key.instance != poll.instance then (if key in active then Some(active[key]) else None)
    else
      match Shown(poll.sessions, key.session)
      case None => None
      case Some(f) => Some(ActiveRow(f, if key in active then active[key].startedAt else poll.now, poll.now))
  }

  /** The rows a poll finalises under one key. */
  function NewlyFinished(active: map<Key, ActiveRow>, poll: Poll, key: Key): seq<FinishedRow> {
    if key.instance == poll.instance && key in active && Shown(poll.sessions, key.session).None? then
      Finalised(key, active[key], poll.nowIso)
    else []
  }

  /** What one poll does to the tables, key by key; the order of rows of different keys is left open. */
  ghost predicate PollStep(before: Tables, poll: Poll, after: Tables) {
    && (forall key :: key in after.active <==> ActiveAfter(before.active, poll, key).Some?)
    && (forall key :: key in after.active ==> Some(after.active[key]) == ActiveAfter(before.active, poll, key))
    && (forall key :: RowsFor(after.finished, key) == RowsFor(before.finished, key) + NewlyFinished(before.active, poll, key))
  }

  lemma KeyMember(s: set<Key>)
    requires s != {}
    ensures exists x :: x in s
  {
    assert (forall x :: x !in s) ==> s == {};
  }

  lemma {:induction false} RowsForAppend(a: seq<FinishedRow>, b: seq<FinishedRow>, key: Key)
    ensures RowsFor(a + b, key) == RowsFor(a, key) + RowsFor(b, key)
  {
    if b == [] {
      assert a + b == a;
    } else {
      RowsForAppend(a, b[..|b| - 1], key);
      assert (a + b)[..|a + b| - 1] == a + b[..|b| - 1];
    }
  }

  /** The earliest start among `rows` and an earlier mark. */
  function EarliestStart(since: Option<int>, rows: seq<FinishedRow>): (r: Option<int>)
    ensures forall k :: 0 <= k < |rows| ==> r.Some? && r.value <= rows[k].start
    ensures since.Some? ==> r.Some? && r.value <= since.value
    ensures r == since || exists k :: 0 <= k < |rows| && r == Some(rows[k].start)
  {
    if rows == [] then since
    else
      var m := EarliestStart(since, rows[..|rows| - 1]);
      var last := rows[|rows| - 1];
      if m.None? || last.start < m.value then Some(last.start) else m
  }

  class LivePollStore {
    var active: map<Key, ActiveRow>
    var finished: seq<FinishedRow>
    var since: Option<int>

    constructor ()
      ensures active == map[] && finished == [] && since.None?
    {
      active, finished, since := map[], [], None;
    }

    method TakeSnapshotSince() returns (r: Option<int>)
      modifies this`since
      ensures r == old(since) && since.None?
    {
      r := since;
      since := None;
    }

    /** The upserts of the entries the poll shows. */
    method Upsert(poll: Poll)
      modifies this`active
      ensures forall key :: key in active <==>
                key in old(active) || (key.instance == poll.instance && Shown(poll.sessions, key.session).Some?)
      ensures forall key :: key in active ==>
                if key.instance == poll.instance && Shown(poll.sessions, key.session).Some?
                then Some(active[key]) == ActiveAfter(old(active), poll, key)
                else key in old(active) && active[key] == old(active)[key]
    {
      for n := 0 to |poll.sessions|
        invariant forall key :: key in active <==>
                    key in old(active) || (key.instance == poll.instance && Shown(poll.sessions[..n], key.session).Some?)
        invariant forall key :: key in active ==>
                    if key.instance == poll.instance && Shown(poll.sessions[..n], key.session).Some?
                    then Some(active[key]) == ActiveAfter(old(active), poll.(sessions := poll.sessions[..n]), key)
                    else key in old(active) && active[key] == old(active)[key]
      {
        assert poll.sessions[..n + 1][..n] == poll.sessions[..n];
        var got := Extract(poll.sessions[n]);
        if got.Some? {
          var key := Key(poll.instance, got.value.0);
          var started := if key in active then active[key].startedAt else poll.now;
          active := active[key := ActiveRow(got.value.1, started, poll.now)];
        }
      }
      assert poll.sessions[..|poll.sessions|] == poll.sessions;
    }

    /** The row of a vanished key leaves the active table, finalised or dropped. */
    method FinaliseKey(key: Key, nowIso: int)
      requires key in active
      modifies this
      ensures active == old(active) - {key}
      ensures finished == old(finished) + Finalised(key, old(active)[key], nowIso)
      ensures since == EarliestStart(old(since), Finalised(key, old(active)[key], nowIso))
      ensures var row := old(active)[key];
              if WatchedEnough(row.fields)
              then
                && |finished| == |old(finished)| + 1 && finished[..|old(finished)|] == old(finished)
                && IsRowOf(finished[|old(finished)|], key, row.fields, row.startedAt, nowIso)
                && since == Some(if old(since).Some? && old(since).value < row.startedAt then old(since).value else row.startedAt)
              else finished == old(finished) && since == old(since)
    {
      var row := active[key];
      var watched := WatchedSeconds(row.fields);
      active := active - {key};
      if watched < MIN_WATCH_SECONDS {
        return;
      }
      finished := finished + [FinishedRow(key, row.fields.meta, row.startedAt, nowIso, watched)];
      if since.None? || row.startedAt < since.value {
        since := Some(row.startedAt);
      }
    }

    /** The rows of the poll's instance that it no longer shows. */
    method FinaliseVanished(poll: Poll) returns (ghost ended: seq<FinishedRow>)
      modifies this
      ensures forall key :: key in active <==>
                key in old(active) && (key.instance == poll.instance ==> Shown(poll.sessions, key.session).Some?)
      ensures forall key :: key in active ==> active[key] == old(active)[key]
      ensures finished == old(finished) + ended && since == EarliestStart(old(since), ended)
      ensures forall key :: RowsFor(ended, key) == NewlyFinished(old(active), poll, key)
    {
      var existing := set key | key in active && key.instance == poll.instance;
      var todo := existing;
      ghost var done: set<Key> := {};
      ended := [];
      while todo != {}
        invariant existing == todo + done && todo !! done
        invariant Progress(old(active), poll, done, active, ended)
        invariant finished == old(finished) + ended && since == EarliestStart(old(since), ended)
        decreases todo
      {
        KeyMember(todo);
        var key :| key in todo;
        todo := todo - {key};
        ghost var rows := NewlyFinished(old(active), poll, key);
        StillActive(old(active), poll, done, active, ended, key);
        if Shown(poll.sessions, key.session).None? {
          FinishMore(old(since), ended, rows, key);
          ProgressStep(old(active), poll, done, active, ended, key, rows, active - {key});
          AppendAssociates(old(finished), ended, rows);
          FinaliseKey(key, poll.nowIso);
          ended := ended + rows;
        } else {
          ProgressStep(old(active), poll, done, active, ended, key, rows, active);
          assert ended + rows == ended;
        }
        done := done + {key};
      }
      ProgressDone(old(active), poll, done, active, ended);
    }

    /** Upsert what the poll shows, then finalise what it no longer does.  The mark for the next snapshot
        rebuild becomes the earliest start among what it was and the rows finalised. */
    method ProcessLivePoll(poll: Poll) returns (ghost ended: seq<FinishedRow>)
      modifies this
      ensures PollStep(Tables(old(active), old(finished)), poll, Tables(active, finished))
      ensures finished == old(finished) + ended && since == EarliestStart(old(since), ended)
    {
      Upsert(poll);
      ghost var upserted := active;
      ended := FinaliseVanished(poll);
      forall key
        ensures RowsFor(finished, key) == RowsFor(old(finished), key) + NewlyFinished(old(active), poll, key)
      {
        RowsForAppend(old(finished), ended, key);
        assert NewlyFinished(upserted, poll, key) == NewlyFinished(old(active), poll, key);
      }
    }
  }

  /** The keys in `done` have been looked at: the vanished ones are gone and have left their rows. */
  ghost predicate Progress(
      before: map<Key, ActiveRow>, poll: Poll, done: set<Key>, active: map<Key, ActiveRow>, ended: seq<FinishedRow>)
  {
    && (forall key :: key in active <==> key in before && (key in done ==> Shown(poll.sessions, key.session).Some?))
    && (forall key :: key in active ==> active[key] == before[key])
    && (forall key :: RowsFor(ended, key) == if key in done then NewlyFinished(before, poll, key) else [])
  }

  /** A key not looked at yet is as it was. */
  lemma StillActive(
      before: map<Key, ActiveRow>, poll: Poll, done: set<Key>, active: map<Key, ActiveRow>, ended: seq<FinishedRow>, key: Key)
    requires Progress(before, poll, done, active, ended)
    requires key in before && key.instance == poll.instance && key !in done
    ensures key in active && active[key] == before[key]
    ensures Shown(poll.sessions, key.session).None? ==>
              NewlyFinished(before, poll, key) == Finalised(key, active[key], poll.nowIso)
    ensures Shown(poll.sessions, key.session).Some? ==> NewlyFinished(before, poll, key) == []
  {
  }

  lemma ProgressDone(
      before: map<Key, ActiveRow>, poll: Poll, done: set<Key>, active: map<Key, ActiveRow>, ended: seq<FinishedRow>)
    requires Progress(before, poll, done, active, ended)
    requires forall key :: key in done <==> key in before && key.instance == poll.instance
    ensures forall key :: key in active <==>
              key in before && (key.instance == poll.instance ==> Shown(poll.sessions, key.session).Some?)
    ensures forall key :: RowsFor(ended, key) == NewlyFinished(before, poll, key)
  {
  }

  /** Looking at one more key: its rows, if it vanished, come last. */
  lemma ProgressStep(
      before: map<Key, ActiveRow>, poll: Poll, done: set<Key>, active: map<Key, ActiveRow>, ended: seq<FinishedRow>,
      key: Key, rows: seq<FinishedRow>, left: map<Key, ActiveRow>)
    requires Progress(before, poll, done, active, ended)
    requires key in before && key.instance == poll.instance && key !in done
    requires rows == NewlyFinished(before, poll, key)
    requires left == if Shown(poll.sessions, key.session).None? then active - {key} else active
    ensures Progress(before, poll, done + {key}, left, ended + rows)
  {
    ProgressRows(before, poll, done, ended, key, rows);
    forall k
      ensures k in left <==> k in before && (k in done + {key} ==> Shown(poll.sessions, k.session).Some?)
    {
      assert k != key ==> (k in done + {key} <==> k in done) && (k in left <==> k in active);
    }
  }

  lemma ProgressRows(
      before: map<Key, ActiveRow>, poll: Poll, done: set<Key>, ended: seq<FinishedRow>, key: Key, rows: seq<FinishedRow>)
    requires forall k :: RowsFor(ended, k) == if k in done then NewlyFinished(before, poll, k) else []
    requires key !in done && rows == NewlyFinished(before, poll, key)
    ensures forall k :: RowsFor(ended + rows, k) == if k in done + {key} then NewlyFinished(before, poll, k) else []
  {
    NewRowsOfKey(before, poll, key);
    FinishMore(None, ended, rows, key);
    forall k
      ensures RowsFor(ended + rows, k) == if k in done + {key} then NewlyFinished(before, poll, k) else []
    {
      if k == key {
        assert RowsFor(ended, k) == [] && [] + rows == rows;
      } else {
        assert k in done + {key} <==> k in done;
      }
    }
  }

  lemma NewRowsOfKey(before: map<Key, ActiveRow>, poll: Poll, key: Key)
    ensures |NewlyFinished(before, poll, key)| <= 1
    ensures forall r :: r in NewlyFinished(before, poll, key) ==> r.key == key
  {
  }

  lemma FinishMore(since: Option<int>, ended: seq<FinishedRow>, row: seq<FinishedRow>, key: Key)
    requires |row| <= 1 && forall r :: r in row ==> r.key == key
    ensures EarliestStart(since, ended + row) == EarliestStart(EarliestStart(since, ended), row)
    ensures forall k :: RowsFor(ended + row, k) == if k == key then RowsFor(ended, k) + row else RowsFor(ended, k)
  {
    if row == [] {
      assert ended + row == ended;
    } else {
      assert row[0] in row && row == [row[0]];
      assert (ended + row)[..|ended|] == ended && row[..0] == [];
    }
  }

  // ----- the batch reading -----

  /** The polls of one instance, in order. */
  function Own(history: seq<Poll>, instance: int): seq<Poll> {
    if history == [] then []
    else if history[|history| - 1].instance == instance then Own(history[..|history| - 1], instance) + [history[|history| - 1]]
    else Own(history[..|history| - 1], instance)
  }

  predicate Shows(p: Poll, session: string) {
    Shown(p.sessions, session).Some?
  }

  /** Polls a..b are consecutive, show the key, and cannot be extended backwards. */
  ghost predicate BlockFrom(polls: seq<Poll>, session: string, a: int, b: int) {
    && 0 <= a <= b < |polls|
    && (forall m :: a <= m <= b ==> Shows(polls[m], session))
    && (a > 0 ==> !Shows(polls[a - 1], session))
  }

  /** A block that has ended: the next poll no longer shows the key. */
  ghost predicate EndedBlock(polls: seq<Poll>, session: string, a: int, b: int) {
    BlockFrom(polls, session, a, b) && b + 1 < |polls| && !Shows(polls[b + 1], session)
  }

  /** The row a block stands for while its last poll is `b`. */
  function BlockRow(polls: seq<Poll>, session: string, a: nat, b: nat): ActiveRow
    requires a <= b < |polls| && Shows(polls[b], session)
  {
    ActiveRow(Shown(polls[b].sessions, session).value, polls[a].now, polls[b].now)
  }

  ghost predicate ActiveIsOpenBlock(polls: seq<Poll>, session: string, row: Option<ActiveRow>) {
    match row
    case None => polls == [] || !Shows(polls[|polls| - 1], session)
    case Some(r) => exists a: nat :: IsOpenBlock(polls, session, a, r)
  }

  ghost predicate IsOpenBlock(polls: seq<Poll>, session: string, a: nat, r: ActiveRow) {
    BlockFrom(polls, session, a, |polls| - 1) && r == BlockRow(polls, session, a, |polls| - 1)
  }

  /** One ended block per entry, in order. */
  datatype Block = Block(first: nat, last: nat)

  /** `blocks` lists every ended block of the key exactly once, oldest first. */
  ghost predicate ListsEndedBlocks(polls: seq<Poll>, session: string, blocks: seq<Block>) {
    && (forall n :: 0 <= n < |blocks| ==> EndedBlock(polls, session, blocks[n].first, blocks[n].last))
    && (forall m, n :: 0 <= m < n < |blocks| ==> blocks[m].last < blocks[n].first)
    && (forall a: nat, b: nat :: EndedBlock(polls, session, a, b) ==> Block(a, b) in blocks)
  }

  /** The rows the ended blocks leave, block by block. */
  ghost function BlockRows(polls: seq<Poll>, key: Key, blocks: seq<Block>): seq<FinishedRow>
    requires forall n :: 0 <= n < |blocks| ==> EndedBlock(polls, key.session, blocks[n].first, blocks[n].last)
  {
    if blocks == [] then []
    else
      var c := blocks[|blocks| - 1];
      assert EndedBlock(polls, key.session, c.first, c.last);
      BlockRows(polls, key, blocks[..|blocks| - 1])
      + Finalised(key, BlockRow(polls, key.session, c.first, c.last), polls[c.last + 1].nowIso)
  }

  /** A run of the store over a history of polls of any instances. */
  ghost predicate Traces(history: seq<Poll>, states: seq<Tables>) {
    && |states| == |history| + 1
    && states[0] == Tables(map[], [])
    && forall n :: 0 <= n < |history| ==> PollStep(states[n], history[n], states[n + 1])
  }

  function Lookup(active: map<Key, ActiveRow>, key: Key): Option<ActiveRow> {
    if key in active then Some(active[key]) else None
  }

  lemma BlocksExtend(polls: seq<Poll>, p: Poll, session: string, a: int, b: int)
    requires b < |polls|
    ensures BlockFrom(polls + [p], session, a, b) <==> BlockFrom(polls, session, a, b)
    ensures b + 1 < |polls| ==> (EndedBlock(polls + [p], session, a, b) <==> EndedBlock(polls, session, a, b))
  {
    assert forall m :: 0 <= m < |polls| ==> (polls + [p])[m] == polls[m];
  }

  lemma BlockStartIsUnique(polls: seq<Poll>, session: string, a: int, a': int, b: int)
    requires BlockFrom(polls, session, a, b) && BlockFrom(polls, session, a', b)
    ensures a == a'
  {
    assert a < a' ==> a <= a' - 1 <= b;
    assert a' < a ==> a' <= a - 1 <= b;
  }

  lemma {:induction false} BlockRowsExtend(polls: seq<Poll>, p: Poll, key: Key, blocks: seq<Block>)
    requires forall n :: 0 <= n < |blocks| ==> EndedBlock(polls, key.session, blocks[n].first, blocks[n].last)
    ensures forall n :: 0 <= n < |blocks| ==> EndedBlock(polls + [p], key.session, blocks[n].first, blocks[n].last)
    ensures BlockRows(polls + [p], key, blocks) == BlockRows(polls, key, blocks)
  {
    forall n | 0 <= n < |blocks|
      ensures EndedBlock(polls + [p], key.session, blocks[n].first, blocks[n].last)
    {
      BlocksExtend(polls, p, key.session, blocks[n].first, blocks[n].last);
    }
    if blocks != [] {
      BlockRowsExtend(polls, p, key, blocks[..|blocks| - 1]);
    }
  }

  /** One more poll of the key's instance that does not end a block leaves the ended blocks alone. */
  lemma NoNewBlock(polls: seq<Poll>, p: Poll, session: string, blocks: seq<Block>)
    requires ListsEndedBlocks(polls, session, blocks)
    requires polls == [] || !Shows(polls[|polls| - 1], session) || Shows(p, session)
    ensures ListsEndedBlocks(polls + [p], session, blocks)
  {
    forall n | 0 <= n < |blocks|
      ensures EndedBlock(polls + [p], session, blocks[n].first, blocks[n].last)
    {
      BlocksExtend(polls, p, session, blocks[n].first, blocks[n].last);
    }
    assert (polls + [p])[|polls|] == p;
    assert polls != [] ==> (polls + [p])[|polls| - 1] == polls[|polls| - 1];
    forall a: nat, b: nat | EndedBlock(polls + [p], session, a, b)
      ensures Block(a, b) in blocks
    {
      BlocksExtend(polls, p, session, a, b);
    }
  }

  /** One that does ends exactly the open block. */
  lemma OneNewBlock(polls: seq<Poll>, p: Poll, session: string, blocks: seq<Block>, a: nat)
    requires ListsEndedBlocks(polls, session, blocks)
    requires BlockFrom(polls, session, a, |polls| - 1) && !Shows(p, session)
    ensures ListsEndedBlocks(polls + [p], session, blocks + [Block(a, |polls| - 1)])
  {
    var last := |polls| - 1;
    var longer := blocks + [Block(a, last)];
    BlocksExtend(polls, p, session, a, last);
    assert (polls + [p])[|polls|] == p;
    forall n | 0 <= n < |longer|
      ensures EndedBlock(polls + [p], session, longer[n].first, longer[n].last)
    {
      if n < |blocks| {
        BlocksExtend(polls, p, session, blocks[n].first, blocks[n].last);
      }
    }
    forall n | 0 <= n < |blocks|
      ensures blocks[n].last < a
    {
      var c := blocks[n];
      assert c.last + 1 <= last && !Shows(polls[c.last + 1], session);
    }
    forall x: nat, b: nat | EndedBlock(polls + [p], session, x, b)
      ensures Block(x, b) in longer
    {
      BlocksExtend(polls, p, session, x, b);
      if b == last {
        BlockStartIsUnique(polls, session, x, a, b);
        assert longer[|blocks|] == Block(x, b);
      } else {
        assert Block(x, b) in blocks;
      }
    }
  }

  /** A key's view of the tables is the batch reading of its instance's polls. */
  ghost predicate Matches(polls: seq<Poll>, key: Key, row: Option<ActiveRow>, rows: seq<FinishedRow>, blocks: seq<Block>) {
    && ActiveIsOpenBlock(polls, key.session, row)
    && ListsEndedBlocks(polls, key.session, blocks)
    && rows == BlockRows(polls, key, blocks)
  }

  /** The key was not active: a new block may open, none ends. */
  lemma OwnPollInactive(polls: seq<Poll>, key: Key, p: Poll, rows: seq<FinishedRow>, blocks: seq<Block>)
    requires Matches(polls, key, None, rows, blocks) && p.instance == key.instance
    ensures Matches(polls + [p], key, ActiveAfter(map[], p, key), rows, blocks)
  {
    BlockRowsExtend(polls, p, key, blocks);
    NoNewBlock(polls, p, key.session, blocks);
    var all := polls + [p];
    assert all[|polls|] == p;
    assert polls != [] ==> all[|polls| - 1] == polls[|polls| - 1];
    if Shows(p, key.session) {
      assert IsOpenBlock(all, key.session, |polls|, ActiveAfter(map[], p, key).value);
    }
  }

  /** The key stays: its block grows. */
  lemma OwnPollStays(polls: seq<Poll>, key: Key, p: Poll, row: ActiveRow, rows: seq<FinishedRow>, blocks: seq<Block>)
    requires Matches(polls, key, Some(row), rows, blocks) && p.instance == key.instance && Shows(p, key.session)
    ensures Matches(polls + [p], key, ActiveAfter(map[key := row], p, key), rows, blocks)
  {
    var a: nat :| IsOpenBlock(polls, key.session, a, row);
    BlockRowsExtend(polls, p, key, blocks);
    NoNewBlock(polls, p, key.session, blocks);
    BlocksExtend(polls, p, key.session, a, |polls| - 1);
    var all := polls + [p];
    assert all[|polls|] == p && all[a] == polls[a];
    assert BlockFrom(all, key.session, a, |polls|);
    assert IsOpenBlock(all, key.session, a, ActiveAfter(map[key := row], p, key).value);
  }

  /** The key goes: its block ends and leaves its row. */
  lemma OwnPollEnds(polls: seq<Poll>, key: Key, p: Poll, row: ActiveRow, rows: seq<FinishedRow>, blocks: seq<Block>)
    returns (longer: seq<Block>)
    requires Matches(polls, key, Some(row), rows, blocks) && p.instance == key.instance && !Shows(p, key.session)
    ensures Matches(polls + [p], key, None, rows + Finalised(key, row, p.nowIso), longer)
  {
    var a: nat :| IsOpenBlock(polls, key.session, a, row);
    BlockRowsExtend(polls, p, key, blocks);
    longer := blocks + [Block(a, |polls| - 1)];
    OneNewBlock(polls, p, key.session, blocks, a);
    var all := polls + [p];
    assert all[|polls|] == p && all[a] == polls[a] && all[|polls| - 1] == polls[|polls| - 1];
    assert longer[..|longer| - 1] == blocks;
  }

  /** A poll of the key's own instance. */
  lemma OwnPoll(polls: seq<Poll>, key: Key, before: Tables, p: Poll, after: Tables, blocks: seq<Block>) returns (longer: seq<Block>)
    requires PollStep(before, p, after) && p.instance == key.instance
    requires Matches(polls, key, Lookup(before.active, key), RowsFor(before.finished, key), blocks)
    ensures Matches(polls + [p], key, Lookup(after.active, key), RowsFor(after.finished, key), longer)
  {
    var rows := RowsFor(before.finished, key);
    assert RowsFor(after.finished, key) == rows + NewlyFinished(before.active, p, key);
    assert Lookup(after.active, key) == ActiveAfter(before.active, p, key);
    longer := blocks;
    if key !in before.active {
      OwnPollInactive(polls, key, p, rows, blocks);
    } else if Shows(p, key.session) {
      OwnPollStays(polls, key, p, before.active[key], rows, blocks);
    } else {
      longer := OwnPollEnds(polls, key, p, before.active[key], rows, blocks);
    }
  }

  /** After any sequence of polls of any instances, for every key: the active table holds exactly the keys of
      its instance's last poll, with the times of the open block; the finalised rows are one per ended
      maximal block, oldest first, starting at its first poll and ending at the first poll without the
      key, kept only from thirty seconds watched. */
  lemma {:induction false} PollerMatchesHistory(history: seq<Poll>, states: seq<Tables>, key: Key) returns (blocks: seq<Block>)
    requires Traces(history, states)
    ensures var s := states[|history|];
            Matches(Own(history, key.instance), key, Lookup(s.active, key), RowsFor(s.finished, key), blocks)
  {
    if history == [] {
      blocks := [];
    } else {
      var n := |history| - 1;
      var shorter, p := history[..n], history[n];
      assert Traces(shorter, states[..n + 1]) by {
        forall m | 0 <= m < n
          ensures PollStep(states[..n + 1][m], shorter[m], states[..n + 1][m + 1])
        {
          assert PollStep(states[m], history[m], states[m + 1]);
        }
      }
      var earlier := PollerMatchesHistory(shorter, states[..n + 1], key);
      var polls := Own(shorter, key.instance);
      assert PollStep(states[n], p, states[n + 1]);
      if p.instance == key.instance {
        blocks := OwnPoll(polls, key, states[n], p, states[n + 1], earlier);
      } else {
        blocks := earlier;
        assert Lookup(states[n + 1].active, key) == Lookup(states[n].active, key);
        assert NewlyFinished(states[n].active, p, key) == [];
      }
    }
  }

  // ----- what is stored, in terms of the polls alone -----

  /** Block `b` has ended and enough of it was watched. */
  ghost predicate KeptBlock(polls: seq<Poll>, session: string, b: Block) {
    EndedBlock(polls, session, b.first, b.last) && WatchedEnough(Shown(polls[b.last].sessions, session).value)
  }

  /** `r` starts at the block's first poll, ends at the first poll after it, and carries the last fields shown. */
  ghost predicate IsBlockRow(polls: seq<Poll>, key: Key, b: Block, r: FinishedRow)
    requires EndedBlock(polls, key.session, b.first, b.last)
  {
    IsRowOf(r, key, Shown(polls[b.last].sessions, key.session).value, polls[b.first].now, polls[b.last + 1].nowIso)
  }

  /** `kept` lists, oldest first, the blocks with enough watched, and `rows` are their rows. */
  ghost predicate KeptRows(polls: seq<Poll>, key: Key, kept: seq<Block>, rows: seq<FinishedRow>) {
    && |kept| == |rows|
    && (forall n :: 0 <= n < |kept| ==> KeptBlock(polls, key.session, kept[n]) && IsBlockRow(polls, key, kept[n], rows[n]))
    && (forall m, n :: 0 <= m < n < |kept| ==> kept[m].last < kept[n].first)
  }

  ghost predicate ListsKept(polls: seq<Poll>, session: string, kept: seq<Block>) {
    forall b :: KeptBlock(polls, session, b) ==> b in kept
  }

  lemma KeptRowsExtend(
      polls: seq<Poll>, key: Key, kept: seq<Block>, rows: seq<FinishedRow>, c: Block, earlier: seq<Block>)
    requires KeptRows(polls, key, kept, rows) && KeptBlock(polls, key.session, c)
    requires forall b :: b in kept ==> b in earlier
    requires forall n :: 0 <= n < |earlier| ==> earlier[n].last < c.first
    ensures KeptRows(polls, key, kept + [c],
              rows + Finalised(key, BlockRow(polls, key.session, c.first, c.last), polls[c.last + 1].nowIso))
  {
    forall n | 0 <= n < |kept|
      ensures kept[n].last < c.first
    {
      assert kept[n] in kept;
      var j :| 0 <= j < |earlier| && earlier[j] == kept[n];
    }
  }

  lemma {:induction false} KeptOfBlocks(polls: seq<Poll>, key: Key, blocks: seq<Block>) returns (kept: seq<Block>)
    requires forall n :: 0 <= n < |blocks| ==> EndedBlock(polls, key.session, blocks[n].first, blocks[n].last)
    requires forall m, n :: 0 <= m < n < |blocks| ==> blocks[m].last < blocks[n].first
    ensures KeptRows(polls, key, kept, BlockRows(polls, key, blocks))
    ensures forall b :: b in kept <==> b in blocks && KeptBlock(polls, key.session, b)
  {
    kept := [];
    if blocks != [] {
      var earlier, c := blocks[..|blocks| - 1], blocks[|blocks| - 1];
      kept := KeptOfBlocks(polls, key, earlier);
      assert blocks == earlier + [c];
      assert EndedBlock(polls, key.session, c.first, c.last);
      if KeptBlock(polls, key.session, c) {
        KeptRowsExtend(polls, key, kept, BlockRows(polls, key, earlier), c, earlier);
        kept := kept + [c];
      }
    }
  }

  lemma {:induction false} RowsForMembers(finished: seq<FinishedRow>, key: Key, r: FinishedRow)
    ensures r in RowsFor(finished, key) <==> r in finished && r.key == key
  {
    if finished != [] {
      RowsForMembers(finished[..|finished| - 1], key, r);
      assert finished == finished[..|finished| - 1] + [finished[|finished| - 1]];
    }
  }

  /** After any polls of any instances, the rows stored under a key are one per ended maximal block of its
      instance's polls that show it with at least thirty seconds watched: each from the time of the block's
      first poll to that of the first poll without the key, with the last playhead in seconds capped by a
      positive length. */
  lemma StoredRowsAreBlocks(history: seq<Poll>, states: seq<Tables>, key: Key) returns (kept: seq<Block>)
    requires Traces(history, states)
    ensures KeptRows(Own(history, key.instance), key, kept, RowsFor(states[|history|].finished, key))
    ensures ListsKept(Own(history, key.instance), key.session, kept)
  {
    var blocks := PollerMatchesHistory(history, states, key);
    kept := KeptOfBlocks(Own(history, key.instance), key, blocks);
  }

  ghost predicate LeftRow(polls: seq<Poll>, key: Key, b: Block, r: FinishedRow) {
    KeptBlock(polls, key.session, b) && IsBlockRow(polls, key, b, r)
  }

  ghost predicate HasBlock(polls: seq<Poll>, key: Key, r: FinishedRow) {
    exists b :: LeftRow(polls, key, b, r)
  }

  lemma RowsHaveBlocks(polls: seq<Poll>, key: Key, kept: seq<Block>, rows: seq<FinishedRow>, r: FinishedRow)
    requires KeptRows(polls, key, kept, rows) && r in rows
    ensures HasBlock(polls, key, r)
  {
    var n :| 0 <= n < |rows| && rows[n] == r;
    assert LeftRow(polls, key, kept[n], r);
  }

  lemma BlocksHaveRows(polls: seq<Poll>, key: Key, kept: seq<Block>, rows: seq<FinishedRow>, b: Block, r: FinishedRow)
    requires KeptRows(polls, key, kept, rows) && b in kept && LeftRow(polls, key, b, r)
    ensures r in rows
  {
    var n :| 0 <= n < |kept| && kept[n] == b;
    assert rows[n] == r;
  }

  lemma RowsAreLeft(polls: seq<Poll>, key: Key, kept: seq<Block>, finished: seq<FinishedRow>, r: FinishedRow)
    requires KeptRows(polls, key, kept, RowsFor(finished, key)) && ListsKept(polls, key.session, kept)
    ensures r in finished && r.key == key <==> HasBlock(polls, key, r)
  {
    RowsForMembers(finished, key, r);
    if r in RowsFor(finished, key) {
      RowsHaveBlocks(polls, key, kept, RowsFor(finished, key), r);
    }
    if b :| LeftRow(polls, key, b, r) {
      BlocksHaveRows(polls, key, kept, RowsFor(finished, key), b, r);
    }
  }

  /** So a row is stored under a key if and only if some such block left it. */
  lemma StoredRowIff(history: seq<Poll>, states: seq<Tables>, key: Key, r: FinishedRow)
    requires Traces(history, states)
    ensures r in states[|history|].finished && r.key == key <==> HasBlock(Own(history, key.instance), key, r)
  {
    var kept := StoredRowsAreBlocks(history, states, key);
    RowsAreLeft(Own(history, key.instance), key, kept, states[|history|].finished, r);
  }
}
