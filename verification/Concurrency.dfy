/**
 Peak simultaneous streams per local day, by a sweep over +1/-1 events and one weightless event at each
 requested day's first instant, against the brute-force maximum overlap.
 `first(d)` is the UTC second at which local day `d` begins.
 */
module Concurrency {
  import opened Options

  datatype Stream = Stream(start: int, duration: int)
  datatype Ev = Ev(at: int, delta: int)

  ghost predicate ValidDays(first: int -> int) {
    forall d, e :: d < e ==> first(d) < first(e)
  }

  // ----- the query -----

  /** The scan: positive durations, starting from the day before the range to the day after it. */
  function Scanned(streams: seq<Stream>, first: int -> int, lo: int, hi: int): (r: seq<Stream>)
    ensures forall s :: s in r <==> s in streams && first(lo - 1) <= s.start < first(hi + 2) && s.duration > 0
  {
    if streams == [] then []
    else
      var s := streams[0];
      assert streams == [s] + streams[1..];
      (if first(lo - 1) <= s.start < first(hi + 2) && s.duration > 0 then [s] else []) + Scanned(streams[1..], first, lo, hi)
  }

  function StreamEvents(streams: seq<Stream>): seq<Ev> {
    if streams == [] then []
    else [Ev(streams[0].start, 1), Ev(streams[0].start + streams[0].duration, -1)] + StreamEvents(streams[1..])
  }

  /** The requested days' first instants. */
  function Midnights(first: int -> int, lo: int, hi: int): seq<Ev> {
    seq(if lo <= hi then hi - lo + 1 else 0, k => Ev(first(lo + k), 0))
  }

  /** `rows` is the event table of the scanned streams and the weightless `marks` in ORDER BY at, delta;
      equal rows may come in any order. */
  ghost predicate SweepRows(rows: seq<Ev>, scanned: seq<Stream>, marks: seq<Ev>) {
    && (forall s :: s in scanned ==> s.duration > 0)
    && (forall e :: e in marks ==> e.delta == 0)
    && multiset(rows) == multiset(StreamEvents(scanned) + marks)
    && forall a, b :: 0 <= a < b < |rows| ==> rows[a].at < rows[b].at || (rows[a].at == rows[b].at && rows[a].delta <= rows[b].delta)
  }

  /** The query's own event table: the marks are the requested days' first instants. */
  ghost predicate QueryRows(rows: seq<Ev>, scanned: seq<Stream>, first: int -> int, lo: int, hi: int) {
    SweepRows(rows, scanned, Midnights(first, lo, hi))
  }

  function Sum(rows: seq<Ev>): int {
    if rows == [] then 0 else Sum(rows[..|rows| - 1]) + rows[|rows| - 1].delta
  }

  /** The window sum on row `i`. */
  function Running(rows: seq<Ev>, i: nat): int
    requires i < |rows|
  {
    Sum(rows[..i + 1])
  }

  /** MAX(concurrent) over the first `n` rows that fall on the day from `from` up to `until`. */
  function DayPeak(rows: seq<Ev>, from: int, until: int, n: nat): Option<int>
    requires n <= |rows|
  {
    if n == 0 then None
    else
      var m := DayPeak(rows, from, until, n - 1);
      if !(from <= rows[n - 1].at < until) || (m.Some? && m.value >= Running(rows, n - 1)) then m
      else Some(Running(rows, n - 1))
  }

  /** The result rows of the requested days, in day order. */
  function Report(rows: seq<Ev>, first: int -> int, lo: int, hi: int): seq<(int, int)>
    decreases hi - lo
  {
    if lo > hi then []
    else
      var p := DayPeak(rows, first(lo), first(lo + 1), |rows|);
      (if p.Some? then [(lo, p.value)] else []) + Report(rows, first, lo + 1, hi)
  }

  // ----- brute force -----

  predicate Plays(s: Stream, t: int) {
    s.start <= t < s.start + s.duration
  }

  /** How many streams have start <= t < end. */
  function Playing(streams: seq<Stream>, t: int): nat {
    if streams == [] then 0 else (if Plays(streams[0], t) then 1 else 0) + Playing(streams[1..], t)
  }

  lemma {:induction false} PlayingSnoc(streams: seq<Stream>, last: Stream, t: int)
    ensures Playing(streams + [last], t) == Playing(streams, t) + if Plays(last, t) then 1 else 0
  {
    if streams == [] {
      assert [last][1..] == [];
    } else {
      PlayingSnoc(streams[1..], last, t);
      assert (streams + [last])[1..] == streams[1..] + [last];
    }
  }

  /** That count is the number of positions that hold such a stream. */
  lemma {:induction false} PlayingIsCount(streams: seq<Stream>, t: int, at: set<int>)
    requires forall n :: n in at <==> 0 <= n < |streams| && streams[n].start <= t < streams[n].start + streams[n].duration
    ensures Playing(streams, t) == |at|
  {
    if streams == [] {
      assert forall n :: n !in at;
    } else {
      var before, last := streams[..|streams| - 1], |streams| - 1;
      PlayingIsCount(before, t, at - {last});
      PlayingSnoc(before, streams[last], t);
      assert streams == before + [streams[last]];
      assert last in at ==> at == at - {last} + {last};
      assert last !in at ==> at == at - {last};
    }
  }

  function EndsAt(streams: seq<Stream>, t: int): nat {
    if streams == [] then 0 else (if streams[0].start + streams[0].duration == t then 1 else 0) + EndsAt(streams[1..], t)
  }

  /** `p` is the maximum over the instants from `from` on and before `until`. */
  ghost predicate IsPeak(streams: seq<Stream>, from: int, until: int, p: int) {
    && (exists t :: from <= t < until && Playing(streams, t) == p)
    && (forall t :: from <= t < until ==> Playing(streams, t) <= p)
  }

  // ----- sums -----

  /** The sum of all deltas at or before `t`. */
  function SumThrough(rows: seq<Ev>, t: int): int {
    if rows == [] then 0
    else SumThrough(rows[..|rows| - 1], t) + if rows[|rows| - 1].at <= t then rows[|rows| - 1].delta else 0
  }

  lemma {:induction false} SumThroughAppend(a: seq<Ev>, b: seq<Ev>, t: int)
    ensures SumThrough(a + b, t) == SumThrough(a, t) + SumThrough(b, t)
  {
    if b == [] {
      assert a + b == a;
    } else {
      SumThroughAppend(a, b[..|b| - 1], t);
      assert (a + b)[..|a + b| - 1] == a + b[..|b| - 1];
    }
  }

  lemma SumThroughOne(e: Ev, t: int)
    ensures SumThrough([e], t) == if e.at <= t then e.delta else 0
  {
    assert [e][..0] == [];
  }

  lemma {:induction false} SumThroughPermutes(a: seq<Ev>, b: seq<Ev>, t: int)
    requires multiset(a) == multiset(b)
    ensures SumThrough(a, t) == SumThrough(b, t)
  {
    if a == [] {
      assert |multiset(b)| == 0;
    } else {
      var x := a[|a| - 1];
      assert a == a[..|a| - 1] + [x];
      assert x in multiset(b);
      var j :| 0 <= j < |b| && b[j] == x;
      var c := b[..j] + b[j + 1..];
      assert b == b[..j] + [x] + b[j + 1..];
      assert multiset(a[..|a| - 1]) == multiset(a) - multiset{x};
      assert multiset(c) == multiset(b) - multiset{x};
      SumThroughPermutes(a[..|a| - 1], c, t);
      SumThroughAppend(b[..j] + [x], b[j + 1..], t);
      SumThroughAppend(b[..j], [x], t);
      SumThroughAppend(b[..j], b[j + 1..], t);
      SumThroughOne(x, t);
    }
  }

  lemma {:induction false} StreamEventsSum(streams: seq<Stream>, t: int)
    requires forall s :: s in streams ==> s.duration > 0
    ensures SumThrough(StreamEvents(streams), t) == Playing(streams, t)
  {
    if streams != [] {
      var s := streams[0];
      var pair := [Ev(s.start, 1), Ev(s.start + s.duration, -1)];
      StreamEventsSum(streams[1..], t);
      SumThroughAppend(pair, StreamEvents(streams[1..]), t);
      assert pair == [pair[0]] + [pair[1]];
      SumThroughAppend([pair[0]], [pair[1]], t);
      SumThroughOne(pair[0], t);
      SumThroughOne(pair[1], t);
    }
  }

  lemma {:induction false} WeightlessSum(rows: seq<Ev>, t: int)
    requires forall e :: e in rows ==> e.delta == 0
    ensures SumThrough(rows, t) == 0
  {
    if rows != [] {
      WeightlessSum(rows[..|rows| - 1], t);
    }
  }

  /** The deltas at or before `t` add up to the streams playing at `t`. */
  lemma SumIsPlaying(rows: seq<Ev>, scanned: seq<Stream>, marks: seq<Ev>, t: int)
    requires SweepRows(rows, scanned, marks)
    ensures SumThrough(rows, t) == Playing(scanned, t)
  {
    SumThroughPermutes(rows, StreamEvents(scanned) + marks, t);
    SumThroughAppend(StreamEvents(scanned), marks, t);
    StreamEventsSum(scanned, t);
    WeightlessSum(marks, t);
  }

  /** The rows at or before `t` form a prefix, whose sum is the running sum of its last row. */
  lemma {:induction false} PrefixSum(rows: seq<Ev>, t: int, c: nat)
    requires c <= |rows|
    requires forall i :: 0 <= i < c ==> rows[i].at <= t
    requires forall i :: c <= i < |rows| ==> rows[i].at > t
    ensures Sum(rows[..c]) == SumThrough(rows, t)
  {
    if |rows| > c {
      PrefixSum(rows[..|rows| - 1], t, c);
      assert rows[..|rows| - 1][..c] == rows[..c];
    } else if rows != [] {
      assert rows[..c] == rows;
      PrefixSumAll(rows, t);
    }
  }

  lemma {:induction false} PrefixSumAll(rows: seq<Ev>, t: int)
    requires forall i :: 0 <= i < |rows| ==> rows[i].at <= t
    ensures Sum(rows) == SumThrough(rows, t)
  {
    if rows != [] {
      PrefixSumAll(rows[..|rows| - 1], t);
    }
  }

  /** Where the rows at or before `t` end. */
  lemma {:induction false} Cut(rows: seq<Ev>, t: int) returns (c: nat)
    requires forall a, b :: 0 <= a < b < |rows| ==> rows[a].at <= rows[b].at
    ensures c <= |rows|
    ensures forall i :: 0 <= i < c ==> rows[i].at <= t
    ensures forall i :: c <= i < |rows| ==> rows[i].at > t
  {
    if rows == [] || rows[|rows| - 1].at <= t {
      c := |rows|;
    } else {
      c := Cut(rows[..|rows| - 1], t);
    }
  }

  lemma {:induction false} SumStep(rows: seq<Ev>, i: nat, j: nat, sign: int)
    requires i <= j <= |rows| && -1 <= sign <= 0
    requires forall k :: i <= k < j ==> if sign == 0 then rows[k].delta >= 0 else rows[k].delta <= sign
    ensures if sign == 0 then Sum(rows[..i]) <= Sum(rows[..j]) else Sum(rows[..j]) <= Sum(rows[..i]) - (j - i)
    decreases j - i
  {
    if i < j {
      SumStep(rows, i, j - 1, sign);
      assert rows[..j][..j - 1] == rows[..j - 1];
    }
  }

  // ----- what one row's running sum can be -----

  /** On a start or a weightless row the running sum is at most the streams playing at that instant; on an
      end row it is at most one less than those playing just before. */
  lemma RunningBound(rows: seq<Ev>, scanned: seq<Stream>, marks: seq<Ev>, i: nat)
    requires SweepRows(rows, scanned, marks)
    requires i < |rows|
    ensures rows[i].delta >= 0 ==> Running(rows, i) <= Playing(scanned, rows[i].at)
    ensures rows[i].delta <= -1 ==> Running(rows, i) <= Playing(scanned, rows[i].at - 1) - 1
  {
    var t := rows[i].at;
    if rows[i].delta >= 0 {
      var c := Cut(rows, t);
      PrefixSum(rows, t, c);
      SumStep(rows, i + 1, c, 0);
      SumIsPlaying(rows, scanned, marks, t);
    }
    if rows[i].delta <= -1 {
      var c := Cut(rows, t - 1);
      PrefixSum(rows, t - 1, c);
      SumStep(rows, c, i + 1, -1);
      SumIsPlaying(rows, scanned, marks, t - 1);
    }
  }

  /** From a row at the day's start on, every instant of the day is sampled on the day. */
  lemma InstantIsSampled(
      rows: seq<Ev>, scanned: seq<Stream>, marks: seq<Ev>, from: int, until: int, t: int) returns (i: nat)
    requires SweepRows(rows, scanned, marks)
    requires Ev(from, 0) in marks && from <= t < until
    ensures i < |rows| && from <= rows[i].at < until && Running(rows, i) == Playing(scanned, t)
  {
    var c := Cut(rows, t);
    var m := Ev(from, 0);
    assert m in multiset(rows);
    var j :| 0 <= j < |rows| && rows[j] == m;
    assert j < c;
    i := c - 1;
    PrefixSum(rows, t, c);
    SumIsPlaying(rows, scanned, marks, t);
  }

  lemma {:induction false} EndEventIn(streams: seq<Stream>, t: int)
    ensures EndsAt(streams, t) > 0 <==> Ev(t, -1) in StreamEvents(streams)
    ensures forall e :: e in StreamEvents(streams) ==> e.delta >= -1
  {
    if streams != [] {
      EndEventIn(streams[1..], t);
    }
  }

  lemma RowIsEvent(rows: seq<Ev>, scanned: seq<Stream>, marks: seq<Ev>, k: nat)
    requires SweepRows(rows, scanned, marks) && k < |rows|
    ensures rows[k] in StreamEvents(scanned) || rows[k] in marks
  {
    assert rows[k] in multiset(rows);
    assert rows[k] in multiset(StreamEvents(scanned) + marks);
  }

  /** Deltas are at least -1, and an end row is the end of some stream. */
  lemma RowKinds(rows: seq<Ev>, scanned: seq<Stream>, marks: seq<Ev>, k: nat)
    requires SweepRows(rows, scanned, marks) && k < |rows|
    ensures rows[k].delta >= -1
    ensures rows[k].delta < 0 ==> EndsAt(scanned, rows[k].at) > 0
  {
    RowIsEvent(rows, scanned, marks, k);
    EndEventIn(scanned, rows[k].at);
    assert rows[k] == Ev(rows[k].at, rows[k].delta);
  }

  lemma EndIsRow(rows: seq<Ev>, scanned: seq<Stream>, marks: seq<Ev>, t: int) returns (j: nat)
    requires SweepRows(rows, scanned, marks) && EndsAt(scanned, t) > 0
    ensures j < |rows| && rows[j] == Ev(t, -1)
  {
    EndEventIn(scanned, t);
    assert Ev(t, -1) in multiset(rows);
    j :| 0 <= j < |rows| && rows[j] == Ev(t, -1);
  }

  /** The first of the end rows at `t` still carries all but one of the streams before it. */
  lemma OpeningEndIsSampled(
      rows: seq<Ev>, scanned: seq<Stream>, marks: seq<Ev>, t: int) returns (i: nat)
    requires SweepRows(rows, scanned, marks) && EndsAt(scanned, t) > 0
    ensures i < |rows| && rows[i].at == t && Running(rows, i) == Playing(scanned, t - 1) - 1
  {
    i := Cut(rows, t - 1);
    var j := EndIsRow(rows, scanned, marks, t);
    RowKinds(rows, scanned, marks, i);
    assert rows[i] == Ev(t, -1) by {
      assert i < j ==> rows[i].at < rows[j].at || (rows[i].at == rows[j].at && rows[i].delta <= rows[j].delta);
    }
    PrefixSum(rows, t - 1, i);
    SumIsPlaying(rows, scanned, marks, t - 1);
    assert rows[..i + 1][..i] == rows[..i];
  }

  lemma {:induction false} DayPeakBounds(rows: seq<Ev>, from: int, until: int, n: nat, i: nat)
    requires i < n <= |rows| && from <= rows[i].at < until
    ensures DayPeak(rows, from, until, n).Some? && Running(rows, i) <= DayPeak(rows, from, until, n).value
  {
    if i < n - 1 {
      DayPeakBounds(rows, from, until, n - 1, i);
    }
  }

  lemma {:induction false} DayPeakAttained(rows: seq<Ev>, from: int, until: int, n: nat) returns (i: nat)
    requires n <= |rows| && DayPeak(rows, from, until, n).Some?
    ensures i < n && from <= rows[i].at < until && Running(rows, i) == DayPeak(rows, from, until, n).value
  {
    if DayPeak(rows, from, until, n) == DayPeak(rows, from, until, n - 1) {
      i := DayPeakAttained(rows, from, until, n - 1);
    } else {
      i := n - 1;
    }
  }

  // ----- the theorems -----

  /** The reported peak bounds the count at every instant of the day, and the count just before the day
      less one when a stream ends on its first instant. */
  lemma PeakBounds(rows: seq<Ev>, scanned: seq<Stream>, marks: seq<Ev>, from: int, until: int, t: int)
    requires SweepRows(rows, scanned, marks)
    requires Ev(from, 0) in marks && from <= t < until
    ensures DayPeak(rows, from, until, |rows|).Some?
    ensures Playing(scanned, t) <= DayPeak(rows, from, until, |rows|).value
    ensures EndsAt(scanned, from) > 0 ==> Playing(scanned, from - 1) - 1 <= DayPeak(rows, from, until, |rows|).value
  {
    var i := InstantIsSampled(rows, scanned, marks, from, until, t);
    DayPeakBounds(rows, from, until, |rows|, i);
    if EndsAt(scanned, from) > 0 {
      var j := OpeningEndIsSampled(rows, scanned, marks, from);
      DayPeakBounds(rows, from, until, |rows|, j);
    }
  }

  /** The reported peak is one of those two: a count attained on the day, or the count before it less one. */
  lemma PeakIsAttained(
      rows: seq<Ev>, scanned: seq<Stream>, marks: seq<Ev>, from: int, until: int) returns (t: int)
    requires SweepRows(rows, scanned, marks)
    requires Ev(from, 0) in marks && from < until
    ensures DayPeak(rows, from, until, |rows|).Some? && from <= t < until
    ensures DayPeak(rows, from, until, |rows|).value == Playing(scanned, t) ||
            (EndsAt(scanned, from) > 0 && DayPeak(rows, from, until, |rows|).value == Playing(scanned, from - 1) - 1)
  {
    t := from;
    PeakBounds(rows, scanned, marks, from, until, t);
    var i := DayPeakAttained(rows, from, until, |rows|);
    RunningBound(rows, scanned, marks, i);
    RowKinds(rows, scanned, marks, i);
    if rows[i].delta >= 0 {
      t := rows[i].at;
      PeakBounds(rows, scanned, marks, from, until, t);
    } else if rows[i].at > from {
      PeakBounds(rows, scanned, marks, from, until, rows[i].at - 1);
    }
  }

  lemma RequestedDay(first: int -> int, lo: int, hi: int, d: int)
    requires ValidDays(first) && lo <= d <= hi
    ensures Ev(first(d), 0) in Midnights(first, lo, hi) && first(d) < first(d + 1)
  {
    assert Midnights(first, lo, hi)[d - lo] == Ev(first(d), 0);
  }

  /** `p` is at least both candidates and equal to one of them or to less than the true peak's bound. */
  lemma LargerOfTwo(p: int, truePeak: int, other: int, counts: bool, attained: int)
    requires truePeak <= p && attained <= truePeak && (counts ==> other <= p)
    requires p == attained || (counts && p == other)
    ensures p == if counts && other > truePeak then other else truePeak
  {
  }

  lemma DayPeakOfPeak(rows: seq<Ev>, scanned: seq<Stream>, marks: seq<Ev>, from: int, until: int, truePeak: int)
    requires SweepRows(rows, scanned, marks)
    requires Ev(from, 0) in marks && from < until
    requires IsPeak(scanned, from, until, truePeak)
    ensures DayPeak(rows, from, until, |rows|).Some?
    ensures DayPeak(rows, from, until, |rows|).value == ReportedPeak(scanned, from, until, truePeak)
  {
    var t :| from <= t < until && Playing(scanned, t) == truePeak;
    PeakBounds(rows, scanned, marks, from, until, t);
    var u := PeakIsAttained(rows, scanned, marks, from, until);
    LargerOfTwo(DayPeak(rows, from, until, |rows|).value, truePeak, Playing(scanned, from - 1) - 1,
                EndsAt(scanned, from) > 0, Playing(scanned, u));
  }

  /** The larger of the true peak and, when a stream ends on the day's first instant, the count just before
      the day less one. */
  function ReportedPeak(scanned: seq<Stream>, from: int, until: int, truePeak: int): int {
    var before := Playing(scanned, from - 1);
    if EndsAt(scanned, from) > 0 && before - 1 > truePeak then before - 1 else truePeak
  }

  /** Every day has a true peak. */
  lemma {:induction false} PeakExists(streams: seq<Stream>, from: int, until: int) returns (p: int)
    requires from < until
    ensures IsPeak(streams, from, until, p)
    decreases until - from
  {
    var end := until - 1;
    ghost var at := end;
    p := Playing(streams, end);
    if from < end {
      var q := PeakExists(streams, from, end);
      var t :| from <= t < end && Playing(streams, t) == q;
      if p < q {
        p, at := q, t;
      }
    }
    assert from <= at < until && Playing(streams, at) == p;
    forall t | from <= t < until
      ensures Playing(streams, t) <= p
    {
      assert t < end || t == end;
    }
  }

  lemma DayIsExactIff(rows: seq<Ev>, scanned: seq<Stream>, marks: seq<Ev>, from: int, until: int, truePeak: int)
    requires SweepRows(rows, scanned, marks)
    requires Ev(from, 0) in marks && from < until
    requires IsPeak(scanned, from, until, truePeak)
    ensures DayPeak(rows, from, until, |rows|).Some?
    ensures DayPeak(rows, from, until, |rows|).value == truePeak
            <==> EndsAt(scanned, from) == 0 || Playing(scanned, from - 1) - 1 <= truePeak
  {
    DayPeakOfPeak(rows, scanned, marks, from, until, truePeak);
    ReportedIsTrueIff(scanned, from, until, truePeak);
  }

  lemma ReportedIsTrueIff(scanned: seq<Stream>, from: int, until: int, truePeak: int)
    ensures ReportedPeak(scanned, from, until, truePeak) == truePeak
            <==> EndsAt(scanned, from) == 0 || Playing(scanned, from - 1) - 1 <= truePeak
  {
  }

  lemma {:induction false} EndsAndPlaying(streams: seq<Stream>, t: int)
    requires forall s :: s in streams ==> s.duration > 0
    ensures Playing(streams, t) >= Playing(streams, t - 1) - EndsAt(streams, t)
  {
    if streams != [] {
      EndsAndPlaying(streams[1..], t);
    }
  }

  lemma OpeningCount(scanned: seq<Stream>, from: int, until: int, truePeak: int)
    requires (forall s :: s in scanned ==> s.duration > 0) && IsPeak(scanned, from, until, truePeak)
    ensures from < until && Playing(scanned, from - 1) - EndsAt(scanned, from) <= truePeak
  {
    EndsAndPlaying(scanned, from);
  }

  /** The report lists the days that have rows, in order. */
  lemma {:induction false} ReportLists(rows: seq<Ev>, first: int -> int, from: int, hi: int, k: nat)
    requires from <= hi + 1
    requires forall d :: from <= d <= hi ==> DayPeak(rows, first(d), first(d + 1), |rows|).Some?
    ensures |Report(rows, first, from, hi)| == hi + 1 - from
    ensures k < hi + 1 - from ==>
              Report(rows, first, from, hi)[k] == (from + k, DayPeak(rows, first(from + k), first(from + k + 1), |rows|).value)
    decreases hi - from
  {
    if from <= hi {
      assert DayPeak(rows, first(from), first(from + 1), |rows|).Some?;
      ReportLists(rows, first, from + 1, hi, if k > 0 then k - 1 else 0);
    }
  }

  /** Every requested day is reported exactly once, in order, with its peak. */
  lemma ReportCoversRange(rows: seq<Ev>, scanned: seq<Stream>, first: int -> int, lo: int, hi: int, k: nat)
    requires ValidDays(first) && QueryRows(rows, scanned, first, lo, hi)
    requires lo <= hi + 1
    ensures |Report(rows, first, lo, hi)| == hi + 1 - lo
    ensures k < hi + 1 - lo ==>
              && DayPeak(rows, first(lo + k), first(lo + k + 1), |rows|).Some?
              && Report(rows, first, lo, hi)[k] == (lo + k, DayPeak(rows, first(lo + k), first(lo + k + 1), |rows|).value)
  {
    forall d | lo <= d <= hi
      ensures DayPeak(rows, first(d), first(d + 1), |rows|).Some?
    {
      RequestedDay(first, lo, hi, d);
      var t := PeakIsAttained(rows, scanned, Midnights(first, lo, hi), first(d), first(d + 1));
    }
    ReportLists(rows, first, lo, hi, k);
  }

  /** The requested days tile the range: every instant of it lies in exactly one of them. */
  lemma {:induction false} RequestedDaysTileRange(first: int -> int, lo: int, hi: int, t: int) returns (d: int)
    requires ValidDays(first) && first(lo) <= t < first(hi + 1)
    ensures lo <= d <= hi && first(d) <= t < first(d + 1)
    ensures forall e :: first(e) <= t < first(e + 1) ==> e == d
    decreases hi - lo
  {
    if first(hi) <= t {
      d := hi;
      assert lo > hi ==> lo >= hi + 1;
    } else {
      d := RequestedDaysTileRange(first, lo, hi - 1, t);
    }
    forall e | first(e) <= t < first(e + 1)
      ensures e == d
    {
      assert e < d ==> e + 1 == d || e + 1 < d;
      assert d < e ==> d + 1 == e || d + 1 < e;
    }
  }

  /** Exactly what the report says of requested day number `k`, whose instants run from `first(lo + k)` up to
      `first(lo + k + 1)`: the maximum of the true peak and, when a stream ends on the day's first instant,
      the count just before the day less one. */
  lemma SweepPeak(rows: seq<Ev>, scanned: seq<Stream>, first: int -> int, lo: int, hi: int, k: nat, truePeak: int)
    requires ValidDays(first) && QueryRows(rows, scanned, first, lo, hi) && lo + k <= hi
    requires exists t :: first(lo + k) <= t < first(lo + k + 1) && Playing(scanned, t) == truePeak
    requires forall t :: first(lo + k) <= t < first(lo + k + 1) ==> Playing(scanned, t) <= truePeak
    ensures |Report(rows, first, lo, hi)| == hi + 1 - lo
    ensures var before := Playing(scanned, first(lo + k) - 1);
            Report(rows, first, lo, hi)[k]
            == (lo + k, if EndsAt(scanned, first(lo + k)) > 0 && before - 1 > truePeak then before - 1 else truePeak)
  {
    var d := lo + k;
    assert IsPeak(scanned, first(d), first(d + 1), truePeak);
    RequestedDay(first, lo, hi, d);
    DayPeakOfPeak(rows, scanned, Midnights(first, lo, hi), first(d), first(d + 1), truePeak);
    ReportCoversRange(rows, scanned, first, lo, hi, k);
  }

  /** The reported peak is the true peak if and only if no stream ends on the day's first instant, or the
      day at some instant has at least as many streams as were playing just before it, less one. */
  lemma SweepIsExactIff(rows: seq<Ev>, scanned: seq<Stream>, first: int -> int, lo: int, hi: int, k: nat, truePeak: int)
    requires ValidDays(first) && QueryRows(rows, scanned, first, lo, hi) && lo + k <= hi
    requires exists t :: first(lo + k) <= t < first(lo + k + 1) && Playing(scanned, t) == truePeak
    requires forall t :: first(lo + k) <= t < first(lo + k + 1) ==> Playing(scanned, t) <= truePeak
    ensures |Report(rows, first, lo, hi)| == hi + 1 - lo
    ensures Report(rows, first, lo, hi)[k].1 == truePeak
            <==> EndsAt(scanned, first(lo + k)) == 0 || Playing(scanned, first(lo + k) - 1) - 1 <= truePeak
  {
    var d := lo + k;
    assert IsPeak(scanned, first(d), first(d + 1), truePeak);
    RequestedDay(first, lo, hi, d);
    DayIsExactIff(rows, scanned, Midnights(first, lo, hi), first(d), first(d + 1), truePeak);
    ReportCoversRange(rows, scanned, first, lo, hi, k);
  }

  /** So at most one stream ending exactly at the day's start is enough: the report's entry for the day is then
      the maximum of the streams playing at any of its instants. */
  lemma SweepIsExact(rows: seq<Ev>, scanned: seq<Stream>, first: int -> int, lo: int, hi: int, k: nat)
    requires ValidDays(first) && QueryRows(rows, scanned, first, lo, hi) && lo + k <= hi
    requires EndsAt(scanned, first(lo + k)) <= 1
    ensures |Report(rows, first, lo, hi)| == hi + 1 - lo && Report(rows, first, lo, hi)[k].0 == lo + k
    ensures exists t :: first(lo + k) <= t < first(lo + k + 1) && Playing(scanned, t) == Report(rows, first, lo, hi)[k].1
    ensures forall t :: first(lo + k) <= t < first(lo + k + 1) ==> Playing(scanned, t) <= Report(rows, first, lo, hi)[k].1
  {
    RequestedDay(first, lo, hi, lo + k);
    var truePeak := PeakExists(scanned, first(lo + k), first(lo + k + 1));
    SweepPeak(rows, scanned, first, lo, hi, k, truePeak);
    OpeningCount(scanned, first(lo + k), first(lo + k + 1), truePeak);
    var t :| first(lo + k) <= t < first(lo + k + 1) && Playing(scanned, t) == truePeak;
    assert Playing(scanned, t) == Report(rows, first, lo, hi)[k].1;
  }

  function UtcDayStart(d: int): int {
    86_400 * d
  }

  /** Two streams that end together at a day's first instant make an idle day report one stream. */
  lemma IdleDayReportsOne(rows: seq<Ev>)
    requires QueryRows(rows, [Stream(-10, 10), Stream(-10, 10)], UtcDayStart, 0, 0)
    ensures forall t :: 0 <= t < 86_400 ==> Playing([Stream(-10, 10), Stream(-10, 10)], t) == 0
    ensures Report(rows, UtcDayStart, 0, 0) == [(0, 1)]
  {
    var s := Stream(-10, 10);
    forall t
      ensures Playing([s, s], t) == if -10 <= t < 0 then 2 else 0
    {
      PairPlays(s, t);
    }
    PairPlays(s, 0);
    assert UtcDayStart(0 + 0) <= 0 < UtcDayStart(0 + 0 + 1) && Playing([s, s], 0) == 0;
    SweepPeak(rows, [s, s], UtcDayStart, 0, 0, 0, 0);
  }

  lemma PairPlays(s: Stream, t: int)
    ensures Playing([s, s], t) == if Plays(s, t) then 2 else 0
    ensures EndsAt([s, s], t) == if s.start + s.duration == t then 2 else 0
  {
    assert [s, s][1..] == [s] && [s][1..] == [];
    assert Playing([s], t) == if Plays(s, t) then 1 else 0;
    assert EndsAt([s], t) == if s.start + s.duration == t then 1 else 0;
  }

  /** When no stream outlasts the day before the range, the scan loses nothing: on every requested day it
      counts exactly the stored streams. */
  lemma {:induction false} ScanLosesNothing(streams: seq<Stream>, first: int -> int, lo: int, hi: int, t: int)
    requires ValidDays(first) && first(lo) <= t < first(hi + 1)
    requires forall s :: s in streams ==> s.duration <= first(lo) - first(lo - 1)
    ensures Playing(Scanned(streams, first, lo, hi), t) == Playing(streams, t)
  {
    if streams != [] {
      var s, rest := streams[0], streams[1..];
      ScanLosesNothing(rest, first, lo, hi, t);
      assert first(hi + 1) < first(hi + 2);
      var kept := Scanned(streams, first, lo, hi);
      assert kept == [s] + Scanned(rest, first, lo, hi) || kept == Scanned(rest, first, lo, hi);
      assert kept == [s] + Scanned(rest, first, lo, hi) ==> kept[1..] == Scanned(rest, first, lo, hi);
    }
  }

  // ----- the whole query -----

  predicate Before(a: Ev, b: Ev) {
    a.at < b.at || (a.at == b.at && a.delta <= b.delta)
  }

  function InsertRow(rows: seq<Ev>, e: Ev): seq<Ev> {
    if rows == [] then [e]
    else if Before(e, rows[0]) then [e] + rows
    else [rows[0]] + InsertRow(rows[1..], e)
  }

  /** ORDER BY at, delta. */
  function SortRows(events: seq<Ev>): seq<Ev> {
    if events == [] then [] else InsertRow(SortRows(events[1..]), events[0])
  }

  ghost predicate InOrder(rows: seq<Ev>) {
    forall a, b :: 0 <= a < b < |rows| ==> Before(rows[a], rows[b])
  }

  lemma {:induction false} InsertRowMembers(rows: seq<Ev>, e: Ev)
    ensures multiset(InsertRow(rows, e)) == multiset(rows) + multiset{e}
  {
    if rows != [] {
      InsertRowMembers(rows[1..], e);
      assert rows == [rows[0]] + rows[1..];
    }
  }

  lemma {:induction false} InsertRowOrder(rows: seq<Ev>, e: Ev)
    requires InOrder(rows)
    ensures InOrder(InsertRow(rows, e))
  {
    if rows != [] && !Before(e, rows[0]) {
      InsertRowOrder(rows[1..], e);
      var more := InsertRow(rows[1..], e);
      forall k | 0 <= k < |more|
        ensures Before(rows[0], more[k])
      {
        InsertedComesFrom(rows[1..], e, more[k]);
        if more[k] != e {
          var j :| 0 <= j < |rows[1..]| && rows[1..][j] == more[k];
          assert Before(rows[0], rows[j + 1]);
        }
      }
    }
  }

  lemma InsertedComesFrom(rows: seq<Ev>, e: Ev, x: Ev)
    requires x in InsertRow(rows, e)
    ensures x == e || x in rows
  {
    InsertRowMembers(rows, e);
    assert x in multiset(InsertRow(rows, e));
  }

  lemma {:induction false} SortRowsSorts(events: seq<Ev>)
    ensures InOrder(SortRows(events)) && multiset(SortRows(events)) == multiset(events)
  {
    if events != [] {
      SortRowsSorts(events[1..]);
      InsertRowOrder(SortRows(events[1..]), events[0]);
      InsertRowMembers(SortRows(events[1..]), events[0]);
      assert events == [events[0]] + events[1..];
    }
  }

  /** `get_concurrency_by_day` over the stored streams. */
  function PeaksByDay(streams: seq<Stream>, first: int -> int, lo: int, hi: int): seq<(int, int)> {
    Report(SortRows(StreamEvents(Scanned(streams, first, lo, hi)) + Midnights(first, lo, hi)), first, lo, hi)
  }

  lemma {:induction false} ScanKeepsFewerEnds(streams: seq<Stream>, first: int -> int, lo: int, hi: int, t: int)
    ensures EndsAt(Scanned(streams, first, lo, hi), t) <= EndsAt(streams, t)
  {
    if streams != [] {
      var rest := Scanned(streams[1..], first, lo, hi);
      var kept := Scanned(streams, first, lo, hi);
      ScanKeepsFewerEnds(streams[1..], first, lo, hi, t);
      assert kept == [streams[0]] + rest || kept == rest;
      assert kept == [streams[0]] + rest ==> kept[1..] == rest;
    }
  }

  lemma SortedTable(scanned: seq<Stream>, first: int -> int, lo: int, hi: int)
    requires forall s :: s in scanned ==> s.duration > 0
    ensures QueryRows(SortRows(StreamEvents(scanned) + Midnights(first, lo, hi)), scanned, first, lo, hi)
  {
    var rows := SortRows(StreamEvents(scanned) + Midnights(first, lo, hi));
    SortRowsSorts(StreamEvents(scanned) + Midnights(first, lo, hi));
    assert forall a, b :: 0 <= a < b < |rows| ==> Before(rows[a], rows[b]);
  }

  lemma ScanLosesNothingOnDay(streams: seq<Stream>, first: int -> int, lo: int, hi: int, k: nat)
    requires ValidDays(first) && lo + k <= hi
    requires forall s :: s in streams ==> s.duration <= first(lo) - first(lo - 1)
    ensures forall t :: first(lo + k) <= t < first(lo + k + 1) ==>
              Playing(Scanned(streams, first, lo, hi), t) == Playing(streams, t)
  {
    forall t | first(lo + k) <= t < first(lo + k + 1)
      ensures Playing(Scanned(streams, first, lo, hi), t) == Playing(streams, t)
    {
      assert k > 0 ==> first(lo) < first(lo + k);
      assert lo + k < hi ==> first(lo + k + 1) < first(hi + 1);
      ScanLosesNothing(streams, first, lo, hi, t);
    }
  }

  /** The whole query, on the stored streams: when none outlasts the padding day and at most one ends on the
      day's first instant, the entry of requested day number `k` is the maximum, over the instants of that
      day, of the number of stored streams playing then. */
  lemma PeaksByDayAreMaxima(streams: seq<Stream>, first: int -> int, lo: int, hi: int, k: nat)
    requires ValidDays(first) && lo + k <= hi
    requires forall s :: s in streams ==> s.duration <= first(lo) - first(lo - 1)
    requires EndsAt(streams, first(lo + k)) <= 1
    ensures |PeaksByDay(streams, first, lo, hi)| == hi + 1 - lo && PeaksByDay(streams, first, lo, hi)[k].0 == lo + k
    ensures exists t :: first(lo + k) <= t < first(lo + k + 1) && Playing(streams, t) == PeaksByDay(streams, first, lo, hi)[k].1
    ensures forall t :: first(lo + k) <= t < first(lo + k + 1) ==> Playing(streams, t) <= PeaksByDay(streams, first, lo, hi)[k].1
  {
    var scanned := Scanned(streams, first, lo, hi);
    SortedTable(scanned, first, lo, hi);
    ScanKeepsFewerEnds(streams, first, lo, hi, first(lo + k));
    ScanLosesNothingOnDay(streams, first, lo, hi, k);
    SweepIsExact(SortRows(StreamEvents(scanned) + Midnights(first, lo, hi)), scanned, first, lo, hi, k);
    var t :| first(lo + k) <= t < first(lo + k + 1) && Playing(scanned, t) == PeaksByDay(streams, first, lo, hi)[k].1;
    assert Playing(streams, t) == PeaksByDay(streams, first, lo, hi)[k].1;
  }
}
