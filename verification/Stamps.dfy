/**
 Activity-log dates are stored as text and compared as text.  A stamp abstracts one such text: the
 empty text, a timestamp in the one UTC format the servers write (so that text order is time order,
 section 5.1 of RFC 3339), or a text that does not parse as a whole and sorts just after the
 timestamp `slot`; `headOk` says whether its first 19 characters still parse.
 */
module Stamps {
  import opened Options

  const MICROS_PER_SECOND := 1_000_000
  const SECONDS_PER_DAY := 86_400
  const MAX_DURATION_SECONDS := 8 * 3600

  datatype Stamp = Blank | At(micros: int) | Malformed(slot: int, headOk: bool)

  /** Position in the text order among the non-empty texts. */
  function Rank(a: Stamp): int
    requires !a.Blank?
  {
    match a
    case At(t) => 2 * t
    case Malformed(t, _) => 2 * t + 1
  }

  /** Text order: the empty text sorts before every other. */
  predicate Le(a: Stamp, b: Stamp) {
    a.Blank? || (!b.Blank? && Rank(a) <= Rank(b))
  }

  /** `int(timedelta.total_seconds())`: truncation toward zero. */
  function TruncatedSeconds(micros: int): int {
    if micros >= 0 then micros / MICROS_PER_SECOND else -(-micros / MICROS_PER_SECOND)
  }

  /** The duration between two texts; None where parsing raises. */
  function Duration(start: Stamp, end: Stamp): Option<int> {
    if start.At? && end.At? then Some(TruncatedSeconds(end.micros - start.micros)) else None
  }

  /** The duration is the whole seconds between the two, dropping a fraction toward zero; there is none when
      either text does not parse. */
  lemma DurationIs(start: Stamp, end: Stamp)
    ensures Duration(start, end).Some? <==> start.At? && end.At?
    ensures start.At? && end.At? ==>
              var (gap, d) := (end.micros - start.micros, Duration(start, end).value);
              if gap >= 0 then d * 1_000_000 <= gap < (d + 1) * 1_000_000
              else (d - 1) * 1_000_000 < gap <= d * 1_000_000 && d <= 0
  {
  }

  /** Text order: the empty text comes first, timestamps come in time order, and a text that does not parse
      comes right after the timestamp it follows. */
  lemma TextOrder(a: int, b: int, headOk: bool, other: Stamp)
    ensures Le(Blank, other) && (Le(other, Blank) <==> other == Blank)
    ensures Le(At(a), At(b)) <==> a <= b
    ensures Le(At(a), Malformed(b, headOk)) <==> a <= b
    ensures Le(Malformed(a, headOk), At(b)) <==> a < b
  {
  }

  /** The two texts make a session: over 0 s and at most 8 h apart. */
  predicate Usable(start: Stamp, end: Stamp) {
    Duration(start, end).Some? && 0 < Duration(start, end).value <= MAX_DURATION_SECONDS
  }

  /** `LEFT(text, 19)` keeps whole seconds. */
  function Second(micros: int): int {
    micros / MICROS_PER_SECOND
  }

  /** The number of the local calendar day; `zone` gives the UTC offset in force at a UTC second. */
  function LocalDay(zone: int -> int, micros: int): int {
    (Second(micros) + zone(Second(micros))) / SECONDS_PER_DAY
  }

  /** The local day is the one whose 86 400 seconds hold the local time at the instant's whole second. */
  lemma LocalDayIs(zone: int -> int, micros: int, second: int, d: int)
    requires second * 1_000_000 <= micros < (second + 1) * 1_000_000
    ensures LocalDay(zone, micros) == d <==> 86_400 * d <= second + zone(second) < 86_400 * (d + 1)
  {
    assert micros / 1_000_000 == second;
  }

  /** From eight hours before any instant onwards, the local date is never more than a day behind the one
      at that instant. */
  ghost predicate DatesFallAtMostADay(zone: int -> int) {
    forall a, b :: b - 28_801 <= a ==> (b + zone(b)) / 86_400 - 1 <= (a + zone(a)) / 86_400
  }

  /** The zones the pipeline is correct for: offsets stay below a day, as every zone's do, and the condition
      `RebuildDayCoversReachIff` shows to be exact. */
  ghost predicate ValidZone(zone: int -> int) {
    (forall t :: -SECONDS_PER_DAY < zone(t) < SECONDS_PER_DAY) && DatesFallAtMostADay(zone)
  }

  /** Every zone whose offsets vary by less than sixteen hours is valid. */
  lemma SmallVariationIsValid(zone: int -> int)
    requires forall t :: -SECONDS_PER_DAY < zone(t) < SECONDS_PER_DAY
    requires forall a, b :: zone(b) - zone(a) < 16 * 3600
    ensures ValidZone(zone)
  {
    forall a, b | b - MAX_DURATION_SECONDS - 1 <= a
      ensures (b + zone(b)) / SECONDS_PER_DAY - 1 <= (a + zone(a)) / SECONDS_PER_DAY
    {
      assert zone(b) - zone(a) < 16 * 3600;
    }
  }

  /** `_snapshot_rebuild_since`: the entry's local date minus a day, None when the first 19
      characters are not a timestamp. */
  function SnapshotRebuildSince(zone: int -> int, changed: Stamp): Option<int> {
    match changed
    case Blank => None
    case At(t) => Some(LocalDay(zone, t) - 1)
    case Malformed(t, headOk) => if headOk then Some(LocalDay(zone, t) - 1) else None
  }

  /** The rebuild day is the day before the change's local day, known when its first 19 characters parse. */
  lemma RebuildSinceIs(zone: int -> int, micros: int, second: int, d: int)
    requires second * 1_000_000 <= micros < (second + 1) * 1_000_000
    requires 86_400 * d <= second + zone(second) < 86_400 * (d + 1)
    ensures SnapshotRebuildSince(zone, At(micros)) == SnapshotRebuildSince(zone, Malformed(micros, true)) == Some(d - 1)
    ensures SnapshotRebuildSince(zone, Malformed(micros, false)) == SnapshotRebuildSince(zone, Blank) == None
  {
    LocalDayIs(zone, micros, second, d);
  }

  /** A session that ends at or after `changed` can start on local day `d`. */
  ghost predicate Reaches(zone: int -> int, changed: Stamp, d: int) {
    || changed.Blank?
    || exists m :: Rank(changed) / 2 - (MAX_DURATION_SECONDS + 1) * MICROS_PER_SECOND < m && LocalDay(zone, m) == d
  }

  lemma ReachesIsMonotone(zone: int -> int, a: Stamp, b: Stamp, d: int)
    requires Le(a, b) && Reaches(zone, b, d)
    ensures Reaches(zone, a, d)
  {
    if !a.Blank? {
      var m :| Rank(b) / 2 - (MAX_DURATION_SECONDS + 1) * MICROS_PER_SECOND < m && LocalDay(zone, m) == d;
      assert Rank(a) / 2 - (MAX_DURATION_SECONDS + 1) * MICROS_PER_SECOND < m;
    }
  }

  /** Change locality, the duration half: a kept session starts within reach of anything at or before
      its end. */
  lemma SessionWithinReach(zone: int -> int, changed: Stamp, start: Stamp, end: Stamp)
    requires Le(changed, end) && Usable(start, end)
    ensures Reaches(zone, changed, LocalDay(zone, start.micros))
  {
    if !changed.Blank? {
      var m := start.micros;
      assert Rank(changed) / 2 - (MAX_DURATION_SECONDS + 1) * MICROS_PER_SECOND < m;
    }
  }

  /** A second or more and less than 28 801 seconds apart. */
  predicate CanBeSession(start: int, end: int) {
    1_000_000 <= end - start < 28_801_000_000
  }

  lemma UsableIff(start: int, end: int)
    ensures Usable(At(start), At(end)) <==> CanBeSession(start, end)
  {
  }

  /** `Reaches` is exact: a session of a usable duration ends at or after the change and starts on day `d`
      if and only if the change reaches `d`. */
  lemma ReachesIffSession(zone: int -> int, changed: int, d: int)
    ensures Reaches(zone, At(changed), d) <==>
            exists start, end :: CanBeSession(start, end) && changed <= end && LocalDay(zone, start) == d
  {
    if Reaches(zone, At(changed), d) {
      var m :| Rank(At(changed)) / 2 - (MAX_DURATION_SECONDS + 1) * MICROS_PER_SECOND < m && LocalDay(zone, m) == d;
      var end := if m + MICROS_PER_SECOND < changed then changed else m + MICROS_PER_SECOND;
      assert CanBeSession(m, end) && changed <= end;
    }
    if start, end :| CanBeSession(start, end) && changed <= end && LocalDay(zone, start) == d {
      UsableIff(start, end);
      SessionWithinReach(zone, At(changed), At(start), At(end));
    }
  }

  /** The day a rebuild starts from is at or before `d`; with no day everything is rebuilt. */
  predicate RebuildCovers(since: Option<int>, d: int) {
    since.None? || since.value <= d
  }

  /** Change locality, the calendar half: the rebuild day of a change bounds every local day on which a
      session ending at or after that change can have started. */
  lemma RebuildDayCoversReach(zone: int -> int, changed: Stamp, d: int)
    requires DatesFallAtMostADay(zone) && Reaches(zone, changed, d)
    ensures RebuildCovers(SnapshotRebuildSince(zone, changed), d)
  {
    if !changed.Blank? {
      var m :| Rank(changed) / 2 - (MAX_DURATION_SECONDS + 1) * MICROS_PER_SECOND < m && LocalDay(zone, m) == d;
      var b, a := Second(Rank(changed) / 2), Second(m);
      assert b - MAX_DURATION_SECONDS - 1 <= a;
      assert (b + zone(b)) / SECONDS_PER_DAY - 1 <= (a + zone(a)) / SECONDS_PER_DAY;
    }
  }

  /** The rebuild day is early enough for every change in exactly the zones whose local date never falls more
      than a day behind over the span of a session. */
  lemma RebuildDayCoversReachIff(zone: int -> int)
    ensures DatesFallAtMostADay(zone) <==>
            forall changed, d :: Reaches(zone, changed, d) ==> RebuildCovers(SnapshotRebuildSince(zone, changed), d)
  {
    if DatesFallAtMostADay(zone) {
      forall changed, d | Reaches(zone, changed, d)
        ensures RebuildCovers(SnapshotRebuildSince(zone, changed), d)
      {
        RebuildDayCoversReach(zone, changed, d);
      }
    }
    if forall changed, d :: Reaches(zone, changed, d) ==> RebuildCovers(SnapshotRebuildSince(zone, changed), d) {
      forall a, b | b - MAX_DURATION_SECONDS - 1 <= a
        ensures (b + zone(b)) / SECONDS_PER_DAY - 1 <= (a + zone(a)) / SECONDS_PER_DAY
      {
        var changed, m := b * MICROS_PER_SECOND, a * MICROS_PER_SECOND + 1;
        assert Second(changed) == b && Second(m) == a;
        assert Rank(At(changed)) / 2 == changed;
        assert Reaches(zone, At(changed), LocalDay(zone, m));
      }
    }
  }

  /** A zone that crosses the date line at its midnight, from ten hours behind UTC to fourteen ahead, so that
      one local day never happens; the clock of Samoa did this at the end of 2011. */
  function DateLineZone(): int -> int {
    t => if t < 36_000 then -36_000 else 50_400
  }

  /** There the rebuild day is too late: a session may start a second before the jump, on day -1, and the
      change that closes it right after asks for a rebuild from day 0 only. */
  lemma DateLineZoneMissesADay()
    ensures forall t :: -SECONDS_PER_DAY < DateLineZone()(t) < SECONDS_PER_DAY
    ensures var changed := At(36_000 * MICROS_PER_SECOND);
            Reaches(DateLineZone(), changed, -1) && SnapshotRebuildSince(DateLineZone(), changed) == Some(0)
    ensures !DatesFallAtMostADay(DateLineZone())
  {
    var zone, t := DateLineZone(), 36_000 * MICROS_PER_SECOND;
    assert LocalDay(zone, t - 1) == -1;
    assert Rank(At(t)) / 2 == t;
    assert Reaches(zone, At(t), -1);
    RebuildDayCoversReachIff(zone);
  }

  /** The day subtracted is needed: at a constant offset, a change less than eight hours into a local day is
      within reach of a session that started on the day before, the rebuild day itself. */
  lemma RebuildDayIsReached(zone: int -> int, offset: int, t: int)
    requires forall s :: zone(s) == offset
    requires (Second(t) + offset) % SECONDS_PER_DAY < MAX_DURATION_SECONDS
    ensures Reaches(zone, At(t), SnapshotRebuildSince(zone, At(t)).value)
  {
    var m := t - MAX_DURATION_SECONDS * MICROS_PER_SECOND;
    assert Second(m) == Second(t) - MAX_DURATION_SECONDS;
    var local := Second(t) + offset;
    assert local == SECONDS_PER_DAY * (local / SECONDS_PER_DAY) + local % SECONDS_PER_DAY;
    assert LocalDay(zone, m) == LocalDay(zone, t) - 1;
    assert Rank(At(t)) / 2 == t;
  }
}
