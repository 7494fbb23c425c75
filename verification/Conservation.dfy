/**
 A full snapshot rebuild of the Jellyfin tables as GROUP BY over joined sessions, and what the three
 tables conserve.  Joins are on the primary keys of items and users, so a session meets at most one row
 of each.
 */
module Conservation {
  import opened Options
  import SessionBuilder
  import Snapshots

  // ----- GROUP BY -----

  /** One output row: the grouping columns, COUNT(*) and SUM(duration_seconds). */
  datatype Group<K> = Group(key: K, plays: nat, watch: int)

  function AddTo<K(==)>(groups: seq<Group<K>>, key: K, watch: int): seq<Group<K>> {
    if groups == [] then [Group(key, 1, watch)]
    else if groups[0].key == key then [Group(key, groups[0].plays + 1, groups[0].watch + watch)] + groups[1..]
    else [groups[0]] + AddTo(groups[1..], key, watch)
  }

  function GroupBy<R, K(==)>(rows: seq<R>, key: R -> K, watch: R -> int): seq<Group<K>> {
    if rows == [] then []
    else AddTo(GroupBy(rows[..|rows| - 1], key, watch), key(rows[|rows| - 1]), watch(rows[|rows| - 1]))
  }

  function SumPlays<K>(groups: seq<Group<K>>, p: K -> bool): nat {
    if groups == [] then 0 else (if p(groups[0].key) then groups[0].plays else 0) + SumPlays(groups[1..], p)
  }

  function SumWatch<K>(groups: seq<Group<K>>, p: K -> bool): int {
    if groups == [] then 0 else (if p(groups[0].key) then groups[0].watch else 0) + SumWatch(groups[1..], p)
  }

  ghost predicate DistinctKeys<K>(groups: seq<Group<K>>) {
    forall a, b :: 0 <= a < b < |groups| ==> groups[a].key != groups[b].key
  }

  lemma {:induction false} AddToKeys<K>(groups: seq<Group<K>>, key: K, watch: int)
    requires DistinctKeys(groups)
    ensures DistinctKeys(AddTo(groups, key, watch))
    ensures forall k :: 0 <= k < |AddTo(groups, key, watch)| ==>
              AddTo(groups, key, watch)[k].key == key || exists j :: 0 <= j < |groups| && groups[j].key == AddTo(groups, key, watch)[k].key
  {
    if groups != [] && groups[0].key != key {
      AddToKeys(groups[1..], key, watch);
      var rest := AddTo(groups[1..], key, watch);
      forall k | 0 <= k < |rest|
        ensures rest[k].key != groups[0].key
        ensures rest[k].key == key || exists j :: 0 <= j < |groups| && groups[j].key == rest[k].key
      {
        if rest[k].key != key {
          var j :| 0 <= j < |groups[1..]| && groups[1..][j].key == rest[k].key;
          assert groups[j + 1].key == rest[k].key;
        }
      }
    }
  }

  lemma {:induction false} AddToSums<K>(groups: seq<Group<K>>, key: K, watch: int, p: K -> bool)
    ensures SumPlays(AddTo(groups, key, watch), p) == SumPlays(groups, p) + if p(key) then 1 else 0
    ensures SumWatch(AddTo(groups, key, watch), p) == SumWatch(groups, p) + if p(key) then watch else 0
  {
    if groups == [] {
      assert AddTo(groups, key, watch)[1..] == [];
    } else if groups[0].key == key {
      assert AddTo(groups, key, watch)[1..] == groups[1..];
    } else {
      AddToSums(groups[1..], key, watch, p);
      assert AddTo(groups, key, watch)[1..] == AddTo(groups[1..], key, watch);
    }
  }

  /** COUNT and SUM over the rows themselves. */
  function Count<R>(rows: seq<R>, q: R -> bool): nat {
    if rows == [] then 0 else Count(rows[..|rows| - 1], q) + if q(rows[|rows| - 1]) then 1 else 0
  }

  function Total<R>(rows: seq<R>, q: R -> bool, watch: R -> int): int {
    if rows == [] then 0 else Total(rows[..|rows| - 1], q, watch) + if q(rows[|rows| - 1]) then watch(rows[|rows| - 1]) else 0
  }

  lemma {:induction false} GroupByKeys<R, K>(rows: seq<R>, key: R -> K, watch: R -> int)
    ensures DistinctKeys(GroupBy(rows, key, watch))
    ensures forall k :: 0 <= k < |GroupBy(rows, key, watch)| ==>
              exists j :: 0 <= j < |rows| && key(rows[j]) == GroupBy(rows, key, watch)[k].key
  {
    if rows != [] {
      var before := rows[..|rows| - 1];
      GroupByKeys(before, key, watch);
      AddToKeys(GroupBy(before, key, watch), key(rows[|rows| - 1]), watch(rows[|rows| - 1]));
      var groups := GroupBy(rows, key, watch);
      forall k | 0 <= k < |groups|
        ensures exists j :: 0 <= j < |rows| && key(rows[j]) == groups[k].key
      {
        if groups[k].key == key(rows[|rows| - 1]) {
          assert key(rows[|rows| - 1]) == groups[k].key;
        } else {
          var i :| 0 <= i < |GroupBy(before, key, watch)| && GroupBy(before, key, watch)[i].key == groups[k].key;
          var j :| 0 <= j < |before| && key(before[j]) == groups[k].key;
          assert key(rows[j]) == groups[k].key;
        }
      }
    }
  }

  /** Grouping conserves: over any selection of groups that a row predicate describes, the summed counts and
      durations are those of the rows. */
  lemma {:induction false} GroupByConserves<R, K>(rows: seq<R>, key: R -> K, watch: R -> int, p: K -> bool, q: R -> bool)
    requires forall r :: q(r) <==> p(key(r))
    ensures SumPlays(GroupBy(rows, key, watch), p) == Count(rows, q)
    ensures SumWatch(GroupBy(rows, key, watch), p) == Total(rows, q, watch)
  {
    if rows != [] {
      var before, r := rows[..|rows| - 1], rows[|rows| - 1];
      GroupByConserves(before, key, watch, p, q);
      AddToSums(GroupBy(before, key, watch), key(r), watch(r), p);
    }
  }

  // ----- the tables -----

  /** A stored session; `day` is the local date of its start. */
  datatype Session = Session(day: int, instance: int, user: string, item: string, duration: int)

  datatype Item = Item(name: Option<string>, kind: string, series: Option<string>)
  datatype User = User(name: string, deleted: bool)

  /** Items and users by primary key. */
  datatype Library = Library(items: map<(int, string), Item>, users: map<(int, string), User>)

  datatype TotalKey = TotalKey(day: int, instance: int)
  datatype UserKey = UserKey(day: int, instance: int, user: string, name: Option<string>)
  datatype ItemKey = ItemKey(day: int, instance: int, item: string, joined: Option<Item>, seriesName: Option<string>)

  function JoinItem(lib: Library, instance: int, item: string): Option<Item> {
    if (instance, item) in lib.items then Some(lib.items[(instance, item)]) else None
  }

  function SeriesName(lib: Library, instance: int, item: string): Option<string> {
    match JoinItem(lib, instance, item)
    case None => None
    case Some(i) =>
      if i.series.None? then None
      else match JoinItem(lib, instance, i.series.value) case None => None case Some(s) => s.name
  }

  function JoinUser(lib: Library, instance: int, user: string): Option<string> {
    if (instance, user) in lib.users && !lib.users[(instance, user)].deleted then Some(lib.users[(instance, user)].name) else None
  }

  function TotalKeyOf(s: Session): TotalKey {
    TotalKey(s.day, s.instance)
  }

  function UserKeyOf(lib: Library): Session -> UserKey {
    (s: Session) => UserKey(s.day, s.instance, s.user, JoinUser(lib, s.instance, s.user))
  }

  function ItemKeyOf(lib: Library): Session -> ItemKey {
    (s: Session) => ItemKey(s.day, s.instance, s.item, JoinItem(lib, s.instance, s.item), SeriesName(lib, s.instance, s.item))
  }

  function DurationOf(s: Session): int {
    s.duration
  }

  predicate IsKind(joined: Option<Item>, kinds: set<string>) {
    joined.Some? && joined.value.kind in kinds
  }

  const MOVIES := {"Movie"}
  const EPISODES := {"Episode"}
  const LIVE_TV := {"LiveTvChannel", "TvChannel", "Program"}

  function OfKind(lib: Library, day: int, instance: int, kinds: set<string>): Session -> bool {
    (s: Session) => s.day == day && s.instance == instance && IsKind(JoinItem(lib, s.instance, s.item), kinds)
  }

  datatype TotalRow = TotalRow(key: TotalKey, plays: nat, watch: int, movies: nat, episodes: nat, liveTv: nat)

  /** The daily totals, with SUM(CASE WHEN i.type ...) per group. */
  function Totals(lib: Library, rows: seq<Session>): (r: seq<TotalRow>)
    ensures |r| == |GroupBy(rows, TotalKeyOf, DurationOf)|
  {
    var groups := GroupBy(rows, TotalKeyOf, DurationOf);
    seq(|groups|, n requires 0 <= n < |groups| =>
      var k := groups[n].key;
      TotalRow(k, groups[n].plays, groups[n].watch,
        Count(rows, OfKind(lib, k.day, k.instance, MOVIES)),
        Count(rows, OfKind(lib, k.day, k.instance, EPISODES)),
        Count(rows, OfKind(lib, k.day, k.instance, LIVE_TV))))
  }

  function Users(lib: Library, rows: seq<Session>): seq<Group<UserKey>> {
    GroupBy(rows, UserKeyOf(lib), DurationOf)
  }

  /** The per-item table; its rows carry plays only. */
  function Items(lib: Library, rows: seq<Session>): seq<Group<ItemKey>> {
    GroupBy(rows, ItemKeyOf(lib), DurationOf)
  }

  // ----- selections of one day and instance -----

  function SessionsOn(day: int, instance: int): Session -> bool {
    (s: Session) => s.day == day && s.instance == instance
  }

  function TotalsOn(day: int, instance: int): TotalKey -> bool {
    (k: TotalKey) => k.day == day && k.instance == instance
  }

  function UsersOn(day: int, instance: int): UserKey -> bool {
    (k: UserKey) => k.day == day && k.instance == instance
  }

  function ItemsOn(day: int, instance: int): ItemKey -> bool {
    (k: ItemKey) => k.day == day && k.instance == instance
  }

  function ItemsOfKind(day: int, instance: int, kinds: set<string>): ItemKey -> bool {
    (k: ItemKey) => k.day == day && k.instance == instance && IsKind(k.joined, kinds)
  }

  /** With distinct keys, one group's sums are its own. */
  lemma {:induction false} SumOfOneKey<K>(groups: seq<Group<K>>, n: nat, p: K -> bool)
    requires DistinctKeys(groups) && n < |groups|
    requires forall k :: p(k) <==> k == groups[n].key
    ensures SumPlays(groups, p) == groups[n].plays && SumWatch(groups, p) == groups[n].watch
  {
    if n == 0 {
      SumOfNoKey(groups[1..], p);
    } else {
      SumOfOneKey(groups[1..], n - 1, p);
    }
  }

  lemma {:induction false} SumOfNoKey<K>(groups: seq<Group<K>>, p: K -> bool)
    requires forall k :: 0 <= k < |groups| ==> !p(groups[k].key)
    ensures SumPlays(groups, p) == 0 && SumWatch(groups, p) == 0
  {
    if groups != [] {
      SumOfNoKey(groups[1..], p);
    }
  }

  // ----- the theorems -----

  /** For each day and instance with a totals row, its plays are the sum over users and the sum over items,
      its watch time is the sum over users, and each media count is the sum over the items of that type. */
  lemma DayIsConserved(lib: Library, rows: seq<Session>, n: nat)
    requires n < |Totals(lib, rows)|
    ensures var r := Totals(lib, rows)[n];
            && r.plays == SumPlays(Users(lib, rows), UsersOn(r.key.day, r.key.instance))
            && r.plays == SumPlays(Items(lib, rows), ItemsOn(r.key.day, r.key.instance))
            && r.watch == SumWatch(Users(lib, rows), UsersOn(r.key.day, r.key.instance))
            && r.movies == SumPlays(Items(lib, rows), ItemsOfKind(r.key.day, r.key.instance, MOVIES))
            && r.episodes == SumPlays(Items(lib, rows), ItemsOfKind(r.key.day, r.key.instance, EPISODES))
            && r.liveTv == SumPlays(Items(lib, rows), ItemsOfKind(r.key.day, r.key.instance, LIVE_TV))
  {
    var groups := GroupBy(rows, TotalKeyOf, DurationOf);
    var d, i := groups[n].key.day, groups[n].key.instance;
    GroupByKeys(rows, TotalKeyOf, DurationOf);
    SumOfOneKey(groups, n, TotalsOn(d, i));
    GroupByConserves(rows, TotalKeyOf, DurationOf, TotalsOn(d, i), SessionsOn(d, i));
    GroupByConserves(rows, UserKeyOf(lib), DurationOf, UsersOn(d, i), SessionsOn(d, i));
    GroupByConserves(rows, ItemKeyOf(lib), DurationOf, ItemsOn(d, i), SessionsOn(d, i));
    GroupByConserves(rows, ItemKeyOf(lib), DurationOf, ItemsOfKind(d, i, MOVIES), OfKind(lib, d, i, MOVIES));
    GroupByConserves(rows, ItemKeyOf(lib), DurationOf, ItemsOfKind(d, i, EPISODES), OfKind(lib, d, i, EPISODES));
    GroupByConserves(rows, ItemKeyOf(lib), DurationOf, ItemsOfKind(d, i, LIVE_TV), OfKind(lib, d, i, LIVE_TV));
  }

  // ----- what the rows say -----

  /** A count is the number of positions that satisfy the predicate. */
  lemma {:induction false} CountIsSize<R>(rows: seq<R>, q: R -> bool, at: set<int>)
    requires forall j :: j in at <==> 0 <= j < |rows| && q(rows[j])
    ensures Count(rows, q) == |at|
  {
    if rows == [] {
      assert forall j :: j !in at;
    } else {
      var last := |rows| - 1;
      CountIsSize(rows[..last], q, at - {last});
      assert last in at ==> at == at - {last} + {last};
      assert last !in at ==> at == at - {last};
    }
  }

  function KeyIs<R, K(==)>(key: R -> K, k: K): R -> bool {
    r => key(r) == k
  }

  function Equals<K(==)>(k: K): K -> bool {
    l => l == k
  }

  /** A group's count and sum are those of the rows with its key. */
  lemma GroupIsItsRows<R, K>(rows: seq<R>, key: R -> K, watch: R -> int, n: nat)
    requires n < |GroupBy(rows, key, watch)|
    ensures var g := GroupBy(rows, key, watch)[n];
            && g.plays == Count(rows, KeyIs(key, g.key))
            && g.watch == Total(rows, KeyIs(key, g.key), watch)
            && exists j :: 0 <= j < |rows| && key(rows[j]) == g.key
  {
    var groups := GroupBy(rows, key, watch);
    var k := groups[n].key;
    GroupByKeys(rows, key, watch);
    SumOfOneKey(groups, n, Equals(k));
    GroupByConserves(rows, key, watch, Equals(k), KeyIs(key, k));
  }

  /** The summed durations of one day's and instance's sessions, of everyone or of one user. */
  function DurationsOn(rows: seq<Session>, day: int, instance: int, user: Option<string>): int {
    if rows == [] then 0
    else
      var s := rows[|rows| - 1];
      DurationsOn(rows[..|rows| - 1], day, instance, user)
      + if s.day == day && s.instance == instance && (user.None? || user.value == s.user) then s.duration else 0
  }

  lemma {:induction false} TotalIsDurations(rows: seq<Session>, q: Session -> bool, day: int, instance: int, user: Option<string>)
    requires forall s :: q(s) <==> s.day == day && s.instance == instance && (user.None? || user.value == s.user)
    ensures Total(rows, q, DurationOf) == DurationsOn(rows, day, instance, user)
  {
    if rows != [] {
      TotalIsDurations(rows[..|rows| - 1], q, day, instance, user);
    }
  }

  /** The item of a session, as the LEFT JOIN on (instance, item) finds it. */
  ghost predicate HasItem(lib: Library, s: Session, item: Item) {
    (s.instance, s.item) in lib.items && lib.items[(s.instance, s.item)] == item
  }

  ghost predicate HasKind(lib: Library, s: Session, kinds: set<string>) {
    exists item :: HasItem(lib, s, item) && item.kind in kinds
  }

  lemma OfKindIs(lib: Library, d: int, i: int, kinds: set<string>, s: Session)
    ensures OfKind(lib, d, i, kinds)(s) <==> s.day == d && s.instance == i && HasKind(lib, s, kinds)
  {
    if (s.instance, s.item) in lib.items {
      assert HasItem(lib, s, lib.items[(s.instance, s.item)]);
    }
  }

  /** A totals row in plain terms: its plays and watch time are the number and the summed durations of the day's
      and instance's sessions, and its media
      counts are those of them whose item has the type "Movie", the type "Episode", or one of the three live
      television types. */
  lemma TotalsAre(lib: Library, rows: seq<Session>, n: nat)
    requires n < |Totals(lib, rows)|
    ensures var (r, d, i) := (Totals(lib, rows)[n], Totals(lib, rows)[n].key.day, Totals(lib, rows)[n].key.instance);
            && r.plays == |set j | 0 <= j < |rows| && rows[j].day == d && rows[j].instance == i|
            && r.watch == DurationsOn(rows, d, i, None)
            && r.movies == |set j | 0 <= j < |rows| && rows[j].day == d && rows[j].instance == i
                                    && HasKind(lib, rows[j], {"Movie"})|
            && r.episodes == |set j | 0 <= j < |rows| && rows[j].day == d && rows[j].instance == i
                                      && HasKind(lib, rows[j], {"Episode"})|
            && r.liveTv == |set j | 0 <= j < |rows| && rows[j].day == d && rows[j].instance == i
                                    && HasKind(lib, rows[j], {"LiveTvChannel", "TvChannel", "Program"})|
  {
    var k := GroupBy(rows, TotalKeyOf, DurationOf)[n].key;
    var d, i := k.day, k.instance;
    GroupIsItsRows(rows, TotalKeyOf, DurationOf, n);
    CountIsSize(rows, KeyIs(TotalKeyOf, k), set j | 0 <= j < |rows| && rows[j].day == d && rows[j].instance == i);
    forall s: Session
      ensures KeyIs(TotalKeyOf, k)(s) <==> s.day == d && s.instance == i
    {
      assert TotalKeyOf(s) == TotalKey(s.day, s.instance) && k == TotalKey(d, i);
    }
    TotalIsDurations(rows, KeyIs(TotalKeyOf, k), d, i, None);
    MediaCount(lib, rows, d, i, {"Movie"});
    MediaCount(lib, rows, d, i, {"Episode"});
    MediaCount(lib, rows, d, i, {"LiveTvChannel", "TvChannel", "Program"});
  }

  lemma MediaCount(lib: Library, rows: seq<Session>, d: int, i: int, kinds: set<string>)
    ensures Count(rows, OfKind(lib, d, i, kinds)) ==
            |set j | 0 <= j < |rows| && rows[j].day == d && rows[j].instance == i && HasKind(lib, rows[j], kinds)|
  {
    forall s: Session
      ensures OfKind(lib, d, i, kinds)(s) <==> s.day == d && s.instance == i && HasKind(lib, s, kinds)
    {
      OfKindIs(lib, d, i, kinds, s);
    }
    CountIsSize(rows, OfKind(lib, d, i, kinds),
                set j | 0 <= j < |rows| && rows[j].day == d && rows[j].instance == i && HasKind(lib, rows[j], kinds));
  }

  /** A per-user row in plain terms: the number and the summed durations of the user's sessions of that day and
      instance, with the name of the user row that is there and not deleted. */
  lemma UsersAre(lib: Library, rows: seq<Session>, n: nat)
    requires n < |Users(lib, rows)|
    ensures var (g, k) := (Users(lib, rows)[n], Users(lib, rows)[n].key);
            && g.plays == |set j | 0 <= j < |rows| && rows[j].day == k.day && rows[j].instance == k.instance
                                   && rows[j].user == k.user|
            && g.watch == DurationsOn(rows, k.day, k.instance, Some(k.user))
            && (k.name.Some? <==> (k.instance, k.user) in lib.users && !lib.users[(k.instance, k.user)].deleted)
            && (k.name.Some? ==> k.name.value == lib.users[(k.instance, k.user)].name)
  {
    var k := Users(lib, rows)[n].key;
    GroupIsItsRows(rows, UserKeyOf(lib), DurationOf, n);
    assert k.name == JoinUser(lib, k.instance, k.user);
    TotalIsDurations(rows, KeyIs(UserKeyOf(lib), k), k.day, k.instance, Some(k.user));
    CountIsSize(rows, KeyIs(UserKeyOf(lib), k),
                set j | 0 <= j < |rows| && rows[j].day == k.day && rows[j].instance == k.instance && rows[j].user == k.user);
  }

  /** A per-item row in plain terms: the number of the item's sessions of that day and instance, with the item row
      that is there and, when it names a series whose row is there, that row's name. */
  lemma ItemsAre(lib: Library, rows: seq<Session>, n: nat)
    requires n < |Items(lib, rows)|
    ensures var (g, k) := (Items(lib, rows)[n], Items(lib, rows)[n].key);
            && g.plays == |set j | 0 <= j < |rows| && rows[j].day == k.day && rows[j].instance == k.instance
                                   && rows[j].item == k.item|
            && (k.joined.Some? <==> (k.instance, k.item) in lib.items)
            && (k.joined.Some? ==> k.joined.value == lib.items[(k.instance, k.item)])
            && k.seriesName == if k.joined.Some? && k.joined.value.series.Some?
                                  && (k.instance, k.joined.value.series.value) in lib.items
                               then lib.items[(k.instance, k.joined.value.series.value)].name
                               else None
  {
    var k := Items(lib, rows)[n].key;
    GroupIsItsRows(rows, ItemKeyOf(lib), DurationOf, n);
    assert k.joined == JoinItem(lib, k.instance, k.item) && k.seriesName == SeriesName(lib, k.instance, k.item);
    CountIsSize(rows, KeyIs(ItemKeyOf(lib), k),
                set j | 0 <= j < |rows| && rows[j].day == k.day && rows[j].instance == k.instance && rows[j].item == k.item);
  }

  // ----- over all days -----

  function Everything(k: TotalKey): bool {
    true
  }

  function EverySession(s: Session): bool {
    true
  }

  function SummedDurations(rows: seq<Session>): int {
    if rows == [] then 0 else SummedDurations(rows[..|rows| - 1]) + rows[|rows| - 1].duration
  }

  lemma {:induction false} CountEverything(rows: seq<Session>)
    ensures Count(rows, EverySession) == |rows| && Total(rows, EverySession, DurationOf) == SummedDurations(rows)
  {
    if rows != [] {
      CountEverything(rows[..|rows| - 1]);
    }
  }

  /** Over all days the totals are the session table's own count and summed duration. */
  lemma AllDaysAreConserved(rows: seq<Session>)
    ensures SumPlays(GroupBy(rows, TotalKeyOf, DurationOf), Everything) == |rows|
    ensures SumWatch(GroupBy(rows, TotalKeyOf, DurationOf), Everything) == SummedDurations(rows)
  {
    GroupByConserves(rows, TotalKeyOf, DurationOf, Everything, EverySession);
    CountEverything(rows);
  }

  /** No INSERT yields two rows for one primary key: the joined columns in each GROUP BY are determined by
      the key columns. */
  lemma PrimaryKeysAreUnique(lib: Library, rows: seq<Session>)
    ensures forall a, b :: 0 <= a < b < |Totals(lib, rows)| ==> Totals(lib, rows)[a].key != Totals(lib, rows)[b].key
    ensures forall a, b :: 0 <= a < b < |Users(lib, rows)| ==>
              var (k, l) := (Users(lib, rows)[a].key, Users(lib, rows)[b].key);
              (k.day, k.instance, k.user) != (l.day, l.instance, l.user)
    ensures forall a, b :: 0 <= a < b < |Items(lib, rows)| ==>
              var (k, l) := (Items(lib, rows)[a].key, Items(lib, rows)[b].key);
              (k.day, k.instance, k.item) != (l.day, l.instance, l.item)
  {
    GroupByKeys(rows, TotalKeyOf, DurationOf);
    GroupByKeys(rows, UserKeyOf(lib), DurationOf);
    GroupByKeys(rows, ItemKeyOf(lib), DurationOf);
    var users, items := Users(lib, rows), Items(lib, rows);
    forall n | 0 <= n < |users|
      ensures users[n].key.name == JoinUser(lib, users[n].key.instance, users[n].key.user)
    {
      var j :| 0 <= j < |rows| && UserKeyOf(lib)(rows[j]) == users[n].key;
    }
    forall n | 0 <= n < |items|
      ensures items[n].key.joined == JoinItem(lib, items[n].key.instance, items[n].key.item)
      ensures items[n].key.seriesName == SeriesName(lib, items[n].key.instance, items[n].key.item)
    {
      var j :| 0 <= j < |rows| && ItemKeyOf(lib)(rows[j]) == items[n].key;
    }
  }

  // ----- Plex items -----

  /** A stored Plex session; type and title are the poll's own and may differ between plays of one item. */
  datatype PlexSession = PlexSession(day: int, instance: int, ratingKey: Option<string>, itemType: string, title: string)

  function WithRatingKey(rows: seq<PlexSession>): seq<PlexSession> {
    if rows == [] then []
    else if rows[|rows| - 1].ratingKey.Some? then WithRatingKey(rows[..|rows| - 1]) + [rows[|rows| - 1]]
    else WithRatingKey(rows[..|rows| - 1])
  }

  function PlexItemKeyOf(lib: Library): PlexSession -> ItemKey {
    (s: PlexSession) =>
      var item := if s.ratingKey.Some? then s.ratingKey.value else "";
      ItemKey(s.day, s.instance, item, JoinItem(lib, s.instance, item), SeriesName(lib, s.instance, item))
  }

  /** The per-item table stores no watch time. */
  function NoWatch(s: PlexSession): int {
    0
  }

  function PlexItems(lib: Library, rows: seq<PlexSession>): seq<Group<ItemKey>> {
    GroupBy(WithRatingKey(rows), PlexItemKeyOf(lib), NoWatch)
  }

  /** A Plex item row in plain terms: the number of stored sessions of that rating key on its day and instance. */
  lemma PlexItemsAre(lib: Library, rows: seq<PlexSession>, n: nat)
    requires n < |PlexItems(lib, rows)|
    ensures var (g, k) := (PlexItems(lib, rows)[n], PlexItems(lib, rows)[n].key);
            g.plays == |set j | 0 <= j < |rows| && rows[j].day == k.day && rows[j].instance == k.instance
                                && rows[j].ratingKey == Some(k.item)|
  {
    var kept, k := WithRatingKey(rows), PlexItems(lib, rows)[n].key;
    GroupIsItsRows(kept, PlexItemKeyOf(lib), NoWatch, n);
    KeptCount(lib, rows, k);
    KeysAreRatingKeys(rows);
    var j :| 0 <= j < |kept| && PlexItemKeyOf(lib)(kept[j]) == k;
    CountIsSize(rows, PlexOf(k),
                set j | 0 <= j < |rows| && rows[j].day == k.day && rows[j].instance == k.instance && rows[j].ratingKey == Some(k.item));
  }

  function PlexOf(k: ItemKey): PlexSession -> bool {
    (s: PlexSession) => s.day == k.day && s.instance == k.instance && s.ratingKey == Some(k.item)
  }

  lemma {:induction false} KeysAreRatingKeys(rows: seq<PlexSession>)
    ensures forall s :: s in WithRatingKey(rows) ==> s.ratingKey.Some?
  {
    if rows != [] {
      KeysAreRatingKeys(rows[..|rows| - 1]);
    }
  }

  lemma {:induction false} KeptCount(lib: Library, rows: seq<PlexSession>, k: ItemKey)
    requires k.joined == JoinItem(lib, k.instance, k.item) && k.seriesName == SeriesName(lib, k.instance, k.item)
    ensures Count(WithRatingKey(rows), KeyIs(PlexItemKeyOf(lib), k)) == Count(rows, PlexOf(k))
  {
    if rows != [] {
      var before, s := rows[..|rows| - 1], rows[|rows| - 1];
      KeptCount(lib, before, k);
      if s.ratingKey.Some? {
        assert (WithRatingKey(before) + [s])[..|WithRatingKey(before)|] == WithRatingKey(before);
      }
    }
  }

  /** Plays of one item whose own type or title differ still make one row. */
  lemma PlexItemKeysAreUnique(lib: Library, rows: seq<PlexSession>)
    ensures forall a, b :: 0 <= a < b < |PlexItems(lib, rows)| ==>
              var (k, l) := (PlexItems(lib, rows)[a].key, PlexItems(lib, rows)[b].key);
              (k.day, k.instance, k.item) != (l.day, l.instance, l.item)
  {
    var kept, items := WithRatingKey(rows), PlexItems(lib, rows);
    GroupByKeys(kept, PlexItemKeyOf(lib), NoWatch);
    forall n | 0 <= n < |items|
      ensures items[n].key.joined == JoinItem(lib, items[n].key.instance, items[n].key.item)
      ensures items[n].key.seriesName == SeriesName(lib, items[n].key.instance, items[n].key.item)
    {
      var j :| 0 <= j < |kept| && PlexItemKeyOf(lib)(kept[j]) == items[n].key;
    }
  }

  // ----- the incremental tables are the same GROUP BYs -----

  datatype Table = TotalsTable | UsersTable | ItemsTable

  function SnapKeyOf(zone: int -> int, table: Table): SessionBuilder.Session -> Snapshots.SnapKey {
    (s: SessionBuilder.Session) =>
      match table
      case TotalsTable => Snapshots.Total(Snapshots.DayOf(zone, s), s.group.instance)
      case UsersTable => Snapshots.PerUser(Snapshots.DayOf(zone, s), s.group.instance, s.group.user)
      case ItemsTable => Snapshots.PerItem(Snapshots.DayOf(zone, s), s.group.instance, s.group.item)
  }

  /** The per-item table stores no watch time. */
  function SnapWatchOf(table: Table): SessionBuilder.Session -> int {
    (s: SessionBuilder.Session) => if table.ItemsTable? then 0 else s.duration
  }

  predicate InTable(k: Snapshots.SnapKey, table: Table) {
    match table
    case TotalsTable => k.Total?
    case UsersTable => k.PerUser?
    case ItemsTable => k.PerItem?
  }

  lemma {:induction false} PlaysAreCounts(zone: int -> int, table: Table, rows: seq<SessionBuilder.Session>, k: Snapshots.SnapKey)
    requires InTable(k, table)
    ensures Snapshots.Plays(zone, rows, k) == Count(rows, KeyIs(SnapKeyOf(zone, table), k))
    ensures Snapshots.Watch(zone, rows, k) == Total(rows, KeyIs(SnapKeyOf(zone, table), k), SnapWatchOf(table))
  {
    if rows != [] {
      var s := rows[|rows| - 1];
      PlaysAreCounts(zone, table, rows[..|rows| - 1], k);
      assert Snapshots.InKey(zone, s, k) <==> SnapKeyOf(zone, table)(s) == k;
    }
  }

  lemma SumsAreAggregates(zone: int -> int, table: Table, rows: seq<SessionBuilder.Session>, k: Snapshots.SnapKey)
    requires InTable(k, table)
    ensures var groups := GroupBy(rows, SnapKeyOf(zone, table), SnapWatchOf(table));
            && SumPlays(groups, Equals(k)) == Snapshots.Plays(zone, rows, k)
            && SumWatch(groups, Equals(k)) == Snapshots.Watch(zone, rows, k)
  {
    PlaysAreCounts(zone, table, rows, k);
    GroupByConserves(rows, SnapKeyOf(zone, table), SnapWatchOf(table), Equals(k), KeyIs(SnapKeyOf(zone, table), k));
  }

  /** Each of the three incrementally kept tables is a GROUP BY in the sense above: its rows are the groups, one
      for one. */
  lemma AggregateIsGroupBy(zone: int -> int, table: Table, rows: seq<SessionBuilder.Session>)
    ensures var groups := GroupBy(rows, SnapKeyOf(zone, table), SnapWatchOf(table));
            && DistinctKeys(groups)
            && (forall n :: 0 <= n < |groups| ==>
                  && InTable(groups[n].key, table)
                  && groups[n].key in Snapshots.Aggregate(zone, rows)
                  && Snapshots.Aggregate(zone, rows)[groups[n].key] == Snapshots.Agg(groups[n].plays, groups[n].watch))
            && (forall k :: k in Snapshots.Aggregate(zone, rows) && InTable(k, table) ==>
                  exists n :: 0 <= n < |groups| && groups[n].key == k)
  {
    var groups := GroupBy(rows, SnapKeyOf(zone, table), SnapWatchOf(table));
    GroupByKeys(rows, SnapKeyOf(zone, table), SnapWatchOf(table));
    forall n | 0 <= n < |groups|
      ensures InTable(groups[n].key, table)
      ensures groups[n].key in Snapshots.Aggregate(zone, rows)
      ensures Snapshots.Aggregate(zone, rows)[groups[n].key] == Snapshots.Agg(groups[n].plays, groups[n].watch)
    {
      GroupIsRow(zone, table, rows, n);
    }
    forall k | k in Snapshots.Aggregate(zone, rows) && InTable(k, table)
      ensures exists n :: 0 <= n < |groups| && groups[n].key == k
    {
      Snapshots.KeysHavePlays(zone, rows, k);
      SumsAreAggregates(zone, table, rows, k);
      if forall n :: 0 <= n < |groups| ==> groups[n].key != k {
        SumOfNoKey(groups, Equals(k));
        assert false;
      }
    }
  }

  lemma GroupIsRow(zone: int -> int, table: Table, rows: seq<SessionBuilder.Session>, n: nat)
    requires n < |GroupBy(rows, SnapKeyOf(zone, table), SnapWatchOf(table))|
    ensures var g := GroupBy(rows, SnapKeyOf(zone, table), SnapWatchOf(table))[n];
            && InTable(g.key, table)
            && g.key in Snapshots.Aggregate(zone, rows)
            && Snapshots.Aggregate(zone, rows)[g.key] == Snapshots.Agg(g.plays, g.watch)
  {
    var groups := GroupBy(rows, SnapKeyOf(zone, table), SnapWatchOf(table));
    var k := groups[n].key;
    GroupByKeys(rows, SnapKeyOf(zone, table), SnapWatchOf(table));
    var j :| 0 <= j < |rows| && SnapKeyOf(zone, table)(rows[j]) == k;
    SumsAreAggregates(zone, table, rows, k);
    SumOfOneKey(groups, n, Equals(k));
    RowHasPlays(zone, rows, j, k);
    Snapshots.KeysHavePlays(zone, rows, k);
  }

  lemma {:induction false} RowHasPlays(zone: int -> int, rows: seq<SessionBuilder.Session>, j: nat, k: Snapshots.SnapKey)
    requires j < |rows| && Snapshots.InKey(zone, rows[j], k)
    ensures Snapshots.Plays(zone, rows, k) > 0
  {
    if j < |rows| - 1 {
      RowHasPlays(zone, rows[..|rows| - 1], j, k);
    }
  }
}
