/**
 The in-process cache: entries with an expiry and a bound on the summed length of their texts.
 Every operation is proved against what it must do to the stored map, and any run of operations refines
 a plain map that remembers the last value set under each key.
 */
module Cache {
  import opened Options
  import opened Sets

  const MAX_CACHE_BYTES := 64 * 1024 * 1024

  /** An encoded value and the monotonic time after which it is dead. */
  datatype Item = Item(text: string, expiresAt: real)

  type Store = map<string, Item>

  // ----- sizes -----

  ghost function TotalSize(m: Store): nat {
    if m == map[] then 0
    else
      var k: string :| k in m;
      |m[k].text| + TotalSize(m - {k})
  }

  /** The sum does not depend on the order of summation. */
  lemma {:induction false} TotalSizeWithout(m: Store, k: string)
    requires k in m
    ensures TotalSize(m) == |m[k].text| + TotalSize(m - {k})
    decreases |m|
  {
    var x: string :| x in m && TotalSize(m) == |m[x].text| + TotalSize(m - {x});
    if x != k {
      TotalSizeWithout(m - {x}, k);
      TotalSizeWithout(m - {k}, x);
      assert m - {x} - {k} == m - {k} - {x};
    }
  }

  // ----- what the operations must do -----

  function Live(m: Store, now: real): Store {
    map k | k in m && now <= m[k].expiresAt :: m[k]
  }

  ghost predicate SubMap(a: Store, b: Store) {
    forall k :: k in a ==> k in b && a[k] == b[k]
  }

  /** `kept` is what evicting by expiry leaves of `live`: whoever went expires no later than whoever stayed,
      the rest fits, and with the last one evicted still in, it would not. */
  ghost predicate EvictedTo(live: Store, kept: Store) {
    && SubMap(kept, live)
    && TotalSize(kept) <= MAX_CACHE_BYTES
    && (forall gone, stay :: gone in live && gone !in kept && stay in kept ==> live[gone].expiresAt <= kept[stay].expiresAt)
    && (kept != live ==> exists last :: LastEvicted(live, kept, last))
  }

  ghost predicate LastEvicted(live: Store, kept: Store, last: string) {
    && last in live && last !in kept
    && TotalSize(kept) + |live[last].text| > MAX_CACHE_BYTES
    && forall gone :: gone in live && gone !in kept ==> live[gone].expiresAt <= live[last].expiresAt
  }

  ghost predicate Enforced(before: Store, now: real, after: Store) {
    if TotalSize(before) <= MAX_CACHE_BYTES then after == before
    else EvictedTo(Live(before, now), after)
  }

  function AfterGet(m: Store, key: string, now: real): Store {
    if key in m && now > m[key].expiresAt then m - {key} else m
  }

  function GetResult(m: Store, key: string, now: real): Option<string> {
    if key in m && now <= m[key].expiresAt then Some(m[key].text) else None
  }

  const MEDIA_METRICS := "media_metrics:"

  function Without(m: Store, namespace: string): Store {
    map k | k in m && !(namespace <= k) :: m[k]
  }

  predicate IsLiveIn(m: Store, key: string, now: real) {
    key in m && now <= m[key].expiresAt
  }

  class CacheStore {
    var store: Store

    constructor ()
      ensures store == map[]
    {
      store := map[];
    }

    method CurrentBytes() returns (n: nat)
      ensures n == TotalSize(store)
    {
      n := 0;
      var m := store;
      var todo := m.Keys;
      ghost var rest := m;
      while todo != {}
        invariant rest.Keys == todo && SubMap(rest, m)
        invariant n + TotalSize(rest) == TotalSize(m)
        decreases todo
      {
        StringMember(todo);
        var k: string :| k in todo;
        TotalSizeWithout(rest, k);
        n := n + |m[k].text|;
        todo := todo - {k};
        rest := rest - {k};
      }
    }

    method Get(key: string, now: real) returns (r: Option<string>)
      modifies this
      ensures r == GetResult(old(store), key, now) && store == AfterGet(old(store), key, now)
      ensures key in old(store) && now <= old(store)[key].expiresAt ==> r == Some(old(store)[key].text) && store == old(store)
      ensures key in old(store) && now > old(store)[key].expiresAt ==> r.None? && store == old(store) - {key}
      ensures key !in old(store) ==> r.None? && store == old(store)
    {
      if key !in store {
        return None;
      }
      var item := store[key];
      if now > item.expiresAt {
        store := store - {key};
        return None;
      }
      return Some(item.text);
    }

    method SweepExpired(now: real) returns (n: nat)
      modifies this
      ensures store == Live(old(store), now) && n == |old(store)| - |store|
      ensures forall k :: k in store <==> k in old(store) && now <= old(store)[k].expiresAt
      ensures forall k :: k in store ==> store[k] == old(store)[k]
    {
      var expired := set k | k in store && now > store[k].expiresAt;
      n := |expired|;
      var before := store;
      store := store - expired;
      assert store == Live(before, now);
      assert before.Keys == store.Keys + expired && store.Keys !! expired;
    }

    /** The key of `todo` closest to expiry. */
    method ClosestToExpiry(todo: set<string>) returns (key: string)
      requires todo != {} && todo <= store.Keys
      ensures key in todo && forall k :: k in todo ==> store[key].expiresAt <= store[k].expiresAt
    {
      var m := store;
      StringMember(todo);
      key :| key in todo;
      var rest := todo - {key};
      while rest != {}
        invariant rest <= todo && key in todo
        invariant forall k :: k in todo ==> k in rest || m[key].expiresAt <= m[k].expiresAt
        decreases rest
      {
        StringMember(rest);
        var k: string :| k in rest;
        if m[k].expiresAt < m[key].expiresAt {
          key := k;
        }
        rest := rest - {k};
      }
    }

    /** Expired entries go first; if that is not enough, the entries closest to expiry are dropped. */
    method EnforceSizeLimit(now: real)
      modifies this
      ensures Enforced(old(store), now, store)
      ensures TotalSize(store) <= 67_108_864
    {
      var total := CurrentBytes();
      if total <= MAX_CACHE_BYTES {
        return;
      }
      var swept := SweepExpired(now);
      total := CurrentBytes();
      ghost var live := store;
      if total <= MAX_CACHE_BYTES {
        return;
      }
      ghost var last: string := "";
      while store != map[]
        invariant SubMap(store, live) && total == TotalSize(store) && total > MAX_CACHE_BYTES
        invariant forall gone, stay :: gone in live && gone !in store && stay in store ==>
                    live[gone].expiresAt <= store[stay].expiresAt
        decreases |store|
      {
        assert store.Keys == {} ==> store == map[];
        var key := ClosestToExpiry(store.Keys);
        TotalSizeWithout(store, key);
        EvictionStep(live, store, key);
        total := total - |store[key].text|;
        store := store - {key};
        if total <= MAX_CACHE_BYTES {
          assert LastEvicted(live, store, key);
          break;
        }
      }
    }

    /** `later` is the clock when the size limit is enforced, after the entry is stored at `now`. */
    method Set(key: string, text: string, now: real, ttl: int, later: real)
      modifies this
      ensures Enforced(old(store)[key := Item(text, now + ttl as real)], later, store)
      ensures TotalSize(store) <= 67_108_864
    {
      store := store[key := Item(text, now + ttl as real)];
      EnforceSizeLimit(later);
    }

    method ClearMediaMetrics()
      modifies this
      ensures store == Without(old(store), MEDIA_METRICS)
      ensures forall k :: k in store <==> k in old(store) && !("media_metrics:" <= k)
      ensures forall k :: k in store ==> store[k] == old(store)[k]
    {
      var doomed := set k | k in store && MEDIA_METRICS <= k;
      store := store - doomed;
    }
  }

  /** Evicting the entry closest to expiry keeps the evicted ones no later than the rest. */
  lemma EvictionStep(live: Store, store: Store, key: string)
    requires SubMap(store, live) && key in store
    requires forall k :: k in store ==> store[key].expiresAt <= store[k].expiresAt
    requires forall gone, stay :: gone in live && gone !in store && stay in store ==> live[gone].expiresAt <= store[stay].expiresAt
    ensures forall gone, stay :: gone in live && gone !in store - {key} && stay in store - {key} ==>
              live[gone].expiresAt <= (store - {key})[stay].expiresAt
    ensures forall gone :: gone in live && gone !in store - {key} ==> live[gone].expiresAt <= live[key].expiresAt
  {
  }

  /** What enforcing the bound means, in terms of the entries: within the bound nothing changes; beyond it what
      stays is unexpired and unchanged, every unexpired entry that went expires no later than every one that
      stayed, and if any went, one of them would not have fitted beside what stayed. */
  lemma EnforcedMeans(before: Store, now: real, after: Store)
    requires Enforced(before, now, after)
    ensures TotalSize(after) <= 67_108_864
    ensures TotalSize(before) <= 67_108_864 ==> after == before
    ensures forall k :: k in after ==> k in before && after[k] == before[k]
    ensures TotalSize(before) > 67_108_864 ==> forall k :: k in after ==> now <= after[k].expiresAt
    ensures forall gone, stay :: IsLiveIn(before, gone, now) && gone !in after && stay in after ==>
              before[gone].expiresAt <= after[stay].expiresAt
    ensures (exists gone :: IsLiveIn(before, gone, now) && gone !in after) ==>
              exists last :: && IsLiveIn(before, last, now) && last !in after
                             && TotalSize(after) + |before[last].text| > 67_108_864
  {
    var live := Live(before, now);
    if TotalSize(before) > MAX_CACHE_BYTES && after != live {
      var last :| LastEvicted(live, after, last);
      assert IsLiveIn(before, last, now);
    }
  }

  // ----- runs refine a plain map -----

  datatype Op =
    | Put(key: string, text: string, now: real, ttl: int, later: real)
    | Fetch(key: string, now: real)
    | Sweep(now: real)
    | Clear

  ghost predicate OpStep(before: Store, op: Op, after: Store) {
    match op
    case Put(key, text, now, ttl, later) => Enforced(before[key := Item(text, now + ttl as real)], later, after)
    case Fetch(key, now) => after == AfterGet(before, key, now)
    case Sweep(now) => after == Live(before, now)
    case Clear => after == Without(before, MEDIA_METRICS)
  }

  ghost predicate Traces(ops: seq<Op>, stores: seq<Store>) {
    && |stores| == |ops| + 1 && stores[0] == map[]
    && forall n :: 0 <= n < |ops| ==> OpStep(stores[n], ops[n], stores[n + 1])
  }

  /** The plain map: what was last set under each key and not cleared since. */
  function Recorded(ops: seq<Op>): Store {
    if ops == [] then map[]
    else
      var m := Recorded(ops[..|ops| - 1]);
      match ops[|ops| - 1]
      case Put(key, text, now, ttl, _) => m[key := Item(text, now + ttl as real)]
      case Fetch(_, _) => m
      case Sweep(_) => m
      case Clear => Without(m, MEDIA_METRICS)
  }

  /** Operation `n` is the last write of the key, no later clearing concerns the key, and it left `item`. */
  ghost predicate LastPut(ops: seq<Op>, key: string, n: int, item: Item) {
    && 0 <= n < |ops| && ops[n].Put? && ops[n].key == key
    && item == Item(ops[n].text, ops[n].now + ops[n].ttl as real)
    && forall m :: n < m < |ops| ==>
         !(ops[m].Put? && ops[m].key == key) && !(ops[m].Clear? && "media_metrics:" <= key)
  }

  /** What the plain map holds, in terms of the operations. */
  lemma {:induction false} RecordedIff(ops: seq<Op>, key: string, item: Item)
    ensures key in Recorded(ops) && Recorded(ops)[key] == item <==> exists n :: LastPut(ops, key, n, item)
  {
    if ops != [] {
      var before, k := ops[..|ops| - 1], |ops| - 1;
      RecordedIff(before, key, item);
      var op := ops[k];
      assert forall n :: 0 <= n < k ==> before[n] == ops[n];
      if op.Put? && op.key == key {
        assert item == Item(op.text, op.now + op.ttl as real) ==> LastPut(ops, key, k, item);
        assert forall n :: LastPut(ops, key, n, item) ==> n == k;
      } else if op.Clear? && MEDIA_METRICS <= key {
        assert forall n :: !LastPut(ops, key, n, item);
      } else {
        forall n
          ensures LastPut(before, key, n, item) <==> LastPut(ops, key, n, item)
        {
        }
      }
    }
  }

  /** The cache only ever holds what the plain map records. */
  lemma {:induction false} CacheHoldsRecorded(ops: seq<Op>, stores: seq<Store>)
    requires Traces(ops, stores)
    ensures SubMap(stores[|ops|], Recorded(ops))
  {
    if ops != [] {
      var n := |ops| - 1;
      ShorterTrace(ops, stores);
      CacheHoldsRecorded(ops[..n], stores[..n + 1]);
      assert OpStep(stores[n], ops[n], stores[n + 1]);
    }
  }

  /** A hit is always the value last set under that very key, not cleared since, and unexpired. */
  lemma HitsAreLatest(ops: seq<Op>, stores: seq<Store>, key: string, now: real)
    requires Traces(ops, stores) && GetResult(stores[|ops|], key, now).Some?
    ensures exists n, item :: LastPut(ops, key, n, item) && now <= item.expiresAt
                              && GetResult(stores[|ops|], key, now) == Some(item.text)
  {
    CacheHoldsRecorded(ops, stores);
    var item := Recorded(ops)[key];
    RecordedIff(ops, key, item);
    var n :| LastPut(ops, key, n, item);
  }

  lemma ShorterTrace(ops: seq<Op>, stores: seq<Store>)
    requires Traces(ops, stores) && ops != []
    ensures Traces(ops[..|ops| - 1], stores[..|ops|])
  {
    forall n | 0 <= n < |ops| - 1
      ensures OpStep(stores[..|ops|][n], ops[..|ops| - 1][n], stores[..|ops|][n + 1])
    {
      assert OpStep(stores[n], ops[n], stores[n + 1]);
    }
  }

  /** The clock after an operation. */
  function ClockAfter(clock: real, op: Op): real {
    match op
    case Put(_, _, _, _, later) => later
    case Fetch(_, now) => now
    case Sweep(now) => now
    case Clear => clock
  }

  /** The clock never runs backwards; `start` is its value at the beginning. */
  ghost predicate ClockRuns(start: real, ops: seq<Op>) {
    ops != [] ==>
      var n := |ops| - 1;
      && ClockRuns(start, ops[..n])
      && Clock(start, ops[..n]) <= ClockAfter(Clock(start, ops[..n]), ops[n])
  }

  function Clock(start: real, ops: seq<Op>): real {
    if ops == [] then start else ClockAfter(Clock(start, ops[..|ops| - 1]), ops[|ops| - 1])
  }

  /** No write of the run had to drop a live entry to make room. */
  ghost predicate NothingLiveEvicted(ops: seq<Op>, stores: seq<Store>)
    requires Traces(ops, stores)
  {
    forall n :: 0 <= n < |ops| && ops[n].Put? ==>
      var written := stores[n][ops[n].key := Item(ops[n].text, ops[n].now + ops[n].ttl as real)];
      TotalSize(Live(written, ops[n].later)) <= MAX_CACHE_BYTES
  }

  /** A write that fits drops nothing live. */
  lemma FittingWriteKeepsLive(written: Store, later: real, after: Store)
    requires Enforced(written, later, after) && TotalSize(Live(written, later)) <= MAX_CACHE_BYTES
    ensures forall k :: k in written && later <= written[k].expiresAt ==> k in after && after[k] == written[k]
  {
    var live := Live(written, later);
    if TotalSize(written) > MAX_CACHE_BYTES && after != live {
      var last :| LastEvicted(live, after, last);
      EvictionWasNeeded(live, after, last);
    }
  }

  /** Entries are evicted only when the live ones do not fit. */
  lemma EvictionWasNeeded(live: Store, kept: Store, last: string)
    requires SubMap(kept, live) && LastEvicted(live, kept, last)
    ensures TotalSize(live) > MAX_CACHE_BYTES
  {
    var more := kept + map[last := live[last]];
    SubMapIsSmaller(more, live);
    TotalSizeWithout(more, last);
    assert more - {last} == kept;
  }

  lemma {:induction false} SubMapIsSmaller(a: Store, b: Store)
    requires SubMap(a, b)
    ensures TotalSize(a) <= TotalSize(b)
    decreases |a|
  {
    if a != map[] {
      var k: string :| k in a && TotalSize(a) == |a[k].text| + TotalSize(a - {k});
      TotalSizeWithout(b, k);
      SubMapIsSmaller(a - {k}, b - {k});
    }
  }

  /** As long as nothing live had to be evicted, the cache is the plain map with expiry: a lookup at or after the
      run's clock hits exactly when the key's last write, not cleared since, has not expired, and then returns
      its text. */
  lemma FittingCacheIsExact(start: real, ops: seq<Op>, stores: seq<Store>, key: string, now: real)
    requires Traces(ops, stores) && ClockRuns(start, ops) && NothingLiveEvicted(ops, stores)
    requires Clock(start, ops) <= now
    ensures GetResult(stores[|ops|], key, now).Some? <==> exists n, item :: LastPut(ops, key, n, item) && now <= item.expiresAt
    ensures forall n, item :: LastPut(ops, key, n, item) && now <= item.expiresAt ==>
              GetResult(stores[|ops|], key, now) == Some(item.text)
  {
    CacheHoldsRecorded(ops, stores);
    if GetResult(stores[|ops|], key, now).Some? {
      HitsAreLatest(ops, stores, key, now);
    }
    forall n, item | LastPut(ops, key, n, item) && now <= item.expiresAt
      ensures GetResult(stores[|ops|], key, now) == Some(item.text)
    {
      RecordedIff(ops, key, item);
      RecordedStays(start, ops, stores, key);
    }
  }

  lemma {:induction false} RecordedStays(start: real, ops: seq<Op>, stores: seq<Store>, key: string)
    requires Traces(ops, stores) && ClockRuns(start, ops) && NothingLiveEvicted(ops, stores)
    requires key in Recorded(ops) && Clock(start, ops) <= Recorded(ops)[key].expiresAt
    ensures key in stores[|ops|]
  {
    var n := |ops| - 1;
    ShorterTrace(ops, stores);
    var op, before := ops[n], stores[n];
    assert OpStep(before, op, stores[n + 1]);
    if op.Put? {
      var written := before[op.key := Item(op.text, op.now + op.ttl as real)];
      FittingWriteKeepsLive(written, op.later, stores[n + 1]);
    }
    if !(op.Put? && op.key == key) {
      assert NothingLiveEvicted(ops[..n], stores[..n + 1]);
      RecordedStays(start, ops[..n], stores[..n + 1], key);
      CacheHoldsRecorded(ops[..n], stores[..n + 1]);
    }
  }

  // ----- namespaces -----

  /** The keys of the three namespaces as the program builds them: no two namespaces share a key, each is
      one-to-one, and clearing media metrics removes exactly that namespace. */
  lemma NamespacesAreDisjoint(a: string, b: string, m: Store)
    ensures "cache:" + a != "media_metrics:" + b && "cache:" + a != "insight:" + b && "media_metrics:" + a != "insight:" + b
    ensures "media_metrics:" + a == "media_metrics:" + b ==> a == b
    ensures "media_metrics:" + a !in Without(m, MEDIA_METRICS)
    ensures "cache:" + a in m ==> "cache:" + a in Without(m, MEDIA_METRICS)
    ensures "insight:" + a in m ==> "insight:" + a in Without(m, MEDIA_METRICS)
  {
    assert ("cache:" + a)[0] == 'c' && ("media_metrics:" + b)[0] == 'm' && ("insight:" + b)[0] == 'i';
    assert ("media_metrics:" + a)[0] == 'm' && ("insight:" + a)[0] == 'i';
    assert ("media_metrics:" + a)[14..] == a && ("media_metrics:" + b)[14..] == b;
    assert MEDIA_METRICS <= "media_metrics:" + a;
    assert MEDIA_METRICS[0] == 'm';
  }
}
