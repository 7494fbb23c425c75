/**
 Boot-time repair of one instance-scoped table's foreign key: probe, drop a wrong constraint, sweep
 orphans in batches, add the cascade constraint unvalidated, validate it.  Each is its own transaction
 and any of them may be the last one before an exception or a crash.
 */
module ForeignKeyRepair {
  import opened Options
  import opened Sequences

  const ORPHAN_BATCH := 10_000

  datatype Row = Row(id: int, instance: int)

  /** The table's foreign key to the instances, as the catalogue probe sees it. */
  datatype ForeignKey = Missing | WrongRule | Cascade(validated: bool)

  datatype Database = Database(instances: set<int>, rows: seq<Row>, fk: ForeignKey)

  /** The rows whose instance exists, in order. */
  function Owned(rows: seq<Row>, instances: set<int>): seq<Row> {
    if rows == [] then []
    else if Last(rows).instance in instances then Owned(Front(rows), instances) + [Last(rows)]
    else Owned(Front(rows), instances)
  }

  function Orphans(rows: seq<Row>, instances: set<int>): nat {
    if rows == [] then 0 else Orphans(Front(rows), instances) + if Last(rows).instance in instances then 0 else 1
  }

  /** What the database itself guarantees: a validated constraint has no violating row. */
  ghost predicate Consistent(d: Database) {
    d.fk == Cascade(true) ==> Orphans(d.rows, d.instances) == 0
  }

  /** With no orphan every row is owned. */
  lemma {:induction false} AllOwned(rows: seq<Row>, instances: set<int>)
    requires Orphans(rows, instances) == 0
    ensures Owned(rows, instances) == rows
  {
    if rows != [] {
      AllOwned(Front(rows), instances);
    }
  }

  /** The owned rows are the rows whose instance exists, each as often as before, and all others are orphans. */
  lemma {:induction false} OwnedRowsAre(rows: seq<Row>, instances: set<int>, r: Row)
    ensures multiset(Owned(rows, instances))[r] == if r.instance in instances then multiset(rows)[r] else 0
    ensures |rows| == |Owned(rows, instances)| + Orphans(rows, instances)
  {
    if rows != [] {
      OwnedRowsAre(Front(rows), instances, r);
      assert rows == Front(rows) + [Last(rows)];
    }
  }

  /** What one pass must do: never lose a row whose instance exists, finish with the constraint validated
      and no orphan left when it succeeds, and change nothing in the steady state. */
  ghost predicate PassOutcome(before: Database, after: Database, ok: bool) {
    && after.instances == before.instances
    && Owned(after.rows, after.instances) == Owned(before.rows, before.instances)
    && Orphans(after.rows, after.instances) <= Orphans(before.rows, before.instances)
    && Consistent(after)
    && (ok ==> after.fk == Cascade(true) && after.rows == Owned(before.rows, before.instances))
    && (before.fk == Cascade(true) ==> after == before)
    && (before.fk.Cascade? ==> after.fk.Cascade?)
  }

  /** The transactions of an uninterrupted pass: the probe; unless the constraint is in place and validated, the
      drop of a wrong one, the sweep's batches, the constraint when there is none, and its validation. */
  function TransactionsOf(d: Database): nat {
    match d.fk
    case Cascade(validated) => if validated then 1 else Orphans(d.rows, d.instances) / 10_000 + 3
    case WrongRule => Orphans(d.rows, d.instances) / 10_000 + 5
    case Missing => Orphans(d.rows, d.instances) / 10_000 + 4
  }

  class InstanceTable {
    var instances: set<int>
    var rows: seq<Row>
    var fk: ForeignKey

    ghost function Db(): Database
      reads this
    {
      Database(instances, rows, fk)
    }

    constructor (d: Database)
      ensures Db() == d
    {
      instances, rows, fk := d.instances, d.rows, d.fk;
    }

    /** One transaction of the sweep: up to a batch of orphans goes, every other row stays in place. */
    method DeleteBatch() returns (count: nat)
      modifies this`rows
      ensures Owned(rows, instances) == Owned(old(rows), instances)
      ensures count == if Orphans(old(rows), instances) < 10_000 then Orphans(old(rows), instances) else 10_000
      ensures Orphans(rows, instances) == Orphans(old(rows), instances) - count
    {
      count := 0;
      var left: seq<Row> := [];
      for k := 0 to |rows|
        invariant rows == old(rows)
        invariant Owned(left, instances) == Owned(rows[..k], instances)
        invariant Orphans(left, instances) == Orphans(rows[..k], instances) - count
        invariant count <= ORPHAN_BATCH && (count < ORPHAN_BATCH ==> count == Orphans(rows[..k], instances))
      {
        assert Front(rows[..k + 1]) == rows[..k];
        if rows[k].instance !in instances && count < ORPHAN_BATCH {
          count := count + 1;
        } else {
          assert Front(left + [rows[k]]) == left;
          left := left + [rows[k]];
        }
      }
      assert rows[..|rows|] == rows;
      rows := left;
    }

    /** Batches until one comes back short; `budget` is how many transactions commit before something
        interrupts the pass. */
    method SweepOrphans(budget: nat) returns (removed: nat, left: nat, done: bool)
      modifies this`rows
      ensures Owned(rows, instances) == Owned(old(rows), instances)
      ensures removed == Orphans(old(rows), instances) - Orphans(rows, instances)
      ensures done ==> Orphans(rows, instances) == 0
      ensures done ==> left == budget - (Orphans(old(rows), instances) / ORPHAN_BATCH + 1)
      ensures done <==> budget > Orphans(old(rows), instances) / ORPHAN_BATCH
    {
      removed, left := 0, budget;
      while true
        invariant Owned(rows, instances) == Owned(old(rows), instances)
        invariant removed == Orphans(old(rows), instances) - Orphans(rows, instances)
        invariant left <= budget
        invariant removed == (budget - left) * ORPHAN_BATCH
        decreases Orphans(rows, instances)
      {
        if left == 0 {
          return removed, 0, false;
        }
        var count := DeleteBatch();
        left := left - 1;
        removed := removed + count;
        if count < ORPHAN_BATCH {
          return removed, left, true;
        }
      }
    }

    /** One pass over the table, cut short after `budget` transactions. */
    method EnsureCascade(budget: nat) returns (ok: bool)
      requires Consistent(Db())
      modifies this
      ensures PassOutcome(old(Db()), Db(), ok)
      ensures ok <==> budget >= TransactionsOf(old(Db()))
    {
      if budget == 0 {
        return false;
      }
      var left := budget - 1;
      if fk == Cascade(true) {
        AllOwned(rows, instances);
        return true;
      }
      var found := fk.Cascade?;
      if fk.WrongRule? {
        if left == 0 {
          return false;
        }
        left := left - 1;
        fk := Missing;
      }
      var removed, remaining, done := SweepOrphans(left);
      if !done {
        return false;
      }
      left := remaining;
      AllOwned(rows, instances);
      if !found {
        if left == 0 {
          return false;
        }
        left := left - 1;
        fk := Cascade(false);
      }
      if left == 0 {
        return false;
      }
      fk := Cascade(true);
      return true;
    }
  }

  // ----- any number of interrupted passes -----

  /** Passes one after another without writers in between. */
  ghost predicate Passes(states: seq<Database>, oks: seq<bool>) {
    && |states| == |oks| + 1 && Consistent(states[0])
    && forall n :: 0 <= n < |oks| ==> PassOutcome(states[n], states[n + 1], oks[n])
  }

  /** However many passes were interrupted wherever, no row of an existing instance is ever lost, and once one
      pass succeeds the table has exactly those rows under a validated cascade, for good. */
  lemma {:induction false} RepairConverges(states: seq<Database>, oks: seq<bool>, k: nat)
    requires Passes(states, oks) && k < |oks| && oks[k]
    ensures var first, last := states[0], states[|oks|];
            last.fk == Cascade(true) && last.rows == Owned(first.rows, first.instances)
    ensures forall n :: k < n <= |oks| ==> states[n] == states[k + 1]
  {
    var n := |oks| - 1;
    assert PassOutcome(states[n], states[n + 1], oks[n]);
    if k == n {
      OwnedRowsSurvive(states, oks, n);
    } else {
      ShorterPasses(states, oks);
      RepairConverges(states[..n + 1], oks[..n], k);
      assert forall m :: k < m <= n ==> states[..n + 1][m] == states[m];
    }
  }

  lemma ShorterPasses(states: seq<Database>, oks: seq<bool>)
    requires Passes(states, oks) && oks != []
    ensures Passes(states[..|oks|], oks[..|oks| - 1])
  {
    forall m | 0 <= m < |oks| - 1
      ensures PassOutcome(states[..|oks|][m], states[..|oks|][m + 1], oks[..|oks| - 1][m])
    {
      assert PassOutcome(states[m], states[m + 1], oks[m]);
    }
  }

  lemma {:induction false} OwnedRowsSurvive(states: seq<Database>, oks: seq<bool>, k: nat)
    requires Passes(states, oks) && k <= |oks|
    ensures states[k].instances == states[0].instances
    ensures Owned(states[k].rows, states[k].instances) == Owned(states[0].rows, states[0].instances)
  {
    if k > 0 {
      OwnedRowsSurvive(states, oks, k - 1);
      assert PassOutcome(states[k - 1], states[k - 1 + 1], oks[k - 1]);
    }
  }
}
