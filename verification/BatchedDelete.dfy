/** Deleting the usage history of a range of dates: in one statement, or in batches. */
module BatchedDeletes {
  type Ctid = nat // where the database stores a row
  datatype Record = Record(nodeId: int, userId: int, totalBytes: int, createdAt: int)
  type Table = map<Ctid, Record>

  /** Dates, both ends included. */
  datatype Range = Range(start: int, end: int) {
    predicate Has(x: Record) {
      start <= x.createdAt <= end
    }
  }

  function Matching(t: Table, r: Range): set<Ctid> {
    set c | c in t && r.Has(t[c])
  }

  function Outside(t: Table, r: Range): Table {
    map c | c in t && !r.Has(t[c]) :: t[c]
  }

  /** A range of one date holds the rows of that date. */
  lemma OneDate(t: Table, date: int)
    ensures forall c | c in t :: c in Matching(t, Range(date, date)) <==> t[c].createdAt == date
  {
  }

  /** A range holds the rows of its first date, those of its last date, and those in between; a range that
      ends before it starts holds none. */
  lemma RangeSplits(t: Table, r: Range, date: int)
    ensures r.start <= date < r.end ==>
              && Matching(t, r) == Matching(t, Range(r.start, date)) + Matching(t, Range(date + 1, r.end))
              && Matching(t, Range(r.start, date)) !! Matching(t, Range(date + 1, r.end))
    ensures r.end < r.start ==> Matching(t, r) == {}
  {
  }

  /** Some rows of the range are deleted, as many as there are up to the limit; which, is up to the
      database. */
  ghost predicate IsBatch(before: Table, after: Table, r: Range, limit: nat, deleted: nat) {
    exists chosen: set<Ctid> | chosen <= Matching(before, r) ::
      && deleted == |chosen| == (if limit < |Matching(before, r)| then limit else |Matching(before, r)|)
      && after == before - chosen
  }

  lemma BatchEffect(before: Table, after: Table, r: Range, limit: nat, deleted: nat)
    requires IsBatch(before, after, r, limit, deleted)
    ensures |Matching(after, r)| == |Matching(before, r)| - deleted
    ensures Outside(after, r) == Outside(before, r)
  {
    var chosen: set<Ctid> :| chosen <= Matching(before, r) && |chosen| == deleted && after == before - chosen;
    ChosenEffect(before, chosen, r);
  }

  lemma ChosenEffect(before: Table, chosen: set<Ctid>, r: Range)
    requires chosen <= Matching(before, r)
    ensures |Matching(before - chosen, r)| == |Matching(before, r)| - |chosen|
    ensures Outside(before - chosen, r) == Outside(before, r)
  {
    var after := before - chosen;
    forall c ensures c in Matching(after, r) <==> c in Matching(before, r) - chosen {
    }
    assert Matching(after, r) == Matching(before, r) - chosen;
    forall c ensures c in Outside(after, r) <==> c in Outside(before, r) {
    }
  }

  lemma StoreEffect(before: Table, c: Ctid, x: Record, r: Range)
    requires c !in before
    ensures |Matching(before[c := x], r)| == |Matching(before, r)| + if r.Has(x) then 1 else 0
    ensures Outside(before[c := x], r) == if r.Has(x) then Outside(before, r) else Outside(before, r)[c := x]
  {
    var after := before[c := x];
    if r.Has(x) {
      assert Matching(after, r) == Matching(before, r) + {c};
      assert Outside(after, r) == Outside(before, r);
    } else {
      assert Matching(after, r) == Matching(before, r);
    }
  }

  /** k batches of b rows are just enough for n rows. */
  predicate JustEnough(k: nat, n: nat, b: nat) {
    n <= k * b && (k > 0 ==> (k - 1) * b < n)
  }

  lemma {:induction false} Grows(x: nat, y: nat, b: nat)
    requires x <= y
    ensures x * b <= y * b
    decreases y
  {
    if x < y {
      Grows(x, y - 1, b);
      assert y * b == (y - 1) * b + b;
    }
  }

  /** Division by the only quotient that leaves a remainder. */
  lemma QuotientIs(a: nat, b: nat, k: nat)
    requires b > 0 && k * b <= a < k * b + b
    ensures k == a / b
  {
    var q := a / b;
    assert q * b <= a < q * b + b;
    assert (q + 1) * b == q * b + b && (k + 1) * b == k * b + b;
    if q < k {
      Grows(q + 1, k, b);
    } else if k < q {
      Grows(k + 1, q, b);
    }
  }

  lemma JustEnoughIsCeiling(k: nat, n: nat, b: nat)
    requires b > 0
    ensures JustEnough(k, n, b) <==> k == (n + b - 1) / b
  {
    assert k > 0 ==> (k - 1) * b == k * b - b;
    if k == (n + b - 1) / b {
      assert k * b <= n + b - 1 < k * b + b;
    }
    if JustEnough(k, n, b) {
      QuotientIs(n + b - 1, b, k);
    }
  }

  class Database {
    var rows: Table

    constructor (rows: Table)
      ensures this.rows == rows
    {
      this.rows := rows;
    }

    method DeleteWithLimit(r: Range, limit: nat) returns (deleted: nat)
      modifies this
      ensures IsBatch(old(rows), rows, r, limit, deleted)
    {
      var rest, chosen: set<Ctid> := Matching(rows, r), {};
      while rest != {} && |chosen| < limit
        invariant chosen <= Matching(rows, r) && rest == Matching(rows, r) - chosen
        invariant |chosen| <= limit
        decreases rest
      {
        var c :| c in rest;
        rest, chosen := rest - {c}, chosen + {c};
      }
      assert rest == {} ==> chosen == Matching(rows, r);
      assert |Matching(rows, r)| == |chosen| + |rest|;
      rows := rows - chosen;
      return |chosen|;
    }

    method Delete(r: Range) returns (deleted: nat)
      modifies this
      ensures deleted == |Matching(old(rows), r)| && rows == Outside(old(rows), r)
    {
      deleted := |Matching(rows, r)|;
      rows := rows - Matching(rows, r);
    }
  }

  /** Ends when a batch deletes nothing. The table and the count are those of the single statement. */
  method RunBatchedDelete(db: Database, r: Range, batchSize: nat) returns (totalDeleted: nat, batches: nat)
    requires batchSize > 0
    modifies db
    ensures db.rows == Outside(old(db.rows), r)
    ensures totalDeleted == |Matching(old(db.rows), r)|
    ensures forall c :: c in db.rows <==>
              c in old(db.rows) && (old(db.rows)[c].createdAt < r.start || r.end < old(db.rows)[c].createdAt)
    ensures JustEnough(batches, totalDeleted, batchSize)
  {
    totalDeleted, batches := 0, 0;
    while true
      invariant Outside(db.rows, r) == old(Outside(db.rows, r))
      invariant totalDeleted + |Matching(db.rows, r)| == old(|Matching(db.rows, r)|)
      invariant JustEnough(batches, totalDeleted, batchSize)
      invariant Matching(db.rows, r) != {} ==> totalDeleted == batches * batchSize
      decreases |Matching(db.rows, r)|
    {
      ghost var before := db.rows;
      var deleted := db.DeleteWithLimit(r, batchSize);
      BatchEffect(before, db.rows, r, batchSize, deleted);
      if deleted == 0 {
        assert |Matching(db.rows, r)| == 0;
        assert Matching(db.rows, r) == {};
        assert db.rows == Outside(db.rows, r);
        return;
      }
      assert |Matching(before, r)| > 0 ==> Matching(before, r) != {};
      totalDeleted := totalDeleted + deleted;
      batches := batches + 1;
    }
  }

  method RunSingleDelete(db: Database, r: Range) returns (deleted: nat)
    modifies db
    ensures db.rows == Outside(old(db.rows), r)
    ensures deleted == |Matching(old(db.rows), r)|
    ensures forall c :: c in db.rows <==>
              c in old(db.rows) && (old(db.rows)[c].createdAt < r.start || r.end < old(db.rows)[c].createdAt)
    ensures forall c | c in db.rows :: db.rows[c] == old(db.rows)[c]
  {
    deleted := db.Delete(r);
  }

  // ---------------------------------------------------------------- while others write

  /** A batch, or a row stored by somebody else. */
  datatype Step = Batch(limit: nat, deleted: nat) | Store(c: Ctid, x: Record)

  ghost predicate Took(before: Table, after: Table, r: Range, s: Step) {
    match s
    case Batch(limit, deleted) => IsBatch(before, after, r, limit, deleted)
    case Store(c, x) => c !in before && after == before[c := x]
  }

  ghost predicate IsRun(tables: seq<Table>, steps: seq<Step>, r: Range) {
    && |tables| == |steps| + 1
    && forall i | 0 <= i < |steps| :: Took(tables[i], tables[i + 1], r, steps[i])
  }

  function Deleted(steps: seq<Step>): nat {
    if steps == [] then 0
    else Deleted(steps[..|steps| - 1]) + match steps[|steps| - 1] case Batch(_, n) => n case _ => 0
  }

  function StoredIn(steps: seq<Step>, r: Range): nat {
    if steps == [] then 0
    else
      var last := match steps[|steps| - 1] case Store(_, x) => (if r.Has(x) then 1 else 0) case _ => 0;
      StoredIn(steps[..|steps| - 1], r) + last
  }

  function StoredOutside(steps: seq<Step>, r: Range): Table {
    if steps == [] then map[]
    else
      var rest := StoredOutside(steps[..|steps| - 1], r);
      match steps[|steps| - 1] case Store(c, x) => (if r.Has(x) then rest else rest[c := x]) case _ => rest
  }

  /** However batches and other writers interleave: what was deleted and what is left of the range add
      up to what was there and what came in, and outside the range nothing but the new rows changed. */
  lemma {:induction false} InterleavedRun(tables: seq<Table>, steps: seq<Step>, r: Range)
    requires IsRun(tables, steps, r)
    ensures Deleted(steps) + |Matching(tables[|steps|], r)| == |Matching(tables[0], r)| + StoredIn(steps, r)
    ensures Outside(tables[|steps|], r) == Outside(tables[0], r) + StoredOutside(steps, r)
    decreases |steps|
  {
    if steps != [] {
      var n := |steps| - 1;
      InterleavedRun(tables[..|steps|], steps[..n], r);
      var before, after := tables[n], tables[n + 1];
      assert Took(before, after, r, steps[n]);
      match steps[n]
      case Batch(limit, deleted) =>
        BatchEffect(before, after, r, limit, deleted);
      case Store(c, x) =>
        StoreEffect(before, c, x, r);
    }
  }
}
