/** The daily utilisation table and the upsert at the end of
    `calculate_and_store`: one row per (date, robot key), keyed uniquely. */
module DailyTable {
  import opened Jobs
  import opened Utilization

  /** A stored row: the table's primary key and the value columns. */
  datatype Stored = Stored(id: nat, row: Row)

  /** The daily utilisation table, keyed by its unique (date, robot) pair. */
  type Store = map<GroupKey, Stored>

  ghost predicate UniqueIds(store: Store)
  {
    forall k1, k2 :: k1 in store && k2 in store && k1 != k2 ==> store[k1].id != store[k2].id
  }

  lemma UpdateKeepsIds(store: Store, k: GroupKey, row: Row)
    requires k in store && UniqueIds(store)
    ensures UniqueIds(store[k := Stored(store[k].id, row)])
  {
    var s' := store[k := Stored(store[k].id, row)];
    assert forall k' :: k' in s' ==> s'[k'].id == store[k'].id;
  }

  lemma InsertKeepsIds(store: Store, k: GroupKey, row: Row, next: nat)
    requires k !in store && UniqueIds(store)
    requires forall k' :: k' in store ==> store[k'].id < next
    ensures UniqueIds(store[k := Stored(next, row)])
  {
  }

  /** One iteration of the upsert loop: overwrite the row of key `k`
      keeping its id when the key is present, else insert it with id
      `next`, which then advances. */
  function Put(store: Store, k: GroupKey, row: Row, next: nat): (r: (Store, nat))
    requires UniqueIds(store) && forall k' :: k' in store ==> store[k'].id < next
    ensures r.0.Keys == store.Keys + {k}
    ensures r.0[k].row == row
    ensures k in store ==> r.0[k].id == store[k].id && r.1 == next
    ensures k !in store ==> r.0[k].id == next && r.1 == next + 1
    ensures forall k' :: k' in store && k' != k ==> r.0[k'] == store[k']
    ensures UniqueIds(r.0) && forall k' :: k' in r.0 ==> r.0[k'].id < r.1
  {
    if k in store then
      UpdateKeepsIds(store, k, row);
      (store[k := Stored(store[k].id, row)], next)
    else
      InsertKeepsIds(store, k, row, next);
      (store[k := Stored(next, row)], next + 1)
  }

  /** What the upsert loop has achieved once the keys in `done` are
      written: their rows are the computed ones, keys of the old table keep
      their ids and, until written, their rows, new keys got ids from
      `nextId` on, and ids stay unique and below `next`. */
  ghost predicate Upserted(store: Store, rows: map<GroupKey, Row>, nextId: nat,
                     result: Store, next: nat, done: set<GroupKey>)
  {
    && done <= rows.Keys
    && result.Keys == store.Keys + done
    && UniqueIds(result)
    && (forall k :: k in result ==> result[k].id < next)
    && (forall k :: k in done ==> result[k].row == rows[k])
    && (forall k :: k in store && k !in done ==> result[k] == store[k])
    && (forall k :: k in store ==> result[k].id == store[k].id)
    && (forall k :: k in result && k !in store ==> nextId <= result[k].id)
    && nextId <= next
  }

  /** Writing one more key keeps the loop's progress. */
  lemma PutProgress(store: Store, rows: map<GroupKey, Row>, nextId: nat,
                    result: Store, next: nat, done: set<GroupKey>, k: GroupKey)
    requires Upserted(store, rows, nextId, result, next, done)
    requires k in rows && k !in done
    ensures Upserted(store, rows, nextId, Put(result, k, rows[k], next).0,
                     Put(result, k, rows[k], next).1, done + {k})
  {
    if k in result {
      UpdateProgress(store, rows, nextId, result, next, done, k);
    } else {
      InsertProgress(store, rows, nextId, result, next, done, k);
    }
  }

  /** Overwriting a key of the old table keeps its id. */
  lemma UpdateProgress(store: Store, rows: map<GroupKey, Row>, nextId: nat,
                       result: Store, next: nat, done: set<GroupKey>, k: GroupKey)
    requires Upserted(store, rows, nextId, result, next, done)
    requires k in rows && k !in done && k in result
    ensures Upserted(store, rows, nextId, result[k := Stored(result[k].id, rows[k])], next, done + {k})
  {
    UpdateKeepsIds(result, k, rows[k]);
    var r := result[k := Stored(result[k].id, rows[k])];
    assert forall k' :: k' in r ==> r[k'].id == result[k'].id;
  }

  /** Inserting a new key takes the id `next`. */
  lemma InsertProgress(store: Store, rows: map<GroupKey, Row>, nextId: nat,
                       result: Store, next: nat, done: set<GroupKey>, k: GroupKey)
    requires Upserted(store, rows, nextId, result, next, done)
    requires k in rows && k !in done && k !in result
    ensures Upserted(store, rows, nextId, result[k := Stored(next, rows[k])], next + 1, done + {k})
  {
    InsertKeepsIds(result, k, rows[k], next);
  }

  /** The upsert loop over all computed rows: a key already in the table
      keeps its row id and gets the new values, a new key is inserted with
      a fresh id, keys without a computed row keep their rows, and ids stay
      unique. */
  method Upsert(store: Store, rows: map<GroupKey, Row>, nextId: nat)
    returns (result: Store)
    requires forall k :: k in store ==> store[k].id < nextId
    requires UniqueIds(store)
    ensures result.Keys == store.Keys + rows.Keys
    ensures forall k :: k in rows ==> result[k].row == rows[k]
    ensures forall k :: k in rows && k in store ==> result[k].id == store[k].id
    ensures forall k :: k in rows && k !in store ==> result[k].id >= nextId
    ensures forall k :: k in store && k !in rows ==> result[k] == store[k]
    ensures UniqueIds(result)
  {
    result := store;
    var next := nextId;
    var remaining := rows.Keys;
    ghost var done: set<GroupKey> := {};
    while remaining != {}
      invariant done !! remaining && done + remaining == rows.Keys
      invariant Upserted(store, rows, nextId, result, next, done)
      decreases remaining
    {
      var k :| k in remaining;
      PutProgress(store, rows, nextId, result, next, done, k);
      var put := Put(result, k, rows[k], next);
      result, next := put.0, put.1;
      remaining := remaining - {k};
      done := done + {k};
    }
  }

  /** `calculate_and_store` over a job list and a table: afterwards the table
      holds one row per (date, robot key) group, computed from that group's
      spans and obeying the 24-hour rule; a group already in the table keeps
      its row id, a new one gets a fresh id, other rows are untouched, and
      the count returned is the number of groups written. */
  method CalculateAndStore(jobs: seq<Job>, store: Store, nextId: nat)
    returns (result: Store, count: nat)
    requires forall k :: k in store ==> store[k].id < nextId
    requires UniqueIds(store)
    ensures result.Keys == store.Keys + ByDayRobot(jobs).Keys
    ensures forall k :: k in ByDayRobot(jobs) ==>
              && result[k].row == ComputeRow(ByDayRobot(jobs)[k], k.0)
              && result[k].row.totalRuntimeHours + result[k].row.idleHours == AVAILABLE_HOURS
    ensures forall k :: k in ByDayRobot(jobs) && k in store ==> result[k].id == store[k].id
    ensures forall k :: k in ByDayRobot(jobs) && k !in store ==> result[k].id >= nextId
    ensures forall k :: k in store && k !in ByDayRobot(jobs) ==> result[k] == store[k]
    ensures UniqueIds(result)
    ensures count == |ByDayRobot(jobs).Keys|
  {
    var groups := ByDayRobot(jobs);
    var rows := map k | k in groups :: ComputeRow(groups[k], k.0);
    assert rows.Keys == groups.Keys;
    result := Upsert(store, rows, nextId);
    count := |groups.Keys|;
    forall k | k in groups
      ensures result[k].row.totalRuntimeHours + result[k].row.idleHours == AVAILABLE_HOURS
    {
      assert result[k].row == ComputeRow(groups[k], k.0);
    }
  }
}
