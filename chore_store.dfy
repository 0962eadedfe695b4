/** The `ChildTaskEvents` table (one row per child, task and day, holding the
    approval state) and the append-only `PointsLedger`, held by one object
    that the task handlers update in place. */
module ChoreStore {
  import opened Common
  import opened Dates

  /** Status codes 0 = Pending, 1 = ChildDone, 2 = Approved, 3 = Rejected. */
  datatype Status = Pending | ChildDone | Approved | Rejected {
    function Code(): (c: int)
      ensures 0 <= c <= 3
    {
      match this
      case Pending => 0
      case ChildDone => 1
      case Approved => 2
      case Rejected => 3
    }
  }

  /** The table's conflict key (child_id, task_id, task_date).  The id is the
      `task_id` of the task endpoints and the `event_id` of the calendar ones. */
  datatype InstanceKey = InstanceKey(child: int, task: int, date: Date)

  datatype Instance = Instance(
    key: InstanceKey,
    family: int,
    assignment: Option<int>,
    status: Status,
    childMarkedAt: Option<Instant>,
    confirmedBy: Option<int>,
    confirmedAt: Option<Instant>,
    pointsAwarded: int)

  datatype Source = TaskSource | TriviaSource

  datatype LedgerEntry = LedgerEntry(family: int, child: int, points: int, source: Source, refEvent: int, createdAt: Instant)

  predicate UniqueKeys(rows: seq<Instance>) {
    forall i, j :: 0 <= i < j < |rows| ==> rows[i].key != rows[j].key
  }

  /** The position of the row holding key `k`, if any. */
  function Find(rows: seq<Instance>, k: InstanceKey): (r: Option<nat>)
    ensures r.Some? ==> r.value < |rows| && rows[r.value].key == k
    ensures r.None? ==> forall i :: 0 <= i < |rows| ==> rows[i].key != k
  {
    if rows == [] then None
    else if rows[|rows| - 1].key == k then Some(|rows| - 1)
    else Find(rows[..|rows| - 1], k)
  }

  /** With unique keys, the row holding a key is the one `Find` returns. */
  lemma FindUnique(rows: seq<Instance>, i: nat)
    requires UniqueKeys(rows) && i < |rows|
    ensures Find(rows, rows[i].key) == Some(i)
  {
  }

  /** How many rows hold key `k`. */
  function CountKey(rows: seq<Instance>, k: InstanceKey): nat {
    if rows == [] then 0
    else CountKey(rows[..|rows| - 1], k) + (if rows[|rows| - 1].key == k then 1 else 0)
  }

  lemma {:induction false} CountKeyOfUnique(rows: seq<Instance>, k: InstanceKey)
    requires UniqueKeys(rows)
    ensures CountKey(rows, k) == if Find(rows, k).Some? then 1 else 0
  {
    if rows != [] {
      var init := rows[..|rows| - 1];
      CountKeyOfUnique(init, k);
      if rows[|rows| - 1].key == k {
        assert Find(init, k).None? by {
          forall i | 0 <= i < |init| ensures init[i].key != k {
            assert rows[i].key != rows[|rows| - 1].key;
          }
        }
      }
    }
  }

  /** Replacing one row by a row with the same key keeps the keys unique. */
  lemma UpdateKeepsUnique(rows: seq<Instance>, i: nat, row: Instance)
    requires UniqueKeys(rows) && i < |rows| && row.key == rows[i].key
    ensures UniqueKeys(rows[i := row])
  {
  }

  /** The upsert both mark-done endpoints run:
      `INSERT ... status 1, child_marked_at now() ON CONFLICT (key) DO UPDATE SET status = 1, child_marked_at = now()`.
      A conflicting row keeps its family, assignment, confirmation and points, whatever its status. */
  function UpsertChildDone(rows: seq<Instance>, key: InstanceKey, family: int, assignment: Option<int>, now: Instant): (r: seq<Instance>)
    requires UniqueKeys(rows)
    ensures UniqueKeys(r)
    ensures Find(r, key).Some? && r[Find(r, key).value].status == ChildDone
    ensures r[Find(r, key).value].childMarkedAt == Some(now)
    ensures CountKey(r, key) == 1
    ensures |r| == |rows| + (if Find(rows, key).Some? then 0 else 1)
    ensures forall i :: 0 <= i < |rows| && rows[i].key != key ==> r[i] == rows[i]
    ensures match Find(rows, key)
      case Some(i) =>
        r == rows[i := rows[i].(status := ChildDone, childMarkedAt := Some(now))]
      case None =>
        r == rows + [Instance(key, family, assignment, ChildDone, Some(now), None, None, 0)]
  {
    var r := match Find(rows, key)
      case Some(i) => rows[i := rows[i].(status := ChildDone, childMarkedAt := Some(now))]
      case None => rows + [Instance(key, family, assignment, ChildDone, Some(now), None, None, 0)];
    assert UniqueKeys(r);
    FindUnique(r, match Find(rows, key) case Some(i) => i case None => |rows|);
    CountKeyOfUnique(r, key);
    r
  }

  /** Marking done twice adds no second row: the second upsert finds the first one. */
  lemma UpsertIdempotentInSize(rows: seq<Instance>, key: InstanceKey, family: int, assignment: Option<int>, t1: Instant, t2: Instant)
    requires UniqueKeys(rows)
    ensures var once := UpsertChildDone(rows, key, family, assignment, t1);
            |UpsertChildDone(once, key, family, assignment, t2)| == |once|
  {
  }

  class Board {
    var rows: seq<Instance>
    var ledger: seq<LedgerEntry>

    ghost predicate Valid()
      reads this
    {
      UniqueKeys(rows)
    }

    constructor (initial: seq<Instance>)
      requires UniqueKeys(initial)
      ensures Valid() && rows == initial && ledger == []
    {
      rows := initial;
      ledger := [];
    }
  }

  /** `SUM(points)` over the ledger entries that `keep` selects, `COALESCE`d to 0. */
  function PointsWhere(ledger: seq<LedgerEntry>, keep: LedgerEntry -> bool): int {
    if ledger == [] then 0
    else
      var last := ledger[|ledger| - 1];
      PointsWhere(ledger[..|ledger| - 1], keep) + (if keep(last) then last.points else 0)
  }

  lemma PointsWhereAppend(ledger: seq<LedgerEntry>, e: LedgerEntry, keep: LedgerEntry -> bool)
    ensures PointsWhere(ledger + [e], keep) == PointsWhere(ledger, keep) + (if keep(e) then e.points else 0)
  {
    assert (ledger + [e])[..|ledger|] == ledger;
  }

  /** With no selected entry the sum is 0. */
  lemma {:induction false} PointsWhereNone(ledger: seq<LedgerEntry>, keep: LedgerEntry -> bool)
    requires forall k :: 0 <= k < |ledger| ==> !keep(ledger[k])
    ensures PointsWhere(ledger, keep) == 0
  {
    if ledger != [] {
      PointsWhereNone(ledger[..|ledger| - 1], keep);
    }
  }

  /** The sum only depends on the entries that are selected. */
  lemma {:induction false} PointsWhereSame(ledger: seq<LedgerEntry>, k1: LedgerEntry -> bool, k2: LedgerEntry -> bool)
    requires forall k :: 0 <= k < |ledger| ==> k1(ledger[k]) == k2(ledger[k])
    ensures PointsWhere(ledger, k1) == PointsWhere(ledger, k2)
  {
    if ledger != [] {
      PointsWhereSame(ledger[..|ledger| - 1], k1, k2);
    }
  }
}
