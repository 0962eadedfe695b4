/** The child's view of the calendar: the day's events aimed at the child, the
    `markChildDone` upsert on calendar events, and the daily score read from
    `childtaskevents`. */
module KidsEvents {
  import opened Common
  import opened Dates
  import opened Ordering
  import opened ChoreStore
  import opened Calendar

  /** The `events` columns the child listing reads. */
  datatype CalEvent = CalEvent(id: int, family: int, title: string, startAt: Instant, endAt: Option<Instant>, category: Option<int>)

  /** `COALESCE(e.end_at, e.start_at + INTERVAL '1 minute')`. */
  function EndOf(e: CalEvent): Instant {
    e.endAt.GetOr(e.startAt + MsPerMinute)
  }

  /** `tstzrange(a, b, '[)') && tstzrange(c, d, '[)')`; an empty range overlaps nothing. */
  predicate RangesOverlap(a: Instant, b: Instant, c: Instant, d: Instant) {
    a < b && c < d && a < d && c < b
  }

  predicate Within(t: Instant, a: Instant, b: Instant) {
    a <= t < b
  }

  /** Two half-open ranges overlap exactly when some instant lies in both. */
  lemma RangesOverlapMeaning(a: Instant, b: Instant, c: Instant, d: Instant)
    ensures RangesOverlap(a, b, c, d) <==> exists t :: Within(t, a, b) && Within(t, c, d)
  {
    if RangesOverlap(a, b, c, d) {
      var t := if a < c then c else a;
      assert Within(t, a, b) && Within(t, c, d);
    }
  }

  /** `day_range`: midnight of the date to midnight of the next day. */
  predicate OnDate(e: CalEvent, d: Date) {
    RangesOverlap(e.startAt, EndOf(e), StartOf(d), StartOf(d) + MsPerDay)
  }

  /** An event without an end lasts one minute: it is on a day when it starts
      during that day or in the minute before its midnight; in particular it is
      on the day its start falls on. */
  lemma NoEndLastsAMinute(e: CalEvent, d: Date)
    requires e.endAt.None?
    ensures OnDate(e, d) <==> StartOf(d) - MsPerMinute < e.startAt < StartOf(d) + MsPerDay
    ensures DayOf(e.startAt) == DayNumber(d) ==> OnDate(e, d)
  {
    var q := e.startAt / MsPerDay;
    assert e.startAt == q * MsPerDay + e.startAt % MsPerDay;
  }

  /** The EXISTS sub-query: a target row of the event and family aimed at
      the whole family, at all kids, or at this child. */
  predicate AimsAt(t: TargetRow, event: int, family: int, child: int) {
    && t.event == event && t.family == Int(family)
    && (t.kind == Some("family") || t.kind == Some("all_kids") || (t.kind == Some("child") && t.child == Some(child)))
  }

  predicate Targeted(targets: seq<TargetRow>, event: int, family: int, child: int) {
    exists k :: 0 <= k < |targets| && AimsAt(targets[k], event, family, child)
  }

  /** The WHERE clause of `listChildTasks`. */
  predicate Listed(e: CalEvent, d: Date, family: int, child: int, targets: seq<TargetRow>) {
    e.family == family && OnDate(e, d) && Targeted(targets, e.id, family, child)
  }

  /** A target aimed at another child does not list the event. */
  lemma OtherChildTargetIsNotEnough(t: TargetRow, event: int, family: int, child: int)
    requires t.kind == Some("child") && t.child != Some(child)
    ensures !AimsAt(t, event, family, child)
  {
  }

  /** The listed events in table order. */
  function ListedEvents(events: seq<CalEvent>, d: Date, family: int, child: int, targets: seq<TargetRow>): (r: seq<CalEvent>)
    ensures forall e :: e in r <==> e in events && Listed(e, d, family, child, targets)
    ensures forall e :: multiset(r)[e] == (if Listed(e, d, family, child, targets) then multiset(events)[e] else 0)
  {
    if events == [] then []
    else
      var rest := ListedEvents(events[..|events| - 1], d, family, child, targets);
      var last := events[|events| - 1];
      assert events == events[..|events| - 1] + [last];
      rest + (if Listed(last, d, family, child, targets) then [last] else [])
  }

  /** `ORDER BY e.start_at, e.event_id`. */
  function EventOrder(e: CalEvent): seq<int> {
    [e.startAt, e.id]
  }

  /** A row of the listing response. */
  datatype ChildItem = ChildItem(
    task: int, title: string, pointsDefault: int, status: int,
    childMarkedAt: Option<Instant>, confirmedAt: Option<Instant>, pointsAwarded: Option<int>,
    categoryColor: Option<string>)

  /** The LEFT JOIN on `childtaskevents`: the child's row for the event and day,
      when it belongs to the family. */
  function JoinedRow(rows: seq<Instance>, key: InstanceKey, family: int): (r: Option<Instance>)
    ensures r.Some? ==> r.value in rows && r.value.key == key && r.value.family == family
    ensures r.None? && UniqueKeys(rows) ==> forall i :: 0 <= i < |rows| && rows[i].key == key ==> rows[i].family != family
  {
    var f := Find(rows, key);
    if f.Some? && rows[f.value].family == family then Some(rows[f.value])
    else None
  }

  function ItemFor(e: CalEvent, child: int, d: Date, rows: seq<Instance>, colors: map<int, string>): ChildItem {
    var s := JoinedRow(rows, InstanceKey(child, e.id, d), e.family);
    ChildItem(
      e.id, e.title, 1,
      if s.Some? then s.value.status.Code() else 0,
      if s.Some? then s.value.childMarkedAt else None,
      if s.Some? then s.value.confirmedAt else None,
      if s.Some? then Some(s.value.pointsAwarded) else None,
      if e.category.Some? && e.category.value in colors then Some(colors[e.category.value]) else None)
  }

  function ItemsFor(es: seq<CalEvent>, child: int, d: Date, rows: seq<Instance>, colors: map<int, string>): (r: seq<ChildItem>)
    ensures |r| == |es|
    ensures forall k :: 0 <= k < |es| ==> r[k] == ItemFor(es[k], child, d, rows, colors)
  {
    if es == [] then [] else [ItemFor(es[0], child, d, rows, colors)] + ItemsFor(es[1..], child, d, rows, colors)
  }

  // ---------- the statement as written ----------

  /** The clauses of a SELECT statement, in the order the text writes them. */
  datatype Clause = With | Select | From | Join | Where | OrderBy

  function Place(c: Clause): int {
    match c
    case With => 0
    case Select => 1
    case From => 2
    case Join => 3
    case Where => 4
    case OrderBy => 5
  }

  /** PostgreSQL's SELECT grammar: the FROM list with its joins precedes WHERE,
      which precedes ORDER BY; a JOIN after WHERE is a syntax error. */
  predicate Parses(q: seq<Clause>) {
    forall i, j :: 0 <= i < j < |q| ==> Place(q[i]) <= Place(q[j])
  }

  /** `listChildTasks` as written: the `childtaskevents` LEFT JOIN follows the WHERE clause. */
  const AsWritten: seq<Clause> := [With, Select, From, Join, Join, Where, Join, OrderBy]

  /** The evidently intended statement: every join before WHERE. */
  const Intended: seq<Clause> := [With, Select, From, Join, Join, Join, Where, OrderBy]

  lemma AsWrittenDoesNotParse()
    ensures !Parses(AsWritten)
    ensures Parses(Intended)
  {
    assert Place(AsWritten[5]) > Place(AsWritten[6]);
  }

  datatype ListResult = ListBadRequest | ListDbError | Items(items: seq<ChildItem>)

  /** `listChildTasks` with the corrected statement: 400 unless family, child and
      date are given; otherwise one item per listed event, by start time then id,
      with the child's status for the day (0 without a row) and one point by default. */
  function ListChildTasks(family: Option<int>, child: Option<int>, date: Option<Date>,
                          events: seq<CalEvent>, targets: seq<TargetRow>, rows: seq<Instance>, colors: map<int, string>): (r: ListResult)
    ensures r.ListBadRequest? <==> !Truthy(family) || !Truthy(child) || date.None?
    ensures !r.ListDbError?
    ensures r.Items? ==>
      var es := SortByKey(ListedEvents(events, date.value, family.value, child.value, targets), EventOrder);
      && SortedBy(es, EventOrder)
      && (forall e :: e in es <==> e in events && Listed(e, date.value, family.value, child.value, targets))
      && r.items == ItemsFor(es, child.value, date.value, rows, colors)
  {
    if !Truthy(family) || !Truthy(child) || date.None? then ListBadRequest
    else
      var listed := ListedEvents(events, date.value, family.value, child.value, targets);
      SortByKeyCorrect(listed, EventOrder);
      var es := SortByKey(listed, EventOrder);
      assert forall e :: e in es <==> e in listed by {
        forall e ensures e in es <==> e in listed {
          assert e in es <==> multiset(es)[e] > 0;
          assert e in listed <==> multiset(listed)[e] > 0;
        }
      }
      Items(ItemsFor(es, child.value, date.value, rows, colors))
  }

  /** `listChildTasks` as written: every well-formed request fails with a database error. */
  function ListChildTasksAsWritten(family: Option<int>, child: Option<int>, date: Option<Date>,
                                   events: seq<CalEvent>, targets: seq<TargetRow>, rows: seq<Instance>, colors: map<int, string>): (r: ListResult)
    ensures r.ListBadRequest? <==> !Truthy(family) || !Truthy(child) || date.None?
    ensures !r.ListBadRequest? ==> r.ListDbError?
  {
    AsWrittenDoesNotParse();
    if !Truthy(family) || !Truthy(child) || date.None? then ListBadRequest
    else if Parses(AsWritten) then ListChildTasks(family, child, date, events, targets, rows, colors)
    else ListDbError
  }

  /** A child with one family event at midnight of any date: the corrected
      listing shows it, the statement as written answers 500. */
  lemma AsWrittenLosesTheEvent(d: Date)
    ensures var e := CalEvent(7, 1, "Swim", StartOf(d), None, None);
      var t := [TargetRow(7, Int(1), Some("family"), None, None)];
      && ListChildTasksAsWritten(Some(1), Some(2), Some(d), [e], t, [], map[]) == ListDbError
      && ListChildTasks(Some(1), Some(2), Some(d), [e], t, [], map[]).Items?
      && |ListChildTasks(Some(1), Some(2), Some(d), [e], t, [], map[]).items| == 1
  {
    var e := CalEvent(7, 1, "Swim", StartOf(d), None, None);
    var t := [TargetRow(7, Int(1), Some("family"), None, None)];
    assert AimsAt(t[0], 7, 1, 2);
    assert Listed(e, d, 1, 2, t);
    assert ListedEvents([e], d, 1, 2, t) == [e];
    SortByKeyCorrect([e], EventOrder);
  }

  /** A listed event with no row for the child and day reports status 0 and no points. */
  lemma UnmarkedEventIsPending(e: CalEvent, child: int, d: Date, rows: seq<Instance>, colors: map<int, string>)
    requires Find(rows, InstanceKey(child, e.id, d)).None?
    ensures ItemFor(e, child, d, rows, colors).status == 0
    ensures ItemFor(e, child, d, rows, colors).pointsAwarded.None?
    ensures ItemFor(e, child, d, rows, colors).pointsDefault == 1
  {
  }

  // ---------- mark done ----------

  datatype MarkResult = MarkBadRequest | Marked

  /** `markChildDone`: 400 unless family, child, event and date are given;
      otherwise the row for (child, event, date) exists once with status 1. */
  method MarkChildDone(board: Board, family: Option<int>, child: Option<int>, event: Option<int>, date: Option<Date>, now: Instant)
    returns (r: MarkResult)
    requires board.Valid()
    modifies board
    ensures board.Valid()
    ensures r.MarkBadRequest? <==> !Truthy(family) || !Truthy(child) || !Truthy(event) || date.None?
    ensures board.ledger == old(board.ledger)
    ensures r.MarkBadRequest? ==> board.rows == old(board.rows)
    ensures r.Marked? ==>
      board.rows == UpsertChildDone(old(board.rows), InstanceKey(child.value, event.value, date.value), family.value, None, now)
  {
    if !Truthy(family) || !Truthy(child) || !Truthy(event) || date.None? {
      return MarkBadRequest;
    }
    board.rows := UpsertChildDone(board.rows, InstanceKey(child.value, event.value, date.value), family.value, None, now);
    r := Marked;
  }

  // ---------- daily score ----------

  predicate Counts(x: Instance, family: int, child: int, d: Date) {
    x.family == family && x.key.child == child && x.key.date == d
  }

  /** `SUM(points_awarded) WHERE family_key, child_id, task_date`, 0 for no rows. */
  function DayPoints(rows: seq<Instance>, family: int, child: int, d: Date): int {
    if rows == [] then 0
    else
      var last := rows[|rows| - 1];
      DayPoints(rows[..|rows| - 1], family, child, d) + (if Counts(last, family, child, d) then last.pointsAwarded else 0)
  }

  lemma {:induction false} DayPointsNone(rows: seq<Instance>, family: int, child: int, d: Date)
    ensures (forall i :: 0 <= i < |rows| ==> !Counts(rows[i], family, child, d)) ==> DayPoints(rows, family, child, d) == 0
  {
    if rows != [] {
      DayPointsNone(rows[..|rows| - 1], family, child, d);
    }
  }

  /** Replacing one row changes the sum by the difference of the two rows' shares. */
  lemma {:induction false} DayPointsUpdate(rows: seq<Instance>, i: nat, x: Instance, family: int, child: int, d: Date)
    requires i < |rows|
    ensures DayPoints(rows[i := x], family, child, d)
         == DayPoints(rows, family, child, d)
            - (if Counts(rows[i], family, child, d) then rows[i].pointsAwarded else 0)
            + (if Counts(x, family, child, d) then x.pointsAwarded else 0)
  {
    var n := |rows| - 1;
    if i < n {
      DayPointsUpdate(rows[..n], i, x, family, child, d);
      assert rows[i := x][..n] == rows[..n][i := x];
    } else {
      assert rows[i := x][..n] == rows[..n];
    }
  }

  lemma DayPointsAppend(rows: seq<Instance>, x: Instance, family: int, child: int, d: Date)
    ensures DayPoints(rows + [x], family, child, d)
         == DayPoints(rows, family, child, d) + (if Counts(x, family, child, d) then x.pointsAwarded else 0)
  {
    assert (rows + [x])[..|rows|] == rows;
  }

  datatype ScoreResult = ScoreBadRequest | Score(points: int)

  /** `dailyScore`: 400 unless family, child and date are given; otherwise the
      sum of the points awarded on the child's rows for that date. */
  function DailyScore(family: Option<int>, child: Option<int>, date: Option<Date>, rows: seq<Instance>): (r: ScoreResult)
    ensures r.ScoreBadRequest? <==> !Truthy(family) || !Truthy(child) || date.None?
    ensures r.Score? ==> r.points == DayPoints(rows, family.value, child.value, date.value)
    ensures r.Score? && (forall i :: 0 <= i < |rows| ==> !Counts(rows[i], family.value, child.value, date.value)) ==> r.points == 0
  {
    if !Truthy(family) || !Truthy(child) || date.None? then ScoreBadRequest
    else
      DayPointsNone(rows, family.value, child.value, date.value);
      Score(DayPoints(rows, family.value, child.value, date.value))
  }

  /** Marking done never changes any daily score: a new row carries 0 points and
      the upsert of an existing row leaves `points_awarded` alone. */
  lemma MarkDoneKeepsDailyScore(rows: seq<Instance>, key: InstanceKey, family: int, assignment: Option<int>, now: Instant,
                                f: int, c: int, d: Date)
    requires UniqueKeys(rows)
    ensures DayPoints(UpsertChildDone(rows, key, family, assignment, now), f, c, d) == DayPoints(rows, f, c, d)
  {
    match Find(rows, key)
    case Some(i) =>
      DayPointsUpdate(rows, i, rows[i].(status := ChildDone, childMarkedAt := Some(now)), f, c, d);
    case None =>
      DayPointsAppend(rows, Instance(key, family, assignment, ChildDone, Some(now), None, None, 0), f, c, d);
  }
}
