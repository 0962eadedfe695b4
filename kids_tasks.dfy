/** The child-facing task endpoints over recurring task assignments:
    the day's list, mark-done, the daily score and the weekly leaderboard. */
module KidsTasks {
  import opened Common
  import opened Dates
  import opened Ordering
  import opened Household
  import opened ChoreStore

  // ---------- week window ----------

  /** `weekStartSunday`: truncate to the UTC midnight of the day, then step the
      date back by the day of week, as the two `Date` updates do. */
  method WeekStartSunday(d: Instant) returns (start: Instant)
    ensures start == WeekStart(d)
    ensures WeekdayOfDay(DayOf(start)) == 0 && start % MsPerDay == 0
    ensures start <= d < start + MsPerWeek
  {
    var day := d / MsPerDay;
    var dow := WeekdayOfDay(day);
    start := day * MsPerDay;
    start := start - dow * MsPerDay;
  }

  // ---------- recurrence ----------

  datatype Recurrence = Once | Daily | Weekly | OtherRule(text: string)

  /** A row of `ChildTaskAssignments`. */
  datatype Assignment = Assignment(
    id: int, family: int, child: int, task: int,
    recurrence: Recurrence, daysMask: Option<int>,
    startDate: Option<Date>, endDate: Option<Date>)

  /** A row of `ChildTasks`. */
  datatype Task = Task(id: int, title: string, pointsDefault: int, active: bool)

  /** `days_mask >> n`: an arithmetic shift, that is, halving (rounding down) n times. */
  function Shr(mask: int, n: nat): int
    decreases n
  {
    if n == 0 then mask else Shr(mask / 2, n - 1)
  }

  /** `((days_mask >> dow)::int & 1) = 1`; `& 1` is the non-negative remainder modulo 2. */
  predicate MaskHas(mask: int, dow: nat) {
    Shr(mask, dow) % 2 == 1
  }

  /** `start_date IS NULL OR start_date <= d` and `end_date IS NULL OR end_date >= d`. */
  predicate InWindow(a: Assignment, d: Date) {
    (a.startDate.None? || AtOrBefore(a.startDate.value, d))
    && (a.endDate.None? || AtOrBefore(d, a.endDate.value))
  }

  predicate DueByRule(a: Assignment, d: Date) {
    match a.recurrence
    case Daily => true
    case Once => a.startDate == Some(d)
    case Weekly => a.daysMask.Some? && MaskHas(a.daysMask.value, DayOfWeek(d))
    case OtherRule(_) => false
  }

  /** Whether the assignment's rule puts it on the list for day `d`. */
  predicate ScheduledOn(a: Assignment, d: Date) {
    InWindow(a, d) && DueByRule(a, d)
  }

  /** A `daily` assignment is due on every date of its window. */
  lemma DailyEveryDayInWindow(a: Assignment, d: Date)
    requires a.recurrence == Daily
    ensures ScheduledOn(a, d) <==> InWindow(a, d)
  {
  }

  /** A `once` assignment is due exactly on its start date. */
  lemma OnceOnlyOnStart(a: Assignment, d: Date)
    requires a.recurrence == Once
    ensures ScheduledOn(a, d) <==> a.startDate == Some(d) && (a.endDate.None? || AtOrBefore(d, a.endDate.value))
  {
  }

  /** Bit `w` of a mask made of the bits of a set of weekdays is set iff `w` is in the set. */
  lemma {:induction false} MaskBit(bits: seq<bool>, w: nat)
    requires w < |bits|
    ensures MaskHas(MaskOf(bits), w) <==> bits[w]
    decreases w
  {
    if w > 0 {
      assert MaskOf(bits) / 2 == MaskOf(bits[1..]);
      MaskBit(bits[1..], w - 1);
    }
  }

  /** The mask whose bit `w` is `bits[w]`. */
  function MaskOf(bits: seq<bool>): nat {
    if bits == [] then 0 else 2 * MaskOf(bits[1..]) + (if bits[0] then 1 else 0)
  }

  /** A `weekly` assignment whose mask is built from a set of weekdays is due
      on exactly those weekdays inside its window (e.g. Monday only: mask 2). */
  lemma WeeklyOnMaskedDays(a: Assignment, bits: seq<bool>, d: Date)
    requires a.recurrence == Weekly && |bits| == 7 && a.daysMask == Some(MaskOf(bits))
    ensures ScheduledOn(a, d) <==> InWindow(a, d) && bits[DayOfWeek(d)]
  {
    MaskBit(bits, DayOfWeek(d));
  }

  // ---------- the day's list ----------

  function FindTask(tasks: seq<Task>, id: int): (r: Option<Task>)
    ensures r.Some? ==> r.value in tasks && r.value.id == id
    ensures r.None? ==> forall t :: t in tasks ==> t.id != id
  {
    if tasks == [] then None
    else if tasks[0].id == id then Some(tasks[0])
    else FindTask(tasks[1..], id)
  }

  /** `COALESCE(e.status, 0)` of the left join on (child, task, date). */
  function StatusCodeAt(rows: seq<Instance>, key: InstanceKey): (c: int)
    ensures 0 <= c <= 3
    ensures Find(rows, key).None? ==> c == 0
  {
    match Find(rows, key)
    case Some(i) => rows[i].status.Code()
    case None => 0
  }

  datatype DueItem = DueItem(assignment: int, task: int, title: string, pointsDefault: int, status: int)

  /** The filters of the query: the family's and child's assignment, an active
      task, the validity window and the recurrence rule. */
  predicate Listed(a: Assignment, tasks: seq<Task>, family: int, child: int, d: Date) {
    && a.family == family && a.child == child
    && FindTask(tasks, a.task).Some? && FindTask(tasks, a.task).value.active
    && ScheduledOn(a, d)
  }

  function ItemOf(a: Assignment, t: Task, rows: seq<Instance>, d: Date): DueItem {
    DueItem(a.id, t.id, t.title, t.pointsDefault, StatusCodeAt(rows, InstanceKey(a.child, a.task, d)))
  }

  /** The rows of the query before ordering, in the assignments' scan order. */
  function DueCandidates(assignments: seq<Assignment>, tasks: seq<Task>, rows: seq<Instance>, family: int, child: int, d: Date): (r: seq<DueItem>)
    ensures forall k :: 0 <= k < |assignments| && Listed(assignments[k], tasks, family, child, d) ==>
      ItemOf(assignments[k], FindTask(tasks, assignments[k].task).value, rows, d) in r
    ensures forall x :: x in r ==>
      (exists k :: 0 <= k < |assignments| && Listed(assignments[k], tasks, family, child, d)
                   && x == ItemOf(assignments[k], FindTask(tasks, assignments[k].task).value, rows, d))
  {
    if assignments == [] then []
    else
      var a := assignments[0];
      var rest := DueCandidates(assignments[1..], tasks, rows, family, child, d);
      assert forall k :: 1 <= k < |assignments| ==> assignments[k] == assignments[1..][k - 1];
      if Listed(a, tasks, family, child, d) then [ItemOf(a, FindTask(tasks, a.task).value, rows, d)] + rest else rest
  }

  function TitleKey(x: DueItem): seq<int> {
    Codes(Lower(x.title))
  }

  /** The operand types that decide whether PostgreSQL can resolve `days_mask >> n`. */
  datatype SqlType = SmallInt | Integer | BigInt | Numeric | DoublePrecision

  /** The integer shift operators are declared only with an `integer` right
      operand, and neither `numeric` nor `double precision` casts implicitly to it. */
  predicate ShiftResolves(left: SqlType, right: SqlType) {
    (left == SmallInt || left == Integer || left == BigInt) && right == Integer
  }

  /** `days_mask` is an integer column; `EXTRACT` yields `numeric` (from
      PostgreSQL 14 on; `double precision` before, which fails the same way). */
  const DaysMaskType := Integer
  const ExtractType := Numeric

  datatype ListResult = ListBadRequest | ListDbError | DayList(date: Date, items: seq<DueItem>)

  /** `listChildTasksForDay` with the shift by `EXTRACT(DOW ...)::int`: 400
      without a family or child; otherwise the listed assignments, ordered by
      lower-cased title.  A missing date means today. */
  function ListChildTasksForDay(family: Option<int>, child: Option<int>, date: Option<Date>, today: Date,
                                assignments: seq<Assignment>, tasks: seq<Task>, rows: seq<Instance>): (r: ListResult)
    ensures r.ListBadRequest? <==> !Truthy(family) || !Truthy(child)
    ensures !r.ListDbError?
    ensures r.DayList? ==> r.date == date.GetOr(today)
    ensures r.DayList? ==> SortedBy(r.items, TitleKey)
    ensures r.DayList? ==> multiset(r.items) == multiset(DueCandidates(assignments, tasks, rows, family.value, child.value, r.date))
  {
    if !Truthy(family) || !Truthy(child) then ListBadRequest
    else
      var d := date.GetOr(today);
      var c := DueCandidates(assignments, tasks, rows, family.value, child.value, d);
      SortByKeyCorrect(c, TitleKey);
      DayList(d, SortByKey(c, TitleKey))
  }

  /** `listChildTasksForDay` as written: the weekly clause shifts by the
      `numeric` result of `EXTRACT`, the operator does not resolve, and every
      request that passes the 400 guard ends in the `catch` with a 500. */
  function ListChildTasksForDayAsWritten(family: Option<int>, child: Option<int>, date: Option<Date>, today: Date,
                                         assignments: seq<Assignment>, tasks: seq<Task>, rows: seq<Instance>): (r: ListResult)
    ensures r.ListBadRequest? <==> !Truthy(family) || !Truthy(child)
    ensures !r.ListBadRequest? ==> r.ListDbError?
  {
    if !Truthy(family) || !Truthy(child) then ListBadRequest
    else if ShiftResolves(DaysMaskType, ExtractType) then ListChildTasksForDay(family, child, date, today, assignments, tasks, rows)
    else ListDbError
  }

  /** A child with one daily chore: the corrected query lists it, the query
      as written answers 500. */
  lemma AsWrittenLosesTheDailyTask(d: Date)
    ensures var a := Assignment(5, 1, 2, 9, Daily, None, None, None);
      var t := Task(9, "Dishes", 3, true);
      && ListChildTasksForDayAsWritten(Some(1), Some(2), Some(d), d, [a], [t], []) == ListDbError
      && ListChildTasksForDay(Some(1), Some(2), Some(d), d, [a], [t], []).DayList?
      && |ListChildTasksForDay(Some(1), Some(2), Some(d), d, [a], [t], []).items| == 1
  {
    var a := Assignment(5, 1, 2, 9, Daily, None, None, None);
    var t := Task(9, "Dishes", 3, true);
    assert Listed(a, [t], 1, 2, d);
    assert DueCandidates([a], [t], [], 1, 2, d) == [ItemOf(a, t, [], d)];
    var r := ListChildTasksForDay(Some(1), Some(2), Some(d), d, [a], [t], []);
    assert |multiset(r.items)| == 1;
  }

  /** A listed task that has no row for the day reports status 0 (Pending). */
  lemma UnmarkedIsPending(a: Assignment, tasks: seq<Task>, rows: seq<Instance>, d: Date)
    requires FindTask(tasks, a.task).Some?
    requires Find(rows, InstanceKey(a.child, a.task, d)).None?
    ensures ItemOf(a, FindTask(tasks, a.task).value, rows, d).status == 0
  {
  }

  // ---------- mark done ----------

  /** `SELECT assignment_id ... WHERE family_key, child_id, task_id LIMIT 1`. */
  function FirstAssignment(assignments: seq<Assignment>, family: int, child: int, task: int): (r: Option<int>)
    ensures r.Some? ==> exists a :: a in assignments && a.id == r.value && a.family == family && a.child == child && a.task == task
    ensures r.None? ==> forall a :: a in assignments ==> !(a.family == family && a.child == child && a.task == task)
  {
    if assignments == [] then None
    else
      var a := assignments[0];
      if a.family == family && a.child == child && a.task == task then Some(a.id)
      else FirstAssignment(assignments[1..], family, child, task)
  }

  datatype MarkResult = MarkBadRequest | Marked(status: int)

  /** `childMarkDone`: 400 without family, child or task and nothing written;
      otherwise the child-done upsert on (child, task, date), whatever the row's
      earlier status, including Approved. */
  method ChildMarkDone(board: Board, family: Option<int>, child: Option<int>, task: Option<int>, date: Option<Date>,
                       today: Date, assignments: seq<Assignment>, now: Instant) returns (r: MarkResult)
    requires board.Valid()
    modifies board
    ensures board.Valid() && board.ledger == old(board.ledger)
    ensures r.MarkBadRequest? <==> !Truthy(family) || !Truthy(child) || !Truthy(task)
    ensures r.MarkBadRequest? ==> board.rows == old(board.rows)
    ensures r.Marked? ==> r.status == ChildDone.Code()
    ensures r.Marked? ==>
      board.rows == UpsertChildDone(old(board.rows), InstanceKey(child.value, task.value, date.GetOr(today)),
                                    family.value, FirstAssignment(assignments, family.value, child.value, task.value), now)
  {
    if !Truthy(family) || !Truthy(child) || !Truthy(task) {
      return MarkBadRequest;
    }
    var key := InstanceKey(child.value, task.value, date.GetOr(today));
    var assignment := FirstAssignment(assignments, family.value, child.value, task.value);
    board.rows := UpsertChildDone(board.rows, key, family.value, assignment, now);
    r := Marked(board.rows[Find(board.rows, key).value].status.Code());
  }

  // ---------- scores ----------

  /** Ledger entries of one family and child created on UTC day `day`. */
  function OnDay(family: int, child: int, day: int): LedgerEntry -> bool {
    (e: LedgerEntry) => e.family == family && e.child == child && DayOf(e.createdAt) == day
  }

  datatype ScoreResult = ScoreBadRequest | Score(date: Date, points: int)

  /** `childDailyScore`: the sum of the ledger's points for the family, the
      child and the day (today when missing), 0 when there are none. */
  function ChildDailyScore(family: Option<int>, child: Option<int>, date: Option<Date>, today: Date,
                           ledger: seq<LedgerEntry>): (r: ScoreResult)
    ensures r.ScoreBadRequest? <==> !Truthy(family) || !Truthy(child)
    ensures r.Score? ==> r.date == date.GetOr(today)
    ensures r.Score? ==> r.points == PointsWhere(ledger, OnDay(family.value, child.value, DayNumber(r.date)))
    ensures r.Score? && (forall k :: 0 <= k < |ledger| ==> !OnDay(family.value, child.value, DayNumber(r.date))(ledger[k]))
      ==> r.points == 0
  {
    if !Truthy(family) || !Truthy(child) then ScoreBadRequest
    else
      var d := date.GetOr(today);
      var keep := OnDay(family.value, child.value, DayNumber(d));
      PointsWhereNone'(ledger, keep);
      Score(d, PointsWhere(ledger, keep))
  }

  lemma PointsWhereNone'(ledger: seq<LedgerEntry>, keep: LedgerEntry -> bool)
    ensures (forall k :: 0 <= k < |ledger| ==> !keep(ledger[k])) ==> PointsWhere(ledger, keep) == 0
  {
    if forall k :: 0 <= k < |ledger| ==> !keep(ledger[k]) {
      PointsWhereNone(ledger, keep);
    }
  }

  /** An entry appended at instant `now` adds its points to the score of
      the day `now` falls on, and to no other day's. */
  lemma AppendCountsOnItsDay(ledger: seq<LedgerEntry>, e: LedgerEntry, day: int)
    ensures PointsWhere(ledger + [e], OnDay(e.family, e.child, day))
         == PointsWhere(ledger, OnDay(e.family, e.child, day)) + (if DayOf(e.createdAt) == day then e.points else 0)
  {
    PointsWhereAppend(ledger, e, OnDay(e.family, e.child, day));
  }

  // ---------- leaderboard ----------

  /** Ledger entries of one family and child in the half-open window [start, end). */
  function InWindowOf(family: int, child: int, start: Instant, end: Instant): LedgerEntry -> bool {
    (e: LedgerEntry) => e.child == child && e.family == family && start <= e.createdAt < end
  }

  datatype LeaderRow = LeaderRow(id: int, name: string, avatar: Option<string>, points: int)

  function RowOf(c: Child, ledger: seq<LedgerEntry>, family: int, start: Instant): LeaderRow {
    LeaderRow(c.id, DisplayName(c), c.avatar, PointsWhere(ledger, InWindowOf(family, c.id, start, start + MsPerWeek)))
  }

  /** One row per child of the family (`LEFT JOIN ... GROUP BY c.child_id`). */
  function WeekRows(kids: seq<Child>, ledger: seq<LedgerEntry>, family: int, start: Instant): (r: seq<LeaderRow>)
    ensures |r| == |kids|
    ensures forall k :: 0 <= k < |kids| ==> r[k] == RowOf(kids[k], ledger, family, start)
  {
    if kids == [] then [] else [RowOf(kids[0], ledger, family, start)] + WeekRows(kids[1..], ledger, family, start)
  }

  /** `ORDER BY points DESC, name ASC`. */
  function RankKey(x: LeaderRow): seq<int> {
    [-x.points] + Codes(x.name)
  }

  predicate RanksNoLater(a: LeaderRow, b: LeaderRow) {
    a.points > b.points || (a.points == b.points && LexLe(Codes(a.name), Codes(b.name)))
  }

  lemma RankKeyMeaning(a: LeaderRow, b: LeaderRow)
    ensures LexLe(RankKey(a), RankKey(b)) <==> RanksNoLater(a, b)
  {
    LexLeCons(-a.points, Codes(a.name), -b.points, Codes(b.name));
  }

  const LeaderboardLimit: nat := 10

  /** Ranking rows and keeping the first ten: the kept rows are ranked and
      each row cut off ranks no earlier than every kept row. */
  lemma {:induction false} TopRows(all: seq<LeaderRow>)
    ensures var r := Take(SortByKey(all, RankKey), LeaderboardLimit);
      && |r| == Min(LeaderboardLimit, |all|)
      && multiset(r) <= multiset(all)
      && (forall i, j :: 0 <= i < j < |r| ==> RanksNoLater(r[i], r[j]))
      && (forall x :: multiset(r)[x] < multiset(all)[x] ==> forall i :: 0 <= i < |r| ==> RanksNoLater(r[i], x))
  {
    var sorted := SortByKey(all, RankKey);
    SortByKeyCorrect(all, RankKey);
    var r := Take(sorted, LeaderboardLimit);
    assert sorted == r + sorted[|r|..];
    assert multiset(sorted) == multiset(r) + multiset(sorted[|r|..]);
    forall i, j | 0 <= i < j < |r| ensures RanksNoLater(r[i], r[j]) {
      RankKeyMeaning(r[i], r[j]);
    }
    forall x | multiset(r)[x] < multiset(all)[x] ensures forall i :: 0 <= i < |r| ==> RanksNoLater(r[i], x) {
      TakeKeepsTheFirst(sorted, RankKey, LeaderboardLimit, x);
      forall i | 0 <= i < |r| ensures RanksNoLater(r[i], x) { RankKeyMeaning(r[i], x); }
    }
  }

  /** The leaderboard query for the window [start, start + 7 days): at most ten
      of the family's children, ranked by points then name, and every child
      left out ranks no earlier than each child shown. */
  function Leaderboard(children: seq<Child>, ledger: seq<LedgerEntry>, family: int, start: Instant): (r: seq<LeaderRow>)
    ensures |r| == Min(LeaderboardLimit, |ChildrenOf(children, family)|)
    ensures multiset(r) <= multiset(WeekRows(ChildrenOf(children, family), ledger, family, start))
    ensures forall i, j :: 0 <= i < j < |r| ==> RanksNoLater(r[i], r[j])
    ensures forall x :: multiset(r)[x] < multiset(WeekRows(ChildrenOf(children, family), ledger, family, start))[x] ==>
      forall i :: 0 <= i < |r| ==> RanksNoLater(r[i], x)
  {
    var all := WeekRows(ChildrenOf(children, family), ledger, family, start);
    TopRows(all);
    Take(SortByKey(all, RankKey), LeaderboardLimit)
  }

  /** A family of at most ten children is listed in full. */
  lemma SmallFamilyListedInFull(children: seq<Child>, ledger: seq<LedgerEntry>, family: int, start: Instant)
    requires |ChildrenOf(children, family)| <= LeaderboardLimit
    ensures multiset(Leaderboard(children, ledger, family, start))
         == multiset(WeekRows(ChildrenOf(children, family), ledger, family, start))
  {
    var r := Leaderboard(children, ledger, family, start);
    var all := WeekRows(ChildrenOf(children, family), ledger, family, start);
    assert |multiset(r)| == |multiset(all)|;
    SubMultisetSameSize(multiset(r), multiset(all));
  }

  lemma SubMultisetSameSize<T>(a: multiset<T>, b: multiset<T>)
    requires a <= b && |a| == |b|
    ensures a == b
  {
    var d := b - a;
    assert b == a + d;
    assert |d| == 0;
  }

  /** A child with no entry in the window scores 0. */
  lemma NoEntriesScoresZero(c: Child, ledger: seq<LedgerEntry>, family: int, start: Instant)
    requires forall k :: 0 <= k < |ledger| ==> ledger[k].child != c.id || ledger[k].family != family
    ensures RowOf(c, ledger, family, start).points == 0
  {
    PointsWhereNone(ledger, InWindowOf(family, c.id, start, start + MsPerWeek));
  }

  /** The window is half-open: an entry created exactly at its end is not counted,
      one created exactly at its start is. */
  lemma WindowIsHalfOpen(ledger: seq<LedgerEntry>, e: LedgerEntry, start: Instant)
    ensures PointsWhere(ledger + [e.(createdAt := start + MsPerWeek)], InWindowOf(e.family, e.child, start, start + MsPerWeek))
         == PointsWhere(ledger, InWindowOf(e.family, e.child, start, start + MsPerWeek))
    ensures PointsWhere(ledger + [e.(createdAt := start)], InWindowOf(e.family, e.child, start, start + MsPerWeek))
         == PointsWhere(ledger, InWindowOf(e.family, e.child, start, start + MsPerWeek)) + e.points
  {
    PointsWhereAppend(ledger, e.(createdAt := start + MsPerWeek), InWindowOf(e.family, e.child, start, start + MsPerWeek));
    PointsWhereAppend(ledger, e.(createdAt := start), InWindowOf(e.family, e.child, start, start + MsPerWeek));
  }

  datatype LeaderboardResult = BoardBadRequest | Board(weekStart: Instant, items: seq<LeaderRow>)

  /** `familyLeaderboardThisWeek`: 400 without a family; the window starts at
      the given `week_start` day (taken as is, not moved to a Sunday) or else at
      the Sunday that begins the current week, and lasts seven days. */
  method FamilyLeaderboardThisWeek(family: Option<int>, weekStart: Option<Date>, now: Instant,
                                   children: seq<Child>, ledger: seq<LedgerEntry>) returns (r: LeaderboardResult)
    ensures r.BoardBadRequest? <==> !Truthy(family)
    ensures r.Board? ==> r.weekStart == (if weekStart.Some? then StartOf(weekStart.value) else WeekStart(now))
    ensures r.Board? && weekStart.None? ==> WeekdayOfDay(DayOf(r.weekStart)) == 0 && r.weekStart <= now < r.weekStart + MsPerWeek
    ensures r.Board? ==> r.items == Leaderboard(children, ledger, family.value, r.weekStart)
  {
    if !Truthy(family) {
      return BoardBadRequest;
    }
    var start: Instant;
    if weekStart.Some? {
      start := StartOf(weekStart.value);
    } else {
      start := WeekStartSunday(now);
    }
    var end := start;
    end := end + 7 * MsPerDay;
    assert end == start + MsPerWeek;
    r := Board(start, Leaderboard(children, ledger, family.value, start));
  }
}
