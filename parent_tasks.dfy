/** The parent's side of the task life cycle: the review list, approval
    (status update and ledger entry in one transaction) and rejection. */
module ParentTasks {
  import opened Common
  import opened Dates
  import opened Ordering
  import opened Household
  import opened ChoreStore

  // ---------- review list ----------

  datatype ReviewItem = ReviewItem(event: int, child: int, childName: string, title: string, status: int, childMarkedAt: Option<Instant>)

  /** `JOIN children ch ON ch.child_id = s.child_id AND ch.family_key = $1`. */
  function ChildOfFamily(children: seq<Child>, id: int, family: int): (r: Option<Child>)
    ensures r.Some? ==> r.value in children && r.value.id == id && r.value.family == family
    ensures r.None? ==> forall c :: c in children ==> c.id != id || c.family != family
  {
    if children == [] then None
    else if children[0].id == id && children[0].family == family then Some(children[0])
    else ChildOfFamily(children[1..], id, family)
  }

  /** `JOIN events e ON e.event_id = s.event_id AND e.family_key = $1`. */
  function EventOfFamily(events: seq<EventInfo>, id: int, family: int): (r: Option<EventInfo>)
    ensures r.Some? ==> r.value in events && r.value.id == id && r.value.family == family
    ensures r.None? ==> forall e :: e in events ==> e.id != id || e.family != family
  {
    if events == [] then None
    else if events[0].id == id && events[0].family == family then Some(events[0])
    else EventOfFamily(events[1..], id, family)
  }

  /** The WHERE clause and the two inner joins of the review query. */
  predicate AwaitsReview(s: Instance, children: seq<Child>, events: seq<EventInfo>, family: int, d: Date) {
    && s.family == family && s.key.date == d && s.status == ChildDone
    && ChildOfFamily(children, s.key.child, family).Some?
    && EventOfFamily(events, s.key.task, family).Some?
  }

  function ReviewItemOf(s: Instance, children: seq<Child>, events: seq<EventInfo>, family: int): ReviewItem
    requires ChildOfFamily(children, s.key.child, family).Some? && EventOfFamily(events, s.key.task, family).Some?
  {
    ReviewItem(s.key.task, s.key.child, ChildOfFamily(children, s.key.child, family).value.name,
               EventOfFamily(events, s.key.task, family).value.title, s.status.Code(), s.childMarkedAt)
  }

  function ReviewCandidates(rows: seq<Instance>, children: seq<Child>, events: seq<EventInfo>, family: int, d: Date): (r: seq<ReviewItem>)
    ensures forall k :: 0 <= k < |rows| && AwaitsReview(rows[k], children, events, family, d) ==>
      ReviewItemOf(rows[k], children, events, family) in r
    ensures forall x :: x in r ==>
      (exists k :: 0 <= k < |rows| && AwaitsReview(rows[k], children, events, family, d)
                   && x == ReviewItemOf(rows[k], children, events, family))
    ensures forall x :: x in r ==> x.status == ChildDone.Code()
  {
    if rows == [] then []
    else
      var rest := ReviewCandidates(rows[1..], children, events, family, d);
      assert forall k :: 1 <= k < |rows| ==> rows[k] == rows[1..][k - 1];
      if AwaitsReview(rows[0], children, events, family, d)
      then [ReviewItemOf(rows[0], children, events, family)] + rest
      else rest
  }

  /** `ORDER BY s.child_marked_at DESC, e.title` (a null time sorts first, as DESC puts NULLs first). */
  function ReviewKey(x: ReviewItem): seq<int> {
    match x.childMarkedAt
    case None => [0] + Codes(x.title)
    case Some(t) => [1, -t] + Codes(x.title)
  }

  /** Among items marked at known times, the later mark comes first. */
  lemma ReviewKeyLaterFirst(a: ReviewItem, b: ReviewItem)
    requires a.childMarkedAt.Some? && b.childMarkedAt.Some?
    requires a.childMarkedAt.value > b.childMarkedAt.value
    ensures LexLe(ReviewKey(a), ReviewKey(b)) && !LexLe(ReviewKey(b), ReviewKey(a))
  {
    var ta, tb := a.childMarkedAt.value, b.childMarkedAt.value;
    assert ReviewKey(a) == [1] + ([-ta] + Codes(a.title));
    assert ReviewKey(b) == [1] + ([-tb] + Codes(b.title));
    LexLeCons(1, [-ta] + Codes(a.title), 1, [-tb] + Codes(b.title));
    LexLeCons(1, [-tb] + Codes(b.title), 1, [-ta] + Codes(a.title));
    LexLeCons(-ta, Codes(a.title), -tb, Codes(b.title));
    LexLeCons(-tb, Codes(b.title), -ta, Codes(a.title));
  }

  datatype ReviewResult = ReviewBadRequest | ReviewList(items: seq<ReviewItem>)

  /** `listForReview`: 400 without family or date; otherwise exactly the
      family's child-done rows of that day, newest mark first. */
  function ListForReview(family: Option<int>, date: Option<Date>, rows: seq<Instance>,
                         children: seq<Child>, events: seq<EventInfo>): (r: ReviewResult)
    ensures r.ReviewBadRequest? <==> !Truthy(family) || date.None?
    ensures r.ReviewList? ==> SortedBy(r.items, ReviewKey)
    ensures r.ReviewList? ==>
      multiset(r.items) == multiset(ReviewCandidates(rows, children, events, family.value, date.value))
    ensures r.ReviewList? ==> forall i :: 0 <= i < |r.items| ==> r.items[i].status == ChildDone.Code()
  {
    if !Truthy(family) || date.None? then ReviewBadRequest
    else
      var c := ReviewCandidates(rows, children, events, family.value, date.value);
      SortByKeyCorrect(c, ReviewKey);
      var items := SortByKey(c, ReviewKey);
      assert forall i :: 0 <= i < |items| ==> items[i] in multiset(c);
      ReviewList(items)
  }

  // ---------- approval ----------

  /** The row the approval UPDATE's WHERE clause selects: the key's row, of this family, with status 1. */
  function ApprovalTarget(rows: seq<Instance>, family: int, key: InstanceKey): (r: Option<nat>)
    ensures r.Some? ==> r == Find(rows, key) && rows[r.value].family == family && rows[r.value].status == ChildDone
    ensures r.None? ==> Find(rows, key).None? || rows[Find(rows, key).value].family != family
                        || rows[Find(rows, key).value].status != ChildDone
  {
    match Find(rows, key)
    case None => None
    case Some(i) => if rows[i].family == family && rows[i].status == ChildDone then Some(i) else None
  }

  /** `SET status = 2, points_awarded = $6, parent_id_confirmed = $5, confirmed_at = now()`. */
  function Approve(s: Instance, parent: Option<int>, points: int, now: Instant): Instance {
    s.(status := Approved, pointsAwarded := points, confirmedBy := parent, confirmedAt := Some(now))
  }

  datatype ApproveResult = ApproveBadRequest | ApproveNotFound | ApproveOk(points: int)

  /** `approveOne`: 400 without family, event, child or date; 404 (rolled back,
      nothing changed) unless the key's row is this family's and child-done;
      otherwise that row alone becomes Approved and exactly one ledger entry
      is appended, both committed together.  Points default to 1. */
  method ApproveOne(board: Board, family: Option<int>, event: Option<int>, child: Option<int>, date: Option<Date>,
                    parent: Option<int>, points: Option<int>, now: Instant) returns (r: ApproveResult)
    requires board.Valid()
    modifies board
    ensures board.Valid()
    ensures r.ApproveBadRequest? <==> !Truthy(family) || !Truthy(event) || !Truthy(child) || date.None?
    ensures !r.ApproveOk? ==> board.rows == old(board.rows) && board.ledger == old(board.ledger)
    ensures r.ApproveNotFound? ==>
      ApprovalTarget(old(board.rows), family.value, InstanceKey(child.value, event.value, date.value)).None?
    ensures r.ApproveOk? ==>
      var t := ApprovalTarget(old(board.rows), family.value, InstanceKey(child.value, event.value, date.value));
      && t.Some?
      && r.points == points.GetOr(1)
      && board.rows == old(board.rows)[t.value := Approve(old(board.rows)[t.value], parent, r.points, now)]
      && board.ledger == old(board.ledger) + [LedgerEntry(family.value, child.value, r.points, TaskSource, event.value, now)]
  {
    if !Truthy(family) || !Truthy(event) || !Truthy(child) || date.None? {
      return ApproveBadRequest;
    }
    var key := InstanceKey(child.value, event.value, date.value);
    var p := points.GetOr(1);
    // BEGIN; UPDATE ... WHERE ... AND status = 1
    var t := ApprovalTarget(board.rows, family.value, key);
    if t.None? {
      return ApproveNotFound;  // ROLLBACK
    }
    var rows := board.rows[t.value := Approve(board.rows[t.value], parent, p, now)];
    var ledger := board.ledger + [LedgerEntry(family.value, child.value, p, TaskSource, event.value, now)];
    UpdateKeepsUnique(board.rows, t.value, Approve(board.rows[t.value], parent, p, now));
    board.rows, board.ledger := rows, ledger;  // COMMIT
    r := ApproveOk(p);
  }

  /** Once approved, the instance is no longer a target: a second approval is a 404
      and cannot credit the ledger again. */
  lemma ApprovedIsNoLongerATarget(rows: seq<Instance>, family: int, key: InstanceKey, parent: Option<int>, points: int, now: Instant)
    requires UniqueKeys(rows)
    requires ApprovalTarget(rows, family, key).Some?
    ensures var t := ApprovalTarget(rows, family, key).value;
            ApprovalTarget(rows[t := Approve(rows[t], parent, points, now)], family, key).None?
  {
    var t := ApprovalTarget(rows, family, key).value;
    var after := rows[t := Approve(rows[t], parent, points, now)];
    UpdateKeepsUnique(rows, t, Approve(rows[t], parent, points, now));
    FindUnique(after, t);
  }

  /** As written, marking an approved instance done again makes it a target
      again, so a further approval appends a second ledger entry. */
  lemma RemarkReopensApproval(rows: seq<Instance>, family: int, key: InstanceKey, parent: Option<int>, points: int,
                              t1: Instant, t2: Instant, assignment: Option<int>)
    requires UniqueKeys(rows)
    requires ApprovalTarget(rows, family, key).Some?
    ensures var t := ApprovalTarget(rows, family, key).value;
            var approved := rows[t := Approve(rows[t], parent, points, t1)];
            UniqueKeys(approved) &&
            ApprovalTarget(UpsertChildDone(approved, key, family, assignment, t2), family, key).Some?
  {
    var t := ApprovalTarget(rows, family, key).value;
    var approved := rows[t := Approve(rows[t], parent, points, t1)];
    UpdateKeepsUnique(rows, t, Approve(rows[t], parent, points, t1));
    FindUnique(approved, t);
    var again := UpsertChildDone(approved, key, family, assignment, t2);
    FindUnique(again, t);
  }

  /** Two approvals of the same instance in a row append at most one ledger entry. */
  method ApproveTwice(board: Board, family: Option<int>, event: Option<int>, child: Option<int>, date: Option<Date>,
                      parent: Option<int>, points: Option<int>, t1: Instant, t2: Instant) returns (first: ApproveResult, second: ApproveResult)
    requires board.Valid()
    modifies board
    ensures board.Valid()
    ensures !second.ApproveOk? && |board.ledger| <= |old(board.ledger)| + 1
  {
    first := ApproveOne(board, family, event, child, date, parent, points, t1);
    if first.ApproveOk? {
      ApprovedIsNoLongerATarget(old(board.rows), family.value, InstanceKey(child.value, event.value, date.value),
                                parent, first.points, t1);
    }
    second := ApproveOne(board, family, event, child, date, parent, points, t2);
  }

  // ---------- rejection ----------

  /** The row the rejection UPDATE selects: the key's row, of this family, with status 0 or 1. */
  function RejectionTarget(rows: seq<Instance>, family: int, key: InstanceKey): (r: Option<nat>)
    ensures r.Some? ==> r == Find(rows, key) && rows[r.value].family == family
                        && (rows[r.value].status == Pending || rows[r.value].status == ChildDone)
    ensures r.None? ==> Find(rows, key).None? || rows[Find(rows, key).value].family != family
                        || rows[Find(rows, key).value].status == Approved
                        || rows[Find(rows, key).value].status == Rejected
  {
    var f := Find(rows, key);
    if f.Some? && rows[f.value].family == family && rows[f.value].status.Code() <= 1 then f else None
  }

  /** `SET status = 3, confirmed_at = now(), points_awarded = 0`. */
  function Reject(s: Instance, now: Instant): Instance {
    s.(status := Rejected, confirmedAt := Some(now), pointsAwarded := 0)
  }

  datatype RejectResult = RejectBadRequest | RejectNotFound | RejectOk

  /** `rejectOne`: 400 without family, event, child or date; 404 unless the
      key's row is this family's and Pending or ChildDone; never touches the ledger. */
  method RejectOne(board: Board, family: Option<int>, event: Option<int>, child: Option<int>, date: Option<Date>,
                   now: Instant) returns (r: RejectResult)
    requires board.Valid()
    modifies board
    ensures board.Valid() && board.ledger == old(board.ledger)
    ensures r.RejectBadRequest? <==> !Truthy(family) || !Truthy(event) || !Truthy(child) || date.None?
    ensures !r.RejectOk? ==> board.rows == old(board.rows)
    ensures r.RejectNotFound? ==>
      RejectionTarget(old(board.rows), family.value, InstanceKey(child.value, event.value, date.value)).None?
    ensures r.RejectOk? ==>
      var t := RejectionTarget(old(board.rows), family.value, InstanceKey(child.value, event.value, date.value));
      && t.Some?
      && board.rows == old(board.rows)[t.value := Reject(old(board.rows)[t.value], now)]
  {
    if !Truthy(family) || !Truthy(event) || !Truthy(child) || date.None? {
      return RejectBadRequest;
    }
    var t := RejectionTarget(board.rows, family.value, InstanceKey(child.value, event.value, date.value));
    if t.None? {
      return RejectNotFound;
    }
    UpdateKeepsUnique(board.rows, t.value, Reject(board.rows[t.value], now));
    board.rows := board.rows[t.value := Reject(board.rows[t.value], now)];
    r := RejectOk;
  }

  /** A child-done instance that is rejected can no longer be approved, and the
      rejection credits no points. */
  lemma RejectedIsFinal(rows: seq<Instance>, family: int, key: InstanceKey, now: Instant)
    requires UniqueKeys(rows)
    requires RejectionTarget(rows, family, key).Some?
    ensures var t := RejectionTarget(rows, family, key).value;
            var after := rows[t := Reject(rows[t], now)];
            ApprovalTarget(after, family, key).None? && RejectionTarget(after, family, key).None?
            && after[t].pointsAwarded == 0
  {
    var t := RejectionTarget(rows, family, key).value;
    UpdateKeepsUnique(rows, t, Reject(rows[t], now));
    FindUnique(rows[t := Reject(rows[t], now)], t);
  }
}
