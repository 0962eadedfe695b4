/** The parent calendar: events stored as column maps, their targets, the
    `SET` clause builder of the update endpoint, and event categories. */
module Calendar {
  import opened Common
  import opened Dates

  /** A JSON / SQL value as the handlers pass it through. */
  datatype Value = Null | Text(s: string) | Int(i: int) | Bool(b: bool) | Time(t: Instant)

  /** A row of `events`: column name to value. */
  type Row = map<string, Value>

  /** A target as the request gives it (`t || {}` destructured; a missing field is None). */
  datatype Target = Target(kind: Option<string>, child: Option<int>, parent: Option<int>)

  /** A row of `eventtargets`. */
  datatype TargetRow = TargetRow(event: int, family: Value, kind: Option<string>, child: Option<int>, parent: Option<int>)

  const FamilyTarget: Target := Target(Some("family"), None, None)

  /** `Array.isArray(targets) && targets.length ? targets : [{ type: 'family' }]`;
      None stands for a value that is not an array (including a missing one). */
  function TargetsOrFamily(targets: Option<seq<Target>>): (r: seq<Target>)
    ensures |r| >= 1
    ensures targets.Some? && targets.value != [] ==> r == targets.value
    ensures targets.None? || targets.value == [] ==> r == [FamilyTarget]
  {
    if targets.Some? && |targets.value| > 0 then targets.value else [FamilyTarget]
  }

  function TargetRowOf(event: int, family: Value, t: Target): TargetRow {
    TargetRow(event, family, t.kind, t.child, t.parent)
  }

  /** The rows the insert loop writes, one per target, in order. */
  function RowsFor(event: int, family: Value, arr: seq<Target>): (r: seq<TargetRow>)
    ensures |r| == |arr|
    ensures forall k :: 0 <= k < |arr| ==> r[k] == TargetRowOf(event, family, arr[k])
  {
    if arr == [] then []
    else RowsFor(event, family, arr[..|arr| - 1]) + [TargetRowOf(event, family, arr[|arr| - 1])]
  }

  lemma RowsForStep(event: int, family: Value, arr: seq<Target>, k: nat)
    requires k < |arr|
    ensures RowsFor(event, family, arr[..k + 1]) == RowsFor(event, family, arr[..k]) + [TargetRowOf(event, family, arr[k])]
  {
    assert arr[..k + 1][..k] == arr[..k];
  }

  /** `DELETE FROM eventtargets WHERE event_id = $1`. */
  function WithoutEvent(rows: seq<TargetRow>, event: int): (r: seq<TargetRow>)
    ensures forall t :: t in r <==> t in rows && t.event != event
    ensures |r| <= |rows|
  {
    if rows == [] then []
    else
      (if rows[0].event != event then [rows[0]] else []) + WithoutEvent(rows[1..], event)
  }

  /** The DELETE keeps the other rows in their order: it works part by part. */
  lemma {:induction false} WithoutEventConcat(a: seq<TargetRow>, b: seq<TargetRow>, event: int)
    ensures WithoutEvent(a + b, event) == WithoutEvent(a, event) + WithoutEvent(b, event)
  {
    if a == [] {
      assert a + b == b;
    } else {
      var head := if a[0].event != event then [a[0]] else [];
      assert (a + b)[0] == a[0];
      calc {
        WithoutEvent(a + b, event);
        head + WithoutEvent((a + b)[1..], event);
        { assert (a + b)[1..] == a[1..] + b; }
        head + WithoutEvent(a[1..] + b, event);
        { WithoutEventConcat(a[1..], b, event); }
        head + (WithoutEvent(a[1..], event) + WithoutEvent(b, event));
        (head + WithoutEvent(a[1..], event)) + WithoutEvent(b, event);
        WithoutEvent(a, event) + WithoutEvent(b, event);
      }
    }
  }


  /** Each row is kept as many times as it occurs when it matches, and dropped otherwise. */
  lemma {:induction false} WithoutEventCounts(rows: seq<TargetRow>, event: int, t: TargetRow)
    ensures multiset(WithoutEvent(rows, event))[t] == (if t.event != event then multiset(rows)[t] else 0)
  {
    if rows != [] {
      assert rows == [rows[0]] + rows[1..];
      WithoutEventCounts(rows[1..], event, t);
    }
  }

  // ---------- the SET clause builder ----------

  function Digit(d: nat): (c: char)
    requires d < 10
    ensures '0' <= c <= '9'
  {
    ('0' as int + d) as char
  }

  /** The number a string of decimal digits denotes, read most significant digit first. */
  function DecimalValue(s: string): int {
    if s == [] then 0 else 10 * DecimalValue(s[..|s| - 1]) + (s[|s| - 1] as int - '0' as int)
  }

  /** Decimal digits of a natural number, as JavaScript prints it: no leading zero. */
  function NatText(n: nat): (s: string)
    ensures |s| >= 1
    ensures forall k :: 0 <= k < |s| ==> '0' <= s[k] <= '9'
    ensures s[0] == '0' ==> n == 0 && s == "0"
    decreases n
  {
    if n < 10 then [Digit(n)] else NatText(n / 10) + [Digit(n % 10)]
  }

  /** The printed placeholder number reads back as the counter it came from. */
  lemma {:induction false} NatTextRoundTrip(n: nat)
    ensures DecimalValue(NatText(n)) == n
  {
    if n >= 10 {
      var s := NatText(n);
      assert s[..|s| - 1] == NatText(n / 10);
      NatTextRoundTrip(n / 10);
    }
  }

  /** Distinct counters print distinct placeholders, so `$k` names one parameter. */
  lemma NatTextInjective(a: nat, b: nat)
    requires NatText(a) == NatText(b)
    ensures a == b
  {
    NatTextRoundTrip(a);
    NatTextRoundTrip(b);
  }

  function Placeholder(n: nat): string {
    "$" + NatText(n)
  }

  /** One element of the SET list: `name = $k`. */
  function SetItem(column: string, n: nat): string {
    column + " = " + Placeholder(n)
  }

  function Join(items: seq<string>, sep: string): string {
    if items == [] then ""
    else if |items| == 1 then items[0]
    else items[0] + sep + Join(items[1..], sep)
  }

  /** The `fields` / `params` arrays and the counter `i` that `push` updates. */
  class SetClause {
    var fields: seq<string>
    var params: seq<Value>
    var i: int
    ghost var columns: seq<string>

    /** Every field is `column = $k` with k counting from 1, one parameter per field,
        and the counter is the next placeholder number. */
    ghost predicate Valid()
      reads this
    {
      && |fields| == |params| == |columns|
      && i == |fields| + 1
      && forall k :: 0 <= k < |fields| ==> fields[k] == SetItem(columns[k], k + 1)
    }

    constructor ()
      ensures Valid() && columns == [] && params == [] && fields == []
    {
      fields, params, i := [], [], 1;
      columns := [];
    }

    /** `push(field, value)`: `fields.push(`${field} = $${i++}`); params.push(value)`. */
    method Push(field: string, value: Value)
      requires Valid()
      modifies this
      ensures Valid()
      ensures columns == old(columns) + [field] && params == old(params) + [value]
      ensures fields == old(fields) + [SetItem(field, old(i))]
    {
      fields := fields + [field + " = $" + NatText(i)];
      i := i + 1;
      params := params + [value];
      columns := columns + [field];
    }
  }

  /** The body of the update request; None means the field was `undefined`. */
  datatype EventPatch = EventPatch(
    title: Option<Value>, notes: Option<Value>, location: Option<Value>,
    startAt: Option<Value>, endAt: Option<Value>, allDay: Option<Value>,
    priority: Option<Value>, category: Option<Value>, status: Option<Value>)

  function Given(v: Option<Value>): nat {
    if v.Some? then 1 else 0
  }

  function Col(name: string, v: Option<Value>): (r: seq<string>)
    ensures |r| == Given(v)
  {
    if v.Some? then [name] else []
  }

  function Val(v: Option<Value>): (r: seq<Value>)
    ensures |r| == Given(v)
  {
    if v.Some? then [v.value] else []
  }

  /** The patchable columns, in the order the handler tests them. */
  const Names: seq<string> := ["title", "notes", "location", "start_at", "end_at", "all_day", "priority", "category_id", "status"]

  /** The request's fields in the order of `Names`. */
  function Fields(p: EventPatch): (r: seq<Option<Value>>)
    ensures |r| == |Names|
  {
    [p.title, p.notes, p.location, p.startAt, p.endAt, p.allDay, p.priority, p.category, p.status]
  }

  /** The number of given fields among the first k. */
  function GivenUpTo(fs: seq<Option<Value>>, k: nat): nat
    requires k <= |fs|
  {
    if k == 0 then 0 else GivenUpTo(fs, k - 1) + Given(fs[k - 1])
  }

  /** The columns pushed for the first k fields. */
  function ColsUpTo(fs: seq<Option<Value>>, k: nat): (r: seq<string>)
    requires |fs| == |Names| && k <= |fs|
    ensures |r| == GivenUpTo(fs, k)
  {
    if k == 0 then [] else ColsUpTo(fs, k - 1) + Col(Names[k - 1], fs[k - 1])
  }

  /** The parameters pushed for the first k fields. */
  function ValsUpTo(fs: seq<Option<Value>>, k: nat): (r: seq<Value>)
    requires k <= |fs|
    ensures |r| == GivenUpTo(fs, k)
  {
    if k == 0 then [] else ValsUpTo(fs, k - 1) + Val(fs[k - 1])
  }

  /** The columns pushed for fields k and later. */
  function ColsFrom(fs: seq<Option<Value>>, k: nat): seq<string>
    requires |fs| == |Names| && k <= |fs|
    decreases |fs| - k
  {
    if k == |fs| then [] else Col(Names[k], fs[k]) + ColsFrom(fs, k + 1)
  }

  function ValsFrom(fs: seq<Option<Value>>, k: nat): seq<Value>
    requires k <= |fs|
    decreases |fs| - k
  {
    if k == |fs| then [] else Val(fs[k]) + ValsFrom(fs, k + 1)
  }

  /** The columns the update pushes before `updated_at`. */
  function PatchColumns(p: EventPatch): seq<string> {
    ColsUpTo(Fields(p), |Names|)
  }

  function PatchValues(p: EventPatch): seq<Value> {
    ValsUpTo(Fields(p), |Names|)
  }

  lemma Regroup<T>(a: seq<T>, c: seq<T>, b: seq<T>)
    ensures (a + c) + b == a + (c + b)
  {
  }

  /** The pushed list splits at every field. */
  lemma {:induction false} SplitAt(fs: seq<Option<Value>>, k: nat)
    requires |fs| == |Names| && k <= |fs|
    ensures ColsUpTo(fs, |fs|) == ColsUpTo(fs, k) + ColsFrom(fs, k)
    ensures ValsUpTo(fs, |fs|) == ValsUpTo(fs, k) + ValsFrom(fs, k)
    decreases |fs| - k
  {
    if k < |fs| {
      SplitAt(fs, k + 1);
      Regroup(ColsUpTo(fs, k), Col(Names[k], fs[k]), ColsFrom(fs, k + 1));
      Regroup(ValsUpTo(fs, k), Val(fs[k]), ValsFrom(fs, k + 1));
    }
  }

  /** Only the names of fields k and later are pushed from k on. */
  lemma {:induction false} ColsFromNames(fs: seq<Option<Value>>, k: nat, c: string)
    requires |fs| == |Names| && k <= |fs| && c in ColsFrom(fs, k)
    ensures c in Names[k..]
    decreases |fs| - k
  {
    if c !in Col(Names[k], fs[k]) {
      ColsFromNames(fs, k + 1, c);
      assert Names[k + 1..] == Names[k..][1..];
    }
  }

  lemma {:induction false} ColsValsFromLength(fs: seq<Option<Value>>, k: nat)
    requires |fs| == |Names| && k <= |fs|
    ensures |ColsFrom(fs, k)| == |ValsFrom(fs, k)|
    decreases |fs| - k
  {
    if k < |fs| {
      ColsValsFromLength(fs, k + 1);
    }
  }

  /** `if (x !== undefined) push(name, x)`. */
  method PushIf(b: SetClause, name: string, v: Option<Value>)
    requires b.Valid()
    modifies b
    ensures b.Valid()
    ensures b.columns == old(b.columns) + Col(name, v) && b.params == old(b.params) + Val(v)
  {
    if v.Some? {
      b.Push(name, v.value);
    }
  }

  /** The test for field k, taking the clause from the first k fields to
      the first k + 1. */
  method PushField(b: SetClause, fs: seq<Option<Value>>, k: nat)
    requires |fs| == |Names| && k < |fs|
    requires b.Valid() && b.columns == ColsUpTo(fs, k) && b.params == ValsUpTo(fs, k)
    modifies b
    ensures b.Valid() && b.columns == ColsUpTo(fs, k + 1) && b.params == ValsUpTo(fs, k + 1)
  {
    PushIf(b, Names[k], fs[k]);
  }

  /** The nine `if (x !== undefined) push(...)` tests of `updateEvent`, in order. */
  method PushFields(p: EventPatch) returns (b: SetClause)
    ensures fresh(b) && b.Valid()
    ensures b.columns == PatchColumns(p) && b.params == PatchValues(p)
  {
    var fs := Fields(p);
    b := new SetClause();
    PushField(b, fs, 0);  // title
    PushField(b, fs, 1);  // notes
    PushField(b, fs, 2);  // location
    PushField(b, fs, 3);  // start_at
    PushField(b, fs, 4);  // end_at
    PushField(b, fs, 5);  // all_day
    PushField(b, fs, 6);  // priority
    PushField(b, fs, 7);  // category_id
    PushField(b, fs, 8);  // status
  }

  /** The statement and parameter list `updateEvent` builds: one numbered
      `name = $k` per defined field, in order, then `updated_at`, and `id`
      as the last parameter, behind the WHERE placeholder. */
  method BuildUpdate(p: EventPatch, id: int, now: Instant) returns (fields: seq<string>, params: seq<Value>, sql: string)
    ensures var cols := PatchColumns(p) + ["updated_at"];
      && |fields| == |cols|
      && (forall k :: 0 <= k < |cols| ==> fields[k] == SetItem(cols[k], k + 1))
    ensures params == PatchValues(p) + [Time(now)] + [Int(id)]
    ensures |params| == |fields| + 1
    ensures |fields| >= 1 && fields[|fields| - 1] == SetItem("updated_at", |fields|)
    ensures sql == "UPDATE events SET " + Join(fields, ", ") + " WHERE event_id = " + Placeholder(|fields| + 1) + " RETURNING event_id"
  {
    var b := PushFields(p);
    b.Push("updated_at", Time(now));
    fields := b.fields;
    var where := Placeholder(b.i);
    sql := "UPDATE events SET " + Join(fields, ", ") + " WHERE event_id = " + where + " RETURNING event_id";
    params := b.params + [Int(id)];
    assert |fields| == |PatchColumns(p) + ["updated_at"]|;
  }

  /** The effect of `SET c1 = $1, ..., cn = $n` on a row. */
  function ApplySet(row: Row, cols: seq<string>, vals: seq<Value>): Row
    requires |cols| == |vals|
  {
    if cols == [] then row
    else ApplySet(row, cols[..|cols| - 1], vals[..|vals| - 1])[cols[|cols| - 1] := vals[|vals| - 1]]
  }

  /** The row after the update's SET list. */
  function PatchedRow(row: Row, p: EventPatch, now: Instant): Row {
    ApplySet(row, PatchColumns(p) + ["updated_at"], PatchValues(p) + [Time(now)])
  }

  /** A column outside the SET list keeps its value (or stays absent). */
  lemma {:induction false} ApplySetOutside(row: Row, cols: seq<string>, vals: seq<Value>, c: string)
    requires |cols| == |vals| && c !in cols
    ensures c in ApplySet(row, cols, vals) <==> c in row
    ensures c in row ==> ApplySet(row, cols, vals)[c] == row[c]
  {
    if cols != [] {
      var n := |cols| - 1;
      ApplySetOutside(row, cols[..n], vals[..n], c);
    }
  }

  /** A column set once, at position k, gets the k-th parameter. */
  lemma {:induction false} ApplySetAt(row: Row, cols: seq<string>, vals: seq<Value>, k: nat)
    requires |cols| == |vals| && k < |cols| && cols[k] !in cols[k + 1..]
    ensures cols[k] in ApplySet(row, cols, vals) && ApplySet(row, cols, vals)[cols[k]] == vals[k]
  {
    var n := |cols| - 1;
    if k < n {
      assert cols[n] in cols[k + 1..];
      assert cols[..n][k + 1..] == cols[k + 1..n];
      ApplySetAt(row, cols[..n], vals[..n], k);
    }
  }

  // ---------- the store ----------

  datatype CategoryKey = CategoryKey(family: int, name: string)
  datatype Category = Category(id: int, color: string, sortOrder: int)

  class Store {
    var events: map<int, Row>
    var targets: seq<TargetRow>
    var nextEvent: int
    var categories: map<CategoryKey, Category>
    var nextCategory: int

    /** Serial ids: every stored id was handed out before. */
    ghost predicate Valid()
      reads this
    {
      && (forall id :: id in events ==> id < nextEvent)
      && (forall k :: k in categories ==> categories[k].id < nextCategory)
    }

    constructor ()
      ensures Valid() && events == map[] && targets == [] && categories == map[]
    {
      events, targets, nextEvent := map[], [], 1;
      categories, nextCategory := map[], 1;
    }
  }

  /** `fkR.rows[0]?.family_key`: the event's family, or null. */
  function FamilyOf(row: Row): Value {
    if "family_key" in row then row["family_key"] else Null
  }

  /** Inserts one `eventtargets` row per target, in order. */
  method InsertTargets(store: Store, event: int, family: Value, arr: seq<Target>)
    modifies store`targets
    ensures store.targets == old(store.targets) + RowsFor(event, family, arr)
  {
    ghost var before := store.targets;
    var k := 0;
    while k < |arr|
      invariant 0 <= k <= |arr|
      invariant store.targets == before + RowsFor(event, family, arr[..k])
    {
      RowsForStep(event, family, arr, k);
      store.targets := store.targets + [TargetRowOf(event, family, arr[k])];
      k := k + 1;
    }
    assert arr[..|arr|] == arr;
  }

  datatype UpdateResult = UpdateBadId | UpdateFailed | Updated(id: int)

  /** `updateEvent`: 400 for an id that is not a number; the UPDATE always runs
      (`updated_at` is always pushed) and, when it matches no row, throws and rolls
      back (500, nothing changed); otherwise the row gets the SET values and, when
      `targets` is an array, the event's targets are replaced by it (or by
      `family` when it is empty); a non-array leaves them as they were. */
  method UpdateEvent(store: Store, id: Option<int>, patch: EventPatch, targets: Option<seq<Target>>, now: Instant)
    returns (r: UpdateResult)
    requires store.Valid()
    modifies store
    ensures store.Valid()
    ensures r.UpdateBadId? <==> id.None?
    ensures r.UpdateFailed? <==> id.Some? && id.value !in old(store.events)
    ensures !r.Updated? ==> store.events == old(store.events) && store.targets == old(store.targets)
    ensures store.categories == old(store.categories) && store.nextCategory == old(store.nextCategory)
    ensures store.nextEvent == old(store.nextEvent)
    ensures r.Updated? ==> id.Some? && r.id == id.value && r.id in old(store.events)
    ensures r.Updated? && r.id in old(store.events) ==>
      var row := PatchedRow(old(store.events)[r.id], patch, now);
      && store.events == old(store.events)[r.id := row]
      && store.targets == (if targets.Some?
                           then WithoutEvent(old(store.targets), r.id) + RowsFor(r.id, FamilyOf(row), TargetsOrFamily(targets))
                           else old(store.targets))
  {
    if id.None? {
      return UpdateBadId;
    }
    var fields, params, sql := BuildUpdate(patch, id.value, now);
    // BEGIN; the UPDATE runs because `fields` is never empty
    if id.value !in store.events {
      return UpdateFailed;  // 'Not found' thrown; ROLLBACK
    }
    var row := PatchedRow(store.events[id.value], patch, now);
    store.events := store.events[id.value := row];
    if targets.Some? {
      store.targets := WithoutEvent(store.targets, id.value);
      InsertTargets(store, id.value, FamilyOf(row), TargetsOrFamily(targets));
    }
    r := Updated(id.value);  // COMMIT
  }

  /** The update's row: every defined field and `updated_at` take the new values,
      every other column keeps its old one. */
  lemma UpdatedRow(old_row: Row, p: EventPatch, now: Instant)
    ensures var row := PatchedRow(old_row, p, now);
      && "updated_at" in row && row["updated_at"] == Time(now)
      && (forall c :: c !in PatchColumns(p) + ["updated_at"] && c in old_row ==> c in row && row[c] == old_row[c])
  {
    var cols := PatchColumns(p) + ["updated_at"];
    var vals := PatchValues(p) + [Time(now)];
    ApplySetAt(old_row, cols, vals, |cols| - 1);
    forall c | c !in cols && c in old_row
      ensures c in ApplySet(old_row, cols, vals) && ApplySet(old_row, cols, vals)[c] == old_row[c]
    {
      ApplySetOutside(old_row, cols, vals, c);
    }
  }

  /** No patchable column is pushed twice, and none is `updated_at`. */
  lemma NamesDistinct(k: nat)
    requires k < 9
    ensures Names[k] !in Names[k + 1..] && Names[k] != "updated_at"
  {
  }

  /** A column that appears once, between `pre` and `post`, gets its parameter. */
  lemma ApplySetBetween(row: Row, pre: seq<string>, x: string, post: seq<string>, vpre: seq<Value>, v: Value, vpost: seq<Value>)
    requires |pre| == |vpre| && |post| == |vpost| && x !in post
    ensures x in ApplySet(row, pre + [x] + post, vpre + [v] + vpost)
    ensures ApplySet(row, pre + [x] + post, vpre + [v] + vpost)[x] == v
  {
    var cols := pre + [x] + post;
    assert cols[|pre|] == x && cols[|pre| + 1..] == post;
    ApplySetAt(row, cols, vpre + [v] + vpost, |pre|);
  }

  lemma Around<T>(whole: seq<T>, a: seq<T>, x: T, f: seq<T>, u: seq<T>)
    requires whole == a + ([x] + f)
    ensures whole + u == a + [x] + (f + u)
  {
  }

  /** The SET list, cut around a given field k. */
  lemma ColsAround(fs: seq<Option<Value>>, k: nat)
    requires |fs| == |Names| && k < |fs| && fs[k].Some?
    ensures ColsUpTo(fs, |fs|) + ["updated_at"] == ColsUpTo(fs, k) + [Names[k]] + (ColsFrom(fs, k + 1) + ["updated_at"])
  {
    SplitAt(fs, k);
    Around(ColsUpTo(fs, |fs|), ColsUpTo(fs, k), Names[k], ColsFrom(fs, k + 1), ["updated_at"]);
  }

  lemma ValsAround(fs: seq<Option<Value>>, now: Instant, k: nat)
    requires |fs| == |Names| && k < |fs| && fs[k].Some?
    ensures ValsUpTo(fs, |fs|) + [Time(now)] == ValsUpTo(fs, k) + [fs[k].value] + (ValsFrom(fs, k + 1) + [Time(now)])
  {
    SplitAt(fs, k);
    Around(ValsUpTo(fs, |fs|), ValsUpTo(fs, k), fs[k].value, ValsFrom(fs, k + 1), [Time(now)]);
  }

  /** A given field's name is not set again after it, nor is it `updated_at`. */
  lemma NotSetAgain(fs: seq<Option<Value>>, k: nat)
    requires |fs| == |Names| && k < |fs|
    ensures Names[k] !in ColsFrom(fs, k + 1) + ["updated_at"]
  {
    NamesDistinct(k);
    if Names[k] in ColsFrom(fs, k + 1) {
      ColsFromNames(fs, k + 1, Names[k]);
    }
  }

  /** Every field the request gives is written to its column. */
  lemma UpdatedField(old_row: Row, p: EventPatch, now: Instant, k: nat)
    requires k < |Names| && Fields(p)[k].Some?
    ensures var row := PatchedRow(old_row, p, now);
      Names[k] in row && row[Names[k]] == Fields(p)[k].value
  {
    var fs := Fields(p);
    ColsAround(fs, k);
    ValsAround(fs, now, k);
    NotSetAgain(fs, k);
    ColsValsFromLength(fs, k + 1);
    ApplySetBetween(old_row, ColsUpTo(fs, k), Names[k], ColsFrom(fs, k + 1) + ["updated_at"],
      ValsUpTo(fs, k), fs[k].value, ValsFrom(fs, k + 1) + [Time(now)]);
  }

  /** Only the names of the first k fields are pushed for them. */
  lemma {:induction false} ColsUpToNames(fs: seq<Option<Value>>, k: nat, c: string)
    requires |fs| == |Names| && k <= |fs| && c in ColsUpTo(fs, k)
    ensures c in Names[..k]
  {
    if c !in Col(Names[k - 1], fs[k - 1]) {
      ColsUpToNames(fs, k - 1, c);
      assert Names[..k - 1] == Names[..k][..k - 1];
    }
  }

  /** No patchable column appears among the earlier ones. */
  lemma NamesDistinctBefore(k: nat)
    requires k < 9
    ensures Names[k] !in Names[..k]
  {
  }

  /** An undefined field's name is nowhere in the SET list. */
  lemma NotInPatch(fs: seq<Option<Value>>, k: nat)
    requires |fs| == |Names| && k < |fs| && fs[k].None?
    ensures Names[k] !in ColsUpTo(fs, |fs|) + ["updated_at"]
  {
    SplitAt(fs, k);
    assert ColsFrom(fs, k) == ColsFrom(fs, k + 1);
    NotSetAgain(fs, k);
    NamesDistinctBefore(k);
    if Names[k] in ColsUpTo(fs, k) {
      ColsUpToNames(fs, k, Names[k]);
    }
    Regroup(ColsUpTo(fs, k), ColsFrom(fs, k + 1), ["updated_at"]);
  }

  /** A field the request leaves undefined is not in the SET list, so its
      column keeps its value: the update touches only the fields sent. */
  lemma UndefinedFieldKept(old_row: Row, p: EventPatch, now: Instant, k: nat)
    requires k < |Names| && Fields(p)[k].None? && Names[k] in old_row
    ensures var row := PatchedRow(old_row, p, now);
      Names[k] in row && row[Names[k]] == old_row[Names[k]]
  {
    NotInPatch(Fields(p), k);
    UpdatedRow(old_row, p, now);
  }

  // ---------- creation ----------

  /** The body of the create request; None means the field was absent. */
  datatype NewEvent = NewEvent(
    family: Option<int>, title: Option<string>, notes: Option<Value>, location: Option<Value>,
    allDay: Option<Value>, startAt: Option<Instant>, endAt: Option<Value>, date: Option<Date>,
    priority: Option<Value>, category: Option<Value>, createdByType: Option<Value>, createdById: Option<Value>,
    targets: Option<seq<Target>>)

  /** `${date}T00:00:00` and `${date}T23:59:00`, both on the same day (UTC here). */
  function AllDayRange(d: Date): (r: (Instant, Instant))
    ensures r.1 - r.0 == (23 * 60 + 59) * MsPerMinute
    ensures DayOf(r.0) == DayNumber(d) && DayOf(r.1) == DayNumber(d)
  {
    (StartOf(d), StartOf(d) + (23 * 60 + 59) * MsPerMinute)
  }

  /** The start and end columns: the request's `start_at` / `end_at` when a start
      is given, else the all-day range of `date`. */
  function StartEnd(e: NewEvent): (Value, Value)
    requires e.startAt.Some? || e.date.Some?
  {
    if e.startAt.None? then (Time(AllDayRange(e.date.value).0), Time(AllDayRange(e.date.value).1))
    else (Time(e.startAt.value), e.endAt.GetOr(Null))
  }

  function NewRow(e: NewEvent): Row
    requires e.family.Some? && e.title.Some? && (e.startAt.Some? || e.date.Some?)
  {
    map[
      "family_key" := Int(e.family.value), "title" := Text(e.title.value),
      "notes" := e.notes.GetOr(Null), "location" := e.location.GetOr(Null),
      "start_at" := StartEnd(e).0, "end_at" := StartEnd(e).1,
      "all_day" := e.allDay.GetOr(Bool(true)), "priority" := e.priority.GetOr(Int(0)),
      "category_id" := e.category.GetOr(Null),
      "created_by_type" := e.createdByType.GetOr(Null), "created_by_id" := e.createdById.GetOr(Null)]
  }

  datatype CreateResult = CreateBadRequest | Created(id: int)

  /** `createEvent`: 400 without family, title, or both start and date; otherwise
      a fresh event row and one target row per target (`family` when none). */
  method CreateEvent(store: Store, e: NewEvent) returns (r: CreateResult)
    requires store.Valid()
    modifies store
    ensures store.Valid()
    ensures r.CreateBadRequest? <==> !Truthy(e.family) || !TruthyText(e.title) || (e.startAt.None? && e.date.None?)
    ensures r.CreateBadRequest? ==>
      store.events == old(store.events) && store.targets == old(store.targets) && store.nextEvent == old(store.nextEvent)
    ensures store.categories == old(store.categories) && store.nextCategory == old(store.nextCategory)
    ensures r.Created? ==>
      && r.id !in old(store.events)
      && store.events == old(store.events)[r.id := NewRow(e)]
      && store.targets == old(store.targets) + RowsFor(r.id, Int(e.family.value), TargetsOrFamily(e.targets))
  {
    if !Truthy(e.family) || !TruthyText(e.title) || (e.startAt.None? && e.date.None?) {
      return CreateBadRequest;
    }
    // BEGIN; INSERT INTO events ... RETURNING event_id
    var id := store.nextEvent;
    store.events := store.events[id := NewRow(e)];
    store.nextEvent := store.nextEvent + 1;
    InsertTargets(store, id, Int(e.family.value), TargetsOrFamily(e.targets));
    r := Created(id);  // COMMIT
  }

  /** An all-day event given only by its date starts at midnight and ends at
      23:59 of that same day. */
  lemma DateOnlyIsAllDay(e: NewEvent)
    requires e.family.Some? && e.title.Some? && e.startAt.None? && e.date.Some?
    ensures var row := NewRow(e);
      && row["start_at"] == Time(StartOf(e.date.value))
      && row["end_at"] == Time(StartOf(e.date.value) + (23 * 60 + 59) * MsPerMinute)
      && DayOf(row["end_at"].t) == DayOf(row["start_at"].t)
  {
  }

  // ---------- categories ----------

  const DefaultColor: string := "#5AA9FF"
  const DefaultSortOrder: int := 100

  datatype CategoryResult = CategoryBadRequest | CategoryExists | CategoryCreated(id: int)

  /** `createCategory`: 400 without family or name; 409 and no insert when the
      family already has a category of that name; otherwise a new category with
      colour `#5AA9FF` and sort order 100 unless given. */
  method CreateCategory(store: Store, family: Option<int>, name: Option<string>, color: Option<string>, sortOrder: Option<int>)
    returns (r: CategoryResult)
    requires store.Valid()
    modifies store
    ensures store.Valid()
    ensures store.events == old(store.events) && store.targets == old(store.targets)
    ensures r.CategoryBadRequest? <==> !Truthy(family) || !TruthyText(name)
    ensures r.CategoryExists? <==>
      Truthy(family) && TruthyText(name) && CategoryKey(family.value, name.value) in old(store.categories)
    ensures !r.CategoryCreated? ==> store.categories == old(store.categories)
    ensures r.CategoryCreated? ==>
      && r.id !in (set k | k in old(store.categories) :: old(store.categories)[k].id)
      && store.categories == old(store.categories)[CategoryKey(family.value, name.value) :=
           Category(r.id, color.GetOr(DefaultColor), sortOrder.GetOr(DefaultSortOrder))]
  {
    if !Truthy(family) || !TruthyText(name) {
      return CategoryBadRequest;
    }
    var key := CategoryKey(family.value, name.value);
    if key in store.categories {
      return CategoryExists;  // ON CONFLICT DO NOTHING, no row returned
    }
    var id := store.nextCategory;
    store.categories := store.categories[key := Category(id, color.GetOr(DefaultColor), sortOrder.GetOr(DefaultSortOrder))];
    store.nextCategory := id + 1;
    r := CategoryCreated(id);
  }
}
