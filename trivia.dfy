/** The daily family trivia: question generators over the family's data, the
    fallback chain of the `today` endpoint, and answer submission against the
    `TriviaDaily` table.  `crypto.createHmac` is modelled as a free (hence
    injective) constructor over the signed object. */
module Trivia {
  import opened Common
  import opened Dates
  import opened Ordering
  import opened Household
  import opened ChoreStore
  import opened TriviaRandom

  datatype Kind = ChildKind | ParentKind

  /** A row of `listFamilyMembers`: type, id, name, birth date. */
  datatype Member = Member(kind: Kind, id: int, name: string, birth: Option<Date>)

  function ChildMembers(cs: seq<Child>, family: int): (r: seq<Member>)
    ensures forall m :: m in r ==> m.kind == ChildKind && exists c :: c in cs && c.family == family && m == Member(ChildKind, c.id, c.name, c.birth)
    ensures forall c :: c in cs && c.family == family ==> Member(ChildKind, c.id, c.name, c.birth) in r
  {
    if cs == [] then []
    else (if cs[0].family == family then [Member(ChildKind, cs[0].id, cs[0].name, cs[0].birth)] else []) + ChildMembers(cs[1..], family)
  }

  function ParentMembers(ps: seq<Parent>, family: int): (r: seq<Member>)
    ensures forall m :: m in r ==> m.kind == ParentKind && exists p :: p in ps && p.family == family && m == Member(ParentKind, p.id, p.name, p.birth)
    ensures forall p :: p in ps && p.family == family ==> Member(ParentKind, p.id, p.name, p.birth) in r
  {
    if ps == [] then []
    else (if ps[0].family == family then [Member(ParentKind, ps[0].id, ps[0].name, ps[0].birth)] else []) + ParentMembers(ps[1..], family)
  }

  /** `listFamilyMembers`: the family's children, then its parents (UNION ALL). */
  function FamilyMembers(children: seq<Child>, parents: seq<Parent>, family: int): seq<Member> {
    ChildMembers(children, family) + ParentMembers(parents, family)
  }

  // ---------- tokens ----------

  /** The object `hmac` signs: `{ family_key, date, correct_index, seed }`; `date: ''` is None. */
  datatype Signed = Signed(family: int, date: Option<Date>, correctIndex: int, seed: string)

  /** A token: the HMAC of a signed object, or any other string. */
  datatype Token = Hmac(signed: Signed) | Other(text: string)

  /** The structured form of a question's `id` string. */
  datatype QuestionId =
    | BirthdayTodayId(family: int, date: Date, kind: Kind, member: int)
    | BirthdayNextId(family: int, date: Date, kind: Kind, member: int)
    | TaskYesterdayId(family: int, date: Date, event: int)
    | ExternalId(quiz: int)
    | StaticId(seed: string)

  datatype Question = Question(id: QuestionId, choices: seq<string>, correctIndex: int, token: Token, seed: string)

  /** The `Math.random()` draws one generator makes: for `pickN`, for `shuffle`,
      for the static pool's item, and the seed string derived from one more. */
  datatype Coins = Coins(pick: seq<int>, shuffle: seq<int>, item: int, seed: string)

  /** `Array.prototype.indexOf`. */
  function IndexOf(s: seq<string>, x: string): (r: int)
    ensures x in s ==> 0 <= r < |s| && s[r] == x && x !in s[..r]
    ensures x !in s ==> r == -1
  {
    if s == [] then -1
    else if s[0] == x then 0
    else
      var k := IndexOf(s[1..], x);
      assert x in s[1..] ==> s[..k + 1] == [s[0]] + s[1..][..k];
      if k == -1 then -1 else k + 1
  }

  /** `shuffle([answer, ...pickN(pool, 3)])`. */
  function Choices(answer: string, pool: seq<string>, coins: Coins): seq<string> {
    Shuffled([answer] + Picked(pool, 3, -1, coins.pick), coins.shuffle)
  }

  /** The choices are the answer and up to three names from the pool. */
  lemma ChoicesSound(answer: string, pool: seq<string>, coins: Coins)
    ensures var c := Choices(answer, pool, coins);
      && 1 <= |c| <= 4
      && answer in c
      && (forall x :: x in c ==> x == answer || x in pool)
  {
    var picked := Picked(pool, 3, -1, coins.pick);
    var c := Choices(answer, pool, coins);
    PickedSound(pool, 3, -1, coins.pick);
    ShuffledMembers([answer] + picked, coins.shuffle, answer);
    forall x | x in c
      ensures x == answer || x in pool
    {
      ShuffledMembers([answer] + picked, coins.shuffle, x);
      if x != answer {
        PickedFromPool(pool, x, coins.pick);
      }
    }
  }

  /** A picked name is a name of the pool. */
  lemma PickedFromPool(pool: seq<string>, x: string, draws: seq<int>)
    requires x in Picked(pool, 3, -1, draws)
    ensures x in pool
  {
    var picked := Picked(pool, 3, -1, draws);
    var p := PickedPositions(pool, 3, -1, draws);
    PickedSound(pool, 3, -1, draws);
    var k :| 0 <= k < |picked| && picked[k] == x;
    assert pool[p[k]] == x;
  }

  /** A question built the way the three family generators build it, signed
      with the family key and the request date. */
  function Ask(id: QuestionId, answer: string, pool: seq<string>, family: int, d: Date, coins: Coins): (q: Question)
    ensures 1 <= |q.choices| <= 4
    ensures 0 <= q.correctIndex < |q.choices| && q.choices[q.correctIndex] == answer
    ensures answer !in q.choices[..q.correctIndex]
    ensures forall x :: x in q.choices ==> x == answer || x in pool
    ensures q.token == Hmac(Signed(family, Some(d), q.correctIndex, coins.seed)) && q.seed == coins.seed
    ensures q.id == id
  {
    ChoicesSound(answer, pool, coins);
    var choices := Choices(answer, pool, coins);
    var ci := IndexOf(choices, answer);
    Question(id, choices, ci, Hmac(Signed(family, Some(d), ci, coins.seed)), coins.seed)
  }

  /** The names of other members: `filter(m => m.name && m.id !== id).map(m => m.name)`. */
  function OtherNames(members: seq<Member>, id: int): (r: seq<string>)
    ensures forall x :: x in r ==> x != "" && exists m :: m in members && m.id != id && m.name == x
    ensures forall m :: m in members && m.name != "" && m.id != id ==> m.name in r
  {
    if members == [] then []
    else
      assert forall m :: m in members ==> m == members[0] || m in members[1..];
      (if members[0].name != "" && members[0].id != id then [members[0].name] else []) + OtherNames(members[1..], id)
  }

  // ---------- 1) birthday today ----------

  /** Month and day of the birth date equal the date's. */
  predicate BornOn(m: Member, d: Date) {
    m.birth.Some? && m.birth.value.month == d.month && m.birth.value.day == d.day
  }

  function FirstBornOn(members: seq<Member>, d: Date): (r: Option<nat>)
    ensures r.Some? ==> r.value < |members| && BornOn(members[r.value], d)
    ensures r.Some? ==> forall k :: 0 <= k < r.value ==> !BornOn(members[k], d)
    ensures r.None? ==> forall m :: m in members ==> !BornOn(m, d)
  {
    if members == [] then None
    else if BornOn(members[0], d) then Some(0)
    else
      var r := FirstBornOn(members[1..], d);
      assert forall m :: m in members ==> m == members[0] || m in members[1..];
      if r.None? then None else Some(r.value + 1)
  }

  /** `genBirthdayToday`: nothing when no member was born on this month and day;
      otherwise the first such member is the answer, whose name is at the
      correct index, and the other choices are names of members with another id. */
  function GenBirthdayToday(members: seq<Member>, family: int, d: Date, coins: Coins): (r: Option<Question>)
    ensures r.None? <==> forall m :: m in members ==> !BornOn(m, d)
    ensures r.Some? ==>
      var a := members[FirstBornOn(members, d).value];
      && r.value.id == BirthdayTodayId(family, d, a.kind, a.id)
      && |r.value.choices| <= 4
      && 0 <= r.value.correctIndex < |r.value.choices|
      && r.value.choices[r.value.correctIndex] == a.name
      && (forall x :: x in r.value.choices ==> x == a.name || exists m :: m in members && m.id != a.id && m.name == x)
      && r.value.token == Hmac(Signed(family, Some(d), r.value.correctIndex, r.value.seed))
  {
    match FirstBornOn(members, d)
    case None => None
    case Some(i) =>
      var a := members[i];
      Some(Ask(BirthdayTodayId(family, d, a.kind, a.id), a.name, OtherNames(members, a.id), family, d, coins))
  }

  // ---------- 2) next birthday ----------

  /** The `CASE` of `norm`: this year's birthday unless it is before today, then next year's. */
  function NextBirthday(b: Date, today: Date): (r: Date)
    ensures AtOrBefore(today, r)
    ensures Before(r, Date(today.year + 1, today.month, today.day))
    ensures r.month == b.month && r.day == b.day
  {
    var thisYear := Date(today.year, b.month, b.day);
    if Before(thisYear, today) then Date(today.year + 1, b.month, b.day) else thisYear
  }

  function DateKey(d: Date): seq<int> {
    [d.year, d.month, d.day]
  }

  /** Ordering dates by their key is calendar order. */
  lemma DateKeyOrder(a: Date, b: Date)
    ensures LexLe(DateKey(a), DateKey(b)) <==> AtOrBefore(a, b)
  {
    LexLeCons(a.year, [a.month, a.day], b.year, [b.month, b.day]);
    LexLeCons(a.month, [a.day], b.month, [b.day]);
    LexLeCons(a.day, [], b.day, []);
  }

  function WithBirth(members: seq<Member>): (r: seq<Member>)
    ensures forall m :: m in r <==> m in members && m.birth.Some?
  {
    if members == [] then []
    else (if members[0].birth.Some? then [members[0]] else []) + WithBirth(members[1..])
  }

  function NextKey(today: Date): Member -> seq<int> {
    (m: Member) => if m.birth.Some? then DateKey(NextBirthday(m.birth.value, today)) else []
  }

  /** `ORDER BY next_bday ASC LIMIT 1` over the members with a birth date. */
  function NextTarget(members: seq<Member>, today: Date): (r: Option<Member>)
    ensures r.None? <==> forall m :: m in members ==> m.birth.None?
    ensures r.Some? ==> r.value in members && r.value.birth.Some?
    ensures r.Some? ==> forall m :: m in members && m.birth.Some? ==>
      AtOrBefore(NextBirthday(r.value.birth.value, today), NextBirthday(m.birth.value, today))
  {
    NearestFirst(members, today);
    First(WithBirth(members), NextKey(today))
  }

  lemma NearestFirst(members: seq<Member>, today: Date)
    ensures var r := First(WithBirth(members), NextKey(today));
      r.Some? ==> forall m :: m in members && m.birth.Some? ==>
        AtOrBefore(NextBirthday(r.value.birth.value, today), NextBirthday(m.birth.value, today))
  {
    var r := First(WithBirth(members), NextKey(today));
    if r.Some? {
      forall m | m in members && m.birth.Some?
        ensures AtOrBefore(NextBirthday(r.value.birth.value, today), NextBirthday(m.birth.value, today))
      {
        FirstIsLeast(WithBirth(members), NextKey(today), m);
        DateKeyOrder(NextBirthday(r.value.birth.value, today), NextBirthday(m.birth.value, today));
      }
    }
  }

  /** `genNextBirthday`: nothing when no member has a birth date; otherwise the
      member with the nearest birthday on or after today is the answer. */
  function GenNextBirthday(members: seq<Member>, family: int, d: Date, coins: Coins): (r: Option<Question>)
    ensures r.None? <==> NextTarget(members, d).None?
    ensures r.Some? ==>
      var t := NextTarget(members, d).value;
      && r.value.id == BirthdayNextId(family, d, t.kind, t.id)
      && |r.value.choices| <= 4
      && 0 <= r.value.correctIndex < |r.value.choices|
      && r.value.choices[r.value.correctIndex] == t.name
      && (forall x :: x in r.value.choices ==> x == t.name || exists m :: m in members && m.id != t.id && m.name == x)
      && r.value.token == Hmac(Signed(family, Some(d), r.value.correctIndex, r.value.seed))
  {
    match NextTarget(members, d)
    case None => None
    case Some(t) =>
      Some(Ask(BirthdayNextId(family, d, t.kind, t.id), t.name, OtherNames(members, t.id), family, d, coins))
  }

  /** The next birthday the question asks about is today or later, and within a year. */
  lemma NextBirthdayIsAhead(members: seq<Member>, d: Date)
    requires NextTarget(members, d).Some?
    ensures var nb := NextBirthday(NextTarget(members, d).value.birth.value, d);
      AtOrBefore(d, nb) && Before(nb, Date(d.year + 1, d.month, d.day))
  {
  }

  // ---------- 3) task yesterday ----------

  /** The event with this id, if any (the inner join on `Events`). */
  function FindEvent(events: seq<EventInfo>, id: int): (r: Option<nat>)
    ensures r.Some? ==> r.value < |events| && events[r.value].id == id
    ensures r.None? ==> forall k :: 0 <= k < |events| ==> events[k].id != id
  {
    if events == [] then None
    else if events[|events| - 1].id == id then Some(|events| - 1)
    else FindEvent(events[..|events| - 1], id)
  }

  /** The WHERE clause and both inner joins of `genTaskYesterday`. */
  predicate ApprovedYesterday(s: Instance, children: seq<Child>, events: seq<EventInfo>, family: int, d: Date) {
    && s.family == family && DayNumber(s.key.date) == DayNumber(d) - 1 && s.status == Approved
    && FindChild(children, s.key.child).Some? && FindEvent(events, s.key.task).Some?
  }

  function ApprovedYesterdayRows(rows: seq<Instance>, children: seq<Child>, events: seq<EventInfo>, family: int, d: Date): (r: seq<Instance>)
    ensures forall s :: s in r <==> s in rows && ApprovedYesterday(s, children, events, family, d)
  {
    if rows == [] then []
    else (if ApprovedYesterday(rows[0], children, events, family, d) then [rows[0]] else [])
         + ApprovedYesterdayRows(rows[1..], children, events, family, d)
  }

  /** `ORDER BY s.confirmed_at DESC NULLS LAST`. */
  function ConfirmedKey(s: Instance): seq<int> {
    if s.confirmedAt.Some? then [0, -s.confirmedAt.value] else [1]
  }

  /** The key puts later confirmations first and unconfirmed rows last. */
  lemma ConfirmedKeyOrder(s: Instance, t: Instance)
    ensures s.confirmedAt.Some? && t.confirmedAt.None? ==> LexLe(ConfirmedKey(s), ConfirmedKey(t))
    ensures s.confirmedAt.Some? && t.confirmedAt.Some? ==>
      (LexLe(ConfirmedKey(s), ConfirmedKey(t)) <==> s.confirmedAt.value >= t.confirmedAt.value)
  {
    if s.confirmedAt.Some? && t.confirmedAt.Some? {
      LexLeCons(0, [-s.confirmedAt.value], 0, [-t.confirmedAt.value]);
      LexLeCons(-s.confirmedAt.value, [], -t.confirmedAt.value, []);
    }
  }

  /** The row `LIMIT 1` keeps: an approved row of yesterday confirmed no earlier than any other. */
  function YesterdayHit(rows: seq<Instance>, children: seq<Child>, events: seq<EventInfo>, family: int, d: Date): (r: Option<Instance>)
    ensures r.None? <==> forall s :: s in rows ==> !ApprovedYesterday(s, children, events, family, d)
    ensures r.Some? ==> r.value in rows && ApprovedYesterday(r.value, children, events, family, d)
    ensures r.Some? ==> forall s :: s in rows && ApprovedYesterday(s, children, events, family, d) ==>
      LexLe(ConfirmedKey(r.value), ConfirmedKey(s))
  {
    LatestFirst(rows, children, events, family, d);
    First(ApprovedYesterdayRows(rows, children, events, family, d), ConfirmedKey)
  }

  lemma LatestFirst(rows: seq<Instance>, children: seq<Child>, events: seq<EventInfo>, family: int, d: Date)
    ensures var r := First(ApprovedYesterdayRows(rows, children, events, family, d), ConfirmedKey);
      r.Some? ==> forall s :: s in rows && ApprovedYesterday(s, children, events, family, d) ==>
        LexLe(ConfirmedKey(r.value), ConfirmedKey(s))
  {
    var hits := ApprovedYesterdayRows(rows, children, events, family, d);
    var r := First(hits, ConfirmedKey);
    if r.Some? {
      forall s | s in rows && ApprovedYesterday(s, children, events, family, d)
        ensures LexLe(ConfirmedKey(r.value), ConfirmedKey(s))
      {
        FirstIsLeast(hits, ConfirmedKey, s);
      }
    }
  }

  /** `SELECT child_name FROM Children WHERE family_key=$1 AND child_id <> $2 AND child_name IS NOT NULL`. */
  function OtherKidNames(children: seq<Child>, family: int, child: int): (r: seq<string>)
    ensures forall x :: x in r ==> x != "" && exists c :: c in children && c.family == family && c.id != child && c.name == x
    ensures forall c :: c in children && c.family == family && c.id != child && c.name != "" ==> c.name in r
  {
    if children == [] then []
    else
      assert forall c :: c in children ==> c == children[0] || c in children[1..];
      (if children[0].family == family && children[0].id != child && children[0].name != "" then [children[0].name] else [])
         + OtherKidNames(children[1..], family, child)
  }

  /** `genTaskYesterday`: nothing without an approved row for yesterday; otherwise
      the child of the latest-confirmed such row is the answer and the other
      choices are names of the family's other children. */
  function GenTaskYesterday(rows: seq<Instance>, children: seq<Child>, events: seq<EventInfo>, family: int, d: Date, coins: Coins): (r: Option<Question>)
    ensures r.None? <==> YesterdayHit(rows, children, events, family, d).None?
    ensures r.Some? ==>
      var hit := YesterdayHit(rows, children, events, family, d).value;
      var name := children[FindChild(children, hit.key.child).value].name;
      && r.value.id == TaskYesterdayId(family, d, hit.key.task)
      && |r.value.choices| <= 4
      && 0 <= r.value.correctIndex < |r.value.choices|
      && r.value.choices[r.value.correctIndex] == name
      && (forall x :: x in r.value.choices ==>
            (x == name || exists c :: c in children && c.family == family && c.id != hit.key.child && c.name == x))
      && r.value.token == Hmac(Signed(family, Some(d), r.value.correctIndex, r.value.seed))
  {
    match YesterdayHit(rows, children, events, family, d)
    case None => None
    case Some(hit) =>
      var name := children[FindChild(children, hit.key.child).value].name;
      Some(Ask(TaskYesterdayId(family, d, hit.key.task), name, OtherKidNames(children, family, hit.key.child), family, d, coins))
  }

  // ---------- 4) external and 5) static ----------

  /** What the quiz service answered, already parsed: its id, the non-empty
      answers, and the index `findIndex` computed (-1 when none matched). */
  datatype Fetched = Fetched(quiz: int, choices: seq<string>, correctIdx: int)

  /** `genExternal` after the fetch: `Math.max(0, correctIdx)`, signed with family 0 and no date. */
  function GenExternal(fetched: Option<Fetched>, coins: Coins): (r: Option<Question>)
    ensures r.None? <==> fetched.None?
    ensures r.Some? ==> r.value.correctIndex >= 0 && r.value.correctIndex == Max0(fetched.value.correctIdx)
    ensures r.Some? ==> r.value.token == Hmac(Signed(0, None, r.value.correctIndex, coins.seed))
  {
    match fetched
    case None => None
    case Some(f) =>
      var ci := Max0(f.correctIdx);
      Some(Question(ExternalId(f.quiz), f.choices, ci, Hmac(Signed(0, None, ci, coins.seed)), coins.seed))
  }

  function Max0(x: int): int {
    if x < 0 then 0 else x
  }

  /** The static pool: answers and the correct index of each question. */
  const StaticPool: seq<(seq<string>, int)> := [
    (["Summer", "Autumn", "Winter", "Spring"], 0),
    (["5", "6", "7", "8"], 2),
    (["Green", "Purple", "Orange", "Brown"], 0),
    (["Cat", "Cow", "Dog", "Lion"], 1)]

  /** `genStatic`: one of the four pool items, signed with family 0 and no date; never null. */
  function GenStatic(coins: Coins): (q: Question)
    ensures |q.choices| == 4 && 0 <= q.correctIndex < 4
    ensures (q.choices, q.correctIndex) in StaticPool
    ensures q.token == Hmac(Signed(0, None, q.correctIndex, coins.seed)) && q.id == StaticId(coins.seed)
  {
    var item := StaticPool[coins.item % 4];
    Question(StaticId(coins.seed), item.0, item.1, Hmac(Signed(0, None, item.1, coins.seed)), coins.seed)
  }

  // ---------- TriviaDaily ----------

  /** `TriviaDaily`'s conflict key (child_id, trivia_date). */
  datatype TriviaKey = TriviaKey(child: int, date: Date)

  datatype TriviaRow = TriviaRow(family: int, correct: bool, points: int)

  /** `familySolvedToday`: some correct row of the family for the date. */
  predicate FamilySolvedToday(daily: map<TriviaKey, TriviaRow>, family: int, d: Date) {
    exists k :: k in daily && k.date == d && daily[k].family == family && daily[k].correct
  }

  // ---------- GET today ----------

  /** The tables the generators read. */
  datatype FamilyDb = FamilyDb(children: seq<Child>, parents: seq<Parent>, rows: seq<Instance>, events: seq<EventInfo>)

  datatype TodayResult = TodayBadRequest | AlreadySolved | Served(q: Question)

  /** `getTodayQuestion`: 400 unless family, child and date are given; 423 once the
      family solved the day; otherwise the first generator, in the order birthday
      today, next birthday, task yesterday, external, static, that yields one. */
  function TodayQuestion(family: Option<int>, child: Option<int>, date: Option<Date>,
                         db: FamilyDb, daily: map<TriviaKey, TriviaRow>, fetched: Option<Fetched>, coins: Coins): (r: TodayResult)
    ensures r.TodayBadRequest? <==> !Truthy(family) || !Truthy(child) || date.None?
    ensures r.AlreadySolved? <==> Truthy(family) && Truthy(child) && date.Some? && FamilySolvedToday(daily, family.value, date.value)
    ensures Truthy(family) && Truthy(child) && date.Some? && !FamilySolvedToday(daily, family.value, date.value) ==> r.Served?
    ensures r.Served? ==>
      var members := FamilyMembers(db.children, db.parents, family.value);
      var bt := GenBirthdayToday(members, family.value, date.value, coins);
      var nb := GenNextBirthday(members, family.value, date.value, coins);
      var ty := GenTaskYesterday(db.rows, db.children, db.events, family.value, date.value, coins);
      var ex := GenExternal(fetched, coins);
      && (bt.Some? ==> r.q == bt.value)
      && (bt.None? && nb.Some? ==> r.q == nb.value)
      && (bt.None? && nb.None? && ty.Some? ==> r.q == ty.value)
      && (bt.None? && nb.None? && ty.None? && ex.Some? ==> r.q == ex.value)
      && (bt.None? && nb.None? && ty.None? && ex.None? ==> r.q == GenStatic(coins))
  {
    if !Truthy(family) || !Truthy(child) || date.None? then TodayBadRequest
    else if FamilySolvedToday(daily, family.value, date.value) then AlreadySolved
    else
      var members := FamilyMembers(db.children, db.parents, family.value);
      var bt := GenBirthdayToday(members, family.value, date.value, coins);
      if bt.Some? then Served(bt.value)
      else
        var nb := GenNextBirthday(members, family.value, date.value, coins);
        if nb.Some? then Served(nb.value)
        else
          var ty := GenTaskYesterday(db.rows, db.children, db.events, family.value, date.value, coins);
          if ty.Some? then Served(ty.value)
          else
            var ex := GenExternal(fetched, coins);
            if ex.Some? then Served(ex.value) else Served(GenStatic(coins))
  }

  /** A family with at least one birth date always gets a birthday question. */
  lemma BirthDateMeansBirthdayQuestion(family: int, child: int, d: Date, db: FamilyDb,
                                       daily: map<TriviaKey, TriviaRow>, fetched: Option<Fetched>, coins: Coins, m: Member)
    requires family != 0 && child != 0 && !FamilySolvedToday(daily, family, d)
    requires m in FamilyMembers(db.children, db.parents, family) && m.birth.Some?
    ensures var r := TodayQuestion(Some(family), Some(child), Some(d), db, daily, fetched, coins);
      r.Served? && (r.q.id.BirthdayTodayId? || r.q.id.BirthdayNextId?)
  {
  }

  // ---------- POST answer ----------

  datatype SubmitResult = SubmitBadRequest | SubmitLocked | BadToken | Answered(correct: bool)

  /** `!token` is false for a present, non-empty token. */
  predicate TruthyToken(token: Option<Token>) {
    token.Some? && token.value != Other("")
  }

  /** The index the token signs for this family, date and seed, among 0..3. */
  function Recovered(token: Token, family: int, d: Date, seed: string): (r: Option<int>)
    ensures r.Some? ==> 0 <= r.value < 4 && token == Hmac(Signed(family, Some(d), r.value, seed))
    ensures r.None? ==> forall c :: 0 <= c < 4 ==> token != Hmac(Signed(family, Some(d), c, seed))
  {
    match token
    case Hmac(s) =>
      if s.family == family && s.date == Some(d) && s.seed == seed && 0 <= s.correctIndex < 4 then Some(s.correctIndex) else None
    case Other(_) => None
  }

  /** The checks of `submitAnswer`, in order: required fields (a non-number
      choice is None, an empty token counts as missing), the family lock, the token, and the comparison. */
  function Verdict(daily: map<TriviaKey, TriviaRow>, family: Option<int>, child: Option<int>, date: Option<Date>,
                   choice: Option<int>, token: Option<Token>, seed: string): (r: SubmitResult)
    ensures r.SubmitBadRequest? <==> !Truthy(family) || !Truthy(child) || date.None? || choice.None? || !TruthyToken(token)
    ensures r.SubmitLocked? <==> !r.SubmitBadRequest? && FamilySolvedToday(daily, family.value, date.value)
    ensures r.BadToken? <==>
      (!r.SubmitBadRequest? && !r.SubmitLocked?
       && forall c :: 0 <= c < 4 ==> token.value != Hmac(Signed(family.value, Some(date.value), c, seed)))
    ensures r.Answered? ==> (r.correct <==> 0 <= choice.value < 4 && token.value == Hmac(Signed(family.value, Some(date.value), choice.value, seed)))
  {
    if !Truthy(family) || !Truthy(child) || date.None? || choice.None? || !TruthyToken(token) then SubmitBadRequest
    else if FamilySolvedToday(daily, family.value, date.value) then SubmitLocked
    else match Recovered(token.value, family.value, date.value, seed)
      case None => BadToken
      case Some(ci) => Answered(choice.value == ci)
  }

  /** The loop over `ci` in 0..3 that recomputes the signature. */
  method RecoverCorrectIndex(token: Token, family: int, d: Date, seed: string) returns (ci: Option<int>)
    ensures ci == Recovered(token, family, d, seed)
  {
    ci := None;
    var c := 0;
    while c < 4
      invariant 0 <= c <= 4
      invariant forall k :: 0 <= k < c ==> token != Hmac(Signed(family, Some(d), k, seed))
    {
      if Hmac(Signed(family, Some(d), c, seed)) == token {
        ci := Some(c);
        return;
      }
      c := c + 1;
    }
  }

  /** The upsert of a correct answer: `correct = true`, 5 points; an existing row keeps its family. */
  function Solve(daily: map<TriviaKey, TriviaRow>, family: int, child: int, d: Date): (r: map<TriviaKey, TriviaRow>)
    ensures TriviaKey(child, d) in r && r[TriviaKey(child, d)].correct && r[TriviaKey(child, d)].points == 5
    ensures forall k :: k != TriviaKey(child, d) ==> (k in r <==> k in daily) && (k in daily ==> r[k] == daily[k])
  {
    var key := TriviaKey(child, d);
    daily[key := TriviaRow(if key in daily then daily[key].family else family, true, 5)]
  }

  class TriviaBoard {
    var daily: map<TriviaKey, TriviaRow>

    constructor (initial: map<TriviaKey, TriviaRow>)
      ensures daily == initial
    {
      daily := initial;
    }
  }

  /** `submitAnswer`: the verdict of the checks; only a correct answer writes. */
  method SubmitAnswer(board: TriviaBoard, family: Option<int>, child: Option<int>, date: Option<Date>,
                      choice: Option<int>, token: Option<Token>, seed: string) returns (r: SubmitResult)
    modifies board
    ensures r == Verdict(old(board.daily), family, child, date, choice, token, seed)
    ensures board.daily == if r == Answered(true) then Solve(old(board.daily), family.value, child.value, date.value) else old(board.daily)
  {
    if !Truthy(family) || !Truthy(child) || date.None? || choice.None? || !TruthyToken(token) {
      return SubmitBadRequest;
    }
    if FamilySolvedToday(board.daily, family.value, date.value) {
      return SubmitLocked;
    }
    var ci := RecoverCorrectIndex(token.value, family.value, date.value, seed);
    if ci.None? {
      return BadToken;
    }
    var isCorrect := choice.value == ci.value;
    if isCorrect {
      board.daily := Solve(board.daily, family.value, child.value, date.value);
    }
    r := Answered(isCorrect);
  }

  /** Once a family is solved for a date it stays solved: the upsert never clears a correct row. */
  lemma SolvedStaysSolved(daily: map<TriviaKey, TriviaRow>, family: int, child: int, d: Date, f: int, e: Date)
    requires FamilySolvedToday(daily, f, e)
    ensures FamilySolvedToday(Solve(daily, family, child, d), f, e)
  {
    var k :| k in daily && k.date == e && daily[k].family == f && daily[k].correct;
    var r := Solve(daily, family, child, d);
    assert k in r && r[k].family == f && r[k].correct;
  }

  /** After a correct answer, every later submission for the family and date is
      refused (400 or 423), whoever sends it, unless the child already had a row
      for that date under another family. */
  lemma CorrectAnswerLocksTheDay(daily: map<TriviaKey, TriviaRow>, family: int, child: int, d: Date,
                                 choice: Option<int>, token: Option<Token>, seed: string,
                                 child2: Option<int>, choice2: Option<int>, token2: Option<Token>, seed2: string)
    requires Verdict(daily, Some(family), Some(child), Some(d), choice, token, seed) == Answered(true)
    requires TriviaKey(child, d) !in daily
    ensures var after := Solve(daily, family, child, d);
      var v := Verdict(after, Some(family), child2, Some(d), choice2, token2, seed2);
      v.SubmitBadRequest? || v.SubmitLocked?
  {
    var after := Solve(daily, family, child, d);
    assert TriviaKey(child, d) in after && after[TriviaKey(child, d)].family == family;
  }

  /** The exception: a row of the child for the date under another family keeps that family. */
  lemma ForeignRowDoesNotLock(d: Date)
    ensures var daily := map[TriviaKey(2, d) := TriviaRow(9, true, 5)];
      !FamilySolvedToday(daily, 1, d) && !FamilySolvedToday(Solve(daily, 1, 2, d), 1, d)
  {
    var daily := map[TriviaKey(2, d) := TriviaRow(9, true, 5)];
    var after := Solve(daily, 1, 2, d);
    assert after == daily;
  }

  /** A question of the three family generators carries a token signed with the
      family key, the date and its own correct index, which is below 4. */
  lemma FamilyQuestionToken(family: int, child: int, d: Date, db: FamilyDb,
                            daily: map<TriviaKey, TriviaRow>, fetched: Option<Fetched>, coins: Coins)
    ensures var r := TodayQuestion(Some(family), Some(child), Some(d), db, daily, fetched, coins);
      r.Served? && (r.q.id.BirthdayTodayId? || r.q.id.BirthdayNextId? || r.q.id.TaskYesterdayId?) ==>
        && 0 <= r.q.correctIndex < 4
        && r.q.token == Hmac(Signed(family, Some(d), r.q.correctIndex, r.q.seed))
  {
    var r := TodayQuestion(Some(family), Some(child), Some(d), db, daily, fetched, coins);
    if r.Served? && (r.q.id.BirthdayTodayId? || r.q.id.BirthdayNextId? || r.q.id.TaskYesterdayId?) {
      var members := FamilyMembers(db.children, db.parents, family);
      var bt := GenBirthdayToday(members, family, d, coins);
      var nb := GenNextBirthday(members, family, d, coins);
      var ty := GenTaskYesterday(db.rows, db.children, db.events, family, d, coins);
      if bt.None? && nb.None? && ty.None? {
        assert false;
      }
    }
  }

  /** A token signed for this family, date and seed with an index below 4 is
      accepted, and the answer is correct exactly when the choice is that index. */
  lemma OwnTokenVerifies(daily: map<TriviaKey, TriviaRow>, family: int, child: int, d: Date, ci: int, seed: string, choice: int)
    requires family != 0 && child != 0 && !FamilySolvedToday(daily, family, d) && 0 <= ci < 4
    ensures Verdict(daily, Some(family), Some(child), Some(d), Some(choice), Some(Hmac(Signed(family, Some(d), ci, seed))), seed)
         == Answered(choice == ci)
  {
  }

  /** The round trip: a question the family generators serve is answered
      correctly by its own correct index and wrongly by any other choice. */
  lemma ServedQuestionIsAnswerable(family: int, child: int, d: Date, db: FamilyDb,
                                   daily: map<TriviaKey, TriviaRow>, fetched: Option<Fetched>, coins: Coins, choice: int)
    requires var r := TodayQuestion(Some(family), Some(child), Some(d), db, daily, fetched, coins);
      r.Served? && (r.q.id.BirthdayTodayId? || r.q.id.BirthdayNextId? || r.q.id.TaskYesterdayId?)
    ensures var q := TodayQuestion(Some(family), Some(child), Some(d), db, daily, fetched, coins).q;
      Verdict(daily, Some(family), Some(child), Some(d), Some(choice), Some(q.token), q.seed) == Answered(choice == q.correctIndex)
  {
    var q := TodayQuestion(Some(family), Some(child), Some(d), db, daily, fetched, coins).q;
    FamilyQuestionToken(family, child, d, db, daily, fetched, coins);
    OwnTokenVerifies(daily, family, child, d, q.correctIndex, q.seed, choice);
  }

  /** External and static questions sign family 0 and no date, so their tokens
      never verify: any answer to them is refused. */
  lemma FallbackTokenNeverVerifies(family: int, child: int, d: Date, db: FamilyDb,
                                   daily: map<TriviaKey, TriviaRow>, fetched: Option<Fetched>, coins: Coins,
                                   choice: int, seed: string)
    requires var r := TodayQuestion(Some(family), Some(child), Some(d), db, daily, fetched, coins);
      r.Served? && (r.q.id.ExternalId? || r.q.id.StaticId?)
    ensures var q := TodayQuestion(Some(family), Some(child), Some(d), db, daily, fetched, coins).q;
      !Verdict(daily, Some(family), Some(child), Some(d), Some(choice), Some(q.token), seed).Answered?
  {
    var q := TodayQuestion(Some(family), Some(child), Some(d), db, daily, fetched, coins).q;
    var members := FamilyMembers(db.children, db.parents, family);
    assert GenBirthdayToday(members, family, d, coins).None?;
    assert q.token.Hmac? && q.token.signed.date.None?;
  }
}
