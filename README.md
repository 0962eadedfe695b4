# Family chores server: a verified model of its request handlers

The server keeps a family's children and parents, the chores and calendar
events aimed at them, the per-child daily instances of those chores
(`ChildTaskEvents`: pending, child done, approved, rejected), a points
ledger, and a daily family trivia question. This project models the five
controllers that hold its logic:

- `kidsTasksController.js`: the day's list of recurring task assignments,
  marking a task done, the daily score, and the weekly leaderboard
  (module `KidsTasks`);
- `parentTasksController.js`: the parents' review list, approval (status 2
  plus a ledger entry, in one transaction) and rejection (module `ParentTasks`);
- `kidsController.js`: the child's calendar view of the day, marking an
  event done, and the daily score from `points_awarded` (module `KidsEvents`);
- `kidsTriviaController.js`: the question generators, the fallback chain of
  `GET /kids/trivia/today`, and answer submission against `TriviaDaily`
  (modules `TriviaRandom` for `pickN`/`shuffle` and `Trivia`);
- `parentCalendarController.js`: event creation with its targets, the
  dynamic `UPDATE ... SET` builder, and category creation (module `Calendar`).

Shared modules: `Common` (Option, JavaScript truthiness of the request
fields), `Dates` (civil dates, day numbers, instants in milliseconds since
the epoch, UTC only, week starts), `Ordering` (a stable insertion sort by a
lexicographic key standing for `ORDER BY`, `LIMIT`), `Household` (children,
parents) and `ChoreStore` (the `ChildTaskEvents` rows with their unique
conflict key, the `ON CONFLICT` upsert of "mark done", and the points ledger).

Tables are values: a table is a `seq` of rows in scan order (or a `map`
keyed by its primary or conflict key), and a query is a function of those
values. Handlers that write are methods on a class holding the tables they
change (`ChoreStore.Board` with `rows` and `ledger`; `Calendar.Store` with
events, targets and categories; `Trivia.TriviaBoard` with `TriviaDaily`).
Their `ensures` give the whole new state in terms of the old one.
A request field that is absent is `None`. `Common.Truthy` gives the
JavaScript `!x` test of a number: 0 and a missing value are falsy.
`Math.random()` is an oracle: a sequence of draws is an input, and draw
`d` at step `i` picks `d % (i + 1)`. `crypto.createHmac` is a free, and so
injective, constructor over the signed object. The clock `now()` is an
input too.

## Model

| member | source | states |
|---|---|---|
| Dates.WeekStart | controllers/kidsTasksController.js:8-14 | the Sunday-midnight week start is a UTC midnight, a Sunday, at or before `t`, less than seven days before it |
| Dates.WeekStartIdempotent | controllers/kidsTasksController.js:8-14 | taking the week start of a week start changes nothing |
| Dates.WeekStartUnique | controllers/kidsTasksController.js:8-14 | the week start is the only Sunday midnight in the seven days up to `t` |
| Dates.DayOfStart | controllers/kidsTasksController.js:104 | the UTC day of a date's own midnight is that date's day number |
| KidsTasks.WeekStartSunday | controllers/kidsTasksController.js:8-14 | the two-step `Date` computation returns exactly `WeekStart(d)`: a Sunday midnight with `start <= d < start + 7 days` |
| KidsTasks.DailyEveryDayInWindow | controllers/kidsTasksController.js:43-46 | a `daily` assignment is listed on a date iff the date is inside its start/end window |
| KidsTasks.OnceOnlyOnStart | controllers/kidsTasksController.js:43-47 | a `once` assignment is listed iff the date is its start date and not after its end date |
| KidsTasks.MaskBit | controllers/kidsTasksController.js:48 | `(mask >> w) & 1 = 1` holds iff bit `w` of the weekday mask is set |
| KidsTasks.WeeklyOnMaskedDays | controllers/kidsTasksController.js:43-48 | a `weekly` assignment is listed exactly on the masked weekdays inside its window |
| KidsTasks.FindTask | controllers/kidsTasksController.js:36 | the task joined to an assignment is a task with that id, and there is none exactly when no task has that id |
| KidsTasks.StatusCodeAt | controllers/kidsTasksController.js:33-40 | the reported status is a code 0..3, and 0 when the child has no row for the task and date |
| KidsTasks.DueCandidates | controllers/kidsTasksController.js:35-49 | an item is in the result iff it comes from an assignment of the family and child, with an active task, scheduled on the date |
| KidsTasks.ListChildTasksForDay | controllers/kidsTasksController.js:17-58 | with the shift by `EXTRACT(...)::int`: 400 iff family or child is falsy and never a database error; the date defaults to today; the items are sorted by lower-cased title and are a permutation of the due candidates |
| KidsTasks.ListChildTasksForDayAsWritten | controllers/kidsTasksController.js:17-58 | as written: 400 iff family or child is falsy, and a database error (500) for every other request |
| KidsTasks.AsWrittenLosesTheDailyTask | controllers/kidsTasksController.js:45-49 | for a child with one daily task, the corrected query lists the task and the query as written answers 500 |
| KidsTasks.UnmarkedIsPending | controllers/kidsTasksController.js:33 | a due task without a row for the day reports status 0 |
| KidsTasks.FirstAssignment | controllers/kidsTasksController.js:77-78 | the `LIMIT 1` sub-select returns the id of an assignment of that family, child and task, and NULL exactly when there is no such assignment |
| KidsTasks.ChildMarkDone | controllers/kidsTasksController.js:64-91 | 400 iff family, child or task is falsy, with nothing written; otherwise exactly the child-done upsert on (child, task, date), with the ledger unchanged and status 1 returned |
| KidsTasks.ChildDailyScore | controllers/kidsTasksController.js:94-112 | 400 iff family or child is falsy; otherwise the sum of the ledger points of that family and child created on that UTC day, and 0 when there are none |
| KidsTasks.AppendCountsOnItsDay | controllers/kidsTasksController.js:102-104 | a new ledger entry adds its points to the score of the day it was created on and to no other day's |
| KidsTasks.WeekRows | controllers/kidsTasksController.js:127-137 | one leaderboard row per child of the family, with the child's id, display name, avatar and points in the week window |
| KidsTasks.RankKeyMeaning | controllers/kidsTasksController.js:138 | the sort key orders rows by points descending, then by name ascending |
| KidsTasks.TopRows | controllers/kidsTasksController.js:138-139 | ranking and keeping ten gives `min(10, n)` rows of the input, in rank order, and every row left out ranks no earlier than each row kept |
| KidsTasks.Leaderboard | controllers/kidsTasksController.js:126-140 | at most ten of the family's children (id, name, avatar and points), ranked by points then name, and a child left out ranks no earlier than any child shown |
| KidsTasks.SmallFamilyListedInFull | controllers/kidsTasksController.js:139 | a family of at most ten children is listed in full |
| KidsTasks.NoEntriesScoresZero | controllers/kidsTasksController.js:131-135 | a child with no ledger entry of the family scores 0 (the left join keeps the child) |
| KidsTasks.WindowIsHalfOpen | controllers/kidsTasksController.js:135 | an entry created exactly at the window's end is not counted; one created exactly at its start is |
| KidsTasks.FamilyLeaderboardThisWeek | controllers/kidsTasksController.js:117-147 | 400 iff family is falsy; the window starts at the given `week_start` day as is, else at the Sunday that starts the current week, which contains `now`; the items are the leaderboard of that window |
| ChoreStore.Find | controllers/kidsTasksController.js:81 | the position returned holds the key, and no position holds it when none is returned |
| ChoreStore.FindUnique | controllers/kidsTasksController.js:81 | with unique keys, the row holding a key is the one found |
| ChoreStore.CountKeyOfUnique | controllers/kidsTasksController.js:81 | with unique keys, a key is held by at most one row |
| ChoreStore.UpsertChildDone | controllers/kidsTasksController.js:73-84 | after the upsert, keys stay unique and one row holds the key, with status 1 and the mark time; a new row (0 points, unconfirmed) is appended when none existed; otherwise only that row's status and mark time change, whatever its earlier status; all other rows are unchanged |
| ChoreStore.UpsertIdempotentInSize | controllers/kidsTasksController.js:81-82 | marking the same key done twice adds no second row |
| ChoreStore.UpdateKeepsUnique | controllers/parentTasksController.js:63-73 | replacing a row by one with the same key keeps the keys unique |
| ChoreStore.PointsWhereAppend | controllers/kidsTasksController.js:102 | the `SUM` over the ledger plus one entry is the old sum plus that entry's points when it is selected |
| ChoreStore.PointsWhereNone | controllers/kidsTasksController.js:102 | `COALESCE(SUM(points), 0)` is 0 when no entry is selected |
| ChoreStore.PointsWhereSame | controllers/kidsTasksController.js:102-104 | the sum depends only on which entries are selected |
| Household.FindChild | controllers/parentTasksController.js:31 | the joined child is the first child row with that id, and no row has the id when none is found |
| Household.ChildrenOf | controllers/kidsTasksController.js:136 | exactly the children of the family |
| Household.ChildrenOfCounts | controllers/kidsTasksController.js:136 | each child of the family is kept as often as it occurs, every other child is dropped |
| Household.ChildrenOfConcat | controllers/kidsTasksController.js:136 | the filter keeps scan order: the children of a concatenation are those of its first part followed by those of its second |
| Ordering.LexLeTotal | controllers/kidsTasksController.js:50 | the key order is total |
| Ordering.LexLeTrans | controllers/kidsTasksController.js:50 | the key order is transitive |
| Ordering.LexLeCons | controllers/kidsTasksController.js:138 | a key with a leading column orders by that column first |
| Ordering.InsertSorted | controllers/kidsTasksController.js:50 | inserting into a sorted list keeps it sorted |
| Ordering.SortByKeyCorrect | controllers/kidsTasksController.js:50 | `ORDER BY` yields a sorted permutation of the rows |
| Ordering.First | controllers/kidsTriviaController.js:105-106 | `ORDER BY ... LIMIT 1` returns a row of the input, and none iff there are no rows |
| Ordering.FirstIsLeast | controllers/kidsTriviaController.js:105-106 | the row it keeps ranks no later than any row |
| Ordering.TakeKeepsTheFirst | controllers/kidsTasksController.js:138-139 | every row cut off by `LIMIT` ranks no earlier than each row kept |
| ParentTasks.ChildOfFamily | controllers/parentTasksController.js:31 | the joined child has the id and the family, and none is returned when no child of the family has it |
| ParentTasks.EventOfFamily | controllers/parentTasksController.js:32 | the joined event has the id and the family, and none is returned when no event of the family has it |
| ParentTasks.ReviewCandidates | controllers/parentTasksController.js:20-36 | an item is listed iff its row is of the family and date, has status 1, and joins a child and an event of the family; every item has status 1 |
| ParentTasks.ReviewKeyLaterFirst | controllers/parentTasksController.js:37 | of two items marked at known times, the later one comes first |
| ParentTasks.ListForReview | controllers/parentTasksController.js:11-45 | 400 iff family or date is missing; otherwise the candidates sorted by mark time descending then title, as a permutation, all with status 1 |
| ParentTasks.ApprovalTarget | controllers/parentTasksController.js:69-73 | the UPDATE selects the key's row exactly when it is of the family and has status 1 |
| ParentTasks.ApproveOne | controllers/parentTasksController.js:52-98 | 400 iff a required field is falsy; 404 with nothing changed when no child-done row of the family matches; otherwise that row becomes Approved with the points (default 1), parent and time, and exactly one ledger entry with those points is appended, in one step |
| ParentTasks.ApprovedIsNoLongerATarget | controllers/parentTasksController.js:73-79 | after an approval the row is no longer a target, so approving again is a 404 |
| ParentTasks.RemarkReopensApproval | controllers/kidsTasksController.js:81-82 | marking an approved row done again makes it approvable once more, as written |
| ParentTasks.ApproveTwice | controllers/parentTasksController.js:63-87 | two approvals of the same instance in a row append at most one ledger entry, and the second one fails |
| ParentTasks.RejectionTarget | controllers/parentTasksController.js:115 | the rejection selects the key's row exactly when it is of the family and has status 0 or 1 |
| ParentTasks.RejectOne | controllers/parentTasksController.js:105-124 | 400 iff a required field is falsy; 404 with nothing changed when no pending or child-done row matches; otherwise that row becomes Rejected with 0 points and the time; the ledger never changes |
| ParentTasks.RejectedIsFinal | controllers/parentTasksController.js:73-115 | a rejected row carries 0 points and can neither be approved nor rejected again |
| KidsEvents.RangesOverlapMeaning | controllers/kidsController.js:40-41 | two half-open `tstzrange`s overlap iff some instant lies in both |
| KidsEvents.NoEndLastsAMinute | controllers/kidsController.js:22-41 | an event without an end is on a date iff it starts during that day or in the minute before its midnight, and so it is on the day it starts |
| KidsEvents.OtherChildTargetIsNotEnough | controllers/kidsController.js:42-48 | a target aimed at another child does not list the event |
| KidsEvents.ListedEvents | controllers/kidsController.js:39-48 | an event is kept iff it is of the family, overlaps the day and has a target row of the family aimed at the family, at all kids, or at this child; each kept event keeps its multiplicity |
| KidsEvents.JoinedRow | controllers/kidsController.js:49-53 | the joined row is the child's row for the event and date in the family; when none is joined, no such row of the family exists |
| KidsEvents.ItemsFor | controllers/kidsController.js:27-35 | one item per listed event, in order |
| KidsEvents.UnmarkedEventIsPending | controllers/kidsController.js:30-34 | an event without the child's row reports status 0, one default point and no points awarded |
| KidsEvents.AsWrittenDoesNotParse | controllers/kidsController.js:36-54 | the statement as written puts a JOIN after WHERE, which SQL's clause order rejects; the intended order parses |
| KidsEvents.ListChildTasksAsWritten | controllers/kidsController.js:11-62 | as written: 400 iff family, child or date is missing; every other request ends in the database-error answer |
| KidsEvents.AsWrittenLosesTheEvent | controllers/kidsController.js:11-62 | a child with one family event on a date gets a 500 as written and one item from the corrected listing |
| KidsEvents.ListChildTasks | controllers/kidsController.js:11-62 | corrected: 400 iff family, child or date is missing, never a database error; the items are those of exactly the listed events, ordered by start then id |
| KidsEvents.MarkChildDone | controllers/kidsController.js:69-87 | 400 iff family, child, event or date is missing, with nothing written; otherwise exactly the child-done upsert on (event, child, date); the ledger never changes |
| KidsEvents.DayPointsUpdate | controllers/kidsController.js:104-106 | replacing one row changes the day's sum by the difference of the two rows' shares |
| KidsEvents.DayPointsAppend | controllers/kidsController.js:104-106 | appending a row adds its points to the days it counts for |
| KidsEvents.DailyScore | controllers/kidsController.js:93-114 | 400 iff family, child or date is missing; otherwise the sum of `points_awarded` over the child's rows of that family and date, and 0 without rows |
| KidsEvents.MarkDoneKeepsDailyScore | controllers/kidsController.js:75-106 | marking done never changes any daily score: a new row carries 0 points and the upsert leaves the points alone |
| TriviaRandom.Pick | controllers/kidsTriviaController.js:20-24 | `Math.floor(Math.random() * (i + 1))` lies in `0..i` |
| TriviaRandom.PickReachesAll | controllers/kidsTriviaController.js:20-24 | every swap partner `0..i` can be drawn |
| TriviaRandom.SwapPermutes | controllers/kidsTriviaController.js:20-24 | a swap keeps the multiset of elements |
| TriviaRandom.ShuffledPermutes | controllers/kidsTriviaController.js:23-26 | the shuffle is a permutation of its input |
| TriviaRandom.ShuffledMembers | controllers/kidsTriviaController.js:23-26 | a shuffle holds exactly the values it was given |
| TriviaRandom.Shuffle | controllers/kidsTriviaController.js:23-26 | the in-place loop returns the same array, holding the shuffle of its old contents, a permutation of them |
| TriviaRandom.Indexed | controllers/kidsTriviaController.js:19 | the `(v, i)` pairs of every position except `exceptIdx`, in order, each pairing the value at its position |
| TriviaRandom.PickedSound | controllers/kidsTriviaController.js:18-22 | `pickN` returns `min(n, available)` values, each the value at a distinct position other than `exceptIdx` |
| TriviaRandom.PickN | controllers/kidsTriviaController.js:18-22 | the array code computes exactly the picked values of the specification |
| Trivia.ChildMembers | controllers/kidsTriviaController.js:42-43 | exactly the children of the family, as child members |
| Trivia.ParentMembers | controllers/kidsTriviaController.js:45-46 | exactly the parents of the family, as parent members |
| Trivia.IndexOf | controllers/kidsTriviaController.js:68 | `indexOf` gives the first position of the name, or -1 when it is absent |
| Trivia.ChoicesSound | controllers/kidsTriviaController.js:66-67 | the choices are one to four names: the answer and names of the pool |
| Trivia.PickedFromPool | controllers/kidsTriviaController.js:66 | a picked distractor is a name of the pool |
| Trivia.Ask | controllers/kidsTriviaController.js:66-79 | the correct index points at the answer's first occurrence, and the token signs the family, the date, that index and the seed |
| Trivia.OtherNames | controllers/kidsTriviaController.js:65 | the pool holds exactly the non-empty names of members with another id: every such name is in it, and nothing else is |
| Trivia.FirstBornOn | controllers/kidsTriviaController.js:61-64 | the first member whose birth month and day are the date's, or none when there is no such member |
| Trivia.GenBirthdayToday | controllers/kidsTriviaController.js:55-81 | no question iff no member was born on this month and day; otherwise the first such member is the answer at the correct index, the other choices are names of other members, and the token signs family, date and index |
| Trivia.NextBirthday | controllers/kidsTriviaController.js:96-101 | the next birthday keeps month and day, is on or after today, and is before the same date next year |
| Trivia.DateKeyOrder | controllers/kidsTriviaController.js:105 | ordering by the date key is calendar order |
| Trivia.WithBirth | controllers/kidsTriviaController.js:88-91 | exactly the members with a birth date |
| Trivia.NextTarget | controllers/kidsTriviaController.js:85-111 | none iff no member has a birth date; otherwise a member whose next birthday is no later than anyone's |
| Trivia.GenNextBirthday | controllers/kidsTriviaController.js:84-131 | no question iff there is no target; otherwise the target's name is at the correct index, the others are names of other members, and the token signs family, date and index |
| Trivia.NextBirthdayIsAhead | controllers/kidsTriviaController.js:96-101 | the birthday asked about is today or later and within a year |
| Trivia.FindEvent | controllers/kidsTriviaController.js:139 | the joined event has the id, and none is returned when no event has it |
| Trivia.ApprovedYesterdayRows | controllers/kidsTriviaController.js:136-142 | exactly the family's approved rows of the day before, that join a child and an event |
| Trivia.ConfirmedKeyOrder | controllers/kidsTriviaController.js:143 | later confirmations come first and unconfirmed rows last |
| Trivia.YesterdayHit | controllers/kidsTriviaController.js:135-149 | none iff there is no approved row of yesterday; otherwise such a row confirmed no earlier than any other |
| Trivia.OtherKidNames | controllers/kidsTriviaController.js:151-152 | the pool holds exactly the non-empty names of the family's other children: every such name is in it, and nothing else is |
| Trivia.GenTaskYesterday | controllers/kidsTriviaController.js:134-168 | no question iff there is no hit; otherwise the hit child's name is at the correct index, the other choices are other children's names, and the token signs family, date and index |
| Trivia.GenExternal | controllers/kidsTriviaController.js:173-205 | no question iff the fetch gave nothing; the correct index is `max(0, correctIdx)`, signed with family 0 and no date |
| Trivia.GenStatic | controllers/kidsTriviaController.js:208-227 | one of the four pool items with its own index below 4, signed with family 0 and no date |
| Trivia.TodayQuestion | controllers/kidsTriviaController.js:230-256 | 400 iff family, child or date is missing; 423 iff the family solved the date; otherwise always a question, from the first of birthday today, next birthday, task yesterday, external and static that yields one |
| Trivia.BirthDateMeansBirthdayQuestion | controllers/kidsTriviaController.js:245-246 | a family with a birth date always gets a birthday question |
| Trivia.Recovered | controllers/kidsTriviaController.js:279-283 | an index below 4 whose signature is the token, or none when no index in 0..3 signs it |
| Trivia.Verdict | controllers/kidsTriviaController.js:263-301 | 400 iff a required field is missing or falsy (an empty token included) or the choice is not a number; 423 iff the family solved the date; bad token iff no index 0..3 signs it; otherwise correct iff the choice is the signed index |
| Trivia.RecoverCorrectIndex | controllers/kidsTriviaController.js:279-283 | the loop over `ci` in 0..3 finds exactly the recovered index |
| Trivia.Solve | controllers/kidsTriviaController.js:292-298 | the child's row for the date becomes correct with 5 points, every other row is unchanged |
| Trivia.SubmitAnswer | controllers/kidsTriviaController.js:263-306 | the answer is the verdict, and `TriviaDaily` changes, by the upsert, only on a correct answer |
| Trivia.SolvedStaysSolved | controllers/kidsTriviaController.js:292-298 | the upsert never unsolves a solved family day |
| Trivia.CorrectAnswerLocksTheDay | controllers/kidsTriviaController.js:270-298 | after a correct answer by a child with no row for the date, every later submission of the family for that date is refused |
| Trivia.ForeignRowDoesNotLock | controllers/kidsTriviaController.js:295-296 | when the child already has a row for the date under another family, a correct answer leaves the family unlocked |
| Trivia.FamilyQuestionToken | controllers/kidsTriviaController.js:78-165 | a family question carries a token signed with the family, the date and its own correct index, which is below 4 |
| Trivia.OwnTokenVerifies | controllers/kidsTriviaController.js:279-288 | a token this family signed for the date and seed with an index below 4 is accepted, and the answer is correct iff the choice is that index |
| Trivia.ServedQuestionIsAnswerable | controllers/kidsTriviaController.js:230-306 | round trip: a served family question is answered correctly by its own index and wrongly by any other choice |
| Trivia.FallbackTokenNeverVerifies | controllers/kidsTriviaController.js:201-281 | an external or static question's token never verifies, so no answer to it is accepted |
| Calendar.TargetsOrFamily | controllers/parentCalendarController.js:105-180 | a non-empty array is used as is; a missing, non-array or empty one becomes one `family` target |
| Calendar.RowsFor | controllers/parentCalendarController.js:106-113 | one target row per target, in order, of the event and family |
| Calendar.WithoutEvent | controllers/parentCalendarController.js:176 | the DELETE keeps exactly the target rows of other events |
| Calendar.WithoutEventCounts | controllers/parentCalendarController.js:176 | each target row of another event is kept as often as it occurs, every row of the event is dropped |
| Calendar.WithoutEventConcat | controllers/parentCalendarController.js:176 | the DELETE keeps the other rows in their order: it works part by part |
| Calendar.NatText | controllers/parentCalendarController.js:146 | a placeholder number prints as one or more decimal digits, with no leading zero unless it is 0 |
| Calendar.NatTextRoundTrip | controllers/parentCalendarController.js:146 | the printed number reads back, digit by digit, as the counter `i` it came from |
| Calendar.NatTextInjective | controllers/parentCalendarController.js:146 | distinct counters print distinct placeholders, so each `$k` names exactly one parameter |
| Calendar.SetClause.Push | controllers/parentCalendarController.js:145-148 | `push` appends `field = $i` with the current counter and the value, and keeps fields, parameters and counter in step |
| Calendar.PushFields | controllers/parentCalendarController.js:149-157 | the nine `!== undefined` tests push exactly the defined fields, in order |
| Calendar.BuildUpdate | controllers/parentCalendarController.js:141-170 | field k is `column = $(k+1)` over the defined columns and then `updated_at`; the parameters are their values, the time and the id; the WHERE placeholder numbers the id |
| Calendar.SplitAt | controllers/parentCalendarController.js:149-157 | the pushed columns and values split at every field |
| Calendar.ColsFromNames | controllers/parentCalendarController.js:149-157 | a column pushed from field k on is the name of field k or a later one |
| Calendar.ApplySetOutside | controllers/parentCalendarController.js:169 | a column outside the SET list keeps its value |
| Calendar.ApplySetAt | controllers/parentCalendarController.js:169 | a column set once gets its parameter |
| Calendar.UpdatedRow | controllers/parentCalendarController.js:158-169 | after the update, `updated_at` is the time and every column outside the SET list keeps its value |
| Calendar.UpdatedField | controllers/parentCalendarController.js:149-169 | every field the request gives is written to its column |
| Calendar.ColsUpToNames | controllers/parentCalendarController.js:149-157 | the columns pushed for the first k fields are names of those fields |
| Calendar.NotInPatch | controllers/parentCalendarController.js:149-158 | an undefined field's column is nowhere in the SET list, `updated_at` included |
| Calendar.UndefinedFieldKept | controllers/parentCalendarController.js:130-169 | a field the request leaves undefined is not in the SET list, so its column keeps its old value: only the fields sent are updated |
| Calendar.InsertTargets | controllers/parentCalendarController.js:106-113 | the loop appends exactly the rows for the targets, in order |
| Calendar.UpdateEvent | controllers/parentCalendarController.js:132-200 | 400 iff the id is not a number; failure with nothing changed iff there is no such event; otherwise the row is updated and, when `targets` is an array, the event's targets are replaced, carrying the event's family; a non-array leaves them as they were |
| Calendar.AllDayRange | controllers/parentCalendarController.js:80-84 | a date-only event runs from midnight to 23:59 of the same day |
| Calendar.CreateEvent | controllers/parentCalendarController.js:64-127 | 400 iff family or title is falsy or neither start nor date is given; otherwise a fresh event id with the row of the given fields and defaults (all day, priority 0), and one target row per target (`family` when none) |
| Calendar.DateOnlyIsAllDay | controllers/parentCalendarController.js:79-84 | an event given only by its date starts at that day's midnight and ends at 23:59 of the same day |
| Calendar.CreateCategory | controllers/parentCalendarController.js:231-248 | 400 iff family or name is falsy; 409 with nothing changed iff the family already has that name; otherwise a new category with a fresh id, colour `#5AA9FF` and sort order 100 unless given |

## Left out

- Database errors, connection handling and the 500 answers they produce are not modelled. Every query is assumed to succeed. The exceptions are the SQL syntax error in `kidsController.js` and the unresolvable shift in `kidsTasksController.js`, both listed under Findings.
- Concurrency is not modelled. Transactions are single atomic steps, and the check-then-insert races between requests do not exist in the model.
- Time zones are not modelled: every date and instant is UTC. `new Date(...)`, `toISOString()`, `toLocaleDateString` and the default `today` are replaced by explicit `today`/`now` inputs. The local-time strings of `createEvent` (`${date}T00:00:00`) are read as UTC.
- Request strings are not parsed. A date is taken as already parsed (`Option<Date>`); a malformed date string, which PostgreSQL rejects with a 500, is not modelled. A `week_start` that `new Date` cannot read is not modelled either. The POST handlers read body fields without `Number()`; the model takes them to be numbers, so a JSON string such as `"0"`, which passes `!x` and reaches the query (where approve then answers 404), is not modelled.
- `LOWER` and collation are simplified. `LOWER` lower-cases ASCII letters only, and strings compare by character code ("C" collation).
- Ties in `ORDER BY` keep scan order, which is one of the orders the database may return.
- `Trivia.NextBirthday`: a birthday on 29 February makes `make_date` fail in a non-leap year, which gives a 500. The model builds the date without checking it.
- `Trivia.GenExternal`: the HTTP fetch, the API key check and the JSON parsing are not modelled. The model starts from the fetched question, already parsed (`Fetched`). Its random `seed` string is an input.
- Question texts, `meta` objects, `source` labels, `fmtDM`, and the formatting of question ids as strings are not modelled. The id is kept in structured form (`QuestionId`).
- Names: a `NULL` name and an empty name are both `""`. This matters in two places. `child_name IS NOT NULL` in `genTaskYesterday` admits `''`, while the model drops it. The leaderboard is the other; see the next line.
- KidsTasks.Leaderboard: when both `nickname` and `child_name` are `NULL`, `COALESCE` gives `NULL`, which PostgreSQL's `ORDER BY name ASC` places after every name among equal points. The model's `""` (`DisplayName`, `RankKey`) places it before them.
- `Trivia.CorrectAnswerLocksTheDay`: it requires that the child has no `TriviaDaily` row for the date yet. `Trivia.ForeignRowDoesNotLock` shows the other case.
- A correct trivia answer writes only `TriviaDaily`. No ledger entry is made, as in the code.
- `Trivia.Verdict`: `Number(choice)` of a fractional number is not modelled. Choices are integers.
- Task ids and calendar event ids share one id space in the `ChildTaskEvents` key. The kids-task endpoints use `task_id`, the calendar endpoints `event_id`. A task row's own `event_id` column is therefore not modelled; the next two lines say where it is returned.
- KidsTasks.ListChildTasksForDay: each item omits `e.event_id` of the joined `ChildTaskEvents` row, which is `NULL` when the child has no row for the day.
- KidsTasks.ChildMarkDone: the answer omits the `event_id` that `RETURNING event_id, status` yields; only the status is returned.
- Defaults from destructuring (`points = 1`, `parent_id = null` in `approveOne`; `color`, `sort_order` in `createCategory`) apply only when the field is absent. An explicit JSON `null` passes through as `NULL` (a `NULL` `points_awarded` and ledger points), which `ParentTasks.ApproveOne` and `Calendar.CreateCategory` cannot express: their optional inputs are either absent or a value.
- `ParentTasks.ListForReview`: the category and priority columns of the review rows are not modelled.
- `KidsEvents.ListChildTasks`: the category colour comes from a map standing for the `eventcategories` join. The events are a typed snapshot (`CalEvent`), not the column maps `Calendar` keeps.
- An event whose end is before its start is not modelled. The range is empty and overlaps nothing, whereas PostgreSQL raises an error for such a range.
- `Calendar.UpdateEvent`: values are passed through as given, so a column's type is not checked. The `SELECT family_key` after the update reads the updated row.
- `listEvents`, `getEventById`, `deleteEvent` and `listCategories` of `parentCalendarController.js` are not part of this model.
- `familyController.js`, `index.js` and the routers: the JSON and route plumbing is not part of this model.

## Findings

| source | as written | input that shows it | evidently intended | confidence | as-written member | corrected member |
|---|---|---|---|---|---|---|
| controllers/kidsController.js:36-54 | the `LEFT JOIN childtaskevents` comes after the WHERE clause, which SQL's grammar does not allow, so every request that passes validation gets a 500 | family 1, child 2, any date, with one event of family 1 starting at that date's midnight and targeted at the family | the join belongs in the FROM list, before WHERE; the listing then shows the event with status 0 | not executed | KidsEvents.ListChildTasksAsWritten, KidsEvents.AsWrittenLosesTheEvent | KidsEvents.ListChildTasks |
| controllers/kidsTasksController.js:48 | the weekly clause shifts `a.days_mask` by `EXTRACT(DOW FROM $3::date)`, which is `numeric` (`double precision` before PostgreSQL 14); PostgreSQL declares `>>` on integers only with an `integer` right operand and has no implicit cast to it, so the query fails to resolve and every request that passes validation gets a 500 | family 1, child 2, any date, with one active task and a `daily` assignment of it to that child with no window | cast the day of week, `(a.days_mask >> EXTRACT(DOW FROM $3::date)::int) & 1`, as `kidsTriviaController.js` does; the listing then shows the daily task | not executed | KidsTasks.ListChildTasksForDayAsWritten, KidsTasks.AsWrittenLosesTheDailyTask | KidsTasks.ListChildTasksForDay |
