# chorequest core, modelled in Dafny

chorequest is a household chore tracker. A household keeps **chore
templates**: a title, a points value, a frequency (daily, weekly, monthly
or seasonal) and an assignee mode (anyone, fixed or rotating). It also
keeps an append-only **points ledger**. Each ledger entry records who did
something, a `delta`, a reason (`Completed: …`, `Skipped: …`, `Undo: …`),
a time and, optionally, the template id and day key of the occurrence it
concerns.

This project models the logic that turns those two collections into what
the app shows:

- **Schedule** (`schedule.ts`): day keys `YYYY-MM-DD`, local midnight,
  adding days and months, the normalisation of stored frequencies, the
  today / next-3 / upcoming buckets, and `buildOccurrences`. That function
  expands every template into dated occurrences over a horizon and sorts
  them by date.
- **Score** (`score.ts`): week and month starts, the score page's
  reporting ranges, and the clamped per-occurrence reconciler. The
  reconciler gives completed count, skipped flag and last time, keyed by
  `templateId__dayKey`.
- **LedgerHelpers** (`ledgerHelpers.ts`): the richer range names with
  their aliases, and the unclamped reconciler, whose count may go
  negative.
- **Assign** (`assign.ts`): `resolveAssigneeUid` (anyone / fixed /
  round-robin rotation after the last completer) and `nameForUid`.
- **Plan** (`plan.ts`): the fixed-step `nextDueDates` and
  `formatDateShort`.
- **Today** (`today.ts`): `getTodayChores`.
- **The pages.**
  - Today page: the completed-key set, the due-today and next-3 lists,
    today's points, and the completion entry.
  - History page: the shown rows, their classification and title, and the
    undo entry.
  - Plan page: the capped upcoming list.
  - Chores page: the grouping by frequency, the difficulty stars,
    `capitalize`, and the record the create dialog saves.

Time model:

- Timestamps are integer milliseconds, and local time is modelled as UTC.
- The local day of `ts` is `ts / 86400000`.
- Civil dates come from a proleptic Gregorian day count (`LocalTime`).
- `setMonth`/`setDate` overflow is modelled as the `MakeDay` computation
  of ECMA-262. `new Date(y, m, d)` is modelled the same way, which leaves
  out the constructor's two-digit-year rule (see "## Left out").
- Where the source computes a date with such steps, the model states the
  steps as written as well (`SetDateSteps`, `SetMonthSteps`, `WeekSteps`,
  `MonthSteps`, `SetDateKeepTime`). Lemmas prove the steps equal to the
  clamped definitions.
- Stored `frequency` and `assigneeMode` stay raw strings, because each
  reader treats unknown values differently:
  - `normalizeFreq` defaults them to weekly;
  - `nextDueDates` steps 90 days;
  - `grouped` drops them;
  - `resolveAssigneeUid` returns null.
- `score.ts` has its own copy of `startOfLocalDayMs`
  (`src/lib/score.ts:12-16`). It computes the same value as the scheduler's
  and is modelled once, as `Schedule.StartOfLocalDayMs`.
- `Array.prototype.sort` is an insertion sort (`Seqs.SortBy`), proved
  sorted and a permutation.

## Model

| member | source | states |
|---|---|---|
| Schedule.Pad2 | src/lib/schedule.ts:14-16 | a number below 100 becomes exactly its two decimal digits |
| Schedule.DayKeyFormat | src/lib/schedule.ts:19-25 | a day key is the year, '-', the two-digit month, '-', the two-digit day, and the month and day read back from it |
| Schedule.DayKeyOfDateInjective | src/lib/schedule.ts:19-25 | two dates with the same key are the same date |
| Schedule.DayKeySameDay | src/lib/schedule.ts:19-25 | two timestamps share a day key iff they fall on the same local day |
| Schedule.StartOfLocalDayMs | src/lib/schedule.ts:28-32 | the result is a midnight on the same local day, at or before ts and less than a day before it |
| Schedule.StartOfLocalDayIdempotent | src/lib/schedule.ts:28-32 | the start of the start of a day is that start |
| Schedule.AddDaysLocal | src/lib/schedule.ts:34-39 | the result is a midnight exactly `days` local days after the start |
| Schedule.AddDaysLocalSteps | src/lib/schedule.ts:34-39 | the `setDate(getDate() + days)` steps as written give that midnight |
| Schedule.AddMonthsLocal | src/lib/schedule.ts:41-53 | the result is the midnight of the same day `months` months later, clamped to that month's last day |
| Schedule.AddMonthsLocalSteps | src/lib/schedule.ts:41-53 | `setMonth` with the rollover check (`setDate(0)` when the day changed) computes that clamped date |
| Schedule.AddMonthsClamp | src/lib/schedule.ts:44-50 | the day number after `setMonth` and the rollover fix equals the clamped date's |
| Schedule.AddMonthsLocalCivil | src/lib/schedule.ts:41-53 | the civil date of the result is the clamped month step of the start's civil date |
| Schedule.MonthClampForward | src/lib/schedule.ts:41-53 | a non-negative month step never moves the date backwards |
| Schedule.AddMonthsForward | src/lib/schedule.ts:41-53 | a non-negative month step from a midnight gives a time at or after it |
| Schedule.NormalizeFreq | src/lib/schedule.ts:55-63 | the lower-cased value if it names a frequency, otherwise weekly |
| Schedule.NormalizeFreqCaseInsensitive | src/lib/schedule.ts:55-63 | case does not matter, and every canonical name normalises to itself |
| Schedule.BucketForIndex | src/lib/schedule.ts:69-73 | offset 0 is today, offsets 1–3 are next-3, and every other offset is upcoming, in both directions |
| Schedule.PushStepped | src/lib/schedule.ts:89-115 | the fixed-step loop appends exactly the stepped occurrences of the template |
| Schedule.PushMonthly | src/lib/schedule.ts:117-136 | the month loop, with its horizon break and its 60-month cap, appends exactly the monthly occurrences |
| Schedule.MonthlyFromUnfold | src/lib/schedule.ts:120-135 | a month beyond the horizon ends the list; otherwise that month's occurrence comes first; month 60 is the last |
| Schedule.BuildOccurrences | src/lib/schedule.ts:75-153 | the result is the generated occurrences sorted by date, is a permutation of them, and each one is well formed: its template's id, a midnight within [today, today + horizon], the bucket of its day offset |
| Schedule.GeneratedWellFormed | src/lib/schedule.ts:82-149 | every generated occurrence is well formed and comes from one of the templates |
| Schedule.SteppedOffsets | src/lib/schedule.ts:89-115 | the k-th stepped occurrence is at offset i + k·step within the horizon, and the next step would pass it |
| Schedule.DailyOccurrences | src/lib/schedule.ts:89-101 | a daily template yields horizon + 1 occurrences, one on each day from today |
| Schedule.FixedStepOccurrences | src/lib/schedule.ts:103-115 | weekly and seasonal templates yield today and every 7th or 90th day after it within the horizon |
| Schedule.MonthlyLength | src/lib/schedule.ts:117-136 | at most 61 monthly occurrences; the list stops at the cap or at the first month past the horizon |
| Schedule.MonthlyDateAt | src/lib/schedule.ts:117-136 | the k-th monthly occurrence falls on month step k |
| Schedule.MonthlyOccurrences | src/lib/schedule.ts:117-136 | a monthly template's k-th occurrence is on the clamped k-th month of today's date, within the horizon |
| Schedule.IdAndActive | src/lib/schedule.ts:82-85 | a template without an id yields nothing, and whether it is active is never read |
| Schedule.SteppedActive | src/lib/schedule.ts:89-115 | the fixed-step occurrences do not depend on the active flag |
| Schedule.MonthlyActive | src/lib/schedule.ts:117-136 | the monthly occurrences do not depend on the active flag |
| Schedule.DayKeyFromTs | src/lib/schedule.ts:19-25 | the key of the local date; its layout, injectivity and same-day property are stated by DayKeyFormat, DayKeyOfDateInjective and DayKeySameDay |
| Schedule.TemplateIdOf | src/lib/schedule.ts:65-67 | the template's id (its fallback is listed under "## Left out"); IdAndActive states that a template without one yields nothing |
| Schedule.TemplateOccurrences | src/lib/schedule.ts:82-149 | the occurrences of one template by its normalised frequency; DailyOccurrences, FixedStepOccurrences and MonthlyOccurrences state them |
| Schedule.Generated | src/lib/schedule.ts:78-149 | the occurrences of all templates in template order, before the sort; GeneratedWellFormed and BuildOccurrences state their properties |
| Schedule.SetDateSteps | src/lib/schedule.ts:34-39 | the `setDate`/`setHours` steps as written; AddDaysLocalSteps proves them equal to AddDaysLocal |
| Schedule.SetMonthSteps | src/lib/schedule.ts:41-53 | the `setMonth`/rollover steps as written; AddMonthsLocalSteps proves them equal to AddMonthsLocal |
| Score.StartOfLocalWeekMs | src/lib/score.ts:19-26 | the result is the Monday midnight on or before ts, less than a week before it |
| Score.WeekStepsAgree | src/lib/score.ts:19-26 | the `getDay` offset and the `setDate` steps as written give that Monday |
| Score.StartOfLocalMonthMs | src/lib/score.ts:28-33 | the result is a midnight at or before ts |
| Score.MonthStartCivil | src/lib/score.ts:28-33 | the result is the 1st of ts's month and year |
| Score.MonthStepsAgree | src/lib/score.ts:28-33 | `setHours(0, 0, 0, 0)` then `setDate(1)` give that 1st |
| Score.GetRangeMs | src/lib/score.ts:39-51 | the range ends now and starts at 0 (all), at this week's Monday or at the 1st of this month |
| Score.RangeOrdered | src/lib/score.ts:39-51 | from 1970 on, a range never starts after it ends |
| Score.WeekSteps | src/lib/score.ts:19-26 | the steps as written; WeekStepsAgree proves them equal to StartOfLocalWeekMs |
| Score.MonthSteps | src/lib/score.ts:28-33 | the steps as written; MonthStepsAgree proves them equal to StartOfLocalMonthMs |
| Score.Step | src/lib/score.ts:67-98 | one pass of the loop body; StepEffect and UnkeyedIgnored state its effect |
| Score.Statuses | src/lib/score.ts:62-101 | the clamped reducer the loop is proved equal to; StatusesBounds, StatusesKeys, SkippedIff, LastAtIsMax and PermutationKeepsSkippedAndLastAt state its properties |
| Score.KindsExclusive | src/lib/score.ts:87-93 | no entry is both a completion and an undo, and a skip is neither |
| Score.BuildStatusByOccurrence | src/lib/score.ts:62-101 | the loop computes the status map of the ledger: counts and times never negative, keys exactly those of entries with both ids |
| Score.StatusesBounds | src/lib/score.ts:85-95 | no completed count or last time is ever negative |
| Score.StatusesKeys | src/lib/score.ts:68-72 | the keys are exactly `templateId__dayKey` of the entries with both ids |
| Score.SkippedIff | src/lib/score.ts:87-93 | a key is skipped iff some entry of that key has a `Skipped:` reason |
| Score.SkippedStays | src/lib/score.ts:87-93 | once skipped, no later entry clears the flag |
| Score.LastAtIsMax | src/lib/score.ts:85 | `lastAt` is the latest time among the key's entries, or 0 |
| Score.PermutationKeepsSkippedAndLastAt | src/lib/score.ts:62-101 | keys, skipped flags and last times do not depend on the ledger's order |
| Score.OrderMatters | src/lib/score.ts:87-95 | the clamped count does depend on the order: an undo before its completion is lost |
| Score.StepEffect | src/lib/score.ts:72-97 | one keyed entry adds one, removes one down to 0, or sets skipped on its key, moves lastAt to the maximum, and leaves other keys unchanged |
| Score.UnkeyedIgnored | src/lib/score.ts:68-70 | an entry without both ids changes nothing |
| LedgerHelpers.Canonical | src/lib/ledgerHelpers.ts:22-29 | `week`, `month` and `all` stand for this week, this month and all time; the canonical names stay |
| LedgerHelpers.GetRangeMs | src/lib/ledgerHelpers.ts:15-59 | the range ends now; all time starts at 0, and the others at today's midnight, this week's Monday or the 1st of this month |
| LedgerHelpers.AliasesAgree | src/lib/ledgerHelpers.ts:22-29 | an alias gives exactly the range of the name it stands for |
| LedgerHelpers.RangeStartsAsWritten | src/lib/ledgerHelpers.ts:35-58 | the `new Date(year, month, date)` starts as written are today's, Monday's and the 1st's midnight |
| LedgerHelpers.BuildStatusByOccurrence | src/lib/ledgerHelpers.ts:63-92 | an absent ledger gives the empty map; otherwise the net status of each key of an entry with both ids |
| LedgerHelpers.NetStep | src/lib/ledgerHelpers.ts:73-89 | one pass of the loop body: the three independent `if`s on the key's status |
| LedgerHelpers.NetStatuses | src/lib/ledgerHelpers.ts:63-92 | the unclamped reducer the loop is proved equal to; NetKeys, NetCompleted, NetSkippedIff, PermutationInvariant and ClampedAgrees state its properties |
| LedgerHelpers.NetKeys | src/lib/ledgerHelpers.ts:74-76 | the keys are exactly those of the entries with both ids |
| LedgerHelpers.NetCompleted | src/lib/ledgerHelpers.ts:84-85 | net completed is the number of the key's completions minus the number of its undos |
| LedgerHelpers.NetCanBeNegative | src/lib/ledgerHelpers.ts:84-85 | a lone undo gives -1 |
| LedgerHelpers.NetSkippedIff | src/lib/ledgerHelpers.ts:86 | a key is skipped iff some entry of that key has a `Skipped:` reason |
| LedgerHelpers.PermutationInvariant | src/lib/ledgerHelpers.ts:63-92 | the result does not depend on the ledger's order |
| LedgerHelpers.ClampedAgrees | src/lib/ledgerHelpers.ts:63-92 | when no running count goes negative, the unclamped and the clamped reconcilers agree on keys, counts and skipped flags |
| Assign.FirstCompletion | src/lib/assign.ts:24-26 | the first entry of the template with a positive delta, or -1 when there is none |
| Assign.MemberIndex | src/lib/assign.ts:33 | the first member with the uid, or -1 |
| Assign.ResolveAssigneeUid | src/lib/assign.ts:10-38 | anyone gives null; fixed gives the stored uid; rotating gives null without members and otherwise some member's uid; any other mode gives null |
| Assign.RotationStartsAtFirst | src/lib/assign.ts:28-30 | with no earlier completion, or no actor, or an actor not a member, the first member is chosen |
| Assign.RotationAdvances | src/lib/assign.ts:32-35 | otherwise the member after the last completer is chosen, wrapping round |
| Assign.DayKeyIgnored | src/lib/assign.ts:10-38 | the day key does not affect the result |
| Assign.NameForUid | src/lib/assign.ts:41-44 | "" for no uid; the first matching member's name; else the uid's first six characters |
| Assign.NameOfMember | src/lib/assign.ts:41-44 | a member's uid shows that member's name |
| Assign.NameOfStranger | src/lib/assign.ts:43 | an unknown uid shows as a six-character prefix of itself |
| Plan.StepDays | src/lib/plan.ts:39-46 | 1, 7 or 30 days for the exact stored names daily, weekly and monthly; 90 days for anything else |
| Plan.SetDateAddsDays | src/lib/plan.ts:53-54 | `setDate(getDate() + n)` keeps the time of day and adds n whole days |
| Plan.SetDateKeepTime | src/lib/plan.ts:53-54 | `setDate(getDate() + n)` on a date with a time of day; SetDateAddsDays states its value |
| Plan.Anchor | src/lib/plan.ts:49 | the creation time, else the start time when it is 0 |
| Plan.FirstDue | src/lib/plan.ts:52-55 | where the catch-up loop stops; FirstDueLeast and FirstDueAtAnchor state it |
| Plan.FormatDateShort | src/lib/plan.ts:66-72 | `YYYY-MM-DD` of the local date; FormatDateShortIsDayKey proves it is the scheduler's day key |
| Plan.FirstDueLeast | src/lib/plan.ts:49-55 | the catch-up loop stops at the least anchor + k·step that is not before the start |
| Plan.FirstDueAtAnchor | src/lib/plan.ts:49-55 | an anchor at or after the start is the first date |
| Plan.NextDueDates | src/lib/plan.ts:30-64 | `count` dates, or none for a non-positive count, from the first due date onward, one step apart |
| Plan.DueDatesShape | src/lib/plan.ts:30-64 | the dates strictly increase by the step and are none before the start; the first is the anchor or the least stepped date not before the start |
| Plan.FormatDateShortIsDayKey | src/lib/plan.ts:66-72 | the short date is the scheduler's day key of the same time |
| Today.GetTodayChores | src/lib/today.ts:8-10 | exactly the active templates, in their order, each as many times as it occurs |
| Today.GetTodayChoresIdempotent | src/lib/today.ts:8-10 | selecting twice is selecting once |
| TodayPage.CompletedKeys | app/today/page.tsx:68-76 | the set after reading the ledger; CompletedKeysIff characterises it |
| TodayPage.CompletedKeysIff | app/today/page.tsx:68-76 | a key is in the set iff some entry with both ids and a positive delta has that key |
| TodayPage.CompletedKeysGrow | app/today/page.tsx:68-76 | a longer ledger never removes a key |
| TodayPage.NonPositiveAddsNoKey | app/today/page.tsx:72 | an undo or a skip (delta ≤ 0) adds no key |
| TodayPage.CompletedKeySet | app/today/page.tsx:68-76 | the loop builds exactly the set of completed keys |
| TodayPage.Pending | app/today/page.tsx:83-93 | the occurrences of the bucket whose key is not done, in generator order, each as many times as it occurs |
| TodayPage.DueToday | app/today/page.tsx:83-87 | the pending occurrences of the today bucket; Pending, ListsDisjoint and DueLists state them |
| TodayPage.DueNext3 | app/today/page.tsx:89-93 | the pending occurrences of the next-3 bucket; Pending, ListsDisjoint and DueLists state them |
| TodayPage.ListsDisjoint | app/today/page.tsx:83-93 | no occurrence is in both lists, and none in either is done |
| TodayPage.PendingShrinks | app/today/page.tsx:83-93 | more done keys only remove occurrences, keeping the order |
| TodayPage.MoreLedgerShrinks | app/today/page.tsx:68-93 | a longer ledger never brings an occurrence back |
| TodayPage.DueLists | app/today/page.tsx:78-93 | the two lists are exactly the pending today and next-3 occurrences of the generated list sorted by date, so every generated occurrence of a bucket whose key is not done is listed; today's list is at today's midnight, the next-3 list is 1 to 3 days later, nothing listed is done, and both are sorted |
| TodayPage.BucketWindow | src/lib/schedule.ts:69-73 | a generated occurrence in the today bucket is at the midnight of now, and one in next-3 is 1 to 3 days later |
| TodayPage.CompletedToday | app/today/page.tsx:64-66 | exactly the entries of today's day key with a positive delta, in ledger order, each as many times as it occurs |
| TodayPage.PointsEarned | app/today/page.tsx:95-97 | the sum of the deltas of today's completions; PointsEarnedBounds states its bounds |
| TodayPage.PointsEarnedBounds | app/today/page.tsx:95-97 | today's points are at least the number of today's completions, so never negative, and positive after any completion |
| TodayPage.CompletedTodayIsDone | app/today/page.tsx:64-76 | a completion of today that names its template marks its occurrence as done |
| TodayPage.CompletionEntry | app/today/page.tsx:111-118 | the entry carries the occurrence's template id and day key, the actor and the time, the chore's points as its delta and "Completed: " + the chore's title as its reason |
| TodayPage.CompletionEntryKind | app/today/page.tsx:111-118 | for a chore worth points it is a completion, and not an undo, for the reconcilers |
| TodayPage.CompletingRemoves | app/today/page.tsx:68-118 | after completing an occurrence of a chore worth points, it is no longer pending |
| TodayPage.ZeroPointsStayPending | app/today/page.tsx:72-118 | recording the completion of a chore worth no points leaves the pending list unchanged |
| HistoryPage.Rows | app/history/page.tsx:64-74 | exactly the entries whose reason starts with one of the three prefixes, in ledger order, each as many times as it occurs |
| HistoryPage.Classify | app/history/page.tsx:133-142 | the kind the icon, badge and badge text are drawn from; ClassifyShown and TitleOfRow state it |
| HistoryPage.Title | app/history/page.tsx:154-157 | the three first-match removals; TitleOfRow and UndoReason state the title of a written row |
| HistoryPage.ClassifyShown | app/history/page.tsx:133-142 | on a shown row, the drawn kind is the reason's prefix, and only one prefix matches |
| HistoryPage.FirstLetters | app/history/page.tsx:133-135 | the three prefixes begin with different letters |
| HistoryPage.NoMatchAfterPrefix | app/history/page.tsx:154-157 | a later `replace` finds nothing in a written prefix that cannot start its pattern |
| HistoryPage.TitleOfRow | app/history/page.tsx:154-174 | a reason written as prefix + title shows that title and the prefix's kind |
| HistoryPage.UndoEntry | app/history/page.tsx:77-92 | none unless both ids are present and the reason starts `Completed:`; otherwise a non-positive delta of the same size, the same ids, the actor, the time, and the reason "Undo: " + the original reason with its first "Completed: " removed |
| HistoryPage.UndoReason | app/history/page.tsx:85-92 | undoing "Completed: t" writes "Undo: t", which is titled t and drawn as undone |
| HistoryPage.UndoIsUndo | app/history/page.tsx:85-92 | the undo of a completion is an undo of the same key for both reconcilers |
| HistoryPage.UndoNetsZero | app/history/page.tsx:85-92 | a completion followed by its undo leaves the net status of the key where it was |
| HistoryPage.UndoRestoresClamped | app/history/page.tsx:85-92 | the same round trip leaves the clamped count and skipped flag where they were |
| PlanPage.Included | app/plan/page.tsx:102-103 | exactly the active templates whose stored frequency is the tab's, in order, each as many times as it occurs |
| PlanPage.DueAtIndex | src/lib/plan.ts:57-62 | the i-th date `nextDueDates` lists; NextDueDates and DueDatesItems tie it to the loop |
| PlanPage.ItemsOf | app/plan/page.tsx:107-114 | the three rows of one template; DueDatesItems proves the loop builds them |
| PlanPage.Expanded | app/plan/page.tsx:106-115 | the `flatMap` before the sort; ExpandedAt and ExpandedFrom state its rows |
| PlanPage.Upcoming | app/plan/page.tsx:101-122 | the first twelve of the due dates of the included templates, sorted by due time |
| PlanPage.ItemsAt | app/plan/page.tsx:107-114 | one row per due date, carrying the template's fields |
| PlanPage.ExpandedAt | app/plan/page.tsx:106-115 | before the cap, template j supplies rows 3j to 3j+2: its next three due dates |
| PlanPage.ExpandedFrom | app/plan/page.tsx:106-115 | every row before the cap is a due date of an included template |
| PlanPage.UpcomingShape | app/plan/page.tsx:101-122 | sorted, min(12, 3·included) rows, none left out earlier than one kept, each a due date of an active template of the tab |
| ChoresPage.GroupedAsWritten | app/chores/page.tsx:132-141 | the loop as written, `None` where it throws; GroupedAsWrittenThrows, GroupedAsWrittenThrowsIff and GroupedAsWrittenAgrees state it |
| ChoresPage.Group | app/chores/page.tsx:132-141 | one list of the intended grouping; GroupIsFilter proves it is the templates of that frequency |
| ChoresPage.GroupIsFilter | app/chores/page.tsx:132-141 | the list of a frequency is the templates stored with exactly that name, in order |
| ChoresPage.GroupedAsWrittenThrows | app/chores/page.tsx:139 | as written, a template stored with frequency "toString" makes `grouped` throw |
| ChoresPage.GroupedAsWrittenThrowsIff | app/chores/page.tsx:132-141 | as written, it throws exactly when some frequency names an inherited object member |
| ChoresPage.GroupedAsWrittenAgrees | app/chores/page.tsx:132-141 | when it does not throw, it agrees with the intended grouping |
| ChoresPage.Grouped | app/chores/page.tsx:132-141 | each of the four lists is the templates of that frequency; other frequencies are dropped |
| ChoresPage.GroupSnoc | app/chores/page.tsx:139 | one more template lands at the end of its own list only |
| ChoresPage.GroupMembership | app/chores/page.tsx:132-141 | a template is in the list of its frequency and no other, and each list keeps the order |
| ChoresPage.GroupSizes | app/chores/page.tsx:132-141 | the four lists hold exactly as many templates as have a canonical frequency |
| ChoresPage.DifficultyStars | app/chores/page.tsx:557-563 | one to five stars, one per started ten points, five above forty |
| ChoresPage.StarsMonotone | app/chores/page.tsx:557-563 | more points never show fewer stars |
| ChoresPage.Capitalize | app/chores/page.tsx:565-567 | the same length, the first character upper-cased, the rest unchanged |
| ChoresPage.CapitalizeIdempotent | app/chores/page.tsx:565-567 | capitalising twice is capitalising once |
| ChoresPage.CreateRecord | app/chores/page.tsx:143-171 | nothing when the title is all white space; otherwise icon + " " + trimmed title, active, and a fixed uid only in fixed mode (the chosen one, else the user's own) |
| ChoresPage.CreatedTemplateSchedules | app/chores/page.tsx:159-171 | the saved template is active and normalises to the chosen frequency, and a list of it alone groups it under that frequency |
| ChoresPage.CreatedTemplateAssignee | app/chores/page.tsx:159-171 | its assignee resolves as chosen: nobody for anyone, the chosen uid (else the user's) for fixed, some member for rotating |

## Left out

- Time zones and daylight saving: local time is UTC. In the source, a day
  across a DST switch is not 24 hours long, and `Math.round` of the day
  difference (`src/lib/schedule.ts:121`) absorbs that. Here every day has
  86400000 ms, so the rounding is an exact division.
- Schedule.BuildOccurrences: stores no separate `dayKey` field. The day
  key is derived from the occurrence's date (`Occurrence.DayKey`), which is
  how the source fills it.
- Schedule.TemplateIdOf: does not model the fallback to a
  `t.templateId` field or the `String(...)` coercion. Templates here
  always have a string `id`.
- Unicode: `toLowerCase`, `toUpperCase` and `trim` use ASCII case mapping.
  Strings are sequences of Unicode scalar values, while JavaScript counts
  UTF-16 code units: Assign.NameForUid's `uid.slice(0, 6)` differs for a
  uid holding a character outside the Basic Multilingual Plane.
  `trim` uses the white-space characters of ECMA-262 (`Text.IsWhiteSpace`).
  Characters whose upper-case form is longer are not modelled.
- JavaScript values: `Number(e.delta ?? 0)`, `String(e.reason ?? "")`,
  `active !== false` on a missing field, and numbers that are not
  integers are not modelled. Deltas, times and points are integers, and
  `active` is a boolean present on every template.
- The Date range: beyond ±8.64e15 ms every Date helper gives NaN. Here
  timestamps are unbounded integers.
- LedgerHelpers.GetRangeMs: leaves out the `new Date(year, month, date)`
  rule that takes a year from 0 to 99 as 1900 + year
  (`src/lib/ledgerHelpers.ts:35-58`). For a clock in the years 0–99 the
  source's today, week and month starts fall about 1900 years after now.
  The model gives starts in the clock's own year. Every caller passes
  `Date.now()`.
- LedgerHelpers.RangeStartsAsWritten: its `MakeDay` form of the
  constructor leaves out the same two-digit-year rule.
- Array.prototype.sort: modelled as a stable insertion sort, as ES2019
  requires of `sort`. Stability is modelled, and `Schedule.BuildOccurrences`
  pins that order, but no lemma states it.
- Storage and UI: the storage calls (`listLedgerEntries`,
  `addLedgerEntry`, `createChoreTemplate`, `listRecentCompletions`) and
  the household and busy guards are not modelled. The clock (`Date.now()`)
  is a parameter.
- Rendering: toasts, icons and badge colours, the `who` label, and the
  entry `id` are not modelled.
- The `icon` field of an upcoming row and the empty `schedule` object of a
  new template are not modelled.
- The fixed assignee: `src/lib/types.ts:11` declares `fixedAssignee?:
  "me" | "wife"`. `assign.ts` reads `fixedAssigneeUid` from another types
  file that is not part of this model. The model follows `assign.ts` and
  the chores page, which write and read `fixedAssigneeUid`.
- The history page's `nameOf` (`app/history/page.tsx:61-62`) and the
  row's time and points badge are display only and are not modelled.

## Findings

| source | as written | input that shows it | evidently intended | confidence | as-written member | corrected member |
|---|---|---|---|---|---|---|
| app/chores/page.tsx:139 | `map[c.frequency]?.push(c)` on a plain object literal: a frequency naming an inherited member such as `toString` finds a function, which has no `push`, and `grouped` throws a TypeError | one template whose stored frequency is "toString" | a template with an unknown frequency is left out of all four lists, as for any other unknown value | not executed | ChoresPage.GroupedAsWritten (ChoresPage.GroupedAsWrittenThrows) | ChoresPage.Grouped |
