/** Score helpers: week and month starts, the ledger ranges of the score
    view, and the status of each occurrence reconstructed from the points
    ledger, with the completed count kept at zero or above after every
    entry and the time of the last activity. */
module Score {
  import opened Text
  import opened LocalTime
  import opened Types
  import Schedule

  // ----- range starts -----

  /** `startOfLocalWeekMs`: the local midnight of the Monday on or before
      `ts` (weeks start on Monday). */
  function StartOfLocalWeekMs(ts: int): (r: int)
    ensures r % MsPerDay == 0 && r <= ts < r + 7 * MsPerDay
    ensures Weekday(DayOf(r)) == 1
  {
    var n := DayOf(ts);
    var back := (Weekday(n) + 6) % 7;
    DayOfMidnight(n - back, 0);
    (n - back) * MsPerDay
  }

  /** The steps as written: `getDay`, `setHours(0, 0, 0, 0)`, then
      `setDate(getDate() - daysSinceMonday)`. */
  function WeekSteps(ts: int): int {
    var c := CivilOf(ts);
    var daysSinceMonday := (Weekday(DayOf(ts)) + 6) % 7;
    MakeDay(c.year, c.month - 1, c.day - daysSinceMonday) * MsPerDay
  }

  lemma WeekStepsAgree(ts: int)
    ensures WeekSteps(ts) == StartOfLocalWeekMs(ts)
  {
    var c := CivilOf(ts);
    var daysSinceMonday := (Weekday(DayOf(ts)) + 6) % 7;
    MakeDayOfDate(c, c.day - daysSinceMonday);
    assert DayNumber(c) == DayOf(ts);
  }

  /** `startOfLocalMonthMs`: the local midnight of the first day of the
      month of `ts` (see `MonthStartCivil`). */
  function StartOfLocalMonthMs(ts: int): (r: int)
    ensures r % MsPerDay == 0 && r <= ts
  {
    var n := DayOf(ts) - CivilOf(ts).day + 1;
    DayOfMidnight(n, 0);
    n * MsPerDay
  }

  /** The first of the month of `ts` is `getDate() - 1` days before it. */
  lemma FirstOfMonth(ts: int)
    ensures var c := CivilOf(ts);
      FromDays(DayOf(ts) - c.day + 1) == Date(c.year, c.month, 1)
  {
    var c := CivilOf(ts);
    var first := Date(c.year, c.month, 1);
    assert DayNumber(c) == DayOf(ts);
    assert DayNumber(first) == DayNumber(c) - c.day + 1;
    FromDaysDayNumber(first);
  }

  /** The month start is the 1st of the same month and year. */
  lemma MonthStartCivil(ts: int)
    ensures CivilOf(StartOfLocalMonthMs(ts)) == Date(CivilOf(ts).year, CivilOf(ts).month, 1)
  {
    var n := DayOf(ts) - CivilOf(ts).day + 1;
    FirstOfMonth(ts);
    DayOfMidnight(n, 0);
    assert CivilOf(n * MsPerDay) == FromDays(n);
  }

  /** The steps as written: `setHours(0, 0, 0, 0)`, then `setDate(1)`. */
  function MonthSteps(ts: int): int {
    var c := CivilOf(ts);
    MakeDay(c.year, c.month - 1, 1) * MsPerDay
  }

  lemma MonthFirstDay(ts: int)
    ensures var c := CivilOf(ts); MakeDay(c.year, c.month - 1, 1) == DayOf(ts) - c.day + 1
  {
    var c := CivilOf(ts);
    MakeDayOfDate(c, 1);
    assert DayNumber(c) == DayOf(ts);
  }

  lemma MonthStepsAgree(ts: int)
    ensures MonthSteps(ts) == StartOfLocalMonthMs(ts)
  {
    MonthFirstDay(ts);
  }

  datatype RangeKey = Week | Month | All

  /** A half-open interval `[startMs, endMs)` of ledger timestamps. */
  datatype Range = Range(startMs: int, endMs: int)

  /** `getRangeMs`: the range ends now and starts at 0, at this week's
      Monday midnight or at the first of this month. */
  function GetRangeMs(range: RangeKey, nowMs: int): (r: Range)
    ensures r.endMs == nowMs
    ensures range == All ==> r.startMs == 0
    ensures range != All ==> r.startMs % MsPerDay == 0 && r.startMs <= r.endMs
    ensures range == Week ==>
      Weekday(DayOf(r.startMs)) == 1 && nowMs < r.startMs + 7 * MsPerDay
    ensures range == Month ==>
      CivilOf(r.startMs) == Date(CivilOf(nowMs).year, CivilOf(nowMs).month, 1)
  {
    match range
    case All => Range(0, nowMs)
    case Week => Range(StartOfLocalWeekMs(nowMs), nowMs)
    case Month => MonthStartCivil(nowMs); Range(StartOfLocalMonthMs(nowMs), nowMs)
  }

  /** A range never starts after it ends when the clock is not before 1970. */
  lemma RangeOrdered(range: RangeKey, nowMs: int)
    requires nowMs >= 0
    ensures GetRangeMs(range, nowMs).startMs <= GetRangeMs(range, nowMs).endMs
  {
  }

  // ----- entry classification -----

  /** An entry that names both its template and its day. */
  predicate Keyed(e: LedgerEntry) {
    Present(e.templateId) && Present(e.dayKey)
  }

  /** A completion: reason `Completed:…` and positive delta. */
  predicate IsCompletion(e: LedgerEntry) {
    StartsWith(e.reason, "Completed:") && e.delta > 0
  }

  /** An undo: reason `Undo:…` and negative delta. */
  predicate IsUndo(e: LedgerEntry) {
    StartsWith(e.reason, "Undo:") && e.delta < 0
  }

  /** A skip: reason `Skipped:…`, whatever the delta. */
  predicate IsSkip(e: LedgerEntry) {
    StartsWith(e.reason, "Skipped:")
  }

  /** The three reason prefixes begin with different letters, so an entry
      is at most one of a completion, an undo and a skip. */
  lemma KindsExclusive(e: LedgerEntry)
    ensures !(IsCompletion(e) && IsUndo(e))
    ensures IsSkip(e) ==> !IsCompletion(e) && !IsUndo(e)
  {
    if IsSkip(e) {
      assert e.reason[0] == "Skipped:"[0];
    }
    if IsCompletion(e) {
      assert e.reason[0] == "Completed:"[0];
    }
  }

  // ----- occurrence status -----

  /** `OccurrenceStatus`: net completions, whether the occurrence was
      skipped, and the latest entry time seen for it. */
  datatype Status = Status(completed: int, skipped: bool, lastAt: int)

  const Fresh: Status := Status(0, false, 0)

  /** The effect of one entry on the status of its key. */
  function Apply(cur: Status, e: LedgerEntry): Status {
    var lastAt := if e.createdAt > cur.lastAt then e.createdAt else cur.lastAt;
    var next :=
      if IsCompletion(e) then Status(cur.completed + 1, cur.skipped, lastAt)
      else if IsUndo(e) then Status(cur.completed - 1, cur.skipped, lastAt)
      else if IsSkip(e) then Status(cur.completed, true, lastAt)
      else Status(cur.completed, cur.skipped, lastAt);
    if next.completed < 0 then next.(completed := 0) else next
  }

  /** One iteration of the loop: entries without both ids are skipped;
      otherwise the entry is applied to its key's status (fresh when the
      key is new). */
  function Step(m: map<string, Status>, e: LedgerEntry): map<string, Status> {
    if !Keyed(e) then m
    else
      var k := EntryKey(e);
      m[k := Apply(if k in m then m[k] else Fresh, e)]
  }

  /** The map after the loop has processed every entry of `ledger`. */
  function Statuses(ledger: seq<LedgerEntry>): map<string, Status> {
    if ledger == [] then map[]
    else Step(Statuses(ledger[..|ledger| - 1]), ledger[|ledger| - 1])
  }

  /** `buildStatusByOccurrence` (clamped). */
  method BuildStatusByOccurrence(ledger: seq<LedgerEntry>) returns (m: map<string, Status>)
    ensures m == Statuses(ledger)
    ensures forall k :: k in m ==> m[k].completed >= 0 && m[k].lastAt >= 0
    ensures forall k :: k in m <==> exists e :: e in ledger && Keyed(e) && EntryKey(e) == k
  {
    m := map[];
    for i := 0 to |ledger|
      invariant m == Statuses(ledger[..i])
    {
      var e := ledger[i];
      assert ledger[..i + 1][..i] == ledger[..i];
      if Present(e.templateId) && Present(e.dayKey) {
        var key := OccurrenceKey(e.templateId.value, e.dayKey.value);
        var cur := if key in m then m[key] else Status(0, false, 0);
        if e.createdAt > cur.lastAt {
          cur := cur.(lastAt := e.createdAt);
        }
        if StartsWith(e.reason, "Completed:") && e.delta > 0 {
          cur := cur.(completed := cur.completed + 1);
        } else if StartsWith(e.reason, "Undo:") && e.delta < 0 {
          cur := cur.(completed := cur.completed - 1);
        } else if StartsWith(e.reason, "Skipped:") {
          cur := cur.(skipped := true);
        }
        if cur.completed < 0 {
          cur := cur.(completed := 0);
        }
        assert cur == Apply(if key in m then m[key] else Fresh, e);
        m := m[key := cur];
      }
    }
    assert ledger[..|ledger|] == ledger;
    StatusesBounds(ledger);
    StatusesKeys(ledger);
  }

  lemma Last<T>(l: seq<T>)
    requires l != []
    ensures l == l[..|l| - 1] + [l[|l| - 1]]
    ensures forall x :: x in l <==> x in l[..|l| - 1] || x == l[|l| - 1]
  {
  }

  /** No status ever has a negative completed count or last time. */
  lemma {:induction false} StatusesBounds(ledger: seq<LedgerEntry>)
    ensures forall k :: k in Statuses(ledger) ==>
      Statuses(ledger)[k].completed >= 0 && Statuses(ledger)[k].lastAt >= 0
  {
    if ledger != [] {
      StatusesBounds(ledger[..|ledger| - 1]);
    }
  }

  /** The keys are exactly `templateId__dayKey` of the entries that carry
      both ids. */
  lemma {:induction false} StatusesKeys(ledger: seq<LedgerEntry>)
    ensures forall k :: k in Statuses(ledger) <==>
      exists e :: e in ledger && Keyed(e) && EntryKey(e) == k
  {
    if ledger != [] {
      var init, e := ledger[..|ledger| - 1], ledger[|ledger| - 1];
      StatusesKeys(init);
      Last(ledger);
    }
  }

  /** The entries of `ledger` that belong to key `k`. */
  predicate OfKey(e: LedgerEntry, k: string) {
    Keyed(e) && EntryKey(e) == k
  }

  /** A key is skipped iff some entry of that key has a `Skipped:` reason. */
  lemma {:induction false} SkippedIff(ledger: seq<LedgerEntry>, k: string)
    requires k in Statuses(ledger)
    ensures Statuses(ledger)[k].skipped <==> exists e :: e in ledger && OfKey(e, k) && IsSkip(e)
  {
    var init, e := ledger[..|ledger| - 1], ledger[|ledger| - 1];
    Last(ledger);
    KindsExclusive(e);
    if k in Statuses(init) {
      SkippedIff(init, k);
    } else {
      StatusesKeys(init);
    }
  }

  /** Once an occurrence is skipped, later entries never clear it. */
  lemma SkippedStays(m: map<string, Status>, e: LedgerEntry, k: string)
    requires k in m && m[k].skipped
    ensures k in Step(m, e) && Step(m, e)[k].skipped
  {
  }

  /** `lastAt` is the latest `createdAt` among the key's entries, or 0 when
      none is positive. */
  lemma {:induction false} LastAtIsMax(ledger: seq<LedgerEntry>, k: string)
    requires k in Statuses(ledger)
    ensures var t := Statuses(ledger)[k].lastAt;
      && (forall e :: e in ledger && OfKey(e, k) ==> e.createdAt <= t)
      && t >= 0
      && (t == 0 || exists e :: e in ledger && OfKey(e, k) && e.createdAt == t)
  {
    var init, e := ledger[..|ledger| - 1], ledger[|ledger| - 1];
    Last(ledger);
    StatusesBounds(init);
    if k in Statuses(init) {
      LastAtIsMax(init, k);
    } else {
      StatusesKeys(init);
    }
  }

  /** The keys, the skipped flags and the last times do not depend on the
      order of the ledger. */
  lemma PermutationKeepsSkippedAndLastAt(l1: seq<LedgerEntry>, l2: seq<LedgerEntry>, k: string)
    requires multiset(l1) == multiset(l2)
    ensures k in Statuses(l1) <==> k in Statuses(l2)
    ensures k in Statuses(l1) ==>
      Statuses(l1)[k].skipped == Statuses(l2)[k].skipped
      && Statuses(l1)[k].lastAt == Statuses(l2)[k].lastAt
  {
    assert forall e :: e in l1 <==> e in l2 by {
      forall e ensures e in l1 <==> e in l2 {
        assert e in l1 <==> e in multiset(l1);
        assert e in l2 <==> e in multiset(l2);
      }
    }
    StatusesKeys(l1);
    StatusesKeys(l2);
    if k in Statuses(l1) {
      SkippedIff(l1, k);
      SkippedIff(l2, k);
      LastAtIsMax(l1, k);
      LastAtIsMax(l2, k);
    }
  }

  /** The completed count does depend on the order: an undo before the
      completion it cancels is absorbed by the clamp, so the pair counts
      one completion, while the other order counts none. */
  lemma OrderMatters()
    ensures var c := LedgerEntry("u", 10, "Completed: Dishes", 1, Some("t"), Some("2024-01-01"));
      var u := LedgerEntry("u", -10, "Undo: Dishes", 2, Some("t"), Some("2024-01-01"));
      && multiset([u, c]) == multiset([c, u])
      && Statuses([u, c])[EntryKey(c)].completed == 1
      && Statuses([c, u])[EntryKey(c)].completed == 0
  {
    var c := LedgerEntry("u", 10, "Completed: Dishes", 1, Some("t"), Some("2024-01-01"));
    var u := LedgerEntry("u", -10, "Undo: Dishes", 2, Some("t"), Some("2024-01-01"));
    assert IsCompletion(c) && !IsUndo(c);
    assert IsUndo(u) && !IsCompletion(u);
    assert [u, c][..1] == [u] && [c, u][..1] == [c];
    assert [u][..0] == [] && [c][..0] == [];
  }

  /** The effect of one keyed entry on its key, starting from a status with
      a non-negative count; every other key is unchanged. */
  lemma StepEffect(m: map<string, Status>, e: LedgerEntry)
    requires Keyed(e)
    ensures var k := EntryKey(e);
      var cur := if k in m then m[k] else Fresh;
      var s := Step(m, e)[k];
      && k in Step(m, e)
      && (forall j :: j != k ==> (j in Step(m, e) <==> j in m))
      && (forall j :: j != k && j in m ==> Step(m, e)[j] == m[j])
      && s.lastAt == (if e.createdAt > cur.lastAt then e.createdAt else cur.lastAt)
      && (cur.completed >= 0 ==>
            && (IsCompletion(e) ==> s.completed == cur.completed + 1 && s.skipped == cur.skipped)
            && (IsUndo(e) ==> s.completed == (if cur.completed > 0 then cur.completed - 1 else 0) && s.skipped == cur.skipped)
            && (IsSkip(e) ==> s.completed == cur.completed && s.skipped)
            && (!IsCompletion(e) && !IsUndo(e) && !IsSkip(e) ==> s.completed == cur.completed && s.skipped == cur.skipped))
  {
    KindsExclusive(e);
  }

  /** An entry without both ids changes nothing. */
  lemma UnkeyedIgnored(m: map<string, Status>, e: LedgerEntry)
    requires !Keyed(e)
    ensures Step(m, e) == m
  {
  }
}
