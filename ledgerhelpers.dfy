/** The ledger helpers used by the Today and Plan views: reporting ranges
    that accept both naming schemes, and per-occurrence net completion
    and skipped state without a floor on the count. */
module LedgerHelpers {
  import opened Text
  import opened LocalTime
  import opened Types
  import opened Seqs
  import Schedule
  import Score

  datatype RangeKey = Today | ThisWeek | ThisMonth | AllTime | Week | Month | All

  /** The alias normalisation: `week`, `month` and `all` stand for
      `thisWeek`, `thisMonth` and `allTime`. */
  function Canonical(range: RangeKey): (r: RangeKey)
    ensures r == Today || r == ThisWeek || r == ThisMonth || r == AllTime
    ensures range == Week ==> r == ThisWeek
    ensures range == Month ==> r == ThisMonth
    ensures range == All ==> r == AllTime
    ensures range == Today || range == ThisWeek || range == ThisMonth || range == AllTime ==> r == range
  {
    match range
    case Week => ThisWeek
    case Month => ThisMonth
    case All => AllTime
    case Today => Today
    case ThisWeek => ThisWeek
    case ThisMonth => ThisMonth
    case AllTime => AllTime
  }

  /** `getRangeMs`: the range ends now; all time starts at 0, today at
      local midnight, this week at Monday midnight, this month at the
      midnight of the 1st. */
  function GetRangeMs(range: RangeKey, nowMs: int): (r: Score.Range)
    ensures r.endMs == nowMs
    ensures Canonical(range) == AllTime ==> r.startMs == 0
    ensures Canonical(range) != AllTime ==> r.startMs % MsPerDay == 0 && r.startMs <= nowMs
    ensures Canonical(range) == Today ==> DayOf(r.startMs) == DayOf(nowMs)
    ensures Canonical(range) == ThisWeek ==>
      Weekday(DayOf(r.startMs)) == 1 && nowMs < r.startMs + 7 * MsPerDay
    ensures Canonical(range) == ThisMonth ==>
      CivilOf(r.startMs) == Date(CivilOf(nowMs).year, CivilOf(nowMs).month, 1)
  {
    var c := Canonical(range);
    if c == AllTime then Score.Range(0, nowMs)
    else if c == Today then Score.Range(Schedule.StartOfLocalDayMs(nowMs), nowMs)
    else if c == ThisWeek then Score.Range(Score.StartOfLocalWeekMs(nowMs), nowMs)
    else
      Score.MonthStartCivil(nowMs);
      Score.Range(Score.StartOfLocalMonthMs(nowMs), nowMs)
  }

  /** An alias gives exactly the range of the name it stands for. */
  lemma AliasesAgree(nowMs: int)
    ensures GetRangeMs(Week, nowMs) == GetRangeMs(ThisWeek, nowMs)
    ensures GetRangeMs(Month, nowMs) == GetRangeMs(ThisMonth, nowMs)
    ensures GetRangeMs(All, nowMs) == GetRangeMs(AllTime, nowMs)
  {
  }

  /** The starts as written, with the `Date(year, monthIndex, date)`
      constructor: `date` is today's, Monday's (`getDate() - mondayOffset`)
      or 1. */
  lemma RangeStartsAsWritten(nowMs: int)
    ensures var d := CivilOf(nowMs);
      var mondayOffset := (Weekday(DayOf(nowMs)) + 6) % 7;
      && GetRangeMs(Today, nowMs).startMs == MakeDay(d.year, d.month - 1, d.day) * MsPerDay
      && GetRangeMs(ThisWeek, nowMs).startMs == MakeDay(d.year, d.month - 1, d.day - mondayOffset) * MsPerDay
      && GetRangeMs(ThisMonth, nowMs).startMs == MakeDay(d.year, d.month - 1, 1) * MsPerDay
  {
    TodayAsWritten(nowMs);
    Score.WeekStepsAgree(nowMs);
    Score.MonthStepsAgree(nowMs);
  }

  lemma TodayAsWritten(nowMs: int)
    ensures var d := CivilOf(nowMs); MakeDay(d.year, d.month - 1, d.day) == DayOf(nowMs)
  {
    var d := CivilOf(nowMs);
    MakeDayOfDate(d, d.day);
    assert DayNumber(d) == DayOf(nowMs);
  }

  // ----- net status -----

  /** Net completions and the skipped flag of one occurrence. */
  datatype NetStatus = NetStatus(completed: int, skipped: bool)

  /** The three independent `if`s of the loop body: a completion adds one,
      an undo subtracts one, a skip sets the flag; nothing is clamped. */
  function NetApply(cur: NetStatus, e: LedgerEntry): NetStatus {
    var c1 := if Score.IsCompletion(e) then cur.completed + 1 else cur.completed;
    var c2 := if Score.IsUndo(e) then c1 - 1 else c1;
    NetStatus(c2, if Score.IsSkip(e) then true else cur.skipped)
  }

  function NetStep(m: map<string, NetStatus>, e: LedgerEntry): map<string, NetStatus> {
    if !Score.Keyed(e) then m
    else
      var k := EntryKey(e);
      m[k := NetApply(if k in m then m[k] else NetStatus(0, false), e)]
  }

  /** The map after the loop has processed every entry of `ledger`. */
  function NetStatuses(ledger: seq<LedgerEntry>): map<string, NetStatus> {
    if ledger == [] then map[]
    else NetStep(NetStatuses(ledger[..|ledger| - 1]), ledger[|ledger| - 1])
  }

  /** `buildStatusByOccurrence` (unclamped); an absent ledger (`ledger ||
      []`) is read as an empty one. */
  method BuildStatusByOccurrence(ledger: Option<seq<LedgerEntry>>) returns (m: map<string, NetStatus>)
    ensures m == NetStatuses(if ledger.Some? then ledger.value else [])
    ensures ledger.None? ==> m == map[]
    ensures forall k :: k in m <==>
      ledger.Some? && exists e :: e in ledger.value && Score.OfKey(e, k)
  {
    var l := if ledger.Some? then ledger.value else [];
    m := map[];
    for i := 0 to |l|
      invariant m == NetStatuses(l[..i])
    {
      var e := l[i];
      assert l[..i + 1][..i] == l[..i];
      var templateId := if Present(e.templateId) then e.templateId.value else "";
      var dayKey := if Present(e.dayKey) then e.dayKey.value else "";
      if templateId != "" && dayKey != "" {
        var key := OccurrenceKey(templateId, dayKey);
        var cur := if key in m then m[key] else NetStatus(0, false);
        if StartsWith(e.reason, "Completed:") && e.delta > 0 {
          cur := cur.(completed := cur.completed + 1);
        }
        if StartsWith(e.reason, "Undo:") && e.delta < 0 {
          cur := cur.(completed := cur.completed - 1);
        }
        if StartsWith(e.reason, "Skipped:") {
          cur := cur.(skipped := true);
        }
        assert cur == NetApply(if key in m then m[key] else NetStatus(0, false), e);
        m := m[key := cur];
      }
    }
    assert l[..|l|] == l;
    NetKeys(l);
  }

  lemma {:induction false} NetKeys(ledger: seq<LedgerEntry>)
    ensures forall k :: k in NetStatuses(ledger) <==> exists e :: e in ledger && Score.OfKey(e, k)
  {
    if ledger != [] {
      var init, e := ledger[..|ledger| - 1], ledger[|ledger| - 1];
      NetKeys(init);
      Score.Last(ledger);
      forall k ensures k in NetStatuses(ledger) <==> exists x :: x in ledger && Score.OfKey(x, k) {
        if k in NetStatuses(ledger) && !(k in NetStatuses(init)) {
          assert Score.OfKey(e, k);
        }
      }
    }
  }

  /** The entries that count as a completion, an undo, of key `k`. */
  function CompletionOf(k: string): LedgerEntry -> bool {
    e => Score.OfKey(e, k) && Score.IsCompletion(e)
  }

  function UndoOf(k: string): LedgerEntry -> bool {
    e => Score.OfKey(e, k) && Score.IsUndo(e)
  }

  /** Net completed is the number of completions minus the number of undos
      for the key, and it is negative when undos outnumber completions. */
  lemma {:induction false} NetCompleted(ledger: seq<LedgerEntry>, k: string)
    requires k in NetStatuses(ledger)
    ensures NetStatuses(ledger)[k].completed == Count(ledger, CompletionOf(k)) - Count(ledger, UndoOf(k))
  {
    var init, e := ledger[..|ledger| - 1], ledger[|ledger| - 1];
    Score.KindsExclusive(e);
    if k in NetStatuses(init) {
      NetCompleted(init, k);
    } else {
      NetKeys(init);
      CountNone(init, CompletionOf(k));
      CountNone(init, UndoOf(k));
    }
  }

  lemma {:induction false} CountNone<T>(s: seq<T>, p: T -> bool)
    requires forall x :: x in s ==> !p(x)
    ensures Count(s, p) == 0
  {
    if s != [] {
      CountNone(s[..|s| - 1], p);
    }
  }

  /** The count goes below zero: one undo on its own gives -1. */
  lemma NetCanBeNegative()
    ensures var u := LedgerEntry("u", -10, "Undo: Dishes", 2, Some("t"), Some("2024-01-01"));
      NetStatuses([u])[EntryKey(u)].completed == -1
  {
    var u := LedgerEntry("u", -10, "Undo: Dishes", 2, Some("t"), Some("2024-01-01"));
    assert Score.IsUndo(u) && !Score.IsCompletion(u);
    assert [u][..0] == [];
  }

  /** A key is skipped iff some entry of that key has a `Skipped:` reason. */
  lemma {:induction false} NetSkippedIff(ledger: seq<LedgerEntry>, k: string)
    requires k in NetStatuses(ledger)
    ensures NetStatuses(ledger)[k].skipped <==> exists e :: e in ledger && Score.OfKey(e, k) && Score.IsSkip(e)
  {
    var init, e := ledger[..|ledger| - 1], ledger[|ledger| - 1];
    Score.Last(ledger);
    if k in NetStatuses(init) {
      NetSkippedIff(init, k);
    } else {
      NetKeys(init);
    }
  }

  /** The result does not depend on the order of the ledger. */
  lemma PermutationInvariant(l1: seq<LedgerEntry>, l2: seq<LedgerEntry>)
    requires multiset(l1) == multiset(l2)
    ensures NetStatuses(l1) == NetStatuses(l2)
  {
    assert forall e :: e in l1 <==> e in l2 by {
      forall e ensures e in l1 <==> e in l2 {
        assert e in l1 <==> e in multiset(l1);
        assert e in l2 <==> e in multiset(l2);
      }
    }
    NetKeys(l1);
    NetKeys(l2);
    var m1, m2 := NetStatuses(l1), NetStatuses(l2);
    forall k | k in m1 ensures k in m2 && m1[k] == m2[k] {
      NetCompleted(l1, k);
      NetCompleted(l2, k);
      CountPermutation(l1, l2, CompletionOf(k));
      CountPermutation(l1, l2, UndoOf(k));
      NetSkippedIff(l1, k);
      NetSkippedIff(l2, k);
    }
    assert forall k :: k in m1 <==> k in m2;
  }

  /** The running count of every key stays at zero or above over every
      prefix of the ledger. */
  predicate NeverNegative(ledger: seq<LedgerEntry>) {
    forall j, k :: 0 <= j <= |ledger| && k in NetStatuses(ledger[..j]) ==>
      NetStatuses(ledger[..j])[k].completed >= 0
  }

  /** When the running count never goes below zero, the floor of the score
      reducer never applies and both reducers agree on the keys, the
      completed counts and the skipped flags. */
  lemma {:induction false} ClampedAgrees(ledger: seq<LedgerEntry>)
    requires NeverNegative(ledger)
    ensures forall k :: k in Score.Statuses(ledger) <==> k in NetStatuses(ledger)
    ensures forall k :: k in NetStatuses(ledger) ==>
      Score.Statuses(ledger)[k].completed == NetStatuses(ledger)[k].completed
      && Score.Statuses(ledger)[k].skipped == NetStatuses(ledger)[k].skipped
  {
    if ledger != [] {
      var n := |ledger|;
      var init, e := ledger[..n - 1], ledger[n - 1];
      forall j | 0 <= j <= |init| ensures init[..j] == ledger[..j] {
      }
      assert NeverNegative(init);
      ClampedAgrees(init);
      assert ledger[..n] == ledger;
      Score.KindsExclusive(e);
    }
  }
}
