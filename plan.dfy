/** The plan view's minimal scheduler: from an anchor (the template's
    creation time, else the start time) step forward a fixed number of days
    until the start time is reached, then list the next dates. */
module Plan {
  import opened Text
  import opened LocalTime
  import opened Types
  import Schedule

  /** Days between due dates, chosen by the exact stored frequency; any
      value other than daily, weekly or monthly steps by 90 days. */
  function StepDays(frequency: string): (n: int)
    ensures frequency == "daily" ==> n == 1
    ensures frequency == "weekly" ==> n == 7
    ensures frequency == "monthly" ==> n == 30
    ensures frequency != "daily" && frequency != "weekly" && frequency != "monthly" ==> n == 90
  {
    if frequency == "daily" then 1
    else if frequency == "weekly" then 7
    else if frequency == "monthly" then 30
    else 90
  }

  /** `setDate(getDate() + days)` on a date with a time of day: the same
      local time `days` days later. */
  function SetDateKeepTime(ms: int, days: int): int {
    var c := CivilOf(ms);
    MakeDay(c.year, c.month - 1, c.day + days) * MsPerDay + TimeOfDay(ms)
  }

  /** Without daylight saving, moving the date keeps the time of day and
      adds whole days. */
  lemma SetDateAddsDays(ms: int, days: int)
    ensures SetDateKeepTime(ms, days) == ms + days * MsPerDay
  {
    var c := CivilOf(ms);
    MakeDayOfDate(c, c.day + days);
    assert DayNumber(c) == DayOf(ms);
    assert MakeDay(c.year, c.month - 1, c.day + days) == DayOf(ms) + days;
  }

  /** `template.createdAt ? new Date(template.createdAt) : from`: a zero
      creation time falls back to the start time. */
  function Anchor(t: ChoreTemplate, fromMs: int): int {
    if t.createdAt != 0 then t.createdAt else fromMs
  }

  /** Where the `while` loop stops when it starts at `first`. */
  function FirstDue(first: int, fromMs: int, stepMs: int): int
    requires stepMs > 0
    decreases fromMs - first
  {
    if first >= fromMs then first else FirstDue(first + stepMs, fromMs, stepMs)
  }

  /** The loop stops at the least `first + k * stepMs` (k >= 0) that is not
      before the start time. */
  lemma {:induction false} FirstDueLeast(first: int, fromMs: int, stepMs: int)
    requires stepMs > 0
    ensures var r := FirstDue(first, fromMs, stepMs);
      && r >= fromMs
      && (exists k :: 0 <= k && r == first + k * stepMs)
      && (r == first || r - stepMs < fromMs)
    decreases fromMs - first
  {
    var r := FirstDue(first, fromMs, stepMs);
    if first < fromMs {
      FirstDueLeast(first + stepMs, fromMs, stepMs);
      var k :| 0 <= k && r == first + stepMs + k * stepMs;
      Schedule.MulSucc(k, stepMs);
      assert r == first + (k + 1) * stepMs;
    } else {
      assert r == first + 0 * stepMs;
    }
  }

  /** An anchor at or after the start time is itself the first due date. */
  lemma FirstDueAtAnchor(first: int, fromMs: int, stepMs: int)
    requires stepMs > 0 && first >= fromMs
    ensures FirstDue(first, fromMs, stepMs) == first
  {
  }

  /** `nextDueDates(template, count, fromMs)` */
  method NextDueDates(t: ChoreTemplate, count: int, fromMs: int) returns (out: seq<int>)
    ensures var stepMs := StepDays(t.frequency) * MsPerDay;
      var first := FirstDue(Anchor(t, fromMs), fromMs, stepMs);
      && |out| == (if count > 0 then count else 0)
      && forall i :: 0 <= i < |out| ==> out[i] == first + i * stepMs
  {
    var stepDays := StepDays(t.frequency);
    var stepMs := stepDays * MsPerDay;
    var anchor := if t.createdAt != 0 then t.createdAt else fromMs;
    var first := anchor;
    while first < fromMs
      invariant FirstDue(first, fromMs, stepMs) == FirstDue(anchor, fromMs, stepMs)
      decreases fromMs - first
    {
      SetDateAddsDays(first, stepDays);
      first := SetDateKeepTime(first, stepDays);
    }
    out := [];
    var d := first;
    var i := 0;
    while i < count
      invariant 0 <= i <= (if count > 0 then count else 0) && |out| == i
      invariant d == first + i * stepMs
      invariant forall j :: 0 <= j < i ==> out[j] == first + j * stepMs
    {
      out := out + [d];
      SetDateAddsDays(d, stepDays);
      d := SetDateKeepTime(d, stepDays);
      Schedule.MulSucc(i, stepMs);
      i := i + 1;
    }
  }

  /** The listed dates are strictly increasing, `stepDays` apart, none before
      the start time; the first is the start time when the template has no
      creation time, and the creation time when that is not before the
      start time. */
  lemma DueDatesShape(t: ChoreTemplate, count: int, fromMs: int, out: seq<int>)
    requires var stepMs := StepDays(t.frequency) * MsPerDay;
      var first := FirstDue(Anchor(t, fromMs), fromMs, stepMs);
      && |out| == (if count > 0 then count else 0)
      && forall i :: 0 <= i < |out| ==> out[i] == first + i * stepMs
    ensures forall i :: 0 < i < |out| ==> out[i] == out[i - 1] + StepDays(t.frequency) * MsPerDay
    ensures forall i, j :: 0 <= i < j < |out| ==> out[i] < out[j]
    ensures forall i :: 0 <= i < |out| ==> out[i] >= fromMs
    ensures |out| > 0 && t.createdAt == 0 ==> out[0] == fromMs
    ensures |out| > 0 && t.createdAt != 0 && t.createdAt >= fromMs ==> out[0] == t.createdAt
    ensures |out| > 0 ==>
      var stepMs := StepDays(t.frequency) * MsPerDay;
      && (exists k :: 0 <= k && out[0] == Anchor(t, fromMs) + k * stepMs)
      && (out[0] == Anchor(t, fromMs) || out[0] - stepMs < fromMs)
  {
    var stepMs := StepDays(t.frequency) * MsPerDay;
    var first := FirstDue(Anchor(t, fromMs), fromMs, stepMs);
    FirstDueLeast(Anchor(t, fromMs), fromMs, stepMs);
    forall i | 0 < i < |out| ensures out[i] == out[i - 1] + stepMs {
      assert i * stepMs == (i - 1) * stepMs + stepMs;
    }
    forall i, j | 0 <= i < j < |out| ensures out[i] < out[j] {
      assert j * stepMs - i * stepMs == (j - i) * stepMs;
      assert (j - i) * stepMs > 0;
    }
    forall i | 0 <= i < |out| ensures out[i] >= fromMs {
      assert i * stepMs >= 0;
    }
  }

  /** `formatDateShort`: `YYYY-MM-DD` of the local date. */
  function FormatDateShort(ms: int): string {
    var d := CivilOf(ms);
    IntToString(d.year) + "-" + PadStart(IntToString(d.month), 2, '0') + "-"
      + PadStart(IntToString(d.day), 2, '0')
  }

  /** It is the same key as the day key of the scheduler. */
  lemma FormatDateShortIsDayKey(ms: int)
    ensures FormatDateShort(ms) == Schedule.DayKeyFromTs(ms)
  {
  }
}
