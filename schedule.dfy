/** Day keys, local-day arithmetic and the occurrence generator
    (src/lib/schedule.ts). */
module Schedule {
  import opened Text
  import opened LocalTime
  import opened Types
  import opened Seqs

  datatype Bucket = Today | Next3 | Upcoming

  /** One calendar instance of a template. The source stores
      `dayKeyFromTs(dateMs)` beside the date; here the key is derived from
      the date, which is all the source ever puts there. */
  datatype Occurrence = Occurrence(
    templateId: string,
    dateMs: int,
    bucket: Bucket,
    chore: ChoreTemplate)
  {
    function DayKey(): string {
      DayKeyFromTs(dateMs)
    }
  }

  /** `String(n).padStart(2, "0")` */
  function Pad2(n: int): (s: string)
    ensures 0 <= n < 100 ==> s == [DigitChar(n / 10), DigitChar(n % 10)]
  {
    if 0 <= n < 10 then
      assert IntToString(n) == [DigitChar(n)];
      assert DigitChar(n / 10) == '0';
      PadStart(IntToString(n), 2, '0')
    else if 10 <= n < 100 then
      assert NatToString(n / 10) == [DigitChar(n / 10)];
      assert IntToString(n) == [DigitChar(n / 10), DigitChar(n % 10)];
      PadStart(IntToString(n), 2, '0')
    else
      PadStart(IntToString(n), 2, '0')
  }

  /** `YYYY-MM-DD` of a civil date. */
  function DayKeyOfDate(d: Date): string {
    IntToString(d.year) + "-" + Pad2(d.month) + "-" + Pad2(d.day)
  }

  /** `dayKeyFromTs`: the key of the local date of `ts`. */
  function DayKeyFromTs(ts: int): string {
    DayKeyOfDate(CivilOf(ts))
  }

  /** The key is the year, a dash, the month as two digits, a dash and
      the day of the month as two digits. */
  lemma DayKeyFormat(d: Date)
    requires 0 <= d.month < 100 && 0 <= d.day < 100
    ensures var k := DayKeyOfDate(d);
      && |k| >= 7
      && k[..|k| - 6] == IntToString(d.year)
      && k[|k| - 6] == '-' && k[|k| - 3] == '-'
      && IsDigit(k[|k| - 5]) && IsDigit(k[|k| - 4]) && IsDigit(k[|k| - 2]) && IsDigit(k[|k| - 1])
      && ParseDigits(k[|k| - 5..|k| - 3]) == d.month
      && ParseDigits(k[|k| - 2..]) == d.day
  {
    var y := IntToString(d.year);
    var mm := [DigitChar(d.month / 10), DigitChar(d.month % 10)];
    var dd := [DigitChar(d.day / 10), DigitChar(d.day % 10)];
    var k := y + "-" + mm + "-" + dd;
    assert DayKeyOfDate(d) == k;
    assert k[..|k| - 6] == y;
    assert k[|k| - 5..|k| - 3] == mm;
    assert k[|k| - 2..] == dd;
    TwoDigits(d.month);
    TwoDigits(d.day);
  }

  lemma TwoDigits(n: int)
    requires 0 <= n < 100
    ensures ParseDigits([DigitChar(n / 10), DigitChar(n % 10)]) == n
  {
    var a, b := DigitChar(n / 10), DigitChar(n % 10);
    assert [a, b][..1] == [a] && [a][..0] == [];
    DigitRoundTrip(n / 10);
    DigitRoundTrip(n % 10);
    assert ParseDigits([a]) == n / 10;
    assert ParseDigits([a, b]) == (n / 10) * 10 + n % 10;
  }

  /** Dates whose month and day have at most two digits have equal keys
      only when they are equal. */
  lemma DayKeyOfDateInjective(d1: Date, d2: Date)
    requires 0 <= d1.month < 100 && 0 <= d1.day < 100
    requires 0 <= d2.month < 100 && 0 <= d2.day < 100
    requires DayKeyOfDate(d1) == DayKeyOfDate(d2)
    ensures d1 == d2
  {
    var y1, m1, a1 := IntToString(d1.year), Pad2(d1.month), Pad2(d1.day);
    var y2, m2, a2 := IntToString(d2.year), Pad2(d2.month), Pad2(d2.day);
    KeySplit(y1, m1, a1);
    KeySplit(y2, m2, a2);
    IntToStringInjective(d1.year, d2.year);
    Pad2Injective(d1.month, d2.month);
    Pad2Injective(d1.day, d2.day);
  }

  /** A key of the form `y-mm-dd` can be split back into its parts. */
  lemma KeySplit(y: string, mm: string, dd: string)
    requires |mm| == 2 && |dd| == 2
    ensures var k := y + "-" + mm + "-" + dd;
      |k| == |y| + 6 && k[..|k| - 6] == y && k[|k| - 5..|k| - 3] == mm && k[|k| - 2..] == dd
  {
  }

  lemma Pad2Injective(a: int, b: int)
    requires 0 <= a < 100 && 0 <= b < 100 && Pad2(a) == Pad2(b)
    ensures a == b
  {
    TwoDigits(a);
    TwoDigits(b);
  }

  /** Two timestamps have the same day key exactly when they fall on the
      same local day. */
  lemma DayKeySameDay(a: int, b: int)
    ensures DayKeyFromTs(a) == DayKeyFromTs(b) <==> DayOf(a) == DayOf(b)
  {
    if DayKeyFromTs(a) == DayKeyFromTs(b) {
      DayKeyOfDateInjective(CivilOf(a), CivilOf(b));
    }
  }

  /** Local midnight of the day of `ts`. */
  function StartOfLocalDayMs(ts: int): (r: int)
    ensures r % MsPerDay == 0 && r <= ts < r + MsPerDay
    ensures DayOf(r) == DayOf(ts)
  {
    DayOf(ts) * MsPerDay
  }

  lemma StartOfLocalDayIdempotent(ts: int)
    ensures StartOfLocalDayMs(StartOfLocalDayMs(ts)) == StartOfLocalDayMs(ts)
  {
    DayOfMidnight(DayOf(ts), 0);
  }

  /** `addDaysLocal`: the local midnight `days` days after the one of
      `dayStartMs`. */
  function AddDaysLocal(dayStartMs: int, days: int): (r: int)
    ensures r % MsPerDay == 0 && DayOf(r) == DayOf(dayStartMs) + days
  {
    DayOfMidnight(DayOf(dayStartMs) + days, 0);
    (DayOf(dayStartMs) + days) * MsPerDay
  }

  /** `addDaysLocal` as written: `setDate(getDate() + days)`, then
      `setHours(0, 0, 0, 0)`. */
  function SetDateSteps(dayStartMs: int, days: int): int {
    var c := CivilOf(dayStartMs);
    MakeDay(c.year, c.month - 1, c.day + days) * MsPerDay
  }

  /** The date overflow of `setDate` is plain day arithmetic. */
  lemma AddDaysLocalSteps(dayStartMs: int, days: int)
    ensures SetDateSteps(dayStartMs, days) == AddDaysLocal(dayStartMs, days)
  {
    var c := CivilOf(dayStartMs);
    MakeDayOfDate(c, c.day + days);
  }

  /** Day `c.day` of the month `months` after the month of `c`, clamped to
      that month's last day. */
  function MonthClamp(c: Date, months: int): (d: Date)
    requires ValidDate(c)
    ensures ValidDate(d)
  {
    var mi := c.month - 1 + months;
    var y, m := c.year + mi / 12, mi % 12 + 1;
    Date(y, m, if c.day <= DaysInMonth(y, m) then c.day else DaysInMonth(y, m))
  }

  /** `addMonthsLocal`: the local midnight of the same day of the month
      `months` months later, or of that month's last day when it is
      shorter. */
  function AddMonthsLocal(dayStartMs: int, months: int): (r: int)
    ensures r % MsPerDay == 0
    ensures DayOf(r) == DayNumber(MonthClamp(CivilOf(dayStartMs), months))
  {
    var n := DayNumber(MonthClamp(CivilOf(dayStartMs), months));
    DayOfMidnight(n, 0);
    n * MsPerDay
  }

  /** `addMonthsLocal` as written: `setMonth(getMonth() + months)`; if the
      day of the month changed (it overflowed into the next month),
      `setDate(0)` goes back to the last day of the previous month; then
      `setHours(0, 0, 0, 0)`. */
  function SetMonthSteps(dayStartMs: int, months: int): int {
    SetMonthDay(CivilOf(dayStartMs), months) * MsPerDay
  }

  /** The day number the `setMonth`/`setDate(0)` steps reach from `c`. */
  function SetMonthDay(c: Date, months: int): int {
    var rolled := MakeDay(c.year, c.month - 1 + months, c.day);
    var rc := FromDays(rolled);
    if rc.day != c.day then MakeDay(rc.year, rc.month - 1, 0) else rolled
  }

  lemma MonthFirstStep(y: int, mi: int)
    ensures MakeDay(y, mi + 1, 1) == MakeDay(y, mi, 1) + DaysInMonth(y + mi / 12, mi % 12 + 1)
  {
    MonthStep(y + mi / 12, mi % 12 + 1);
    if mi % 12 == 11 {
      assert (mi + 1) / 12 == mi / 12 + 1 && (mi + 1) % 12 == 0;
      YearStep(y + mi / 12);
    } else {
      assert (mi + 1) / 12 == mi / 12 && (mi + 1) % 12 == mi % 12 + 1;
    }
  }

  /** The JavaScript steps land on the clamped date. */
  lemma AddMonthsClamp(c: Date, months: int)
    requires ValidDate(c)
    ensures SetMonthDay(c, months) == DayNumber(MonthClamp(c, months))
  {
    var mi := c.month - 1 + months;
    var y, m := c.year + mi / 12, mi % 12 + 1;
    var rolled := MakeDay(c.year, mi, c.day);
    var rc := FromDays(rolled);
    var target := MonthClamp(c, months);
    assert target.year == y && target.month == m;
    assert rolled == DayNumber(Date(y, m, 1)) + c.day - 1;
    if c.day <= DaysInMonth(y, m) {
      assert target == Date(y, m, c.day);
      assert rolled == DayNumber(target);
      FromDaysDayNumber(target);
      assert rc == target;
    } else {
      var over := c.day - DaysInMonth(y, m);
      assert target == Date(y, m, DaysInMonth(y, m));
      MonthFirstStep(c.year, mi);
      var ny, nm := c.year + (mi + 1) / 12, (mi + 1) % 12 + 1;
      var first := Date(ny, nm, 1);
      var next := Date(ny, nm, over);
      assert 1 <= over < c.day <= 31;
      assert ValidDate(next);
      assert MakeDay(c.year, mi + 1, 1) == DayNumber(first);
      assert DayNumber(next) == DayNumber(first) + over - 1;
      assert rolled == DayNumber(next);
      FromDaysDayNumber(next);
      assert rc == next && rc.day != c.day;
      MakeDayOfDate(first, 0);
      assert MakeDay(rc.year, rc.month - 1, 0) == DayNumber(first) - 1;
      assert DayNumber(first) - 1 == DayNumber(target);
    }
  }

  /** The `setMonth`/`setDate(0)` steps compute the clamped month step. */
  lemma AddMonthsLocalSteps(dayStartMs: int, months: int)
    ensures SetMonthSteps(dayStartMs, months) == AddMonthsLocal(dayStartMs, months)
  {
    var c := CivilOf(dayStartMs);
    AddMonthsClamp(c, months);
  }

  /** The civil date of the month step is the clamped date. */
  lemma AddMonthsLocalCivil(dayStartMs: int, months: int)
    ensures CivilOf(AddMonthsLocal(dayStartMs, months)) == MonthClamp(CivilOf(dayStartMs), months)
  {
    var t := MonthClamp(CivilOf(dayStartMs), months);
    var r := AddMonthsLocal(dayStartMs, months);
    assert DayOf(r) == DayNumber(t);
    FromDaysDayNumber(t);
  }

  lemma {:induction false} MonthFirstMonotone(y: int, a: int, b: int)
    requires a <= b
    ensures MakeDay(y, a, 1) <= MakeDay(y, b, 1)
    decreases b - a
  {
    if a < b {
      MonthFirstStep(y, a);
      MonthFirstMonotone(y, a + 1, b);
    }
  }

  /** A non-negative month step never lands before the start date. */
  lemma MonthClampForward(c: Date, months: int)
    requires ValidDate(c) && months >= 0
    ensures DayNumber(MonthClamp(c, months)) >= DayNumber(c)
  {
    var mi := c.month - 1 + months;
    var t := MonthClamp(c, months);
    if months == 0 {
      assert t == c;
    } else {
      MonthFirstBounds(c, months);
      MonthFirstMonotone(c.year, c.month, mi);
    }
  }

  lemma MonthFirstBounds(c: Date, months: int)
    requires ValidDate(c) && months >= 0
    ensures DayNumber(MonthClamp(c, months)) >= MakeDay(c.year, c.month - 1 + months, 1)
    ensures MakeDay(c.year, c.month, 1) > DayNumber(c)
  {
    ClampAtLeastFirst(c, months);
    NextMonthAfter(c);
  }

  /** The clamped date is not before the first of its month. */
  lemma ClampAtLeastFirst(c: Date, months: int)
    requires ValidDate(c)
    ensures DayNumber(MonthClamp(c, months)) >= MakeDay(c.year, c.month - 1 + months, 1)
  {
    var mi := c.month - 1 + months;
    var y, m := c.year + mi / 12, mi % 12 + 1;
    var t := MonthClamp(c, months);
    assert t.year == y && t.month == m && t.day >= 1;
    assert MakeDay(c.year, mi, 1) == DayNumber(Date(y, m, 1));
  }

  /** The first of the next month is after every day of this one. */
  lemma NextMonthAfter(c: Date)
    requires ValidDate(c)
    ensures MakeDay(c.year, c.month, 1) > DayNumber(c)
  {
    MakeDayOfDate(c, 1);
    MonthFirstStep(c.year, c.month - 1);
    assert (c.month - 1) / 12 == 0 && (c.month - 1) % 12 == c.month - 1;
    assert MakeDay(c.year, c.month, 1) == MakeDay(c.year, c.month - 1, 1) + DaysInMonth(c.year, c.month);
  }

  /** Adding a non-negative number of months never moves a local midnight
      backwards. */
  lemma AddMonthsForward(base: int, months: int)
    requires base % MsPerDay == 0 && months >= 0
    ensures AddMonthsLocal(base, months) >= base
  {
    MonthClampForward(CivilOf(base), months);
    DayOfMidnight(DayOf(base), 0);
  }

  /** `normalizeFreq`: the lower-cased name of a frequency, else weekly. */
  function NormalizeFreq(f: string): (r: Frequency)
    ensures r.Name() == ToLower(f) || (r == Weekly && forall g: Frequency :: g.Name() != ToLower(f))
  {
    var l := ToLower(f);
    if l == "daily" then Daily
    else if l == "weekly" then Weekly
    else if l == "monthly" then Monthly
    else if l == "seasonal" then Seasonal
    else Weekly
  }

  lemma LowerIdempotent(s: string)
    ensures ToLower(ToLower(s)) == ToLower(s)
  {
  }

  /** Case does not matter, and every canonical name reads back as itself. */
  lemma NormalizeFreqCaseInsensitive(s: string, f: Frequency)
    ensures NormalizeFreq(ToLower(s)) == NormalizeFreq(s)
    ensures NormalizeFreq(f.Name()) == f
  {
    LowerIdempotent(s);
    assert ToLower(f.Name()) == f.Name();
  }

  /** The template id the generator uses. */
  function TemplateIdOf(t: ChoreTemplate): string {
    t.id
  }

  /** `bucketForIndex` */
  function BucketForIndex(i: int): (b: Bucket)
    ensures b == Today <==> i == 0
    ensures b == Next3 <==> 1 <= i <= 3
    ensures b == Upcoming <==> i < 0 || i > 3
  {
    if i == 0 then Today
    else if 1 <= i <= 3 then Next3
    else Upcoming
  }

  /** The occurrence the day-step loops push for offset `i`. */
  function OccurrenceAt(t: ChoreTemplate, tid: string, base: int, i: int): Occurrence {
    Occurrence(tid, AddDaysLocal(base, i), BucketForIndex(i), t)
  }

  /** What `for (let i = from; i <= horizonDays; i += step)` pushes. */
  function Stepped(t: ChoreTemplate, tid: string, base: int, h: int, step: int, i: int): seq<Occurrence>
    requires step > 0
    decreases h - i
  {
    if i > h then [] else [OccurrenceAt(t, tid, base, i)] + Stepped(t, tid, base, h, step, i + step)
  }

  /** `addMonthsLocal(base, m)` for the monthly loop's counter values
      m = 0..60. */
  function MonthDates(base: int): (ds: seq<int>)
    ensures |ds| == 61
    ensures forall m :: 0 <= m < 61 ==> ds[m] == AddMonthsLocal(base, m)
  {
    seq(61, m => AddMonthsLocal(base, m))
  }

  /** The occurrence the monthly loop pushes for the date `dateMs`. */
  function MonthlyAt(t: ChoreTemplate, tid: string, base: int, dateMs: int): Occurrence {
    Occurrence(tid, dateMs, BucketForIndex((dateMs - base) / MsPerDay), t)
  }

  /** What the monthly `while` loop pushes from counter `m` on, where
      `dates[m]` is the date of month step `m`. */
  function MonthlyFrom(t: ChoreTemplate, tid: string, base: int, h: int, dates: seq<int>, m: int): seq<Occurrence>
    requires 0 <= m && |dates| == 61
    decreases 61 - m
  {
    if m > 60 then []
    else if (dates[m] - base) / MsPerDay > h then []
    else [MonthlyAt(t, tid, base, dates[m])] + MonthlyFrom(t, tid, base, h, dates, m + 1)
  }

  /** All occurrences one template contributes, in push order. */
  function TemplateOccurrences(t: ChoreTemplate, base: int, h: int): seq<Occurrence> {
    var tid := TemplateIdOf(t);
    if tid == "" then []
    else match NormalizeFreq(t.frequency)
      case Daily => Stepped(t, tid, base, h, 1, 0)
      case Weekly => Stepped(t, tid, base, h, 7, 0)
      case Monthly => MonthlyFrom(t, tid, base, h, MonthDates(base), 0)
      case Seasonal => Stepped(t, tid, base, h, 90, 0)
  }

  /** The unsorted `out` array after the loop over `templates`. */
  function Generated(templates: seq<ChoreTemplate>, base: int, h: int): seq<Occurrence> {
    if templates == [] then []
    else Generated(templates[..|templates| - 1], base, h) + TemplateOccurrences(templates[|templates| - 1], base, h)
  }

  function ByDate(o: Occurrence): int {
    o.dateMs
  }

  /** A generated occurrence: a local midnight within the horizon, in the
      bucket of its day offset. */
  predicate WellFormed(o: Occurrence, base: int, h: int) {
    && o.templateId != "" && o.templateId == o.chore.id
    && o.dateMs % MsPerDay == 0
    && base <= o.dateMs <= base + h * MsPerDay
    && o.bucket == BucketForIndex((o.dateMs - base) / MsPerDay)
  }

  method PushStepped(out: seq<Occurrence>, t: ChoreTemplate, tid: string, base: int, h: int, step: int)
    returns (r: seq<Occurrence>)
    requires step > 0
    ensures r == out + Stepped(t, tid, base, h, step, 0)
  {
    r := out;
    var i := 0;
    while i <= h
      invariant r + Stepped(t, tid, base, h, step, i) == out + Stepped(t, tid, base, h, step, 0)
      decreases h - i
    {
      var dateMs := AddDaysLocal(base, i);
      r := r + [Occurrence(tid, dateMs, BucketForIndex(i), t)];
      i := i + step;
    }
  }

  /** `buildOccurrences`: every template's occurrences over
      [today, today + horizonDays], sorted by date. */
  method BuildOccurrences(templates: seq<ChoreTemplate>, nowMs: int, horizonDays: int)
    returns (occs: seq<Occurrence>)
    ensures occs == SortBy(Generated(templates, StartOfLocalDayMs(nowMs), horizonDays), ByDate)
    ensures SortedBy(occs, ByDate)
    ensures multiset(occs) == multiset(Generated(templates, StartOfLocalDayMs(nowMs), horizonDays))
    ensures forall o :: o in occs ==>
      WellFormed(o, StartOfLocalDayMs(nowMs), horizonDays) && o.chore in templates
  {
    var base := StartOfLocalDayMs(nowMs);
    var out: seq<Occurrence> := [];
    for j := 0 to |templates|
      invariant out == Generated(templates[..j], base, horizonDays)
    {
      var t := templates[j];
      assert templates[..j + 1][..j] == templates[..j];
      var tid := TemplateIdOf(t);
      if tid != "" {
        var freq := NormalizeFreq(t.frequency);
        if freq == Daily {
          out := PushStepped(out, t, tid, base, horizonDays, 1);
        } else if freq == Weekly {
          out := PushStepped(out, t, tid, base, horizonDays, 7);
        } else if freq == Monthly {
          out := PushMonthly(out, t, tid, base, horizonDays);
        } else {
          out := PushStepped(out, t, tid, base, horizonDays, 90);
        }
      }
    }
    assert templates[..|templates|] == templates;
    occs := SortBy(out, ByDate);
    GeneratedWellFormed(templates, base, horizonDays);
    forall o | o in occs
      ensures WellFormed(o, base, horizonDays) && o.chore in templates
    {
      assert o in multiset(occs);
    }
  }

  /** The monthly loop: months 0, 1, ... while inside the horizon, at most
      61 of them. */
  method PushMonthly(out: seq<Occurrence>, t: ChoreTemplate, tid: string, base: int, h: int)
    returns (r: seq<Occurrence>)
    ensures r == out + MonthlyFrom(t, tid, base, h, MonthDates(base), 0)
  {
    ghost var dates := MonthDates(base);
    r := out;
    var m := 0;
    while true
      invariant 0 <= m <= 60
      invariant r + MonthlyFrom(t, tid, base, h, dates, m) == out + MonthlyFrom(t, tid, base, h, dates, 0)
      decreases 61 - m
    {
      var dateMs := AddMonthsLocal(base, m);
      var diffDays := (dateMs - base) / MsPerDay;
      assert dates[m] == dateMs;
      MonthlyFromUnfold(t, tid, base, h, dates, m);
      if diffDays > h {
        break;
      }
      var o := Occurrence(tid, dateMs, BucketForIndex(diffDays), t);
      AppendShift(r, o, MonthlyFrom(t, tid, base, h, dates, m + 1));
      r := r + [o];
      m := m + 1;
      if m > 60 {
        break;
      }
    }
  }

  /** One step of the monthly loop: past the horizon nothing more is
      pushed; otherwise month `m` is pushed before the rest. */
  lemma MonthlyFromUnfold(t: ChoreTemplate, tid: string, base: int, h: int, dates: seq<int>, m: int)
    requires 0 <= m <= 60 && |dates| == 61
    ensures var diffDays := (dates[m] - base) / MsPerDay;
      && (diffDays > h ==> MonthlyFrom(t, tid, base, h, dates, m) == [])
      && (diffDays <= h ==>
            MonthlyFrom(t, tid, base, h, dates, m)
            == [Occurrence(tid, dates[m], BucketForIndex(diffDays), t)] + MonthlyFrom(t, tid, base, h, dates, m + 1))
      && (m == 60 ==> MonthlyFrom(t, tid, base, h, dates, m + 1) == [])
  {
  }

  lemma AppendShift<T>(r: seq<T>, x: T, rest: seq<T>)
    ensures (r + [x]) + rest == r + ([x] + rest)
  {
  }

  // ----- properties of the generated occurrences -----

  lemma {:induction false} SteppedWellFormed(t: ChoreTemplate, base: int, h: int, step: int, i: int)
    requires step > 0 && i >= 0 && base % MsPerDay == 0 && t.id != ""
    ensures forall o :: o in Stepped(t, t.id, base, h, step, i) ==> WellFormed(o, base, h) && o.chore == t
    decreases h - i
  {
    if i <= h {
      SteppedWellFormed(t, base, h, step, i + step);
      var o := OccurrenceAt(t, t.id, base, i);
      assert DayOf(base) * MsPerDay == base;
      assert o.dateMs == base + i * MsPerDay;
      assert (o.dateMs - base) / MsPerDay == i;
    }
  }

  /** Every month step date is a local midnight no earlier than `base`. */
  predicate MonthDatesForward(base: int, dates: seq<int>) {
    |dates| == 61 && forall j :: 0 <= j < 61 ==> dates[j] % MsPerDay == 0 && dates[j] >= base
  }

  lemma MonthDatesAreForward(base: int)
    requires base % MsPerDay == 0
    ensures MonthDatesForward(base, MonthDates(base))
  {
    forall j | 0 <= j < 61 ensures MonthDates(base)[j] >= base {
      AddMonthsForward(base, j);
    }
  }

  lemma {:induction false} MonthlyWellFormed(t: ChoreTemplate, base: int, h: int, dates: seq<int>, m: int)
    requires m >= 0 && base % MsPerDay == 0 && t.id != "" && MonthDatesForward(base, dates)
    ensures forall o :: o in MonthlyFrom(t, t.id, base, h, dates, m) ==> WellFormed(o, base, h) && o.chore == t
    decreases 61 - m
  {
    if m <= 60 && (dates[m] - base) / MsPerDay <= h {
      MonthlyWellFormed(t, base, h, dates, m + 1);
      var d := dates[m];
      assert d - base == ((d - base) / MsPerDay) * MsPerDay;
    }
  }

  lemma {:induction false} GeneratedWellFormed(templates: seq<ChoreTemplate>, base: int, h: int)
    requires base % MsPerDay == 0
    ensures forall o :: o in Generated(templates, base, h) ==> WellFormed(o, base, h) && o.chore in templates
  {
    if templates != [] {
      var init, t := templates[..|templates| - 1], templates[|templates| - 1];
      GeneratedWellFormed(init, base, h);
      if t.id != "" {
        SteppedWellFormed(t, base, h, 1, 0);
        SteppedWellFormed(t, base, h, 7, 0);
        SteppedWellFormed(t, base, h, 90, 0);
        MonthDatesAreForward(base);
        MonthlyWellFormed(t, base, h, MonthDates(base), 0);
      }
      forall o | o in Generated(templates, base, h)
        ensures WellFormed(o, base, h) && o.chore in templates
      {
        if o in Generated(init, base, h) {
          assert o.chore in init;
        }
      }
    }
  }

  lemma MulSucc(k: int, step: int)
    ensures (k + 1) * step == k * step + step
  {
  }

  /** The fixed-step loops emit the offsets i, i + step, ... up to the
      horizon and no further. */
  lemma {:induction false} SteppedOffsets(t: ChoreTemplate, base: int, h: int, step: int, i: int)
    requires step > 0 && base % MsPerDay == 0
    ensures var s := Stepped(t, t.id, base, h, step, i);
      && (forall k :: 0 <= k < |s| ==>
            s[k].dateMs == base + (i + k * step) * MsPerDay && i + k * step <= h)
      && i + |s| * step > h
    decreases h - i
  {
    var s := Stepped(t, t.id, base, h, step, i);
    if i <= h {
      var rest := Stepped(t, t.id, base, h, step, i + step);
      SteppedOffsets(t, base, h, step, i + step);
      assert DayOf(base) * MsPerDay == base;
      forall k | 0 <= k < |s|
        ensures s[k].dateMs == base + (i + k * step) * MsPerDay && i + k * step <= h
      {
        if k > 0 {
          assert s[k] == rest[k - 1];
          MulSucc(k - 1, step);
        }
      }
      assert |s| == |rest| + 1;
      MulSucc(|rest|, step);
    }
  }

  /** A daily template yields exactly horizonDays + 1 occurrences, one on
      each day from today on. */
  lemma DailyOccurrences(t: ChoreTemplate, base: int, h: int)
    requires base % MsPerDay == 0 && t.id != "" && NormalizeFreq(t.frequency) == Daily
    ensures var s := TemplateOccurrences(t, base, h);
      && |s| == (if h >= 0 then h + 1 else 0)
      && forall k :: 0 <= k < |s| ==> s[k].dateMs == base + k * MsPerDay
  {
    SteppedOffsets(t, base, h, 1, 0);
    var s := TemplateOccurrences(t, base, h);
    if h >= 0 {
      assert s == [OccurrenceAt(t, t.id, base, 0)] + Stepped(t, t.id, base, h, 1, 1);
      assert s[|s| - 1].dateMs == base + (|s| - 1) * MsPerDay;
    }
  }

  /** Weekly and seasonal templates yield today and every 7th (weekly) or
      90th (seasonal) day after it while within the horizon, independent of
      any weekday or creation date. */
  lemma FixedStepOccurrences(t: ChoreTemplate, base: int, h: int)
    requires base % MsPerDay == 0 && t.id != ""
    requires NormalizeFreq(t.frequency) == Weekly || NormalizeFreq(t.frequency) == Seasonal
    ensures var step := if NormalizeFreq(t.frequency) == Weekly then 7 else 90;
      var s := TemplateOccurrences(t, base, h);
      && (forall k :: 0 <= k < |s| ==> s[k].dateMs == base + k * step * MsPerDay && k * step <= h)
      && |s| * step > h
  {
    if NormalizeFreq(t.frequency) == Weekly {
      SteppedOffsets(t, base, h, 7, 0);
    } else {
      SteppedOffsets(t, base, h, 90, 0);
    }
  }

  lemma {:induction false} MonthlyLength(t: ChoreTemplate, base: int, h: int, dates: seq<int>, m: int)
    requires 0 <= m <= 61 && |dates| == 61
    ensures var s := MonthlyFrom(t, t.id, base, h, dates, m);
      && |s| <= 61 - m
      && (m + |s| == 61 || (dates[m + |s|] - base) / MsPerDay > h)
    decreases 61 - m
  {
    if m <= 60 {
      MonthlyFromUnfold(t, t.id, base, h, dates, m);
      if (dates[m] - base) / MsPerDay <= h {
        MonthlyLength(t, base, h, dates, m + 1);
      }
    }
  }

  lemma {:induction false} MonthlyDateAt(t: ChoreTemplate, base: int, h: int, dates: seq<int>, m: int, k: int)
    requires 0 <= m <= 61 && |dates| == 61
    requires 0 <= k < |MonthlyFrom(t, t.id, base, h, dates, m)|
    ensures m + k < 61 && MonthlyFrom(t, t.id, base, h, dates, m)[k].dateMs == dates[m + k]
    decreases k
  {
    MonthlyFromUnfold(t, t.id, base, h, dates, m);
    var s := MonthlyFrom(t, t.id, base, h, dates, m);
    var rest := MonthlyFrom(t, t.id, base, h, dates, m + 1);
    assert s == [MonthlyAt(t, t.id, base, dates[m])] + rest;
    if k > 0 {
      MonthlyDateAt(t, base, h, dates, m + 1, k - 1);
      assert s[k] == rest[k - 1];
      assert m + 1 + (k - 1) == m + k;
    }
  }

  /** A monthly template yields at most 61 occurrences; the k-th falls on
      today's day of the month in the k-th month from now, or on that
      month's last day when it is shorter; the run stops at the first month
      past the horizon. */
  lemma MonthlyOccurrences(t: ChoreTemplate, base: int, h: int)
    requires base % MsPerDay == 0 && t.id != "" && NormalizeFreq(t.frequency) == Monthly
    ensures var s := TemplateOccurrences(t, base, h);
      && |s| <= 61
      && (forall k :: 0 <= k < |s| ==>
            CivilOf(s[k].dateMs) == MonthClamp(CivilOf(base), k)
            && s[k].dateMs <= base + h * MsPerDay)
      && (|s| == 61 || (AddMonthsLocal(base, |s|) - base) / MsPerDay > h)
  {
    var dates := MonthDates(base);
    MonthlyLength(t, base, h, dates, 0);
    MonthDatesAreForward(base);
    MonthlyWellFormed(t, base, h, dates, 0);
    var s := TemplateOccurrences(t, base, h);
    forall k | 0 <= k < |s|
      ensures CivilOf(s[k].dateMs) == MonthClamp(CivilOf(base), k) && s[k].dateMs <= base + h * MsPerDay
    {
      assert s[k] in s;
      MonthlyDateAt(t, base, h, dates, 0, k);
      assert s[k].dateMs == AddMonthsLocal(base, k);
      AddMonthsLocalCivil(base, k);
    }
  }

  /** A template without an id yields nothing; `active` is never read. */
  lemma IdAndActive(t: ChoreTemplate, base: int, h: int, b: bool)
    ensures t.id == "" ==> TemplateOccurrences(t, base, h) == []
    ensures var s, s' := TemplateOccurrences(t, base, h), TemplateOccurrences(t.(active := b), base, h);
      |s'| == |s| && forall k :: 0 <= k < |s| ==> s'[k] == s[k].(chore := t.(active := b))
  {
    if t.id != "" {
      match NormalizeFreq(t.frequency)
      case Monthly => MonthlyActive(t, base, h, b, MonthDates(base), 0);
      case Daily => SteppedActive(t, base, h, b, 1, 0);
      case Weekly => SteppedActive(t, base, h, b, 7, 0);
      case Seasonal => SteppedActive(t, base, h, b, 90, 0);
    }
  }

  lemma {:induction false} SteppedActive(t: ChoreTemplate, base: int, h: int, b: bool, step: int, i: int)
    requires step > 0
    ensures var s, s' := Stepped(t, t.id, base, h, step, i), Stepped(t.(active := b), t.id, base, h, step, i);
      |s'| == |s| && forall k :: 0 <= k < |s| ==> s'[k] == s[k].(chore := t.(active := b))
    decreases h - i
  {
    if i <= h {
      SteppedActive(t, base, h, b, step, i + step);
      var s, s' := Stepped(t, t.id, base, h, step, i), Stepped(t.(active := b), t.id, base, h, step, i);
      var r, r' := Stepped(t, t.id, base, h, step, i + step), Stepped(t.(active := b), t.id, base, h, step, i + step);
      forall k | 0 <= k < |s| ensures s'[k] == s[k].(chore := t.(active := b)) {
        if k > 0 {
          assert s[k] == r[k - 1] && s'[k] == r'[k - 1];
        }
      }
    }
  }

  lemma {:induction false} MonthlyActive(t: ChoreTemplate, base: int, h: int, b: bool, dates: seq<int>, m: int)
    requires m >= 0 && |dates| == 61
    ensures var s, s' := MonthlyFrom(t, t.id, base, h, dates, m), MonthlyFrom(t.(active := b), t.id, base, h, dates, m);
      |s'| == |s| && forall k :: 0 <= k < |s| ==> s'[k] == s[k].(chore := t.(active := b))
    decreases 61 - m
  {
    if m <= 60 {
      MonthlyActive(t, base, h, b, dates, m + 1);
    }
  }
}
