/** The today page's derivations over the loaded ledger and the generated
    occurrences: which occurrences are already done, what is due today and
    in the next three days, today's completions and points, and the ledger
    entry that completing an occurrence records. */
module TodayPage {
  import opened Text
  import opened Types
  import opened Seqs
  import opened Schedule
  import Score

  /** A completion as this page understands it: both ids present and a
      positive delta (the reason is not consulted). */
  predicate Completes(e: LedgerEntry) {
    Score.Keyed(e) && e.delta > 0
  }

  /** The set `completedKeySet` holds after reading `ledger`. */
  function CompletedKeys(ledger: seq<LedgerEntry>): set<string> {
    if ledger == [] then {}
    else
      var e := ledger[|ledger| - 1];
      CompletedKeys(ledger[..|ledger| - 1]) + (if Completes(e) then {EntryKey(e)} else {})
  }

  /** A key is in the set exactly when some entry completes it. */
  lemma {:induction false} CompletedKeysIff(ledger: seq<LedgerEntry>, k: string)
    ensures k in CompletedKeys(ledger) <==> exists e :: e in ledger && Completes(e) && EntryKey(e) == k
  {
    if ledger != [] {
      var init, e := ledger[..|ledger| - 1], ledger[|ledger| - 1];
      CompletedKeysIff(init, k);
      assert ledger == init + [e];
      if exists x :: x in ledger && Completes(x) && EntryKey(x) == k {
        var x :| x in ledger && Completes(x) && EntryKey(x) == k;
        if x != e {
          assert x in init;
        }
      }
    }
  }

  /** Later entries only add keys; undos and skips (delta <= 0) add none. */
  lemma {:induction false} CompletedKeysGrow(a: seq<LedgerEntry>, b: seq<LedgerEntry>)
    ensures CompletedKeys(a) <= CompletedKeys(a + b)
    decreases |b|
  {
    if b != [] {
      var b', e := b[..|b| - 1], b[|b| - 1];
      CompletedKeysGrow(a, b');
      assert (a + b)[..|a + b| - 1] == a + b';
    } else {
      assert a + b == a;
    }
  }

  lemma NonPositiveAddsNoKey(ledger: seq<LedgerEntry>, e: LedgerEntry)
    requires e.delta <= 0
    ensures CompletedKeys(ledger + [e]) == CompletedKeys(ledger)
  {
    assert (ledger + [e])[..|ledger|] == ledger;
  }

  /** The `completedKeySet` memo: one pass over the ledger. */
  method CompletedKeySet(ledger: seq<LedgerEntry>) returns (s: set<string>)
    ensures s == CompletedKeys(ledger)
    ensures forall k :: k in s <==> exists e :: e in ledger && Completes(e) && EntryKey(e) == k
  {
    s := {};
    for i := 0 to |ledger|
      invariant s == CompletedKeys(ledger[..i])
    {
      var e := ledger[i];
      assert ledger[..i + 1][..i] == ledger[..i];
      if !Present(e.templateId) || !Present(e.dayKey) {
        continue;
      }
      if e.delta <= 0 {
        continue;
      }
      s := s + {OccurrenceKey(e.templateId.value, e.dayKey.value)};
    }
    assert ledger[..|ledger|] == ledger;
    forall k {
      CompletedKeysIff(ledger, k);
    }
  }

  /** The key the page looks up for an occurrence. */
  function KeyOf(o: Occurrence): string {
    OccurrenceKey(o.templateId, o.DayKey())
  }

  /** `occurrences.filter(bucket === b).filter(key not done)` */
  function Pending(occs: seq<Occurrence>, b: Bucket, done: set<string>): (r: seq<Occurrence>)
    ensures forall o :: o in r <==> o in occs && o.bucket == b && KeyOf(o) !in done
    ensures IsSubsequence(r, occs)
    ensures forall o :: multiset(r)[o] == if o.bucket == b && KeyOf(o) !in done then multiset(occs)[o] else 0
  {
    var inBucket := Filter(occs, (o: Occurrence) => o.bucket == b);
    var r := Filter(inBucket, (o: Occurrence) => KeyOf(o) !in done);
    SubsequenceTransitive(r, inBucket, occs);
    FilterFilterMultiset(occs, (o: Occurrence) => o.bucket == b, (o: Occurrence) => KeyOf(o) !in done);
    r
  }

  /** `dueToday` */
  function DueToday(occs: seq<Occurrence>, done: set<string>): seq<Occurrence> {
    Pending(occs, Today, done)
  }

  /** `next3` */
  function DueNext3(occs: seq<Occurrence>, done: set<string>): seq<Occurrence> {
    Pending(occs, Next3, done)
  }

  /** No occurrence is listed both as due today and in the next three
      days, and neither list shows anything already done. */
  lemma ListsDisjoint(occs: seq<Occurrence>, done: set<string>)
    ensures forall o :: o in DueToday(occs, done) ==> o !in DueNext3(occs, done)
    ensures forall o :: o in DueToday(occs, done) || o in DueNext3(occs, done) ==> KeyOf(o) !in done
  {
  }

  /** More done keys only remove occurrences, keeping the order of the
      rest. */
  lemma {:induction false} PendingShrinks(occs: seq<Occurrence>, b: Bucket, d1: set<string>, d2: set<string>)
    requires d1 <= d2
    ensures IsSubsequence(Pending(occs, b, d2), Pending(occs, b, d1))
  {
    var inBucket := Filter(occs, (o: Occurrence) => o.bucket == b);
    FilterStronger(inBucket, (o: Occurrence) => KeyOf(o) !in d1, (o: Occurrence) => KeyOf(o) !in d2);
  }

  /** Reading a longer ledger never brings an occurrence back. */
  lemma MoreLedgerShrinks(occs: seq<Occurrence>, b: Bucket, a: seq<LedgerEntry>, later: seq<LedgerEntry>)
    ensures IsSubsequence(Pending(occs, b, CompletedKeys(a + later)), Pending(occs, b, CompletedKeys(a)))
  {
    CompletedKeysGrow(a, later);
    PendingShrinks(occs, b, CompletedKeys(a), CompletedKeys(a + later));
  }

  /** The two lists the page renders: today's and the next three days'
      pending occurrences, generated ten days ahead of `nowMs`. */
  method DueLists(templates: seq<ChoreTemplate>, ledger: seq<LedgerEntry>, nowMs: int)
    returns (dueToday: seq<Occurrence>, next3: seq<Occurrence>)
    ensures forall o :: o in dueToday ==>
      o.chore in templates && o.templateId == o.chore.id && o.dateMs == StartOfLocalDayMs(nowMs)
      && KeyOf(o) !in CompletedKeys(ledger)
    ensures forall o :: o in next3 ==>
      o.chore in templates && o.templateId == o.chore.id
      && StartOfLocalDayMs(nowMs) + LocalTime.MsPerDay <= o.dateMs <= StartOfLocalDayMs(nowMs) + 3 * LocalTime.MsPerDay
      && KeyOf(o) !in CompletedKeys(ledger)
    ensures SortedBy(dueToday, ByDate) && SortedBy(next3, ByDate)
    ensures var occs := SortBy(Generated(templates, StartOfLocalDayMs(nowMs), 10), ByDate);
      dueToday == DueToday(occs, CompletedKeys(ledger)) && next3 == DueNext3(occs, CompletedKeys(ledger))
    ensures forall o :: o in Generated(templates, StartOfLocalDayMs(nowMs), 10) && KeyOf(o) !in CompletedKeys(ledger) ==>
      (o.bucket == Today ==> o in dueToday) && (o.bucket == Next3 ==> o in next3)
  {
    var occs := BuildOccurrences(templates, nowMs, 10);
    var done := CompletedKeySet(ledger);
    dueToday := DueToday(occs, done);
    next3 := DueNext3(occs, done);
    var base := StartOfLocalDayMs(nowMs);
    forall o | o in dueToday
      ensures o.dateMs == base
    {
      BucketWindow(o, base, 10);
    }
    forall o | o in next3
      ensures base + LocalTime.MsPerDay <= o.dateMs <= base + 3 * LocalTime.MsPerDay
    {
      BucketWindow(o, base, 10);
    }
    SubsequenceSorted(dueToday, occs, ByDate);
    SubsequenceSorted(next3, occs, ByDate);
    forall o | o in Generated(templates, base, 10)
      ensures o in occs
    {
      assert o in multiset(Generated(templates, base, 10));
    }
  }

  /** A generated occurrence in the today bucket is at the base midnight;
      one in the next-three bucket one to three days after it. */
  lemma BucketWindow(o: Occurrence, base: int, h: int)
    requires WellFormed(o, base, h) && base % LocalTime.MsPerDay == 0
    ensures o.bucket == Today ==> o.dateMs == base
    ensures o.bucket == Next3 ==>
      base + LocalTime.MsPerDay <= o.dateMs <= base + 3 * LocalTime.MsPerDay
  {
    var d := o.dateMs - base;
    var i := d / LocalTime.MsPerDay;
    assert d % LocalTime.MsPerDay == 0;
    assert d == i * LocalTime.MsPerDay;
  }

  /** `completedToday`: positive entries recorded for the day `dk`. */
  function CompletedToday(ledger: seq<LedgerEntry>, dk: string): (r: seq<LedgerEntry>)
    ensures forall e :: e in r <==> e in ledger && e.dayKey == Some(dk) && e.delta > 0
    ensures IsSubsequence(r, ledger)
    ensures forall e :: multiset(r)[e] == if e.dayKey == Some(dk) && e.delta > 0 then multiset(ledger)[e] else 0
  {
    FilterMultiset(ledger, (e: LedgerEntry) => e.dayKey == Some(dk) && e.delta > 0);
    Filter(ledger, (e: LedgerEntry) => e.dayKey == Some(dk) && e.delta > 0)
  }

  /** `reduce((sum, e) => sum + e.delta, 0)` */
  function SumDeltas(entries: seq<LedgerEntry>): int {
    if entries == [] then 0 else SumDeltas(entries[..|entries| - 1]) + entries[|entries| - 1].delta
  }

  /** `pointsEarned` */
  function PointsEarned(ledger: seq<LedgerEntry>, dk: string): int {
    SumDeltas(CompletedToday(ledger, dk))
  }

  /** A sum of positive deltas is at least the number of entries. */
  lemma {:induction false} SumOfPositives(entries: seq<LedgerEntry>)
    requires forall i :: 0 <= i < |entries| ==> entries[i].delta > 0
    ensures SumDeltas(entries) >= |entries|
  {
    if entries != [] {
      SumOfPositives(entries[..|entries| - 1]);
    }
  }

  /** Today's points are never negative, and positive when anything was
      completed today. */
  lemma PointsEarnedBounds(ledger: seq<LedgerEntry>, dk: string)
    ensures PointsEarned(ledger, dk) >= |CompletedToday(ledger, dk)| >= 0
    ensures CompletedToday(ledger, dk) != [] ==> PointsEarned(ledger, dk) > 0
  {
    var r := CompletedToday(ledger, dk);
    assert forall i :: 0 <= i < |r| ==> r[i] in r;
    SumOfPositives(r);
  }

  /** A keyed entry completed today marks its occurrence as done. */
  lemma CompletedTodayIsDone(ledger: seq<LedgerEntry>, dk: string, e: LedgerEntry)
    requires e in CompletedToday(ledger, dk) && Present(e.templateId) && dk != ""
    ensures EntryKey(e) in CompletedKeys(ledger)
  {
    CompletedKeysIff(ledger, EntryKey(e));
  }

  /** What `complete(templateId, dayKey, chore)` appends to the ledger. */
  function CompletionEntry(uid: string, chore: ChoreTemplate, templateId: string, dayKey: string, nowMs: int): (e: LedgerEntry)
    ensures e.templateId == Some(templateId) && e.dayKey == Some(dayKey)
    ensures e.actorUid == uid && e.createdAt == nowMs
    ensures e.delta == chore.points && e.reason == "Completed: " + chore.title
  {
    LedgerEntry(uid, chore.points, "Completed: " + chore.title, nowMs, Some(templateId), Some(dayKey))
  }

  /** The entry passes as a completion for the ledger reconciler too. */
  lemma CompletionEntryKind(uid: string, chore: ChoreTemplate, templateId: string, dayKey: string, nowMs: int)
    requires chore.points > 0
    ensures Score.IsCompletion(CompletionEntry(uid, chore, templateId, dayKey, nowMs))
    ensures !Score.IsUndo(CompletionEntry(uid, chore, templateId, dayKey, nowMs))
  {
    var e := CompletionEntry(uid, chore, templateId, dayKey, nowMs);
    assert e.reason[..10] == "Completed:";
  }

  /** Completing a pending occurrence of a chore worth points removes it
      from its list once the ledger is reloaded. */
  lemma CompletingRemoves(occs: seq<Occurrence>, b: Bucket, ledger: seq<LedgerEntry>, o: Occurrence, uid: string, nowMs: int)
    requires o.templateId != "" && o.chore.points > 0
    ensures var e := CompletionEntry(uid, o.chore, o.templateId, o.DayKey(), nowMs);
      o !in Pending(occs, b, CompletedKeys(ledger + [e]))
  {
    var e := CompletionEntry(uid, o.chore, o.templateId, o.DayKey(), nowMs);
    DayKeyOfDateNonEmpty(LocalTime.CivilOf(o.dateMs));
    assert Completes(e);
    var l := ledger + [e];
    assert l[..|l| - 1] == ledger && l[|l| - 1] == e;
    assert KeyOf(o) in CompletedKeys(l);
  }

  /** A chore worth no points (or less) can never be marked done this way:
      its occurrence stays listed. */
  lemma ZeroPointsStayPending(occs: seq<Occurrence>, b: Bucket, ledger: seq<LedgerEntry>, o: Occurrence, uid: string, nowMs: int)
    requires o.chore.points <= 0
    ensures var e := CompletionEntry(uid, o.chore, o.templateId, o.DayKey(), nowMs);
      Pending(occs, b, CompletedKeys(ledger + [e])) == Pending(occs, b, CompletedKeys(ledger))
  {
    var e := CompletionEntry(uid, o.chore, o.templateId, o.DayKey(), nowMs);
    NonPositiveAddsNoKey(ledger, e);
  }

  lemma DayKeyOfDateNonEmpty(d: LocalTime.Date)
    ensures DayKeyOfDate(d) != ""
  {
    var k := DayKeyOfDate(d);
    assert k[|IntToString(d.year)|] == '-';
  }
}
