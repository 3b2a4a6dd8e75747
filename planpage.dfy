/** The plan page's `upcoming` list: the next three due dates of every
    active template of the selected frequency, merged, sorted by due time
    and capped at twelve. */
module PlanPage {
  import opened Types
  import opened Seqs
  import opened LocalTime
  import Plan

  /** One row of the list (the untyped `icon` field is not modelled). */
  datatype UpcomingItem = UpcomingItem(
    templateId: string,
    title: string,
    points: int,
    assigneeMode: string,
    dueAt: int)

  function DueAt(x: UpcomingItem): int {
    x.dueAt
  }

  function ItemOf(t: ChoreTemplate, ms: int): UpcomingItem {
    UpcomingItem(t.id, t.title, t.points, t.assigneeMode, ms)
  }

  /** The `i`-th date `nextDueDates(t, count, fromMs)` lists. */
  function DueAtIndex(t: ChoreTemplate, fromMs: int, i: int): int {
    var stepMs := Plan.StepDays(t.frequency) * MsPerDay;
    Plan.FirstDue(Plan.Anchor(t, fromMs), fromMs, stepMs) + i * stepMs
  }

  /** `templates.filter(active !== false).filter(frequency === tab)` */
  function Included(templates: seq<ChoreTemplate>, tab: Frequency): (r: seq<ChoreTemplate>)
    ensures forall t :: t in r <==> t in templates && t.active && t.frequency == tab.Name()
    ensures IsSubsequence(r, templates)
    ensures forall t :: multiset(r)[t] == if t.active && t.frequency == tab.Name() then multiset(templates)[t] else 0
  {
    var active := Filter(templates, (t: ChoreTemplate) => t.active);
    var r := Filter(active, (t: ChoreTemplate) => t.frequency == tab.Name());
    SubsequenceTransitive(r, active, templates);
    FilterFilterMultiset(templates, (t: ChoreTemplate) => t.active, (t: ChoreTemplate) => t.frequency == tab.Name());
    r
  }

  /** The three rows one template contributes. */
  function ItemsOf(t: ChoreTemplate, fromMs: int): seq<UpcomingItem> {
    seq(3, i => ItemOf(t, DueAtIndex(t, fromMs, i)))
  }

  /** The `flatMap` over the included templates. */
  function Expanded(ts: seq<ChoreTemplate>, fromMs: int): seq<UpcomingItem> {
    if ts == [] then [] else Expanded(ts[..|ts| - 1], fromMs) + ItemsOf(ts[|ts| - 1], fromMs)
  }

  /** `upcoming` */
  method Upcoming(templates: seq<ChoreTemplate>, tab: Frequency, fromMs: int) returns (r: seq<UpcomingItem>)
    ensures r == Take(SortBy(Expanded(Included(templates, tab), fromMs), DueAt), 12)
  {
    var filtered := Included(templates, tab);
    var occurrences: seq<UpcomingItem> := [];
    for j := 0 to |filtered|
      invariant occurrences == Expanded(filtered[..j], fromMs)
    {
      var t := filtered[j];
      var ds := Plan.NextDueDates(t, 3, fromMs);
      var items := ItemsAt(t, ds);
      DueDatesItems(t, fromMs, ds);
      ExpandedSnoc(filtered, j, fromMs);
      occurrences := occurrences + items;
    }
    assert filtered[..|filtered|] == filtered;
    occurrences := SortBy(occurrences, DueAt);
    r := Take(occurrences, 12);
  }

  /** `ds.map(ms => ({…, dueAt: ms}))` */
  function ItemsAt(t: ChoreTemplate, ds: seq<int>): (items: seq<UpcomingItem>)
    ensures |items| == |ds| && forall i :: 0 <= i < |ds| ==> items[i] == ItemOf(t, ds[i])
  {
    seq(|ds|, i requires 0 <= i < |ds| => ItemOf(t, ds[i]))
  }

  lemma DueDatesItems(t: ChoreTemplate, fromMs: int, ds: seq<int>)
    requires var stepMs := Plan.StepDays(t.frequency) * MsPerDay;
      var first := Plan.FirstDue(Plan.Anchor(t, fromMs), fromMs, stepMs);
      && |ds| == 3
      && forall i :: 0 <= i < |ds| ==> ds[i] == first + i * stepMs
    ensures ItemsAt(t, ds) == ItemsOf(t, fromMs)
  {
  }

  lemma ExpandedSnoc(ts: seq<ChoreTemplate>, j: int, fromMs: int)
    requires 0 <= j < |ts|
    ensures Expanded(ts[..j + 1], fromMs) == Expanded(ts[..j], fromMs) + ItemsOf(ts[j], fromMs)
  {
    assert ts[..j + 1][..j] == ts[..j];
  }

  /** Before the cap, template `j` of the included list supplies rows
      3j, 3j+1 and 3j+2: exactly its next three due dates. */
  lemma {:induction false} ExpandedAt(ts: seq<ChoreTemplate>, fromMs: int)
    ensures |Expanded(ts, fromMs)| == 3 * |ts|
    ensures forall j, i :: 0 <= j < |ts| && 0 <= i < 3 ==>
      Expanded(ts, fromMs)[3 * j + i] == ItemOf(ts[j], DueAtIndex(ts[j], fromMs, i))
  {
    if ts != [] {
      var init := ts[..|ts| - 1];
      ExpandedAt(init, fromMs);
      forall j, i | 0 <= j < |ts| && 0 <= i < 3
        ensures Expanded(ts, fromMs)[3 * j + i] == ItemOf(ts[j], DueAtIndex(ts[j], fromMs, i))
      {
        if j < |init| {
          assert ts[j] == init[j];
        }
      }
    }
  }

  /** Every row before the cap is one of the next three due dates of an
      included template. */
  lemma ExpandedFrom(ts: seq<ChoreTemplate>, fromMs: int, x: UpcomingItem)
    requires x in Expanded(ts, fromMs)
    ensures exists t, i :: t in ts && 0 <= i < 3 && x == ItemOf(t, DueAtIndex(t, fromMs, i))
  {
    ExpandedAt(ts, fromMs);
    var k :| 0 <= k < |Expanded(ts, fromMs)| && Expanded(ts, fromMs)[k] == x;
    var j, i := k / 3, k % 3;
    assert k == 3 * j + i;
    assert x == ItemOf(ts[j], DueAtIndex(ts[j], fromMs, i));
  }

  /** The list is sorted by due time and holds at most twelve rows, the
      earliest ones: no row left out is due before a row kept. Each row is
      a due date of an active template of the tab's frequency. */
  lemma UpcomingShape(templates: seq<ChoreTemplate>, tab: Frequency, fromMs: int)
    ensures var all := Expanded(Included(templates, tab), fromMs);
      var r := Take(SortBy(all, DueAt), 12);
      && SortedBy(r, DueAt)
      && |r| == (if 3 * |Included(templates, tab)| < 12 then 3 * |Included(templates, tab)| else 12)
      && (forall x, y :: x in r && y in multiset(all) - multiset(r) ==> x.dueAt <= y.dueAt)
      && (forall x :: x in r ==> exists t, i ::
            t in templates && t.active && t.frequency == tab.Name() && 0 <= i < 3
            && x == ItemOf(t, DueAtIndex(t, fromMs, i)))
  {
    var inc := Included(templates, tab);
    var all := Expanded(inc, fromMs);
    var sorted := SortBy(all, DueAt);
    var r := Take(sorted, 12);
    ExpandedAt(inc, fromMs);
    assert |sorted| == |multiset(sorted)| == |all|;
    TakeSortedKeepsLeast(sorted, DueAt, 12);
    forall x | x in r
      ensures exists t, i ::
        t in templates && t.active && t.frequency == tab.Name() && 0 <= i < 3
        && x == ItemOf(t, DueAtIndex(t, fromMs, i))
    {
      assert x in multiset(sorted);
      ExpandedFrom(inc, fromMs, x);
    }
    TakePrefixSorted(sorted, 12);
  }

  lemma TakePrefixSorted(s: seq<UpcomingItem>, n: nat)
    requires SortedBy(s, DueAt)
    ensures SortedBy(Take(s, n), DueAt)
  {
    var r := Take(s, n);
    assert forall i :: 0 <= i < |r| ==> r[i] == s[i];
  }
}
