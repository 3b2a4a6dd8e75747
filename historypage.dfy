/** The history page's derivations: the rows it shows, how it classifies
    and titles each row, and the entry its undo button records. */
module HistoryPage {
  import opened Text
  import opened Types
  import opened Seqs
  import Score
  import LedgerHelpers

  /** A reason with one of the three prefixes the page shows. */
  predicate Shown(reason: string) {
    StartsWith(reason, "Completed:") || StartsWith(reason, "Skipped:") || StartsWith(reason, "Undo:")
  }

  /** `rows`: the shown entries, in ledger order. */
  function Rows(items: seq<LedgerEntry>): (r: seq<LedgerEntry>)
    ensures forall e :: e in r <==> e in items && Shown(e.reason)
    ensures IsSubsequence(r, items)
    ensures forall e :: multiset(r)[e] == if Shown(e.reason) then multiset(items)[e] else 0
  {
    FilterMultiset(items, (e: LedgerEntry) => Shown(e.reason));
    Filter(items, (e: LedgerEntry) => Shown(e.reason))
  }

  datatype RowKind = Completed | Skipped | Undone {
    /** The badge text. */
    function Label(): string {
      match this
      case Completed => "Completed"
      case Skipped => "Skipped"
      case Undone => "Undone"
    }

    /** The reason prefix written by the action the row records. */
    function Prefix(): string {
      match this
      case Completed => "Completed: "
      case Skipped => "Skipped: "
      case Undone => "Undo: "
    }
  }

  /** `isCompleted ? … : isSkipped ? … : …`: every row that is neither a
      completion nor a skip is drawn as undone. */
  function Classify(reason: string): RowKind {
    if StartsWith(reason, "Completed:") then Completed
    else if StartsWith(reason, "Skipped:") then Skipped
    else Undone
  }

  /** On a shown row the kind is the reason's prefix, and only one prefix
      can match. */
  lemma ClassifyShown(reason: string)
    requires Shown(reason)
    ensures Classify(reason) == Completed <==> StartsWith(reason, "Completed:")
    ensures Classify(reason) == Skipped <==> StartsWith(reason, "Skipped:")
    ensures Classify(reason) == Undone <==> StartsWith(reason, "Undo:")
  {
    FirstLetters(reason);
  }

  /** The three prefixes start with different letters. */
  lemma FirstLetters(reason: string)
    ensures StartsWith(reason, "Completed:") ==> reason[0] == 'C'
    ensures StartsWith(reason, "Skipped:") ==> reason[0] == 'S'
    ensures StartsWith(reason, "Undo:") ==> reason[0] == 'U'
  {
    if StartsWith(reason, "Completed:") {
      assert reason[0] == reason[..10][0];
    }
    if StartsWith(reason, "Skipped:") {
      assert reason[0] == reason[..8][0];
    }
    if StartsWith(reason, "Undo:") {
      assert reason[0] == reason[..5][0];
    }
  }

  /** The title: the reason with the first "Completed: ", then the first
      "Skipped: ", then the first "Undo: " removed. */
  function Title(reason: string): string {
    ReplaceFirst(ReplaceFirst(ReplaceFirst(reason, "Completed: ", ""), "Skipped: ", ""), "Undo: ", "")
  }

  /** A text in which none of the three prefixes occurs. */
  predicate Plain(t: string) {
    IndexOf(t, "Completed: ") == -1 && IndexOf(t, "Skipped: ") == -1 && IndexOf(t, "Undo: ") == -1
  }

  /** A pattern whose first letter does not occur in `pre` occurs in
      `pre + t` only where it occurs in `t`. */
  lemma NoMatchAfterPrefix(pre: string, t: string, p: string)
    requires |p| > 0 && IndexOf(t, p) == -1
    requires forall i :: 0 <= i < |pre| ==> pre[i] != p[0]
    ensures IndexOf(pre + t, p) == -1
  {
    var s := pre + t;
    var j := IndexOf(s, p);
    if j != -1 {
      assert s[j..j + |p|][0] == s[j];
      assert j >= |pre|;
      assert s[|pre|..] == t;
      assert s[j..j + |p|] == s[|pre|..][j - |pre|..j - |pre| + |p|];
      assert MatchAt(t, p, j - |pre|);
      assert false;
    }
  }

  /** A row written as prefix + title shows that title, with the kind of
      its prefix. */
  lemma TitleOfRow(k: RowKind, t: string)
    requires Plain(t)
    ensures Title(k.Prefix() + t) == t
    ensures Classify(k.Prefix() + t) == k
  {
    var s := k.Prefix() + t;
    match k
    case Completed =>
      ReplacePrefix(s, "Completed: ");
      assert s[|"Completed: "|..] == t;
      assert s[..10] == "Completed:";
    case Skipped =>
      NoMatchAfterPrefix("Skipped: ", t, "Completed: ");
      ReplacePrefix(s, "Skipped: ");
      assert s[|"Skipped: "|..] == t;
      assert s[..8] == "Skipped:";
      FirstLetters(s);
    case Undone =>
      NoMatchAfterPrefix("Undo: ", t, "Completed: ");
      NoMatchAfterPrefix("Undo: ", t, "Skipped: ");
      ReplacePrefix(s, "Undo: ");
      assert s[|"Undo: "|..] == t;
      FirstLetters(s);
  }

  function Abs(n: int): int {
    if n < 0 then -n else n
  }

  /** The entry `undo(e)` records for the user `uid` at `nowMs`; `None`
      when one of its guards returns early. */
  function UndoEntry(uid: string, e: LedgerEntry, nowMs: int): (u: Option<LedgerEntry>)
    ensures u.None? <==> !(Present(e.templateId) && Present(e.dayKey) && StartsWith(e.reason, "Completed:"))
    ensures u.Some? ==>
      && u.value.delta <= 0 && (u.value.delta == e.delta || u.value.delta == -e.delta)
      && u.value.templateId == e.templateId && u.value.dayKey == e.dayKey
      && u.value.actorUid == uid && u.value.createdAt == nowMs
      && StartsWith(u.value.reason, "Undo: ")
      && u.value.reason == "Undo: " + ReplaceFirst(e.reason, "Completed: ", "")
  {
    if !Present(e.templateId) || !Present(e.dayKey) then None
    else if !StartsWith(e.reason, "Completed:") then None
    else Some(LedgerEntry(uid, -Abs(e.delta), "Undo: " + ReplaceFirst(e.reason, "Completed: ", ""),
      nowMs, e.templateId, e.dayKey))
  }

  /** Undoing "Completed: t" writes "Undo: t", which the page titles t and
      draws as undone. */
  lemma UndoReason(uid: string, e: LedgerEntry, nowMs: int, t: string)
    requires Present(e.templateId) && Present(e.dayKey) && e.reason == "Completed: " + t && Plain(t)
    ensures UndoEntry(uid, e, nowMs).Some?
    ensures UndoEntry(uid, e, nowMs).value.reason == "Undo: " + t
    ensures Title(UndoEntry(uid, e, nowMs).value.reason) == Title(e.reason) == t
    ensures Classify(UndoEntry(uid, e, nowMs).value.reason) == Undone
  {
    assert e.reason[..10] == "Completed:";
    ReplacePrefix(e.reason, "Completed: ");
    assert e.reason[|"Completed: "|..] == t;
    TitleOfRow(Completed, t);
    TitleOfRow(Undone, t);
  }

  /** The undo of a positive completion is an undo for both reducers. */
  lemma UndoIsUndo(uid: string, c: LedgerEntry, nowMs: int)
    requires Score.Keyed(c) && Score.IsCompletion(c)
    ensures UndoEntry(uid, c, nowMs).Some?
    ensures var u := UndoEntry(uid, c, nowMs).value;
      Score.Keyed(u) && EntryKey(u) == EntryKey(c) && Score.IsUndo(u)
      && !Score.IsCompletion(u) && !Score.IsSkip(u)
  {
    var u := UndoEntry(uid, c, nowMs).value;
    assert u.reason[..6] == "Undo: ";
    assert u.reason[..5] == "Undo:";
    FirstLetters(u.reason);
  }

  /** Round trip: a completion followed by its undo leaves the unclamped
      count of the key where it was, and the skip flag unchanged. */
  lemma UndoNetsZero(ledger: seq<LedgerEntry>, c: LedgerEntry, uid: string, nowMs: int)
    requires Score.Keyed(c) && Score.IsCompletion(c)
    ensures UndoEntry(uid, c, nowMs).Some?
    ensures var u := UndoEntry(uid, c, nowMs).value;
      var k := EntryKey(c);
      var before := if k in LedgerHelpers.NetStatuses(ledger) then LedgerHelpers.NetStatuses(ledger)[k]
        else LedgerHelpers.NetStatus(0, false);
      LedgerHelpers.NetStatuses(ledger + [c, u])[k] == before
  {
    var u := UndoEntry(uid, c, nowMs).value;
    UndoIsUndo(uid, c, nowMs);
    Score.KindsExclusive(c);
    var l1 := ledger + [c];
    var l2 := ledger + [c, u];
    assert l2[..|l2| - 1] == l1 && l2[|l2| - 1] == u;
    assert l1[..|l1| - 1] == ledger && l1[|l1| - 1] == c;
  }

  /** The same round trip under the clamped reducer: its count is never
      negative, so the +1 and the -1 cancel too. */
  lemma UndoRestoresClamped(ledger: seq<LedgerEntry>, c: LedgerEntry, uid: string, nowMs: int)
    requires Score.Keyed(c) && Score.IsCompletion(c)
    ensures UndoEntry(uid, c, nowMs).Some?
    ensures var u := UndoEntry(uid, c, nowMs).value;
      var k := EntryKey(c);
      var before := if k in Score.Statuses(ledger) then Score.Statuses(ledger)[k] else Score.Fresh;
      var after := Score.Statuses(ledger + [c, u])[k];
      after.completed == before.completed && after.skipped == before.skipped
  {
    var u := UndoEntry(uid, c, nowMs).value;
    UndoIsUndo(uid, c, nowMs);
    Score.KindsExclusive(c);
    Score.StatusesBounds(ledger);
    var l1 := ledger + [c];
    var l2 := ledger + [c, u];
    assert l2[..|l2| - 1] == l1 && l2[|l2| - 1] == u;
    assert l1[..|l1| - 1] == ledger && l1[|l1| - 1] == c;
  }
}
