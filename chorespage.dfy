/** The chores page's derivations: the templates grouped by frequency, the
    difficulty stars and capitalisation it displays, and the record the
    create dialog saves. */
module ChoresPage {
  import opened Text
  import opened Types
  import opened Seqs
  import Schedule
  import Assign

  /** The four lists of `grouped`. */
  datatype Groups = Groups(
    daily: seq<ChoreTemplate>,
    weekly: seq<ChoreTemplate>,
    monthly: seq<ChoreTemplate>,
    seasonal: seq<ChoreTemplate>)
  {
    function Get(f: Frequency): seq<ChoreTemplate> {
      match f
      case Daily => daily
      case Weekly => weekly
      case Monthly => monthly
      case Seasonal => seasonal
    }
  }

  const NoGroups := Groups([], [], [], [])

  /** The names of the properties every JavaScript object literal inherits
      from `Object.prototype`. */
  const PrototypeMembers: set<string> := {
    "constructor", "hasOwnProperty", "isPrototypeOf", "propertyIsEnumerable",
    "toLocaleString", "toString", "valueOf", "__proto__",
    "__defineGetter__", "__defineSetter__", "__lookupGetter__", "__lookupSetter__"}

  /** The list of frequency `f`: the templates stored with exactly that
      frequency, in their original order. */
  function Group(items: seq<ChoreTemplate>, f: Frequency): seq<ChoreTemplate> {
    if items == [] then []
    else
      var c := items[|items| - 1];
      Group(items[..|items| - 1], f) + (if c.frequency == f.Name() then [c] else [])
  }

  /** It is `items.filter(c => c.frequency === f)`. */
  lemma {:induction false} GroupIsFilter(items: seq<ChoreTemplate>, f: Frequency)
    ensures Group(items, f) == Filter(items, (c: ChoreTemplate) => c.frequency == f.Name())
  {
    if items != [] {
      var init, c := items[..|items| - 1], items[|items| - 1];
      assert items == init + [c];
      GroupIsFilter(init, f);
      FilterAppend(init, [c], (c: ChoreTemplate) => c.frequency == f.Name());
      assert [c][1..] == [];
    }
  }

  /** One `map[c.frequency]?.push(c)` as written: an own list takes the
      template, an absent property skips it, and an inherited member (a
      function or the prototype, neither of which has `push`) throws,
      written `None`. */
  function PushAsWritten(g: Groups, c: ChoreTemplate): Option<Groups> {
    if c.frequency == "daily" then Some(g.(daily := g.daily + [c]))
    else if c.frequency == "weekly" then Some(g.(weekly := g.weekly + [c]))
    else if c.frequency == "monthly" then Some(g.(monthly := g.monthly + [c]))
    else if c.frequency == "seasonal" then Some(g.(seasonal := g.seasonal + [c]))
    else if c.frequency in PrototypeMembers then None
    else Some(g)
  }

  /** The loop of `grouped` as written. */
  function GroupedAsWritten(items: seq<ChoreTemplate>): Option<Groups> {
    if items == [] then Some(NoGroups)
    else match GroupedAsWritten(items[..|items| - 1])
      case None => None
      case Some(g) => PushAsWritten(g, items[|items| - 1])
  }

  /** A template whose stored frequency is "toString" makes the loop throw
      instead of leaving the template out. */
  lemma GroupedAsWrittenThrows()
    ensures var c := ChoreTemplate("t1", "Dishes", 10, "toString", "anyone", None, true, 0, 0);
      GroupedAsWritten([c]) == None
  {
    var c := ChoreTemplate("t1", "Dishes", 10, "toString", "anyone", None, true, 0, 0);
    assert [c][..0] == [];
  }

  /** As written, `grouped` throws exactly when some stored frequency names
      an inherited member. */
  lemma {:induction false} GroupedAsWrittenThrowsIff(items: seq<ChoreTemplate>)
    ensures GroupedAsWritten(items).None? <==> exists c :: c in items && c.frequency in PrototypeMembers
  {
    if items != [] {
      var init, c := items[..|items| - 1], items[|items| - 1];
      assert items == init + [c];
      GroupedAsWrittenThrowsIff(init);
      KnownNotInherited(c.frequency);
    }
  }

  /** When it does not throw, it agrees with the intended grouping. */
  lemma {:induction false} GroupedAsWrittenAgrees(items: seq<ChoreTemplate>)
    requires GroupedAsWritten(items).Some?
    ensures forall f: Frequency :: GroupedAsWritten(items).value.Get(f) == Group(items, f)
  {
    if items != [] {
      var init, c := items[..|items| - 1], items[|items| - 1];
      assert items == init + [c];
      GroupedAsWrittenAgrees(init);
      forall f: Frequency {
        GroupSnoc(init, c, f);
      }
    }
  }

  /** The canonical names are own properties, not inherited ones. */
  lemma KnownNotInherited(s: string)
    ensures s == "daily" || s == "weekly" || s == "monthly" || s == "seasonal" ==> s !in PrototypeMembers
  {
  }

  lemma GroupSnoc(items: seq<ChoreTemplate>, c: ChoreTemplate, f: Frequency)
    ensures Group(items + [c], f) == Group(items, f) + (if c.frequency == f.Name() then [c] else [])
  {
    assert (items + [c])[..|items|] == items;
  }

  /** `grouped` as evidently intended: a template with any other frequency
      is left out of every list. */
  method Grouped(items: seq<ChoreTemplate>) returns (g: Groups)
    ensures forall f: Frequency :: g.Get(f) == Group(items, f)
  {
    g := NoGroups;
    for i := 0 to |items|
      invariant forall f: Frequency :: g.Get(f) == Group(items[..i], f)
    {
      var c := items[i];
      assert items[..i + 1] == items[..i] + [c];
      forall f: Frequency {
        GroupSnoc(items[..i], c, f);
      }
      if c.frequency == "daily" {
        g := g.(daily := g.daily + [c]);
      } else if c.frequency == "weekly" {
        g := g.(weekly := g.weekly + [c]);
      } else if c.frequency == "monthly" {
        g := g.(monthly := g.monthly + [c]);
      } else if c.frequency == "seasonal" {
        g := g.(seasonal := g.seasonal + [c]);
      }
    }
    assert items[..|items|] == items;
  }

  /** A template of a known frequency is in its own list and in no other;
      one of any other frequency is in none. Each list keeps the original
      order. */
  lemma GroupMembership(items: seq<ChoreTemplate>, c: ChoreTemplate)
    requires c in items
    ensures forall f: Frequency :: c in Group(items, f) <==> c.frequency == f.Name()
    ensures forall f: Frequency :: IsSubsequence(Group(items, f), items)
  {
    forall f: Frequency
      ensures c in Group(items, f) <==> c.frequency == f.Name()
      ensures IsSubsequence(Group(items, f), items)
    {
      GroupIsFilter(items, f);
      var i :| 0 <= i < |items| && items[i] == c;
    }
  }

  predicate KnownFrequency(c: ChoreTemplate) {
    c.frequency == "daily" || c.frequency == "weekly" || c.frequency == "monthly" || c.frequency == "seasonal"
  }

  /** The four lists together hold exactly the templates of a known
      frequency: nothing is duplicated and only the unknown ones are
      dropped. */
  lemma {:induction false} GroupSizes(items: seq<ChoreTemplate>)
    ensures |Group(items, Daily)| + |Group(items, Weekly)| + |Group(items, Monthly)| + |Group(items, Seasonal)|
      == Count(items, KnownFrequency)
  {
    if items != [] {
      var init, c := items[..|items| - 1], items[|items| - 1];
      assert items == init + [c];
      GroupSizes(init);
      GroupSnoc(init, c, Daily);
      GroupSnoc(init, c, Weekly);
      GroupSnoc(init, c, Monthly);
      GroupSnoc(init, c, Seasonal);
    }
  }

  /** `difficultyStars`: one star per ten points, from one to five. */
  function DifficultyStars(points: int): (s: string)
    ensures 1 <= |s| <= 5 && forall i :: 0 <= i < |s| ==> s[i] == '⭐'
    ensures |s| == 1 <==> points <= 10
    ensures |s| == 5 <==> points > 40
    ensures 1 < |s| < 5 ==> (|s| - 1) * 10 < points <= |s| * 10
  {
    if points <= 10 then "⭐"
    else if points <= 20 then "⭐⭐"
    else if points <= 30 then "⭐⭐⭐"
    else if points <= 40 then "⭐⭐⭐⭐"
    else "⭐⭐⭐⭐⭐"
  }

  /** More points never show fewer stars. */
  lemma StarsMonotone(p: int, q: int)
    requires p <= q
    ensures |DifficultyStars(p)| <= |DifficultyStars(q)|
  {
  }

  /** `capitalize`: the first character upper-cased, the rest unchanged. */
  function Capitalize(s: string): (r: string)
    ensures |r| == |s|
    ensures s != [] ==> r[0] == UpperAscii(s[0]) && r[1..] == s[1..]
  {
    if s == [] then [] else [UpperAscii(s[0])] + s[1..]
  }

  /** Capitalising twice is capitalising once. */
  lemma CapitalizeIdempotent(s: string)
    ensures Capitalize(Capitalize(s)) == Capitalize(s)
  {
    if s != [] {
      var r := Capitalize(s);
      assert UpperAscii(r[0]) == r[0];
      assert Capitalize(r) == [r[0]] + r[1..];
    }
  }

  /** The fields `createAndSave` writes (the storage layer adds the id and
      the timestamps; the empty `schedule` is not modelled). */
  datatype NewTemplate = NewTemplate(
    title: string,
    points: int,
    frequency: string,
    assigneeMode: string,
    active: bool,
    fixedAssigneeUid: Option<string>)

  /** The record the create dialog saves, or `None` when the trimmed title
      is empty and nothing is saved. */
  function CreateRecord(icon: string, title: string, points: int, frequency: Frequency,
                        mode: AssigneeMode, fixedUid: string, uid: string): (r: Option<NewTemplate>)
    ensures r.None? <==> forall i :: 0 <= i < |title| ==> IsWhiteSpace(title[i])
    ensures r.Some? ==>
      && r.value.title == icon + " " + Trim(title)
      && r.value.points == points && r.value.active
      && r.value.frequency == frequency.Name() && r.value.assigneeMode == mode.Name()
      && (r.value.fixedAssigneeUid.Some? <==> mode == Fixed)
      && (mode == Fixed ==> r.value.fixedAssigneeUid == Some(if fixedUid != "" then fixedUid else uid))
  {
    var t := Trim(title);
    if t == "" then None
    else Some(NewTemplate(icon + " " + t, points, frequency.Name(), mode.Name(), true,
      if mode == Fixed then Some(if fixedUid != "" then fixedUid else uid) else None))
  }

  /** The template the storage layer returns for the saved record. */
  function Stored(r: NewTemplate, id: string, createdAt: int, updatedAt: int): ChoreTemplate {
    ChoreTemplate(id, r.title, r.points, r.frequency, r.assigneeMode, r.fixedAssigneeUid, r.active, createdAt, updatedAt)
  }

  /** A saved template is read back with the chosen frequency by the
      scheduler and by the grouping, and is active. */
  lemma CreatedTemplateSchedules(icon: string, title: string, points: int, frequency: Frequency,
                                 mode: AssigneeMode, fixedUid: string, uid: string,
                                 id: string, createdAt: int, updatedAt: int)
    requires CreateRecord(icon, title, points, frequency, mode, fixedUid, uid).Some?
    ensures var t := Stored(CreateRecord(icon, title, points, frequency, mode, fixedUid, uid).value, id, createdAt, updatedAt);
      && Schedule.NormalizeFreq(t.frequency) == frequency
      && Group([t], frequency) == [t]
      && t.active
  {
    var r := CreateRecord(icon, title, points, frequency, mode, fixedUid, uid).value;
    var t := Stored(r, id, createdAt, updatedAt);
    assert t.frequency == frequency.Name();
    Schedule.NormalizeFreqCaseInsensitive(t.frequency, frequency);
    assert [t][..0] == [];
  }

  /** A saved template resolves its assignee as chosen in the dialog:
      nobody, the fixed member (else the creator), or a household member in
      rotation. */
  lemma CreatedTemplateAssignee(icon: string, title: string, points: int, frequency: Frequency,
                                mode: AssigneeMode, fixedUid: string, uid: string,
                                id: string, createdAt: int, updatedAt: int,
                                members: seq<Member>, ledger: seq<LedgerEntry>, dayKey: string)
    requires CreateRecord(icon, title, points, frequency, mode, fixedUid, uid).Some?
    ensures var t := Stored(CreateRecord(icon, title, points, frequency, mode, fixedUid, uid).value, id, createdAt, updatedAt);
      var a := Assign.ResolveAssigneeUid(t, members, ledger, dayKey);
      && (mode == Anyone ==> a == None)
      && (mode == Fixed ==> a == Some(if fixedUid != "" then fixedUid else uid))
      && (mode == Rotating && members != [] ==> exists j :: 0 <= j < |members| && a == Some(members[j].uid))
  {
    var r := CreateRecord(icon, title, points, frequency, mode, fixedUid, uid).value;
    var t := Stored(r, id, createdAt, updatedAt);
    var a := Assign.ResolveAssigneeUid(t, members, ledger, dayKey);
    assert t.assigneeMode == mode.Name();
    if mode == Rotating && members != [] {
      var j :| 0 <= j < |members| && members[j].uid == a.value;
      assert a == Some(members[j].uid);
    }
  }
}
