/** Who should do a chore: nobody in particular, the template's fixed
    assignee, or, in rotation, the household member after the one who
    last completed the template. */
module Assign {
  import opened Text
  import opened Types
  import opened Seqs

  /** `ledger.find(e => e.templateId === template.id && e.delta > 0)`:
      the index of the first completion of the template, or -1. */
  function FirstCompletion(ledger: seq<LedgerEntry>, templateId: string): (i: int)
    ensures -1 <= i < |ledger|
    ensures i >= 0 ==> ledger[i].templateId == Some(templateId) && ledger[i].delta > 0
    ensures forall j :: 0 <= j < (if i == -1 then |ledger| else i) ==>
      !(ledger[j].templateId == Some(templateId) && ledger[j].delta > 0)
  {
    if ledger == [] then -1
    else if ledger[0].templateId == Some(templateId) && ledger[0].delta > 0 then 0
    else
      var r := FirstCompletion(ledger[1..], templateId);
      if r == -1 then -1 else r + 1
  }

  /** `members.findIndex(m => m.uid === uid)` */
  function MemberIndex(members: seq<Member>, uid: string): (i: int)
    ensures -1 <= i < |members|
    ensures i >= 0 ==> members[i].uid == uid
    ensures forall j :: 0 <= j < (if i == -1 then |members| else i) ==> members[j].uid != uid
  {
    if members == [] then -1
    else if members[0].uid == uid then 0
    else
      var r := MemberIndex(members[1..], uid);
      if r == -1 then -1 else r + 1
  }

  /** `resolveAssigneeUid`; `None` stands for `null`. */
  function ResolveAssigneeUid(t: ChoreTemplate, members: seq<Member>, ledger: seq<LedgerEntry>, dayKey: string): (r: Option<string>)
    ensures t.assigneeMode == "anyone" ==> r == None
    ensures t.assigneeMode == "fixed" ==> r == t.fixedAssigneeUid
    ensures t.assigneeMode == "rotating" && members == [] ==> r == None
    ensures t.assigneeMode == "rotating" && members != [] ==>
      r.Some? && exists j :: 0 <= j < |members| && members[j].uid == r.value
    ensures t.assigneeMode != "anyone" && t.assigneeMode != "fixed" && t.assigneeMode != "rotating" ==> r == None
  {
    if t.assigneeMode == "anyone" then None
    else if t.assigneeMode == "fixed" then t.fixedAssigneeUid
    else if t.assigneeMode == "rotating" then
      var last := FirstCompletion(ledger, t.id);
      if |members| == 0 then None
      else if last == -1 || ledger[last].actorUid == "" then Some(members[0].uid)
      else
        var idx := MemberIndex(members, ledger[last].actorUid);
        if idx == -1 then Some(members[0].uid)
        else Some(members[(idx + 1) % |members|].uid)
    else None
  }

  /** With nobody to follow (no completion of the template, an empty actor,
      or an actor who is not a member), rotation starts at the first
      member. */
  lemma RotationStartsAtFirst(t: ChoreTemplate, members: seq<Member>, ledger: seq<LedgerEntry>, dayKey: string)
    requires t.assigneeMode == "rotating" && members != []
    requires (forall e :: e in ledger ==> !(e.templateId == Some(t.id) && e.delta > 0))
      || (var i := FirstCompletion(ledger, t.id);
          i >= 0 && (ledger[i].actorUid == "" || forall m :: m in members ==> m.uid != ledger[i].actorUid))
    ensures ResolveAssigneeUid(t, members, ledger, dayKey) == Some(members[0].uid)
  {
  }

  /** Otherwise the next member in order, wrapping round at the end, is
      assigned. */
  lemma RotationAdvances(t: ChoreTemplate, members: seq<Member>, ledger: seq<LedgerEntry>, dayKey: string, i: int, idx: int)
    requires t.assigneeMode == "rotating"
    requires 0 <= i < |ledger| && ledger[i].templateId == Some(t.id) && ledger[i].delta > 0
    requires forall j :: 0 <= j < i ==> !(ledger[j].templateId == Some(t.id) && ledger[j].delta > 0)
    requires ledger[i].actorUid != ""
    requires 0 <= idx < |members| && members[idx].uid == ledger[i].actorUid
    requires forall j :: 0 <= j < idx ==> members[j].uid != ledger[i].actorUid
    ensures ResolveAssigneeUid(t, members, ledger, dayKey) == Some(members[(idx + 1) % |members|].uid)
  {
    var f := FirstCompletion(ledger, t.id);
    assert f == i;
    assert MemberIndex(members, ledger[i].actorUid) == idx;
  }

  /** The day key is not consulted. */
  lemma DayKeyIgnored(t: ChoreTemplate, members: seq<Member>, ledger: seq<LedgerEntry>, d1: string, d2: string)
    ensures ResolveAssigneeUid(t, members, ledger, d1) == ResolveAssigneeUid(t, members, ledger, d2)
  {
  }

  /** `nameForUid`: "" without a uid; the first member's name with that
      uid; else the first six characters of the uid. */
  function NameForUid(members: seq<Member>, uid: Option<string>): (r: string)
    ensures uid.None? || uid.value == "" ==> r == ""
    ensures uid.Some? && uid.value != "" ==>
      var i := MemberIndex(members, uid.value);
      (i >= 0 ==> r == members[i].name) && (i == -1 ==> r == Take(uid.value, 6))
  {
    if uid.None? || uid.value == "" then ""
    else
      var i := MemberIndex(members, uid.value);
      if i >= 0 then members[i].name else Take(uid.value, 6)
  }

  /** A member's uid resolves to that member's name when no earlier member
      shares the uid; a uid no member has shows as at most six of its
      characters. */
  lemma NameOfMember(members: seq<Member>, j: int)
    requires 0 <= j < |members| && members[j].uid != ""
    requires forall k :: 0 <= k < j ==> members[k].uid != members[j].uid
    ensures NameForUid(members, Some(members[j].uid)) == members[j].name
  {
    assert MemberIndex(members, members[j].uid) == j;
  }

  lemma NameOfStranger(members: seq<Member>, uid: string)
    requires uid != "" && forall m :: m in members ==> m.uid != uid
    ensures var r := NameForUid(members, Some(uid));
      |r| <= 6 && r == uid[..|r|] && (|uid| >= 6 ==> |r| == 6)
  {
  }
}
