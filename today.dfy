/** The Today view's template selection: every active template. */
module Today {
  import opened Types
  import opened Seqs

  /** `getTodayChores`: the active templates, in their original order. */
  function GetTodayChores(templates: seq<ChoreTemplate>): (r: seq<ChoreTemplate>)
    ensures forall i :: 0 <= i < |r| ==> r[i].active && r[i] in templates
    ensures forall i :: 0 <= i < |templates| && templates[i].active ==> templates[i] in r
    ensures IsSubsequence(r, templates)
    ensures forall c :: multiset(r)[c] == if c.active then multiset(templates)[c] else 0
  {
    FilterMultiset(templates, (c: ChoreTemplate) => c.active);
    Filter(templates, (c: ChoreTemplate) => c.active)
  }

  /** Selecting twice selects nothing more or less than selecting once. */
  lemma GetTodayChoresIdempotent(templates: seq<ChoreTemplate>)
    ensures GetTodayChores(GetTodayChores(templates)) == GetTodayChores(templates)
  {
    FilterIdempotent(templates, (c: ChoreTemplate) => c.active);
  }
}
