/** The records the core reads: chore templates, ledger entries and
    household members, as they come out of storage. */
module Types {
  import opened Text

  datatype Frequency = Daily | Weekly | Monthly | Seasonal {
    /** The stored spelling of the frequency. */
    function Name(): string {
      match this
      case Daily => "daily"
      case Weekly => "weekly"
      case Monthly => "monthly"
      case Seasonal => "seasonal"
    }
  }

  datatype AssigneeMode = Fixed | Rotating | Anyone {
    function Name(): string {
      match this
      case Fixed => "fixed"
      case Rotating => "rotating"
      case Anyone => "anyone"
    }
  }

  /** A recurring chore. `frequency` and `assigneeMode` hold the stored
      strings, which the readers of a template interpret each in their own
      way when they are not one of the canonical names. */
  datatype ChoreTemplate = ChoreTemplate(
    id: string,
    title: string,
    points: int,
    frequency: string,
    assigneeMode: string,
    fixedAssigneeUid: Option<string>,
    active: bool,
    createdAt: int,
    updatedAt: int)

  /** One event of the points ledger. */
  datatype LedgerEntry = LedgerEntry(
    actorUid: string,
    delta: int,
    reason: string,
    createdAt: int,
    templateId: Option<string>,
    dayKey: Option<string>)

  datatype Member = Member(uid: string, name: string)

  /** A present, non-empty optional string (JavaScript truthiness). */
  predicate Present(o: Option<string>) {
    o.Some? && o.value != ""
  }

  /** The occurrence key `${templateId}__${dayKey}`. */
  function OccurrenceKey(templateId: string, dayKey: string): string {
    templateId + "__" + dayKey
  }

  /** The occurrence key of an entry that carries both ids. */
  function EntryKey(e: LedgerEntry): string
    requires Present(e.templateId) && Present(e.dayKey)
  {
    OccurrenceKey(e.templateId.value, e.dayKey.value)
  }
}
