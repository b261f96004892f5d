/** Types shared by the client (board, ordering, tags) and the server (task store). */
module Common {

  datatype Option<T> = None | Some(value: T) {
    function GetOr(default: T): T {
      match this
      case Some(v) => v
      case None => default
    }
  }

  /** A field of a JSON request body: absent (undefined) or present with a value. */
  datatype Field<T> = Absent | Present(value: T)

  /** The three columns of the board; a task's priority names its column. */
  datatype Priority = Urgent | Later | Someday

  /** The wire spelling of a priority, as the server validates it and the client names columns. */
  function PriorityName(p: Priority): string {
    match p
    case Urgent => "urgent"
    case Later => "later"
    case Someday => "someday"
  }

  /** Membership test in the list of valid priorities ["urgent", "later", "someday"]. */
  function ParsePriority(s: string): (r: Option<Priority>)
    ensures r.None? <==> s != "urgent" && s != "later" && s != "someday"
    ensures r.Some? ==> s == PriorityName(r.value)
  {
    if s == "urgent" then Some(Urgent)
    else if s == "later" then Some(Later)
    else if s == "someday" then Some(Someday)
    else None
  }

  lemma ParsePriorityName(p: Priority)
    ensures ParsePriority(PriorityName(p)) == Some(p)
  {
  }

  /** One value per column, e.g. a column's cards or its counter. */
  datatype PerPriority<T> = PerPriority(urgent: T, later: T, someday: T) {
    function Get(p: Priority): T {
      match p
      case Urgent => urgent
      case Later => later
      case Someday => someday
    }

    function Set(p: Priority, v: T): (r: PerPriority<T>)
      ensures r.Get(p) == v
      ensures forall q :: q != p ==> r.Get(q) == Get(q)
    {
      match p
      case Urgent => this.(urgent := v)
      case Later => this.(later := v)
      case Someday => this.(someday := v)
    }
  }

  /** The number of entries of each column: what its counter shows. */
  function Sizes<T>(cols: PerPriority<seq<T>>): (r: PerPriority<nat>)
    ensures forall p :: r.Get(p) == |cols.Get(p)|
  {
    PerPriority(|cols.urgent|, |cols.later|, |cols.someday|)
  }

  /**
   * A task as the client reads it: tags already decoded to a list, due date
   * as a calendar day number, pinned as the truth value of the 0 or 1 the
   * server sends.
   */
  datatype Task = Task(
    id: int,
    title: string,
    priority: Priority,
    tags: seq<string>,
    dueDate: Option<int>,
    pinned: bool,
    comments: Option<string>,
    createdAt: int)
}
