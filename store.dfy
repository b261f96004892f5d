/**
 * The task routes of the server as operations on an in-memory tasks table:
 * a map from id to row plus the next id to assign.  Each handler validates
 * its request, answers with a status code and a JSON body, and writes the
 * table only when it answers with success.
 */
module Store {
  import opened Common

  /** SQLite stores pinned as the integer 1 or 0. */
  type Bit = b: int | 0 <= b <= 1

  function BitOf(b: bool): Bit {
    if b then 1 else 0
  }

  /**
   * A row of the tasks table.  tags holds the stored JSON array, None being
   * SQL NULL; the JSON text itself is not modelled.
   */
  datatype Row = Row(
    title: string,
    priority: Priority,
    tags: Option<seq<string>>,
    dueDate: Option<int>,
    pinned: Bit,
    comments: Option<string>,
    createdAt: int)

  /** The POST body: each field may be missing (None). */
  datatype CreateBody = CreateBody(
    title: Option<string>,
    priority: Option<string>,
    tags: Option<seq<string>>,
    dueDate: Option<int>,
    pinned: Option<bool>)

  /** The PATCH body: each field absent or present; a present dueDate or comments may be null (None). */
  datatype PatchBody = PatchBody(
    title: Field<string>,
    priority: Field<string>,
    tags: Field<seq<string>>,
    dueDate: Field<Option<int>>,
    comments: Field<Option<string>>,
    pinned: Field<bool>)

  datatype Body = OneTask(task: Task) | TaskList(tasks: seq<Task>) | Message(message: string) | Error(error: string)

  datatype Response = Response(status: nat, body: Body)

  const NotFound := Response(404, Error("Task not found"))
  const Required := "Title and priority are required"
  const InvalidPriority := "Invalid priority value"

  /** tags ? JSON.parse(tags) : [] */
  function DecodeTags(stored: Option<seq<string>>): seq<string> {
    stored.GetOr([])
  }

  /**
   * A row as the routes send it and the client reads it: every column passed
   * through, tags decoded, and the stored 0 or 1 of pinned read by truthiness.
   */
  function ToTask(id: int, row: Row): (t: Task)
    ensures t.id == id && t.priority == row.priority && t.createdAt == row.createdAt
    ensures t.title == row.title && t.dueDate == row.dueDate && t.comments == row.comments
    ensures t.tags == DecodeTags(row.tags)
    ensures t.pinned <==> row.pinned == 1
  {
    Task(id, row.title, row.priority, DecodeTags(row.tags), row.dueDate, row.pinned == 1, row.comments, row.createdAt)
  }

  /** The JavaScript falsiness of an optional string: missing or empty. */
  predicate Falsy(s: Option<string>) {
    s.None? || s.value == ""
  }

  // ---------------------------------------------------------------------------
  // POST /api/tasks

  /** The 400 message of a POST body, or None when the body is accepted. */
  function CreateError(body: CreateBody): (r: Option<string>)
    ensures r.None? <==> !Falsy(body.title) && body.priority.Some? && ParsePriority(body.priority.value).Some?
    ensures r == Some(Required) <==> Falsy(body.title) || Falsy(body.priority)
    ensures r.Some? ==> r.value == Required || r.value == InvalidPriority
  {
    if Falsy(body.title) || Falsy(body.priority) then Some(Required)
    else if ParsePriority(body.priority.value).None? then Some(InvalidPriority)
    else None
  }

  /** The row an accepted POST inserts; created_at is the current time. */
  function NewRow(body: CreateBody, now: int): (r: Row)
    requires CreateError(body).None?
    ensures Some(r.title) == body.title && Some(PriorityName(r.priority)) == body.priority
    ensures DecodeTags(r.tags) == body.tags.GetOr([])
    ensures r.pinned == 1 <==> body.pinned == Some(true)
    ensures r.dueDate == body.dueDate && r.comments.None? && r.createdAt == now
  {
    Row(body.title.value, ParsePriority(body.priority.value).value, body.tags, body.dueDate,
        BitOf(body.pinned == Some(true)), None, now)
  }

  /**
   * What a client reads back after a POST: the given title, priority and due
   * date, the given tags in their order or [] when they were omitted, pinned
   * exactly when it was sent as true, and no comments.
   */
  lemma CreatedReadBack(id: int, body: CreateBody, now: int)
    requires CreateError(body).None?
    ensures var t := ToTask(id, NewRow(body, now));
            && t.id == id && Some(t.title) == body.title && Some(PriorityName(t.priority)) == body.priority
            && t.tags == body.tags.GetOr([]) && t.dueDate == body.dueDate
            && (t.pinned <==> body.pinned == Some(true))
            && t.comments.None? && t.createdAt == now
  {
  }

  // ---------------------------------------------------------------------------
  // PATCH /api/tasks/:id

  /** The 400 message of a PATCH body: only a present priority is checked. */
  function PatchError(body: PatchBody): (r: Option<string>)
    ensures r.Some? <==> body.priority.Present? && ParsePriority(body.priority.value).None?
    ensures r.Some? ==> r.value == InvalidPriority
  {
    if body.priority.Present? && ParsePriority(body.priority.value).None? then Some(InvalidPriority) else None
  }

  /** The partial update, field by field: a present field replaces, an absent one keeps. */
  function Patched(row: Row, body: PatchBody): Row
    requires PatchError(body).None?
  {
    Row(
      if body.title.Present? then body.title.value else row.title,
      if body.priority.Present? then ParsePriority(body.priority.value).value else row.priority,
      if body.tags.Present? then Some(body.tags.value) else row.tags,
      if body.dueDate.Present? then body.dueDate.value else row.dueDate,
      if body.pinned.Present? then BitOf(body.pinned.value) else row.pinned,
      if body.comments.Present? then body.comments.value else row.comments,
      row.createdAt)
  }

  /** One "column = ?" clause of the UPDATE statement with its parameter. */
  datatype Assignment =
    | SetTitle(title: string)
    | SetPriority(priority: Priority)
    | SetTags(tags: seq<string>)
    | SetDueDate(dueDate: Option<int>)
    | SetComments(comments: Option<string>)
    | SetPinned(pinned: Bit)

  function Assign(row: Row, a: Assignment): Row {
    match a
    case SetTitle(t) => row.(title := t)
    case SetPriority(p) => row.(priority := p)
    case SetTags(t) => row.(tags := Some(t))
    case SetDueDate(d) => row.(dueDate := d)
    case SetComments(c) => row.(comments := c)
    case SetPinned(b) => row.(pinned := b)
  }

  /** UPDATE tasks SET <updates> WHERE id = ?, applied to the row. */
  function ApplyAll(row: Row, updates: seq<Assignment>): Row {
    if updates == [] then row
    else Assign(ApplyAll(row, updates[..|updates| - 1]), updates[|updates| - 1])
  }

  /** The number of fields a PATCH body can carry. */
  const PatchFields: nat := 6

  /**
   * The clause the handler pushes for field f of the body, in the order it
   * checks them (title, priority, tags, dueDate, comments, pinned): one
   * clause when the field is present, none when it is absent.
   */
  function Clause(body: PatchBody, f: nat): (c: seq<Assignment>)
    requires PatchError(body).None? && f < PatchFields
    ensures |c| <= 1
  {
    if f == 0 then (if body.title.Present? then [SetTitle(body.title.value)] else [])
    else if f == 1 then (if body.priority.Present? then [SetPriority(ParsePriority(body.priority.value).value)] else [])
    else if f == 2 then (if body.tags.Present? then [SetTags(body.tags.value)] else [])
    else if f == 3 then (if body.dueDate.Present? then [SetDueDate(body.dueDate.value)] else [])
    else if f == 4 then (if body.comments.Present? then [SetComments(body.comments.value)] else [])
    else (if body.pinned.Present? then [SetPinned(BitOf(body.pinned.value))] else [])
  }

  /** The clauses pushed for the first n fields. */
  function Clauses(body: PatchBody, n: nat): seq<Assignment>
    requires PatchError(body).None? && n <= PatchFields
  {
    if n == 0 then [] else Clauses(body, n - 1) + Clause(body, n - 1)
  }

  /** The list of UPDATE clauses of a valid PATCH body. */
  function UpdatesOf(body: PatchBody): seq<Assignment>
    requires PatchError(body).None?
  {
    Clauses(body, PatchFields)
  }

  /** The row with only the first n fields of the body applied. */
  ghost function PatchedUpTo(row: Row, body: PatchBody, n: nat): Row
    requires PatchError(body).None?
  {
    Row(
      if n > 0 && body.title.Present? then body.title.value else row.title,
      if n > 1 && body.priority.Present? then ParsePriority(body.priority.value).value else row.priority,
      if n > 2 && body.tags.Present? then Some(body.tags.value) else row.tags,
      if n > 3 && body.dueDate.Present? then body.dueDate.value else row.dueDate,
      if n > 5 && body.pinned.Present? then BitOf(body.pinned.value) else row.pinned,
      if n > 4 && body.comments.Present? then body.comments.value else row.comments,
      row.createdAt)
  }

  lemma {:induction false} ApplyAllAppend(row: Row, a: seq<Assignment>, b: seq<Assignment>)
    ensures ApplyAll(row, a + b) == ApplyAll(ApplyAll(row, a), b)
    decreases |b|
  {
    if b == [] {
      assert a + b == a;
    } else {
      var n := |b| - 1;
      assert (a + b)[..|a + b| - 1] == a + b[..n];
      ApplyAllAppend(row, a, b[..n]);
    }
  }

  lemma ApplyOne(row: Row, a: Assignment)
    ensures ApplyAll(row, [a]) == Assign(row, a)
  {
    assert [a][..0] == [];
  }

  /** The clause of field f applies exactly that field of the body. */
  lemma ClauseStep(row: Row, body: PatchBody, f: nat)
    requires PatchError(body).None? && f < PatchFields
    ensures ApplyAll(PatchedUpTo(row, body, f), Clause(body, f)) == PatchedUpTo(row, body, f + 1)
  {
    var before := PatchedUpTo(row, body, f);
    var c := Clause(body, f);
    if c != [] {
      assert c == [c[0]];
      ApplyOne(before, c[0]);
    }
  }

  lemma {:induction false} ClausesApplyFields(row: Row, body: PatchBody, n: nat)
    requires PatchError(body).None? && n <= PatchFields
    ensures ApplyAll(row, Clauses(body, n)) == PatchedUpTo(row, body, n)
  {
    if n > 0 {
      ClausesApplyFields(row, body, n - 1);
      ApplyAllAppend(row, Clauses(body, n - 1), Clause(body, n - 1));
      ClauseStep(row, body, n - 1);
    }
  }

  /**
   * The dynamically built UPDATE statement performs exactly the partial
   * update: running the pushed clauses on the row gives Patched.
   */
  lemma PatchStatementIsPartialUpdate(row: Row, body: PatchBody)
    requires PatchError(body).None?
    ensures ApplyAll(row, UpdatesOf(body)) == Patched(row, body)
  {
    ClausesApplyFields(row, body, PatchFields);
  }

  /** The UPDATE runs only when the body carries at least one field. */
  lemma {:induction false} NoClausesIffEmptyBody(body: PatchBody)
    requires PatchError(body).None?
    ensures UpdatesOf(body) == [] <==>
              body.title.Absent? && body.priority.Absent? && body.tags.Absent?
              && body.dueDate.Absent? && body.comments.Absent? && body.pinned.Absent?
  {
    assert Clauses(body, 1) == Clause(body, 0);
    assert Clauses(body, 3) == Clause(body, 0) + Clause(body, 1) + Clause(body, 2);
    assert Clauses(body, 5) == Clauses(body, 3) + Clause(body, 3) + Clause(body, 4);
    assert UpdatesOf(body) == Clause(body, 0) + Clause(body, 1) + Clause(body, 2)
                              + Clause(body, 3) + Clause(body, 4) + Clause(body, 5);
  }

  /**
   * What a client reads back after a PATCH: every field present in the body
   * has its new value, every absent field its old one; id and creation time
   * never change.
   */
  lemma PatchReadBack(id: int, row: Row, body: PatchBody)
    requires PatchError(body).None?
    ensures var before := ToTask(id, row);
            var after := ToTask(id, Patched(row, body));
            && after.id == before.id && after.createdAt == before.createdAt
            && after.title == (if body.title.Present? then body.title.value else before.title)
            && Some(PriorityName(after.priority))
               == (if body.priority.Present? then Some(body.priority.value) else Some(PriorityName(before.priority)))
            && after.tags == (if body.tags.Present? then body.tags.value else before.tags)
            && after.dueDate == (if body.dueDate.Present? then body.dueDate.value else before.dueDate)
            && after.comments == (if body.comments.Present? then body.comments.value else before.comments)
            && after.pinned == (if body.pinned.Present? then body.pinned.value else before.pinned)
  {
  }

  /** Sending the same PATCH twice has the effect of sending it once. */
  lemma PatchIdempotent(row: Row, body: PatchBody)
    requires PatchError(body).None?
    ensures Patched(Patched(row, body), body) == Patched(row, body)
  {
  }

  /**
   * The handler's walk over the body's fields: pushes one clause per present
   * field, stopping with the 400 message at an invalid priority.
   */
  method BuildUpdates(body: PatchBody) returns (updates: seq<Assignment>, error: Option<string>)
    ensures error == PatchError(body)
    ensures error.None? ==> updates == UpdatesOf(body)
  {
    updates := [];
    if body.title.Present? {
      updates := updates + [SetTitle(body.title.value)];
    }
    if body.priority.Present? {
      var priority := ParsePriority(body.priority.value);
      if priority.None? {
        return updates, Some(InvalidPriority);
      }
      updates := updates + [SetPriority(priority.value)];
    }
    error := None;
    assert Clauses(body, 1) == Clause(body, 0);
    assert updates == Clauses(body, 2);
    if body.tags.Present? {
      updates := updates + [SetTags(body.tags.value)];
    }
    assert updates == Clauses(body, 3);
    if body.dueDate.Present? {
      updates := updates + [SetDueDate(body.dueDate.value)];
    }
    assert updates == Clauses(body, 4);
    if body.comments.Present? {
      updates := updates + [SetComments(body.comments.value)];
    }
    assert updates == Clauses(body, 5);
    if body.pinned.Present? {
      updates := updates + [SetPinned(BitOf(body.pinned.value))];
    }
  }

  // ---------------------------------------------------------------------------
  // GET /api/tasks ordering: ORDER BY pinned DESC, created_at DESC

  /** a may be listed before b: pinned first, then the newer first. */
  predicate ListedBefore(a: Task, b: Task) {
    (a.pinned && !b.pinned) || (a.pinned == b.pinned && a.createdAt >= b.createdAt)
  }

  predicate ListOrder(ts: seq<Task>) {
    forall i, j :: 0 <= i < j < |ts| ==> ListedBefore(ts[i], ts[j])
  }

  /** The tasks of the rows with ids below n, in ascending id order (the table scan). */
  function Scan(rows: map<int, Row>, n: int): (ts: seq<Task>)
    ensures forall k :: 0 <= k < |ts| ==> ts[k].id < n && ts[k].id in rows && ts[k] == ToTask(ts[k].id, rows[ts[k].id])
    ensures forall i, j :: 0 <= i < j < |ts| ==> ts[i].id < ts[j].id
    decreases n
  {
    if n <= 0 then []
    else
      var rest := Scan(rows, n - 1);
      var ts := rest + (if n - 1 in rows then [ToTask(n - 1, rows[n - 1])] else []);
      assert forall k :: 0 <= k < |rest| ==> ts[k] == rest[k];
      ts
  }

  function InsertListed(t: Task, s: seq<Task>): (r: seq<Task>)
    ensures multiset(r) == multiset(s) + multiset{t}
  {
    if s == [] then [t]
    else if ListedBefore(t, s[0]) then [t] + s
    else
      assert s == [s[0]] + s[1..];
      [s[0]] + InsertListed(t, s[1..])
  }

  function SortListed(s: seq<Task>): (r: seq<Task>)
    ensures multiset(r) == multiset(s)
  {
    if s == [] then []
    else
      assert s == [s[0]] + s[1..];
      InsertListed(s[0], SortListed(s[1..]))
  }

  /** The scan meets every stored id in [0, n). */
  lemma {:induction false} ScanComplete(rows: map<int, Row>, n: int, id: int)
    requires id in rows && 0 <= id < n
    ensures exists k :: 0 <= k < |Scan(rows, n)| && Scan(rows, n)[k].id == id
    decreases n
  {
    var ts := Scan(rows, n);
    var rest := Scan(rows, n - 1);
    if id == n - 1 {
      assert ts[|ts| - 1].id == id;
    } else {
      ScanComplete(rows, n - 1, id);
      var k :| 0 <= k < |rest| && rest[k].id == id;
      assert ts[k] == rest[k];
    }
  }

  lemma ConsListed(t: Task, s: seq<Task>)
    requires ListOrder(s)
    requires s == [] || ListedBefore(t, s[0])
    ensures ListOrder([t] + s)
  {
    var r := [t] + s;
    forall i, j | 0 <= i < j < |r|
      ensures ListedBefore(r[i], r[j])
    {
      if i == 0 {
        assert r[j] == s[j - 1];
        if j > 1 {
          assert ListedBefore(s[0], s[j - 1]);
        }
      } else {
        assert r[i] == s[i - 1] && r[j] == s[j - 1];
      }
    }
  }

  lemma {:induction false} InsertListedOrdered(t: Task, s: seq<Task>)
    requires ListOrder(s)
    ensures ListOrder(InsertListed(t, s))
  {
    if s == [] {
    } else if ListedBefore(t, s[0]) {
      ConsListed(t, s);
    } else {
      var rest := InsertListed(t, s[1..]);
      assert ListOrder(s[1..]);
      InsertListedOrdered(t, s[1..]);
      assert InsertListed(t, s) == [s[0]] + rest;
      if rest[0] != t {
        assert rest[0] in multiset(rest);
        assert rest[0] in multiset(s[1..]);
        var m :| 0 <= m < |s[1..]| && s[1..][m] == rest[0];
        assert ListedBefore(s[0], s[m + 1]);
      }
      ConsListed(s[0], rest);
    }
  }

  lemma {:induction false} SortListedOrdered(s: seq<Task>)
    ensures ListOrder(SortListed(s))
  {
    if s != [] {
      SortListedOrdered(s[1..]);
      InsertListedOrdered(s[0], SortListed(s[1..]));
    }
  }

  /** A sequence without repeated elements keeps that property under any permutation. */
  lemma {:induction false} DistinctPermutation(s: seq<Task>, r: seq<Task>)
    requires multiset(s) == multiset(r)
    requires forall i, j :: 0 <= i < j < |s| ==> s[i] != s[j]
    ensures forall i, j :: 0 <= i < j < |r| ==> r[i] != r[j]
  {
    forall i, j | 0 <= i < j < |r|
      ensures r[i] != r[j]
    {
      if r[i] == r[j] {
        var x := r[i];
        assert r == r[..i] + [x] + r[i + 1..j] + [x] + r[j + 1..];
        assert multiset(r)[x] >= 2;
        AtMostOnce(s, x);
        assert false;
      }
    }
  }

  lemma {:induction false} AtMostOnce(s: seq<Task>, x: Task)
    requires forall i, j :: 0 <= i < j < |s| ==> s[i] != s[j]
    ensures multiset(s)[x] <= 1
  {
    if s != [] {
      AtMostOnce(s[1..], x);
      assert s == [s[0]] + s[1..];
      if s[0] == x {
        assert x !in s[1..];
      }
    }
  }

  /** The body of GET /api/tasks for this table. */
  function Listing(rows: map<int, Row>, nextId: int): seq<Task> {
    SortListed(Scan(rows, nextId))
  }

  /** Every listed task is a stored row, sent as stored. */
  lemma ListingSound(rows: map<int, Row>, nextId: int)
    ensures var ts := Listing(rows, nextId);
            forall k :: 0 <= k < |ts| ==> ts[k].id in rows && ts[k] == ToTask(ts[k].id, rows[ts[k].id])
  {
    var scan := Scan(rows, nextId);
    var ts := Listing(rows, nextId);
    forall k | 0 <= k < |ts|
      ensures ts[k].id in rows && ts[k] == ToTask(ts[k].id, rows[ts[k].id])
    {
      assert ts[k] in multiset(scan);
    }
  }

  /** Every stored row is listed. */
  lemma ListingComplete(rows: map<int, Row>, nextId: int)
    requires forall id :: id in rows ==> 0 <= id < nextId
    ensures var ts := Listing(rows, nextId);
            forall id :: id in rows ==> exists k :: 0 <= k < |ts| && ts[k].id == id
  {
    var scan := Scan(rows, nextId);
    var ts := Listing(rows, nextId);
    forall id | id in rows
      ensures exists k :: 0 <= k < |ts| && ts[k].id == id
    {
      ScanComplete(rows, nextId, id);
      var m :| 0 <= m < |scan| && scan[m].id == id;
      assert scan[m] in multiset(ts);
    }
  }

  /** No row is listed twice. */
  lemma ListingDistinct(rows: map<int, Row>, nextId: int)
    ensures var ts := Listing(rows, nextId);
            forall i, j :: 0 <= i < j < |ts| ==> ts[i].id != ts[j].id
  {
    var scan := Scan(rows, nextId);
    var ts := Listing(rows, nextId);
    DistinctPermutation(scan, ts);
    ListingSound(rows, nextId);
  }

  /**
   * GET /api/tasks lists every row exactly once, as it is stored, pinned
   * rows first and newer rows before older ones within each group.
   */
  lemma ListingSpec(rows: map<int, Row>, nextId: int)
    requires forall id :: id in rows ==> 0 <= id < nextId
    ensures var ts := Listing(rows, nextId);
            && (forall k :: 0 <= k < |ts| ==> ts[k].id in rows && ts[k] == ToTask(ts[k].id, rows[ts[k].id]))
            && (forall id :: id in rows ==> exists k :: 0 <= k < |ts| && ts[k].id == id)
            && (forall i, j :: 0 <= i < j < |ts| ==> ts[i].id != ts[j].id)
            && ListOrder(ts)
  {
    ListingSound(rows, nextId);
    ListingComplete(rows, nextId);
    ListingDistinct(rows, nextId);
    SortListedOrdered(Scan(rows, nextId));
  }

  // ---------------------------------------------------------------------------
  // The table and its routes

  class TaskStore {
    var rows: map<int, Row>
    var nextId: int

    /** Every stored id was assigned before nextId, and ids start at 1. */
    ghost predicate Valid()
      reads this
    {
      nextId >= 1 && forall id :: id in rows ==> 1 <= id < nextId
    }

    constructor ()
      ensures Valid() && rows == map[] && nextId == 1
    {
      rows := map[];
      nextId := 1;
    }

    /** GET /api/tasks */
    method List() returns (res: Response)
      requires Valid()
      ensures res.status == 200 && res.body.TaskList?
      ensures var ts := res.body.tasks;
              && (forall k :: 0 <= k < |ts| ==> ts[k].id in rows && ts[k] == ToTask(ts[k].id, rows[ts[k].id]))
              && (forall id :: id in rows ==> exists k :: 0 <= k < |ts| && ts[k].id == id)
              && (forall i, j :: 0 <= i < j < |ts| ==> ts[i].id != ts[j].id)
              && (forall i, j :: 0 <= i < j < |ts| && ts[j].pinned ==> ts[i].pinned)
              && (forall i, j :: 0 <= i < j < |ts| && ts[i].pinned == ts[j].pinned ==> ts[i].createdAt >= ts[j].createdAt)
    {
      var ts := Listing(rows, nextId);
      ListingSpec(rows, nextId);
      res := Response(200, TaskList(ts));
    }

    /** GET /api/tasks/:id */
    method Get(id: int) returns (res: Response)
      ensures id !in rows ==> res == NotFound
      ensures id in rows ==> res.status == 200 && res.body == OneTask(ToTask(id, rows[id]))
    {
      if id !in rows {
        return NotFound;
      }
      res := Response(200, OneTask(ToTask(id, rows[id])));
    }

    /** POST /api/tasks, at time now. */
    method Create(body: CreateBody, now: int) returns (res: Response)
      requires Valid()
      modifies this
      ensures Valid()
      ensures CreateError(body).Some? ==>
                res == Response(400, Error(CreateError(body).value)) && rows == old(rows) && nextId == old(nextId)
      ensures CreateError(body).None? ==>
                && old(nextId) !in old(rows)
                && rows == old(rows)[old(nextId) := NewRow(body, now)]
                && nextId == old(nextId) + 1
                && res == Response(201, OneTask(ToTask(old(nextId), NewRow(body, now))))
    {
      if Falsy(body.title) || Falsy(body.priority) {
        return Response(400, Error(Required));
      }
      var priority := ParsePriority(body.priority.value);
      if priority.None? {
        return Response(400, Error(InvalidPriority));
      }
      var id := nextId;
      var row := Row(body.title.value, priority.value, body.tags, body.dueDate,
                     BitOf(body.pinned == Some(true)), None, now);
      rows := rows[id := row];
      nextId := nextId + 1;
      res := Response(201, OneTask(ToTask(id, rows[id])));
    }

    /** PATCH /api/tasks/:id */
    method Patch(id: int, body: PatchBody) returns (res: Response)
      requires Valid()
      modifies this
      ensures Valid() && nextId == old(nextId)
      ensures id !in old(rows) ==> res == NotFound && rows == old(rows)
      ensures id in old(rows) && PatchError(body).Some? ==>
                res == Response(400, Error(InvalidPriority)) && rows == old(rows)
      ensures id in old(rows) && PatchError(body).None? ==>
                && rows == old(rows)[id := Patched(old(rows)[id], body)]
                && res == Response(200, OneTask(ToTask(id, rows[id])))
    {
      if id !in rows {
        return NotFound;
      }
      var updates, error := BuildUpdates(body);
      if error.Some? {
        return Response(400, Error(error.value));
      }
      PatchStatementIsPartialUpdate(rows[id], body);
      if |updates| > 0 {
        rows := rows[id := ApplyAll(rows[id], updates)];
      }
      res := Response(200, OneTask(ToTask(id, rows[id])));
    }

    /** DELETE /api/tasks/:id */
    method Delete(id: int) returns (res: Response)
      requires Valid()
      modifies this
      ensures Valid() && nextId == old(nextId)
      ensures id !in old(rows) ==> res == NotFound && rows == old(rows)
      ensures id in old(rows) ==>
                && res == Response(200, Message("Task deleted successfully"))
                && rows.Keys == old(rows).Keys - {id}
                && forall other :: other in rows ==> rows[other] == old(rows)[other]
    {
      if id !in rows {
        return NotFound;
      }
      rows := rows - {id};
      res := Response(200, Message("Task deleted successfully"));
    }
  }
}
