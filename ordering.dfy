/**
 * Display order of the board (renderTasks in the client): the sort comparator,
 * the stable sort it drives, and the partition of the sorted list into the
 * three priority columns with their counters.
 */
module Ordering {
  import opened Common

  /** Lexicographic sort key: pinned first, then dated, then the day itself. */
  datatype Key = Key(unpinned: int, undated: int, day: int)

  function KeyOf(t: Task): Key {
    Key(if t.pinned then 0 else 1,
        if t.dueDate.Some? then 0 else 1,
        if t.dueDate.Some? then t.dueDate.value else 0)
  }

  predicate KeyLess(x: Key, y: Key) {
    x.unpinned < y.unpinned
    || (x.unpinned == y.unpinned && x.undated < y.undated)
    || (x.unpinned == y.unpinned && x.undated == y.undated && x.day < y.day)
  }

  /**
   * The comparator handed to Array.prototype.sort: negative when a goes
   * first, positive when b goes first, zero for a tie.  Its sign agrees
   * with the lexicographic order of the keys above, so it is a total preorder.
   */
  function Compare(a: Task, b: Task): (r: int)
    ensures r < 0 <==> KeyLess(KeyOf(a), KeyOf(b))
    ensures r > 0 <==> KeyLess(KeyOf(b), KeyOf(a))
    ensures r == 0 <==> KeyOf(a) == KeyOf(b)
  {
    if a.pinned && !b.pinned then -1
    else if !a.pinned && b.pinned then 1
    else if a.dueDate.Some? && b.dueDate.Some? then a.dueDate.value - b.dueDate.value
    else if a.dueDate.Some? && b.dueDate.None? then -1
    else if a.dueDate.None? && b.dueDate.Some? then 1
    else 0
  }

  lemma CompareTransitive(a: Task, b: Task, c: Task)
    requires Compare(a, b) <= 0 && Compare(b, c) <= 0
    ensures Compare(a, c) <= 0
  {
  }

  /** Every earlier element may precede every later one under Compare. */
  predicate Sorted(s: seq<Task>) {
    forall i, j :: 0 <= i < j < |s| ==> Compare(s[i], s[j]) <= 0
  }

  /** The display order stated field by field, without the comparator. */
  predicate DisplayOrder(s: seq<Task>) {
    && (forall i, j :: 0 <= i < j < |s| && s[j].pinned ==> s[i].pinned)
    && (forall i, j :: 0 <= i < j < |s| && s[i].pinned == s[j].pinned && s[j].dueDate.Some?
          ==> s[i].dueDate.Some?)
    && (forall i, j :: 0 <= i < j < |s| && s[i].pinned == s[j].pinned
          && s[i].dueDate.Some? && s[j].dueDate.Some?
          ==> s[i].dueDate.value <= s[j].dueDate.value)
  }

  /** Sortedness under the comparator is exactly the field-by-field display order. */
  lemma SortedIffDisplayOrder(s: seq<Task>)
    ensures Sorted(s) <==> DisplayOrder(s)
  {
    if Sorted(s) {
      forall i, j | 0 <= i < j < |s|
        ensures s[j].pinned ==> s[i].pinned
      {
        assert Compare(s[i], s[j]) <= 0;
      }
    }
  }

  /** Inserts t in front of the first element it may precede. */
  function Insert(t: Task, s: seq<Task>): (r: seq<Task>)
    ensures multiset(r) == multiset(s) + multiset{t}
  {
    if s == [] then [t]
    else if Compare(t, s[0]) <= 0 then [t] + s
    else
      assert s == [s[0]] + s[1..];
      [s[0]] + Insert(t, s[1..])
  }

  /** Stable insertion sort by Compare (the effect of tasks.sort(comparator)). */
  function Sort(s: seq<Task>): (r: seq<Task>)
    ensures multiset(r) == multiset(s)
  {
    if s == [] then []
    else
      assert s == [s[0]] + s[1..];
      Insert(s[0], Sort(s[1..]))
  }

  /** Prepending a task that may precede the head keeps a sorted list sorted. */
  lemma ConsSorted(t: Task, s: seq<Task>)
    requires Sorted(s)
    requires s == [] || Compare(t, s[0]) <= 0
    ensures Sorted([t] + s)
  {
    var r := [t] + s;
    forall i, j | 0 <= i < j < |r|
      ensures Compare(r[i], r[j]) <= 0
    {
      if i == 0 {
        assert r[j] == s[j - 1];
        if j > 1 {
          assert Compare(s[0], s[j - 1]) <= 0;
          CompareTransitive(t, s[0], s[j - 1]);
        }
      } else {
        assert r[i] == s[i - 1] && r[j] == s[j - 1];
      }
    }
  }

  lemma {:induction false} InsertSorted(t: Task, s: seq<Task>)
    requires Sorted(s)
    ensures Sorted(Insert(t, s))
  {
    if s == [] {
    } else if Compare(t, s[0]) <= 0 {
      ConsSorted(t, s);
    } else {
      var rest := Insert(t, s[1..]);
      assert Sorted(s[1..]);
      InsertSorted(t, s[1..]);
      assert Insert(t, s) == [s[0]] + rest;
      if rest[0] == t {
        assert Compare(s[0], t) < 0;
      } else {
        assert rest[0] in multiset(rest);
        assert rest[0] in multiset(s[1..]);
        var m :| 0 <= m < |s[1..]| && s[1..][m] == rest[0];
        assert Compare(s[0], s[m + 1]) <= 0;
      }
      ConsSorted(s[0], rest);
    }
  }

  lemma {:induction false} SortSorted(s: seq<Task>)
    ensures Sorted(Sort(s))
  {
    if s != [] {
      SortSorted(s[1..]);
      InsertSorted(s[0], Sort(s[1..]));
    }
  }

  /** The tasks of s that Compare ties with t, in their order in s. */
  function Ties(s: seq<Task>, t: Task): (r: seq<Task>)
    ensures forall k :: 0 <= k < |r| ==> Compare(r[k], t) == 0
    ensures |r| <= |s|
  {
    if s == [] then []
    else (if Compare(s[0], t) == 0 then [s[0]] else []) + Ties(s[1..], t)
  }

  lemma TiesCons(x: Task, s: seq<Task>, t: Task)
    ensures Ties([x] + s, t) == (if Compare(x, t) == 0 then [x] else []) + Ties(s, t)
  {
    assert ([x] + s)[1..] == s;
  }

  lemma {:induction false} InsertStable(x: Task, s: seq<Task>, t: Task)
    ensures Ties(Insert(x, s), t) == Ties([x] + s, t)
  {
    if s != [] && Compare(x, s[0]) > 0 {
      var a := Insert(x, s[1..]);
      var tx := if Compare(x, t) == 0 then [x] else [];
      var t0 := if Compare(s[0], t) == 0 then [s[0]] else [];
      // x and s[0] are not tied, so at most one of them is tied with t
      assert tx == [] || t0 == [];
      calc {
        Ties(Insert(x, s), t);
        { assert Insert(x, s) == [s[0]] + a; }
        Ties([s[0]] + a, t);
        { TiesCons(s[0], a, t); }
        t0 + Ties(a, t);
        { InsertStable(x, s[1..], t); TiesCons(x, s[1..], t); }
        t0 + (tx + Ties(s[1..], t));
        tx + (t0 + Ties(s[1..], t));
        { TiesCons(s[0], s[1..], t); assert [s[0]] + s[1..] == s; }
        tx + Ties(s, t);
        { TiesCons(x, s, t); }
        Ties([x] + s, t);
      }
    }
  }

  /**
   * Stability: for every task t, the tasks tied with t appear in the sorted
   * list in the same relative order as in the input.
   */
  lemma {:induction false} SortStable(s: seq<Task>, t: Task)
    ensures Ties(Sort(s), t) == Ties(s, t)
  {
    if s != [] {
      var tx := if Compare(s[0], t) == 0 then [s[0]] else [];
      calc {
        Ties(Sort(s), t);
        Ties(Insert(s[0], Sort(s[1..])), t);
        { InsertStable(s[0], Sort(s[1..]), t); }
        Ties([s[0]] + Sort(s[1..]), t);
        { TiesCons(s[0], Sort(s[1..]), t); }
        tx + Ties(Sort(s[1..]), t);
        { SortStable(s[1..], t); }
        tx + Ties(s[1..], t);
        { TiesCons(s[0], s[1..], t); assert [s[0]] + s[1..] == s; }
        Ties(s, t);
      }
    }
  }

  /** Everything the display sort promises about its result. */
  lemma SortSpec(s: seq<Task>)
    ensures multiset(Sort(s)) == multiset(s)
    ensures Sorted(Sort(s)) && DisplayOrder(Sort(s))
    ensures forall t :: Ties(Sort(s), t) == Ties(s, t)
  {
    SortSorted(s);
    SortedIffDisplayOrder(Sort(s));
    forall t ensures Ties(Sort(s), t) == Ties(s, t) {
      SortStable(s, t);
    }
  }

  /** The tasks of s whose priority is p, in order: the contents of column p. */
  function Column(s: seq<Task>, p: Priority): (r: seq<Task>)
    ensures forall k :: 0 <= k < |r| ==> r[k].priority == p
    ensures |r| <= |s|
  {
    if s == [] then []
    else Column(s[..|s| - 1], p) + (if s[|s| - 1].priority == p then [s[|s| - 1]] else [])
  }

  function Partition(s: seq<Task>): PerPriority<seq<Task>> {
    PerPriority(Column(s, Urgent), Column(s, Later), Column(s, Someday))
  }

  /** A column holds, with multiplicity, exactly the tasks of that priority. */
  lemma {:induction false} ColumnContents(s: seq<Task>, p: Priority, t: Task)
    ensures multiset(Column(s, p))[t] == if t.priority == p then multiset(s)[t] else 0
  {
    if s != [] {
      var n := |s| - 1;
      ColumnContents(s[..n], p, t);
      assert s == s[..n] + [s[n]];
    }
  }

  /** The three columns together hold every task exactly once. */
  lemma {:induction false} ColumnSizes(s: seq<Task>)
    ensures |Column(s, Urgent)| + |Column(s, Later)| + |Column(s, Someday)| == |s|
  {
    if s != [] {
      ColumnSizes(s[..|s| - 1]);
    }
  }

  /** A column of a sorted list is itself sorted. */
  lemma {:induction false} ColumnSorted(s: seq<Task>, p: Priority)
    requires Sorted(s)
    ensures Sorted(Column(s, p))
  {
    if s != [] {
      var n := |s| - 1;
      assert Sorted(s[..n]);
      ColumnSorted(s[..n], p);
      var c := Column(s[..n], p);
      if s[n].priority == p {
        forall k | 0 <= k < |c|
          ensures Compare(c[k], s[n]) <= 0
        {
          assert c[k] in multiset(c);
          ColumnContents(s[..n], p, c[k]);
          assert c[k] in s[..n];
        }
      }
    }
  }

  /**
   * renderTasks: sort the fetched list, append each task to the column named
   * by its priority and count the tasks per column.
   */
  method RenderTasks(tasks: seq<Task>) returns (cols: PerPriority<seq<Task>>, counts: PerPriority<nat>)
    ensures cols == Partition(Sort(tasks))
    ensures counts == Sizes(cols)
    ensures counts.urgent + counts.later + counts.someday == |tasks|
  {
    var sorted := Sort(tasks);
    cols := PerPriority([], [], []);
    counts := PerPriority(0, 0, 0);
    for i := 0 to |sorted|
      invariant forall p :: cols.Get(p) == Column(sorted[..i], p)
      invariant forall p :: counts.Get(p) == |cols.Get(p)|
    {
      var t := sorted[i];
      assert sorted[..i + 1][..i] == sorted[..i];
      cols := cols.Set(t.priority, cols.Get(t.priority) + [t]);
      counts := counts.Set(t.priority, counts.Get(t.priority) + 1);
    }
    assert sorted[..|sorted|] == sorted;
    ColumnSizes(sorted);
    assert |sorted| == |tasks| by {
      assert |multiset(sorted)| == |multiset(tasks)|;
    }
  }
}
