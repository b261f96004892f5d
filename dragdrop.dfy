/**
 * Drag and drop on the board: the three columns as sequences of cards, the
 * drop handler's choice between a reorder and a move, the optimistic move to
 * another column (placement by pinned status, counters recomputed, full
 * reload when the server rejects the PATCH), and the reorder within a column
 * around the card whose midpoint is nearest the drop point.
 */
module DragDrop {
  import opened Common
  import Ordering

  /** A task card as the drag-and-drop code sees it: its data-id, data-pinned and data-priority. */
  datatype Card = Card(id: int, pinned: bool, priority: Priority)

  type Columns = PerPriority<seq<Card>>

  datatype Location = Location(column: Priority, index: nat)

  // ---------------------------------------------------------------------------
  // Sequence helpers

  function RemoveAt(s: seq<Card>, i: nat): (r: seq<Card>)
    requires i < |s|
    ensures |r| == |s| - 1
  {
    s[..i] + s[i + 1..]
  }

  function InsertAt(s: seq<Card>, k: nat, c: Card): (r: seq<Card>)
    requires k <= |s|
    ensures |r| == |s| + 1
  {
    s[..k] + [c] + s[k..]
  }

  /** The cards of col whose id differs from id, in order. */
  function WithoutId(col: seq<Card>, id: int): (r: seq<Card>)
    ensures forall k :: 0 <= k < |r| ==> r[k].id != id
  {
    if col == [] then []
    else (if col[0].id != id then [col[0]] else []) + WithoutId(col[1..], id)
  }

  lemma {:induction false} WithoutIdAppend(a: seq<Card>, b: seq<Card>, id: int)
    ensures WithoutId(a + b, id) == WithoutId(a, id) + WithoutId(b, id)
  {
    if a == [] {
      assert a + b == b;
    } else {
      var head := if a[0].id != id then [a[0]] else [];
      calc {
        WithoutId(a + b, id);
        { assert (a + b)[0] == a[0] && (a + b)[1..] == a[1..] + b; }
        head + WithoutId(a[1..] + b, id);
        { WithoutIdAppend(a[1..], b, id); }
        head + (WithoutId(a[1..], id) + WithoutId(b, id));
        WithoutId(a, id) + WithoutId(b, id);
      }
    }
  }

  lemma WithoutIdRemoveAt(s: seq<Card>, i: nat, id: int)
    requires i < |s| && s[i].id == id
    ensures WithoutId(RemoveAt(s, i), id) == WithoutId(s, id)
  {
    assert s == s[..i] + ([s[i]] + s[i + 1..]);
    WithoutIdAppend(s[..i], [s[i]] + s[i + 1..], id);
    WithoutIdAppend([s[i]], s[i + 1..], id);
    WithoutIdAppend(s[..i], s[i + 1..], id);
    assert WithoutId([s[i]], id) == [] by { assert [s[i]][1..] == []; }
  }

  lemma WithoutIdInsertAt(s: seq<Card>, k: nat, c: Card, id: int)
    requires k <= |s| && c.id == id
    ensures WithoutId(InsertAt(s, k, c), id) == WithoutId(s, id)
  {
    assert InsertAt(s, k, c) == s[..k] + ([c] + s[k..]);
    assert s == s[..k] + s[k..];
    WithoutIdAppend(s[..k], [c] + s[k..], id);
    WithoutIdAppend([c], s[k..], id);
    WithoutIdAppend(s[..k], s[k..], id);
    assert WithoutId([c], id) == [] by { assert [c][1..] == []; }
  }

  // ---------------------------------------------------------------------------
  // Finding cards

  /** The first position of a card with this id in a column. */
  function IndexOfId(col: seq<Card>, id: int): (r: Option<nat>)
    ensures r.None? <==> forall k :: 0 <= k < |col| ==> col[k].id != id
    ensures r.Some? ==> r.value < |col| && col[r.value].id == id
                        && forall k :: 0 <= k < r.value ==> col[k].id != id
  {
    if col == [] then None
    else if col[0].id == id then Some(0)
    else match IndexOfId(col[1..], id)
         case None => None
         case Some(k) => Some(k + 1)
  }

  /**
   * document.querySelector('[data-id="id"]'): the first card with this id in
   * document order, the columns being laid out urgent, later, someday.
   */
  function Locate(cols: Columns, id: int): (r: Option<Location>)
    ensures r.None? ==> forall p, k :: 0 <= k < |cols.Get(p)| ==> cols.Get(p)[k].id != id
    ensures r.Some? ==> r.value.index < |cols.Get(r.value.column)|
                        && cols.Get(r.value.column)[r.value.index].id == id
    ensures r.Some? ==> forall k :: 0 <= k < r.value.index ==> cols.Get(r.value.column)[k].id != id
    ensures r.Some? && r.value.column != Urgent ==> forall k :: 0 <= k < |cols.urgent| ==> cols.urgent[k].id != id
    ensures r.Some? && r.value.column == Someday ==> forall k :: 0 <= k < |cols.later| ==> cols.later[k].id != id
  {
    match IndexOfId(cols.urgent, id)
    case Some(i) => Some(Location(Urgent, i))
    case None =>
      match IndexOfId(cols.later, id)
      case Some(i) => Some(Location(Later, i))
      case None =>
        match IndexOfId(cols.someday, id)
        case Some(i) => Some(Location(Someday, i))
        case None => None
  }

  /** No two cards on the board share an id (the server's ids are unique). */
  ghost predicate UniqueIds(cols: Columns) {
    forall p, q, i, j ::
      0 <= i < |cols.Get(p)| && 0 <= j < |cols.Get(q)| && (p != q || i != j)
      ==> cols.Get(p)[i].id != cols.Get(q)[j].id
  }

  /** Every card sits in the column its data-priority names. */
  ghost predicate Labelled(cols: Columns) {
    forall p, k :: 0 <= k < |cols.Get(p)| ==> cols.Get(p)[k].priority == p
  }

  /**
   * The drop handler's test: the drop is a reorder when the target column
   * contains the element document.querySelector finds for the dragged id.
   */
  predicate IsReorder(cols: Columns, id: int, target: Priority) {
    Locate(cols, id).Some? && Locate(cols, id).value.column == target
  }

  /** With unique ids, a drop is a reorder exactly when the target column holds the dragged card. */
  lemma ReorderIffTargetHoldsCard(cols: Columns, id: int, target: Priority)
    requires UniqueIds(cols)
    ensures IsReorder(cols, id, target) <==> IndexOfId(cols.Get(target), id).Some?
  {
    if IndexOfId(cols.Get(target), id).Some? {
      var k := IndexOfId(cols.Get(target), id).value;
      var loc := Locate(cols, id).value;
      assert cols.Get(loc.column)[loc.index].id == cols.Get(target)[k].id;
    }
  }

  // ---------------------------------------------------------------------------
  // Move to another column

  function FirstPinned(col: seq<Card>): (r: Option<nat>)
    ensures r.None? <==> forall k :: 0 <= k < |col| ==> !col[k].pinned
    ensures r.Some? ==> r.value < |col| && col[r.value].pinned
                        && forall k :: 0 <= k < r.value ==> !col[k].pinned
  {
    if col == [] then None
    else if col[0].pinned then Some(0)
    else match FirstPinned(col[1..])
         case None => None
         case Some(k) => Some(k + 1)
  }

  function LastPinned(col: seq<Card>): (r: Option<nat>)
    ensures r.None? <==> forall k :: 0 <= k < |col| ==> !col[k].pinned
    ensures r.Some? ==> r.value < |col| && col[r.value].pinned
                        && forall k :: r.value < k < |col| ==> !col[k].pinned
  {
    if col == [] then None
    else if col[|col| - 1].pinned then Some(|col| - 1)
    else LastPinned(col[..|col| - 1])
  }

  /**
   * Where handleMoveToNewColumn inserts a card: with no pinned card in the
   * column, at the front; otherwise right after the first pinned card if the
   * moved card is pinned, right after the last pinned card if it is not.
   */
  function Placement(col: seq<Card>, pinned: bool): (k: nat)
    ensures k <= |col|
  {
    match FirstPinned(col)
    case None => 0
    case Some(first) => if pinned then first + 1 else LastPinned(col).value + 1
  }

  /**
   * The columns after the optimistic part of handleMoveToNewColumn, or None
   * when no card has the id (the handler then throws and reloads).
   */
  function MoveCards(cols: Columns, id: int, target: Priority): Option<Columns> {
    match Locate(cols, id)
    case None => None
    case Some(loc) =>
      var card := cols.Get(loc.column)[loc.index];
      var removed := cols.Set(loc.column, RemoveAt(cols.Get(loc.column), loc.index));
      var moved := card.(priority := target);
      var dest := removed.Get(target);
      Some(removed.Set(target, InsertAt(dest, Placement(dest, moved.pinned), moved)))
  }

  /** The card that handleMoveToNewColumn moves, with its new data-priority. */
  function MovedCard(cols: Columns, id: int, target: Priority): (c: Card)
    requires Locate(cols, id).Some?
    ensures c.id == id && c.priority == target
    ensures c.pinned == cols.Get(Locate(cols, id).value.column)[Locate(cols, id).value.index].pinned
  {
    var loc := Locate(cols, id).value;
    cols.Get(loc.column)[loc.index].(priority := target)
  }

  /** Every card other than the moved one keeps its column and its relative order. */
  lemma MoveKeepsOtherCards(cols: Columns, id: int, target: Priority, q: Priority)
    requires MoveCards(cols, id, target).Some?
    ensures WithoutId(MoveCards(cols, id, target).value.Get(q), id) == WithoutId(cols.Get(q), id)
  {
    var loc := Locate(cols, id).value;
    var removed := cols.Set(loc.column, RemoveAt(cols.Get(loc.column), loc.index));
    var moved := MovedCard(cols, id, target);
    var dest := removed.Get(target);
    WithoutIdRemoveAt(cols.Get(loc.column), loc.index, id);
    WithoutIdInsertAt(dest, Placement(dest, moved.pinned), moved, id);
  }

  /** A move to another column inserts the relabelled card into the old target column at its placement. */
  lemma MoveTarget(cols: Columns, id: int, target: Priority)
    requires Locate(cols, id).Some? && !IsReorder(cols, id, target)
    ensures var dest := cols.Get(target);
            var moved := MovedCard(cols, id, target);
            MoveCards(cols, id, target).value.Get(target) == InsertAt(dest, Placement(dest, moved.pinned), moved)
  {
    var loc := Locate(cols, id).value;
    var removed := cols.Set(loc.column, RemoveAt(cols.Get(loc.column), loc.index));
    assert removed.Get(target) == cols.Get(target);
  }

  /**
   * A move to a column that does not hold the card: the target column is the
   * old one with the card, now labelled with the target priority, inserted at
   * the front (no pinned cards), right after the first pinned card (a pinned
   * card) or right after the last pinned card (an unpinned card).
   */
  lemma MovePlacement(cols: Columns, id: int, target: Priority)
    requires Locate(cols, id).Some? && !IsReorder(cols, id, target)
    ensures var dest := cols.Get(target);
            var moved := MovedCard(cols, id, target);
            var after := MoveCards(cols, id, target).value.Get(target);
            && (FirstPinned(dest).None? ==> after == [moved] + dest)
            && (FirstPinned(dest).Some? && moved.pinned ==>
                  after == dest[..FirstPinned(dest).value + 1] + [moved] + dest[FirstPinned(dest).value + 1..])
            && (LastPinned(dest).Some? && !moved.pinned ==>
                  after == dest[..LastPinned(dest).value + 1] + [moved] + dest[LastPinned(dest).value + 1..])
  {
    var dest := cols.Get(target);
    MoveTarget(cols, id, target);
    if FirstPinned(dest).None? {
      assert LastPinned(dest).None?;
      assert dest[..0] == [] && dest[0..] == dest;
    } else {
      assert LastPinned(dest).Some?;
    }
  }

  /**
   * With unique ids, after a move to another column the card is in the target
   * column exactly once, at its placement, and in no other column.
   */
  lemma MoveRelocatesCard(cols: Columns, id: int, target: Priority)
    requires UniqueIds(cols) && Locate(cols, id).Some? && !IsReorder(cols, id, target)
    ensures var n := MoveCards(cols, id, target).value;
            var pos := Placement(cols.Get(target), MovedCard(cols, id, target).pinned);
            && pos < |n.Get(target)| && n.Get(target)[pos] == MovedCard(cols, id, target)
            && (forall k :: 0 <= k < |n.Get(target)| ==> (n.Get(target)[k].id == id <==> k == pos))
            && (forall q, k :: q != target && 0 <= k < |n.Get(q)| ==> n.Get(q)[k].id != id)
  {
    var loc := Locate(cols, id).value;
    var src := loc.column;
    var n := MoveCards(cols, id, target).value;
    var dest := cols.Get(target);
    var pos := Placement(dest, MovedCard(cols, id, target).pinned);
    forall k | 0 <= k < |dest|
      ensures dest[k].id != id
    {
      assert cols.Get(src)[loc.index].id == id;
    }
    forall k | 0 <= k < |n.Get(target)| && k != pos
      ensures n.Get(target)[k].id != id
    {
      if k < pos { assert n.Get(target)[k] == dest[k]; }
      else { assert n.Get(target)[k] == dest[k - 1]; }
    }
    forall q, k | q != target && 0 <= k < |n.Get(q)|
      ensures n.Get(q)[k].id != id
    {
      if q == src {
        var s := cols.Get(src);
        if k < loc.index {
          assert n.Get(q)[k] == s[k];
        } else {
          assert n.Get(q)[k] == s[k + 1];
        }
      } else {
        assert n.Get(q) == cols.Get(q);
      }
    }
  }

  /** A move to another column shrinks the source by one card and grows the target by one. */
  lemma MoveSizes(cols: Columns, id: int, target: Priority)
    requires Locate(cols, id).Some? && !IsReorder(cols, id, target)
    ensures var src := Locate(cols, id).value.column;
            var n := MoveCards(cols, id, target).value;
            && |n.Get(src)| == |cols.Get(src)| - 1
            && |n.Get(target)| == |cols.Get(target)| + 1
            && forall q :: q != src && q != target ==> n.Get(q) == cols.Get(q)
  {
  }

  /** A move keeps every card in the column its data-priority names. */
  lemma MoveKeepsLabels(cols: Columns, id: int, target: Priority)
    requires Labelled(cols) && MoveCards(cols, id, target).Some?
    ensures Labelled(MoveCards(cols, id, target).value)
  {
    var loc := Locate(cols, id).value;
    var n := MoveCards(cols, id, target).value;
    var removed := cols.Set(loc.column, RemoveAt(cols.Get(loc.column), loc.index));
    forall p, k | 0 <= k < |removed.Get(p)|
      ensures removed.Get(p)[k].priority == p
    {
      if p == loc.column {
        if k < loc.index { assert removed.Get(p)[k] == cols.Get(p)[k]; }
        else { assert removed.Get(p)[k] == cols.Get(p)[k + 1]; }
      }
    }
    var dest := removed.Get(target);
    var pos := Placement(dest, MovedCard(cols, id, target).pinned);
    forall p, k | 0 <= k < |n.Get(p)|
      ensures n.Get(p)[k].priority == p
    {
      if p == target {
        if k < pos { assert n.Get(p)[k] == dest[k]; }
        else if k > pos { assert n.Get(p)[k] == dest[k - 1]; }
      }
    }
  }

  /** All pinned cards of a column come before all unpinned ones. */
  predicate PinnedFirst(col: seq<Card>) {
    forall i, j :: 0 <= i < j < |col| && col[j].pinned ==> col[i].pinned
  }

  /** The elements of InsertAt(s, k, c), index by index. */
  lemma InsertAtIndex(s: seq<Card>, k: nat, c: Card)
    requires k <= |s|
    ensures forall i :: 0 <= i < |InsertAt(s, k, c)| ==>
              InsertAt(s, k, c)[i] == if i < k then s[i] else if i == k then c else s[i - 1]
  {
    var r := InsertAt(s, k, c);
    forall i | 0 <= i < |r|
      ensures r[i] == if i < k then s[i] else if i == k then c else s[i - 1]
    {
      if i < k {
        assert r[i] == s[..k][i];
      } else if i > k {
        assert r[i] == s[k..][i - k - 1];
      }
    }
  }

  /**
   * Inserting a card keeps the pinned cards at the front when every card
   * before the insertion point is pinned (for a pinned card) or every card
   * from it on is unpinned (for an unpinned card).
   */
  lemma InsertKeepsPinnedFirst(s: seq<Card>, k: nat, c: Card)
    requires k <= |s| && PinnedFirst(s)
    requires c.pinned ==> forall i :: 0 <= i < k ==> s[i].pinned
    requires !c.pinned ==> forall i :: k <= i < |s| ==> !s[i].pinned
    ensures PinnedFirst(InsertAt(s, k, c))
  {
    var r := InsertAt(s, k, c);
    InsertAtIndex(s, k, c);
    forall i, j | 0 <= i < j < |r| && r[j].pinned
      ensures r[i].pinned
    {
      if i != k && j != k {
        assert r[i] == s[if i < k then i else i - 1];
      }
    }
  }

  /** A move keeps the pinned cards of the target column at its front. */
  lemma MoveKeepsPinnedFirst(cols: Columns, id: int, target: Priority)
    requires Locate(cols, id).Some? && !IsReorder(cols, id, target)
    requires PinnedFirst(cols.Get(target))
    ensures PinnedFirst(MoveCards(cols, id, target).value.Get(target))
  {
    var dest := cols.Get(target);
    var moved := MovedCard(cols, id, target);
    var pos := Placement(dest, moved.pinned);
    MoveTarget(cols, id, target);
    if FirstPinned(dest).Some? {
      assert FirstPinned(dest).value == 0;
      var l := LastPinned(dest).value;
      assert forall k :: 0 <= k <= l ==> dest[k].pinned;
    }
    InsertKeepsPinnedFirst(dest, pos, moved);
  }

  // ---------------------------------------------------------------------------
  // Reorder within a column

  /** |a - b|, the distance between a doubled drop ordinate and a doubled midpoint. */
  function Distance(a: int, b: int): nat {
    if a >= b then a - b else b - a
  }

  /**
   * The card findClosestTask picks among the first n cards: the nearest card
   * whose id is not the dragged one, the earliest on ties (the comparison is
   * strict). y2 is twice the drop ordinate; mids[k] is twice card k's top
   * plus its height, i.e. twice its midpoint.
   */
  function ClosestIn(col: seq<Card>, exclude: int, y2: int, mids: seq<int>, n: nat): (r: Option<nat>)
    requires |mids| == |col| && n <= |col|
    ensures r.Some? ==> r.value < n && col[r.value].id != exclude
  {
    if n == 0 then None
    else
      var best := ClosestIn(col, exclude, y2, mids, n - 1);
      if col[n - 1].id == exclude then best
      else if best.None? || Distance(y2, mids[n - 1]) < Distance(y2, mids[best.value]) then Some(n - 1)
      else best
  }

  /** Index k is the nearest non-dragged card, and no earlier card is as near. */
  ghost predicate IsNearest(col: seq<Card>, exclude: int, y2: int, mids: seq<int>, k: nat)
    requires |mids| == |col|
  {
    && k < |col| && col[k].id != exclude
    && (forall j :: 0 <= j < |col| && col[j].id != exclude ==> Distance(y2, mids[k]) <= Distance(y2, mids[j]))
    && (forall j :: 0 <= j < k && col[j].id != exclude ==> Distance(y2, mids[k]) < Distance(y2, mids[j]))
  }

  lemma {:induction false} ClosestInIsNearest(col: seq<Card>, exclude: int, y2: int, mids: seq<int>, n: nat)
    requires |mids| == |col| && n <= |col|
    ensures var r := ClosestIn(col, exclude, y2, mids, n);
            && (r.None? <==> forall j :: 0 <= j < n ==> col[j].id == exclude)
            && (r.Some? ==> IsNearest(col[..n], exclude, y2, mids[..n], r.value))
  {
    if n > 0 {
      ClosestInIsNearest(col, exclude, y2, mids, n - 1);
    }
  }

  /**
   * findClosestTask returns the nearest other card, the earliest one among
   * equally near cards, and null exactly when there is no other card.
   */
  lemma ClosestIsNearest(col: seq<Card>, exclude: int, y2: int, mids: seq<int>)
    requires |mids| == |col|
    ensures var r := ClosestIn(col, exclude, y2, mids, |col|);
            && (r.None? <==> forall j :: 0 <= j < |col| ==> col[j].id == exclude)
            && (r.Some? ==> IsNearest(col, exclude, y2, mids, r.value))
            && (forall k: nat :: IsNearest(col, exclude, y2, mids, k) ==> r == Some(k))
  {
    ClosestInIsNearest(col, exclude, y2, mids, |col|);
    assert col[..|col|] == col && mids[..|col|] == mids;
  }

  /** findClosestTask: a scan that keeps the best distance seen so far. */
  method FindClosestTask(col: seq<Card>, exclude: int, y2: int, mids: seq<int>) returns (closest: Option<nat>)
    requires |mids| == |col|
    ensures closest == ClosestIn(col, exclude, y2, mids, |col|)
  {
    closest := None;
    var minDistance := 0;  // meaningful once closest is set; before that it stands for Number.MAX_VALUE
    for i := 0 to |col|
      invariant closest == ClosestIn(col, exclude, y2, mids, i)
      invariant closest.Some? ==> minDistance == Distance(y2, mids[closest.value])
    {
      if col[i].id == exclude {
        continue;
      }
      var distance := Distance(y2, mids[i]);
      if closest.None? || distance < minDistance {
        minDistance := distance;
        closest := Some(i);
      }
    }
  }

  /**
   * The position of the dragged card (found at index i) after the reorder,
   * counted in the column once it is back: before the closest card when the
   * drop point is above that card's midpoint, after it otherwise, at the end
   * when there is no closest card.
   */
  function ReorderPosition(col: seq<Card>, i: nat, closest: Option<nat>, y2: int, mids: seq<int>): (pos: nat)
    requires i < |col| && |mids| == |col|
    requires closest.Some? ==> closest.value < |col| && closest.value != i
    ensures pos < |col|
  {
    match closest
    case None => |col| - 1
    case Some(c) =>
      var j := if c < i then c else c - 1;
      if y2 < mids[c] then j else j + 1
  }

  /** handleReorderInSameColumn on one column. */
  function Reordered(col: seq<Card>, i: nat, closest: Option<nat>, y2: int, mids: seq<int>): (r: seq<Card>)
    requires i < |col| && |mids| == |col|
    requires closest.Some? ==> closest.value < |col| && closest.value != i
  {
    InsertAt(RemoveAt(col, i), ReorderPosition(col, i, closest, y2, mids), col[i])
  }

  /** Taking out the card at i and putting it back at pos keeps the column's cards. */
  lemma MoveWithinKeepsCards(col: seq<Card>, i: nat, pos: nat)
    requires i < |col| && pos < |col|
    ensures multiset(InsertAt(RemoveAt(col, i), pos, col[i])) == multiset(col)
  {
    var rest := RemoveAt(col, i);
    calc {
      multiset(InsertAt(rest, pos, col[i]));
      multiset(rest[..pos]) + multiset{col[i]} + multiset(rest[pos..]);
      { assert rest == rest[..pos] + rest[pos..]; }
      multiset(rest) + multiset{col[i]};
      multiset(col[..i]) + multiset(col[i + 1..]) + multiset{col[i]};
      { assert col == col[..i] + [col[i]] + col[i + 1..]; }
      multiset(col);
    }
  }

  /**
   * A reorder keeps the column's cards (as a multiset) and the relative order
   * of all but the dragged card, which sits at the reorder position.
   */
  lemma ReorderKeepsCards(col: seq<Card>, i: nat, closest: Option<nat>, y2: int, mids: seq<int>)
    requires i < |col| && |mids| == |col|
    requires closest.Some? ==> closest.value < |col| && closest.value != i
    ensures var r := Reordered(col, i, closest, y2, mids);
            var pos := ReorderPosition(col, i, closest, y2, mids);
            && |r| == |col| && multiset(r) == multiset(col)
            && r[pos] == col[i] && RemoveAt(r, pos) == RemoveAt(col, i)
  {
    var r := Reordered(col, i, closest, y2, mids);
    var pos := ReorderPosition(col, i, closest, y2, mids);
    var rest := RemoveAt(col, i);
    assert r == rest[..pos] + [col[i]] + rest[pos..];
    assert r[..pos] == rest[..pos];
    assert r[pos + 1..] == rest[pos..];
    assert RemoveAt(r, pos) == rest;
    MoveWithinKeepsCards(col, i, pos);
  }

  /**
   * A reorder puts the dragged card right before the closest card when the
   * drop point is above its midpoint, right after it otherwise, and last when
   * there is no closest card.
   */
  lemma ReorderPlacesCard(col: seq<Card>, i: nat, closest: Option<nat>, y2: int, mids: seq<int>)
    requires i < |col| && |mids| == |col|
    requires closest.Some? ==> closest.value < |col| && closest.value != i
    ensures var r := Reordered(col, i, closest, y2, mids);
            var pos := ReorderPosition(col, i, closest, y2, mids);
            && r[pos] == col[i]
            && (closest.None? ==> pos == |r| - 1)
            && (closest.Some? && y2 < mids[closest.value] ==> pos + 1 < |r| && r[pos + 1] == col[closest.value])
            && (closest.Some? && y2 >= mids[closest.value] ==> pos > 0 && r[pos - 1] == col[closest.value])
  {
    var rest := RemoveAt(col, i);
    var r := Reordered(col, i, closest, y2, mids);
    var pos := ReorderPosition(col, i, closest, y2, mids);
    assert r == rest[..pos] + [col[i]] + rest[pos..];
    if closest.Some? {
      var c := closest.value;
      var j := if c < i then c else c - 1;
      assert rest[j] == col[c];
      if y2 < mids[c] {
        assert r[pos + 1] == rest[j];
      } else {
        assert r[pos - 1] == rest[j];
      }
    }
  }

  // ---------------------------------------------------------------------------
  // The board

  function CardOf(t: Task): Card {
    Card(t.id, t.pinned, t.priority)
  }

  function CardsOf(ts: seq<Task>): (r: seq<Card>)
    ensures |r| == |ts| && forall k :: 0 <= k < |ts| ==> r[k] == CardOf(ts[k])
  {
    seq(|ts|, k requires 0 <= k < |ts| => CardOf(ts[k]))
  }

  /** The board renderTasks draws for a fetched task list. */
  function Rendered(tasks: seq<Task>): Columns {
    var cols := Ordering.Partition(Ordering.Sort(tasks));
    PerPriority(CardsOf(cols.urgent), CardsOf(cols.later), CardsOf(cols.someday))
  }

  /** The three task lists of the page and the text of their counters. */
  class Board {
    var cols: Columns
    var counts: PerPriority<nat>

    /** Cards sit in the column they name, and each counter shows its column's size. */
    ghost predicate Valid()
      reads this
    {
      Labelled(cols) && counts == Sizes(cols)
    }

    constructor (tasks: seq<Task>)
      ensures Valid() && cols == Rendered(tasks)
    {
      var c, n := Ordering.RenderTasks(tasks);
      cols := PerPriority(CardsOf(c.urgent), CardsOf(c.later), CardsOf(c.someday));
      counts := n;
    }

    /** location.reload(): the page is drawn again from the server's task list. */
    method Reload(tasks: seq<Task>)
      modifies this
      ensures Valid() && cols == Rendered(tasks)
    {
      var c, n := Ordering.RenderTasks(tasks);
      cols := PerPriority(CardsOf(c.urgent), CardsOf(c.later), CardsOf(c.someday));
      counts := n;
    }

    /** updateColumnCounts: the counter of column p shows the number of its cards. */
    method UpdateColumnCount(p: Priority)
      modifies this`counts
      ensures counts == old(counts).Set(p, |cols.Get(p)|)
    {
      counts := counts.Set(p, |cols.Get(p)|);
    }

    /**
     * handleMoveToNewColumn.  patchOk is whether the server accepted the PATCH
     * of the priority; canonical is the task list the page gets on reload.
     */
    method MoveToNewColumn(id: int, target: Priority, patchOk: bool, canonical: seq<Task>)
      requires Valid()
      modifies this
      ensures Valid()
      ensures MoveCards(old(cols), id, target).Some? && patchOk ==> cols == MoveCards(old(cols), id, target).value
      ensures MoveCards(old(cols), id, target).None? || !patchOk ==> cols == Rendered(canonical)
    {
      var loc := Locate(cols, id);
      if loc.None? {
        // "Task element not found" is thrown and the handler reloads the page.
        Reload(canonical);
        return;
      }
      var src := loc.value.column;
      var card := cols.Get(src)[loc.value.index];
      ghost var before := cols;
      cols := cols.Set(src, RemoveAt(cols.Get(src), loc.value.index));
      var moved := card.(priority := target);
      var dest := cols.Get(target);
      cols := cols.Set(target, InsertAt(dest, Placement(dest, moved.pinned), moved));
      assert cols == MoveCards(before, id, target).value;
      MoveKeepsLabels(before, id, target);
      UpdateColumnCount(src);
      UpdateColumnCount(target);
      forall p ensures counts.Get(p) == |cols.Get(p)| {
        if p != src && p != target {
          assert cols.Get(p) == before.Get(p);
        }
      }
      if !patchOk {
        Reload(canonical);
      }
    }

    /** handleReorderInSameColumn for a drop at doubled ordinate y2 on column target. */
    method ReorderInSameColumn(id: int, target: Priority, y2: int, mids: seq<int>)
      requires Valid() && IsReorder(cols, id, target) && |mids| == |cols.Get(target)|
      modifies this
      ensures Valid() && counts == old(counts)
      ensures var col := old(cols.Get(target));
              var i := Locate(old(cols), id).value.index;
              cols == old(cols).Set(target, Reordered(col, i, ClosestIn(col, id, y2, mids, |col|), y2, mids))
    {
      var col := cols.Get(target);
      var i := Locate(cols, id).value.index;
      var closest := FindClosestTask(col, id, y2, mids);
      if closest.Some? {
        ClosestIsNearest(col, id, y2, mids);
      }
      var r := Reordered(col, i, closest, y2, mids);
      ReorderKeepsCards(col, i, closest, y2, mids);
      forall k | 0 <= k < |r| ensures r[k].priority == target {
        assert r[k] in multiset(col);
      }
      cols := cols.Set(target, r);
    }

    /** The drop listener: a reorder when the target column holds the dragged card, a move otherwise. */
    method Drop(id: int, target: Priority, y2: int, mids: seq<int>, patchOk: bool, canonical: seq<Task>)
      requires Valid() && |mids| == |cols.Get(target)|
      modifies this
      ensures Valid()
      ensures IsReorder(old(cols), id, target) ==>
                var col := old(cols.Get(target));
                var i := Locate(old(cols), id).value.index;
                cols == old(cols).Set(target, Reordered(col, i, ClosestIn(col, id, y2, mids, |col|), y2, mids))
      ensures !IsReorder(old(cols), id, target) ==>
                if MoveCards(old(cols), id, target).Some? && patchOk
                then cols == MoveCards(old(cols), id, target).value
                else cols == Rendered(canonical)
    {
      if IsReorder(cols, id, target) {
        ReorderInSameColumn(id, target, y2, mids);
      } else {
        MoveToNewColumn(id, target, patchOk, canonical);
      }
    }
  }
}
