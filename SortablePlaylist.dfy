/** The reorderable playlist strip of src/components/SortablePlaylist.tsx:
    the drag-end handler, which looks both dragged ids up and moves one item,
    and the row mapping, which marks the current item and makes each row
    select its own index. */
module SortablePlaylist {
  import opened Options
  import opened PlaylistServer

  /** `items.map(item => item.id)`: the ids the sortable context knows. */
  function Ids(items: seq<MediaItem>): (ids: seq<string>)
    ensures |ids| == |items|
    ensures forall i :: 0 <= i < |items| ==> ids[i] == items[i].id
  {
    if items == [] then [] else [items[0].id] + Ids(items[1..])
  }

  /** `items.findIndex(item => item.id === id)`: the first position holding
      `id`, or -1 when none does. */
  function FindIndex(items: seq<MediaItem>, id: string): (k: int)
    ensures -1 <= k < |items|
    ensures k == -1 <==> id !in Ids(items)
    ensures k >= 0 ==> items[k].id == id && forall i :: 0 <= i < k ==> items[i].id != id
  {
    if items == [] then -1
    else if items[0].id == id then 0
    else
      var k := FindIndex(items[1..], id);
      assert Ids(items) == [items[0].id] + Ids(items[1..]);
      if k == -1 then -1 else k + 1
  }

  /** The sequence without its element at `i`. */
  function RemoveAt<T>(s: seq<T>, i: nat): (r: seq<T>)
    requires i < |s|
    ensures |r| == |s| - 1
    ensures forall j :: 0 <= j < i ==> r[j] == s[j]
    ensures forall j :: i <= j < |r| ==> r[j] == s[j + 1]
  {
    s[..i] + s[i + 1..]
  }

  /** The sequence with `x` inserted so that it sits at `i`. */
  function InsertAt<T>(s: seq<T>, i: nat, x: T): (r: seq<T>)
    requires i <= |s|
    ensures |r| == |s| + 1 && r[i] == x
    ensures RemoveAt(r, i) == s
  {
    assert (s[..i] + [x] + s[i..])[..i] == s[..i];
    assert (s[..i] + [x] + s[i..])[i + 1..] == s[i..];
    assert s[..i] + s[i..] == s;
    s[..i] + [x] + s[i..]
  }

  lemma RemoveAtMultiset<T>(s: seq<T>, i: nat)
    requires i < |s|
    ensures multiset(RemoveAt(s, i)) == multiset(s) - multiset{s[i]}
  {
    assert s == s[..i] + [s[i]] + s[i + 1..];
  }

  lemma InsertAtMultiset<T>(s: seq<T>, i: nat, x: T)
    requires i <= |s|
    ensures multiset(InsertAt(s, i, x)) == multiset(s) + multiset{x}
  {
    assert s == s[..i] + s[i..];
  }

  /** dnd-kit's `arrayMove`: takes the element at `from` out and puts it back
      so that it sits at `to`. The result is a permutation, the moved element
      is at `to`, and with it taken out again the rest is in the old order. */
  function ArrayMove<T>(s: seq<T>, from: nat, to: nat): (r: seq<T>)
    requires from < |s| && to < |s|
    ensures |r| == |s| && r[to] == s[from]
    ensures RemoveAt(r, to) == RemoveAt(s, from)
    ensures multiset(r) == multiset(s)
  {
    var rest := RemoveAt(s, from);
    RemoveAtMultiset(s, from);
    InsertAtMultiset(rest, to, s[from]);
    InsertAt(rest, to, s[from])
  }

  /** An independent description of a move, position by position: the block
      between the two indices shifts by one towards `from`, everything
      outside it stays put. */
  lemma ArrayMovePositions<T>(s: seq<T>, from: nat, to: nat, i: nat)
    requires from < |s| && to < |s| && i < |s|
    ensures var r := ArrayMove(s, from, to);
      && (i < from && i < to ==> r[i] == s[i])
      && (i > from && i > to ==> r[i] == s[i])
      && (from <= i < to ==> r[i] == s[i + 1])
      && (to < i <= from ==> r[i] == s[i - 1])
  {
    var r := ArrayMove(s, from, to);
    var rest := RemoveAt(s, from);
    if i < to {
      assert r[i] == RemoveAt(r, to)[i];
    } else if i > to {
      assert r[i] == RemoveAt(r, to)[i - 1];
    }
  }

  /** Moving an element onto its own position changes nothing. */
  lemma ArrayMoveSame<T>(s: seq<T>, i: nat)
    requires i < |s|
    ensures ArrayMove(s, i, i) == s
  {
    var r := ArrayMove(s, i, i);
    forall j | 0 <= j < |s| ensures r[j] == s[j] {
      ArrayMovePositions(s, i, i, j);
    }
  }

  /** `handleDragEnd` for a drag of item `activeId` released over `overId`
      (None when released over nothing). No reorder is reported when there is
      no target or the item is dropped on its own id; otherwise the item
      first holding `activeId` moves to the first position holding `overId`.
      Both ids are ids of `items`: they come from the sortable context, whose
      ids are exactly the items' ids. */
  function DragEnd(items: seq<MediaItem>, activeId: string, overId: Option<string>): (r: Option<seq<MediaItem>>)
    requires activeId in Ids(items)
    requires overId.Some? ==> overId.value in Ids(items)
    ensures r.None? <==> overId == None || overId.value == activeId
    ensures r.Some? ==>
      var from, to := FindIndex(items, activeId), FindIndex(items, overId.value);
      && 0 <= from < |items| && 0 <= to < |items|
      && items[from].id == activeId && items[to].id == overId.value
      && |r.value| == |items| && multiset(r.value) == multiset(items)
      && r.value[to] == items[from]
      && RemoveAt(r.value, to) == RemoveAt(items, from)
  {
    if overId.Some? && activeId != overId.value then
      var from := FindIndex(items, activeId);
      var to := FindIndex(items, overId.value);
      Some(ArrayMove(items, from, to))
    else
      None
  }

  /** One rendered `SortableItem`: the item, whether it is highlighted, and
      the index its click selects. */
  datatype Row = Row(item: MediaItem, isActive: bool, selects: nat)

  /** `items.map((item, index) => <SortableItem isActive={index === currentIndex}
      onClick={() => onSelect(index)} />)`: one row per item, in order, the
      click on row `i` selecting `i`; exactly one row is highlighted when the
      current index is in range and none otherwise. */
  function Rows(items: seq<MediaItem>, currentIndex: int): (rows: seq<Row>)
    ensures |rows| == |items|
    ensures forall i :: 0 <= i < |items| ==>
      rows[i].item == items[i] && rows[i].selects == i && (rows[i].isActive <==> i == currentIndex)
    ensures CountActive(rows) == if 0 <= currentIndex < |items| then 1 else 0
  {
    var rows := seq(|items|, i requires 0 <= i < |items| => Row(items[i], i == currentIndex, i));
    CountActiveAt(rows, currentIndex);
    rows
  }

  function CountActive(rows: seq<Row>): nat {
    if rows == [] then 0 else (if rows[0].isActive then 1 else 0) + CountActive(rows[1..])
  }

  /** Rows highlighted at exactly one index `c` hold one highlighted row when
      `c` is in range and none otherwise. */
  lemma {:induction false} CountActiveAt(rows: seq<Row>, c: int)
    requires forall i :: 0 <= i < |rows| ==> (rows[i].isActive <==> i == c)
    ensures CountActive(rows) == if 0 <= c < |rows| then 1 else 0
    decreases |rows|
  {
    if rows != [] {
      CountActiveAt(rows[1..], c - 1);
    }
  }
}
