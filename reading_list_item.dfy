/** `ReadingListItem`: a reading list of the side bar, a node of the tree of
    reading lists. Its children are kept in order: by name (natural order) under
    the root, by the `Ordering` column below that. */
module ReadingLists {
  import opened ListItems
  import opened ChildList
  import opened NaturalOrder

  class ReadingListItem {
    var itemData: seq<Variant>
    var parent: ReadingListItem?
    var childItems: seq<ReadingListItem>

    constructor (data: seq<Variant>, p: ReadingListItem?)
      ensures itemData == data && parent == p && childItems == []
    {
      itemData := data;
      parent := p;
      childItems := [];
    }

    /** The invisible root of the tree has no parent. */
    predicate IsRoot()
      reads this`parent
    {
      parent == null
    }

    function ChildCount(): nat
      reads this`childItems
    {
      |childItems|
    }

    /** `child(row)`: `QList::at`, so the row must be present. */
    function Child(row: int): (c: ReadingListItem)
      reads this`childItems
      requires 0 <= row < ChildCount()
      ensures c == childItems[row]
      ensures c in childItems
    {
      childItems[row]
    }

    function GetId(): (id: nat)
      reads this`itemData
      ensures |itemData| > IdColumn ==> id == ToULongLong(itemData[IdColumn])
      ensures |itemData| <= IdColumn ==> id == 0
    {
      ULongColumn(itemData, IdColumn)
    }

    function Name(): (name: string)
      reads this`itemData
      ensures |itemData| > NameColumn ==> name == ToText(itemData[NameColumn])
      ensures |itemData| <= NameColumn ==> name == ""
    {
      TextColumn(itemData, NameColumn)
    }

    method SetName(name: string)
      modifies this`itemData
      ensures itemData == WithColumn(old(itemData), NameColumn, Text(name))
      ensures Name() == if |old(itemData)| > NameColumn then name else ""
      ensures forall c :: c != NameColumn ==>
                TextColumn(itemData, c) == TextColumn(old(itemData), c) && IntColumn(itemData, c) == IntColumn(old(itemData), c)
    {
      TextRoundTrip(itemData, NameColumn, name);
      forall c | c != NameColumn
        ensures TextColumn(WithColumn(itemData, NameColumn, Text(name)), c) == TextColumn(itemData, c)
        ensures IntColumn(WithColumn(itemData, NameColumn, Text(name)), c) == IntColumn(itemData, c)
      {
        OtherColumnsUnchanged(itemData, NameColumn, Text(name), c);
      }
      if |itemData| > NameColumn {
        itemData := itemData[NameColumn := Text(name)];
      }
    }

    function GetOrdering(): (ordering: int)
      reads this`itemData
      ensures |itemData| > OrderingColumn ==> ordering == ToInt(itemData[OrderingColumn])
      ensures |itemData| <= OrderingColumn ==> ordering == 0
    {
      IntColumn(itemData, OrderingColumn)
    }

    method SetOrdering(ordering: int)
      modifies this`itemData
      ensures itemData == WithColumn(old(itemData), OrderingColumn, Int(ordering))
      ensures GetOrdering() == if |old(itemData)| > OrderingColumn then ordering else 0
      ensures forall c :: c != OrderingColumn ==>
                TextColumn(itemData, c) == TextColumn(old(itemData), c) && IntColumn(itemData, c) == IntColumn(old(itemData), c)
    {
      IntRoundTrip(itemData, OrderingColumn, ordering);
      forall c | c != OrderingColumn
        ensures TextColumn(WithColumn(itemData, OrderingColumn, Int(ordering)), c) == TextColumn(itemData, c)
        ensures IntColumn(WithColumn(itemData, OrderingColumn, Int(ordering)), c) == IntColumn(itemData, c)
      {
        OtherColumnsUnchanged(itemData, OrderingColumn, Int(ordering), c);
      }
      if |itemData| > OrderingColumn {
        itemData := itemData[OrderingColumn := Int(ordering)];
      }
    }

    /** `row()`: where this item stands among its parent's children (-1 if the
        parent does not list it), or 0 without a parent. */
    function Row(): (r: int)
      reads this`parent, parent
      ensures parent == null ==> r == 0
      ensures parent != null ==> (r == -1 <==> this !in parent.childItems)
      ensures parent != null && r >= 0 ==> r < |parent.childItems| && parent.childItems[r] == this && this !in parent.childItems[..r]
    {
      if parent != null then IndexOf(parent.childItems, this) else 0
    }

    /** `topLevelInsertionPosition(itemName)`: the first child whose name is not
        below `itemName` in the natural order. */
    method TopLevelInsertionPosition(itemName: string, less: (string, string) -> bool) returns (i: nat)
      requires IsRoot()
      ensures i <= |childItems|
      ensures forall j :: 0 <= j < i ==> less(childItems[j].Name(), itemName)
      ensures i < |childItems| ==> !less(childItems[i].Name(), itemName)
    {
      i := 0;
      while i < |childItems| && less(childItems[i].Name(), itemName)
        invariant i <= |childItems|
        invariant forall j :: 0 <= j < i ==> less(childItems[j].Name(), itemName)
      {
        i := i + 1;
      }
    }

    /** `insertionPosition(item)`: under the root by name, elsewhere the first
        child whose ordering is not below the item's. */
    method InsertionPosition(item: ReadingListItem, less: (string, string) -> bool) returns (i: nat)
      ensures i <= |childItems|
      ensures IsRoot() ==>
        && (forall j :: 0 <= j < i ==> less(childItems[j].Name(), item.Name()))
        && (i < |childItems| ==> !less(childItems[i].Name(), item.Name()))
      ensures !IsRoot() ==>
        && (forall j :: 0 <= j < i ==> childItems[j].GetOrdering() < item.GetOrdering())
        && (i < |childItems| ==> childItems[i].GetOrdering() >= item.GetOrdering())
    {
      if IsRoot() {
        i := TopLevelInsertionPosition(item.Name(), less);
        return;
      }
      i := 0;
      while i < |childItems| && childItems[i].GetOrdering() < item.GetOrdering()
        invariant i <= |childItems|
        invariant forall j :: 0 <= j < i ==> childItems[j].GetOrdering() < item.GetOrdering()
      {
        i := i + 1;
      }
    }

    /** `insertChild(item, pos)`: `item` is put at `pos` and adopts this item
        as its parent. */
    method InsertChildAt(item: ReadingListItem, pos: int)
      requires 0 <= pos <= |childItems|
      modifies this`childItems, item`parent
      ensures childItems == Inserted(old(childItems), pos, item)
      ensures item.parent == this
      ensures item !in old(childItems) ==> item.Row() == pos
    {
      item.parent := this;
      childItems := Inserted(childItems, pos, item);
      if item !in old(childItems) {
        IndexOfInserted(old(childItems), pos, item);
      }
    }

    /** `insertChild(item)`: `item` goes where `InsertionPosition` says, which keeps a
        sorted child list sorted. */
    method InsertChild(item: ReadingListItem, less: (string, string) -> bool) returns (ghost pos: nat)
      modifies this`childItems, item`parent
      ensures pos <= |old(childItems)| && childItems == Inserted(old(childItems), pos, item)
      ensures item.parent == this
      ensures old(IsRoot()) ==>
        && (forall j :: 0 <= j < pos ==> less(old(childItems)[j].Name(), item.Name()))
        && (pos < |old(childItems)| ==> !less(old(childItems)[pos].Name(), item.Name()))
      ensures !old(IsRoot()) ==>
        && (forall j :: 0 <= j < pos ==> old(childItems)[j].GetOrdering() < item.GetOrdering())
        && (pos < |old(childItems)| ==> old(childItems)[pos].GetOrdering() >= item.GetOrdering())
      ensures old(!IsRoot() && NonDecreasing(Orderings(childItems))) ==> NonDecreasing(Orderings(childItems))
      ensures old(IsRoot() && SortedBy(Names(childItems), less)) && StrictWeakOrder(less) ==> SortedBy(Names(childItems), less)
    {
      ghost var before := childItems;
      ghost var root := IsRoot();
      var p := InsertionPosition(item, less);
      pos := p;
      if root {
        InsertedNamesSorted(before, p, item, less);
      } else {
        InsertedOrderingsSorted(before, p, item);
      }
      ghost var nn := Names(Inserted(before, p, item));
      ghost var no := Orderings(Inserted(before, p, item));
      InsertChildAt(item, p);
      assert Names(childItems) == nn;
      assert Orderings(childItems) == no;
    }

    /** `removeChild(item)`: `QList::removeOne`, so only the first occurrence
        goes, and an absent item changes nothing. */
    method RemoveChild(item: ReadingListItem)
      modifies this`childItems
      ensures childItems == RemovedOne(old(childItems), item)
      ensures item !in old(childItems) ==> childItems == old(childItems)
      ensures multiset(childItems) == multiset(old(childItems)) - multiset{item}
    {
      RemovedOneProperties(childItems, item);
      childItems := RemovedOne(childItems, item);
    }

    /** `moveChild(sourceRow, destinationRow)`: the child moves to just before
        the child that was at `destinationRow`, or to the end when
        `destinationRow` is the child count. */
    method MoveChild(sourceRow: int, destinationRow: int)
      requires 0 <= sourceRow < |childItems| && 0 <= destinationRow <= |childItems|
      modifies this`childItems
      ensures childItems == Moved(old(childItems), sourceRow, MoveTarget(sourceRow, destinationRow))
      ensures multiset(childItems) == multiset(old(childItems))
    {
      MoveChildPlacement(childItems, sourceRow, destinationRow);
      childItems := Moved(childItems, sourceRow, MoveTarget(sourceRow, destinationRow));
    }
  }

  /** The names of a list of reading lists. */
  function Names(cs: seq<ReadingListItem>): (names: seq<string>)
    reads cs`itemData
    ensures |names| == |cs|
    ensures forall i {:trigger names[i]} :: 0 <= i < |cs| ==> names[i] == cs[i].Name()
    decreases |cs|
  {
    if cs == [] then [] else [cs[0].Name()] + Names(cs[1..])
  }

  /** The orderings of a list of reading lists. */
  function Orderings(cs: seq<ReadingListItem>): (orderings: seq<int>)
    reads cs`itemData
    ensures |orderings| == |cs|
    ensures forall i {:trigger orderings[i]} :: 0 <= i < |cs| ==> orderings[i] == cs[i].GetOrdering()
    decreases |cs|
  {
    if cs == [] then [] else [cs[0].GetOrdering()] + Orderings(cs[1..])
  }

  lemma {:induction false} NamesInserted(cs: seq<ReadingListItem>, p: nat, item: ReadingListItem)
    requires p <= |cs|
    ensures Names(Inserted(cs, p, item)) == Inserted(Names(cs), p, item.Name())
  {
    var r := Inserted(cs, p, item);
    var a := Names(r);
    var b := Inserted(Names(cs), p, item.Name());
    assert |a| == |b|;
    forall i | 0 <= i < |a|
      ensures a[i] == b[i]
    {
      assert a[i] == r[i].Name();
      if i < p {
        assert r[i] == cs[i];
      } else if i > p {
        assert r[i] == cs[i - 1];
      }
    }
  }

  lemma {:induction false} OrderingsInserted(cs: seq<ReadingListItem>, p: nat, item: ReadingListItem)
    requires p <= |cs|
    ensures Orderings(Inserted(cs, p, item)) == Inserted(Orderings(cs), p, item.GetOrdering())
  {
    var r := Inserted(cs, p, item);
    var a := Orderings(r);
    var b := Inserted(Orderings(cs), p, item.GetOrdering());
    assert |a| == |b|;
    forall i | 0 <= i < |a|
      ensures a[i] == b[i]
    {
      assert a[i] == r[i].GetOrdering();
      if i < p {
        assert r[i] == cs[i];
      } else if i > p {
        assert r[i] == cs[i - 1];
      }
    }
  }

  lemma InsertedNamesSorted(cs: seq<ReadingListItem>, p: nat, item: ReadingListItem, less: (string, string) -> bool)
    requires p <= |cs|
    requires forall j :: 0 <= j < p ==> less(cs[j].Name(), item.Name())
    requires p < |cs| ==> !less(cs[p].Name(), item.Name())
    ensures StrictWeakOrder(less) && SortedBy(Names(cs), less) ==> SortedBy(Names(Inserted(cs, p, item)), less)
  {
    var names := Names(cs);
    var v := item.Name();
    NamesInserted(cs, p, item);
    if StrictWeakOrder(less) && SortedBy(names, less) {
      assert forall j :: 0 <= j < p ==> less(names[j], v);
      InsertAtLowerBoundSorted(names, v, less, p);
    }
  }

  lemma InsertedOrderingsSorted(cs: seq<ReadingListItem>, p: nat, item: ReadingListItem)
    requires p <= |cs|
    requires forall j :: 0 <= j < p ==> cs[j].GetOrdering() < item.GetOrdering()
    requires p < |cs| ==> cs[p].GetOrdering() >= item.GetOrdering()
    ensures NonDecreasing(Orderings(cs)) ==> NonDecreasing(Orderings(Inserted(cs, p, item)))
  {
    var xs := Orderings(cs);
    var v := item.GetOrdering();
    OrderingsInserted(cs, p, item);
    if NonDecreasing(xs) {
      assert forall j :: 0 <= j < p ==> xs[j] < v;
      InsertByOrderingSorted(xs, v, p);
    }
  }

  /** The final position `moveChild` hands to `QList::move`: one less than the
      destination when moving down, since the moved child no longer sits above it. */
  function MoveTarget(sourceRow: int, destinationRow: int): (to: int)
    ensures destinationRow - 1 <= to <= destinationRow
    ensures to == destinationRow <==> destinationRow <= sourceRow
    ensures 0 <= sourceRow && 0 <= destinationRow ==> 0 <= to
  {
    destinationRow - (if sourceRow < destinationRow then 1 else 0)
  }

  /** The moved child lands at `MoveTarget`, immediately before the child that
      was at `destinationRow` (when that is another child), or last when the
      destination is the child count; the others keep their relative order. */
  lemma MoveChildPlacement<T>(s: seq<T>, sourceRow: int, destinationRow: int)
    requires 0 <= sourceRow < |s| && 0 <= destinationRow <= |s|
    ensures var to := MoveTarget(sourceRow, destinationRow);
      && 0 <= to < |s|
      && Moved(s, sourceRow, to)[to] == s[sourceRow]
      && (destinationRow < |s| && destinationRow != sourceRow ==> Moved(s, sourceRow, to)[to + 1] == s[destinationRow])
      && (destinationRow == |s| ==> to == |s| - 1)
      && RemovedAt(Moved(s, sourceRow, to), to) == RemovedAt(s, sourceRow)
      && multiset(Moved(s, sourceRow, to)) == multiset(s)
  {
    var to := MoveTarget(sourceRow, destinationRow);
    MovedProperties(s, sourceRow, to);
  }
}
