/** `FolderItem`: a node of the folder tree of the library. Its children are
    kept sorted by folder name in the natural order, a new child going after
    every child of equal name (`std::upper_bound`). */
module FolderItems {
  import opened ListItems
  import opened ChildList
  import opened NaturalOrder

  /** The folder model keeps a folder's name in column 1. */
  const FolderNameColumn: nat := 1

  /** `data(1).toString()`: the name used to order folders, "" when absent. */
  function FolderName(data: seq<Variant>): (name: string)
    ensures |data| > FolderNameColumn ==> name == ToText(data[FolderNameColumn])
    ensures |data| <= FolderNameColumn ==> name == ""
  {
    TextColumn(data, FolderNameColumn)
  }

  class FolderItem {
    var itemData: seq<Variant>
    var parentItem: FolderItem?
    var childItems: seq<FolderItem>

    constructor (data: seq<Variant>, parent: FolderItem?)
      ensures itemData == data && parentItem == parent && childItems == []
    {
      parentItem := parent;
      itemData := data;
      childItems := [];
    }

    function Name(): string
      reads this`itemData
    {
      FolderName(itemData)
    }

    /** `insertionPosition(item)`: `std::upper_bound` of the item's name among
        the children's names, which needs the children partitioned around it. */
    function InsertionPosition(item: FolderItem, less: (string, string) -> bool): (pos: nat)
      reads this`childItems, childItems`itemData, item`itemData
      requires PartitionedBy(FolderNames(childItems), item.Name(), less)
      ensures pos <= |childItems|
      ensures forall i :: 0 <= i < pos ==> !less(item.Name(), childItems[i].Name())
      ensures forall i :: pos <= i < |childItems| ==> less(item.Name(), childItems[i].Name())
    {
      var names := FolderNames(childItems);
      assert forall i :: 0 <= i < |childItems| ==> names[i] == childItems[i].Name();
      UpperBound(names, item.Name(), less)
    }

    /** `insertChild(item, pos)`: `item` is put at `pos` and adopts this folder
        as its parent. */
    method InsertChildAt(item: FolderItem, pos: int)
      requires 0 <= pos <= |childItems|
      modifies this`childItems, item`parentItem
      ensures childItems == Inserted(old(childItems), pos, item)
      ensures item.parentItem == this
      ensures item !in old(childItems) ==> item.Row() == pos
    {
      item.parentItem := this;
      childItems := Inserted(childItems, pos, item);
      if item !in old(childItems) {
        IndexOfInserted(old(childItems), pos, item);
      }
    }

    /** `insertChild(item)`: `item` goes to its upper bound, which keeps sorted
        children sorted. */
    method InsertChild(item: FolderItem, less: (string, string) -> bool)
      requires PartitionedBy(FolderNames(childItems), item.Name(), less)
      modifies this`childItems, item`parentItem
      ensures childItems == Inserted(old(childItems), old(InsertionPosition(item, less)), item)
      ensures item.parentItem == this
      ensures old(SortedBy(FolderNames(childItems), less)) && StrictWeakOrder(less) ==> SortedBy(FolderNames(childItems), less)
    {
      ghost var before := childItems;
      var p := InsertionPosition(item, less);
      InsertedFolderNamesSorted(before, p, item, less);
      ghost var names := FolderNames(Inserted(before, p, item));
      InsertChildAt(item, p);
      assert FolderNames(childItems) == names;
    }

    /** `child(row)`: `QList::value`, so a row out of range gives no folder. */
    function Child(row: int): (c: FolderItem?)
      reads this`childItems
      ensures c == null <==> !(0 <= row < |childItems|)
      ensures c != null ==> c == childItems[row]
    {
      if 0 <= row < |childItems| then childItems[row] else null
    }

    function ChildCount(): nat
      reads this`childItems
    {
      |childItems|
    }

    function ColumnCount(): nat
      reads this`itemData
    {
      |itemData|
    }

    /** `data(column)`: `QList::value`, so a column out of range reads as null. */
    function Data(column: int): (v: Variant)
      reads this`itemData
      ensures 0 <= column < |itemData| ==> v == itemData[column]
      ensures !(0 <= column < |itemData|) ==> v == Null
    {
      if 0 <= column < |itemData| then itemData[column] else Null
    }

    /** `setData(column, value)`: `QList::operator[]`, so the column must exist. */
    method SetData(column: int, value: Variant)
      requires 0 <= column < |itemData|
      modifies this`itemData
      ensures itemData == old(itemData)[column := value]
      ensures Data(column) == value
      ensures forall c :: c != column ==> Data(c) == old(Data(c))
    {
      itemData := itemData[column := value];
    }

    /** `removeChild(childIndex)`: `QList::removeAt`, so the index must exist. */
    method RemoveChild(childIndex: int)
      requires 0 <= childIndex < |childItems|
      modifies this`childItems
      ensures childItems == RemovedAt(old(childItems), childIndex)
    {
      childItems := RemovedAt(childItems, childIndex);
    }

    method ClearChildren()
      modifies this`childItems
      ensures childItems == []
    {
      childItems := [];
    }

    function Children(): seq<FolderItem>
      reads this`childItems
    {
      childItems
    }

    function Parent(): FolderItem?
      reads this`parentItem
    {
      parentItem
    }

    function GetData(): seq<Variant>
      reads this`itemData
    {
      itemData
    }

    /** `row()`: where this folder stands among its parent's children (-1 if
        the parent does not list it), or 0 without a parent. */
    function Row(): (r: int)
      reads this`parentItem, parentItem
      ensures parentItem == null ==> r == 0
      ensures parentItem != null ==> (r == -1 <==> this !in parentItem.childItems)
      ensures parentItem != null && r >= 0 ==> r < |parentItem.childItems| && parentItem.childItems[r] == this && this !in parentItem.childItems[..r]
    {
      if parentItem != null then IndexOf(parentItem.childItems, this) else 0
    }
  }

  /** The names of a list of folders. */
  function FolderNames(cs: seq<FolderItem>): (names: seq<string>)
    reads cs`itemData
    ensures |names| == |cs|
    ensures forall i {:trigger names[i]} :: 0 <= i < |cs| ==> names[i] == cs[i].Name()
    decreases |cs|
  {
    if cs == [] then [] else [cs[0].Name()] + FolderNames(cs[1..])
  }

  lemma {:induction false} FolderNamesInserted(cs: seq<FolderItem>, p: nat, item: FolderItem)
    requires p <= |cs|
    ensures FolderNames(Inserted(cs, p, item)) == Inserted(FolderNames(cs), p, item.Name())
  {
    var r := Inserted(cs, p, item);
    var a := FolderNames(r);
    var b := Inserted(FolderNames(cs), p, item.Name());
    assert |a| == |b|;
    forall i | 0 <= i < |a|
      ensures a[i] == b[i]
    {
      assert a[i] == r[i].Name();
      if i < p {
        assert r[i] == cs[i];
      } else if i > p {
        assert r[i] == cs[i - 1];
      }
    }
  }

  /** Inserting a folder at the upper bound of its name keeps sorted children
      sorted. */
  lemma InsertedFolderNamesSorted(cs: seq<FolderItem>, p: nat, item: FolderItem, less: (string, string) -> bool)
    requires PartitionedBy(FolderNames(cs), item.Name(), less)
    requires p == UpperBound(FolderNames(cs), item.Name(), less)
    ensures StrictWeakOrder(less) && SortedBy(FolderNames(cs), less) ==> SortedBy(FolderNames(Inserted(cs, p, item)), less)
  {
    var names := FolderNames(cs);
    FolderNamesInserted(cs, p, item);
    if StrictWeakOrder(less) && SortedBy(names, less) {
      InsertAtUpperBoundSorted(names, item.Name(), less);
    }
  }
}
