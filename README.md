# YACReaderLibrary navigation history and tree items, in Dafny

This project models two parts of the YACReader library application and proves properties of them.

1. **The navigation history** (`YACReaderHistoryController` and `YACReaderLibrarySourceContainer`).
   - The controller keeps the list of visited sources (folders and reading lists) and the cursor `currentFolderNavigation`.
   - It moves back and forward through the list.
   - A new visit cuts the list after the cursor and then appends.
   - It prunes entries that no longer exist, or that duplicate the current entry, on either side of the cursor.
   - It emits `enabledBackward`, `enabledForward` and `modelIndexSelected` signals.
2. **The tree items** of the side bar and of the folder tree (`ListItem`, `SpecialListItem`, `LabelItem`, `ReadingListItem`, `FolderItem`).
   - Their columns are lists of variants, read and written by column number behind bounds checks.
   - Their children are ordered lists.
   - A reading list places a new child by a linear scan: by natural name order under the root, by the `Ordering` column below it.
   - A folder places a new child at the `std::upper_bound` of its name.
   - Both support positional insert, removal and `row()`.
   - Only a reading list moves a child (`moveChild`, `QList::move` with its off-by-one adjustment of the destination).
   - Only a folder clears its children.

How it is organised:
- Each controller method and each child-list mutation is an imperative Dafny method on a class with the source's fields (`history`, `currentFolderNavigation`, `itemData`, `childItems`, `parent`).
- Each such method is proved to produce the state given by a pure function: `HistoryNavigation` for the history, `ChildList` for the list edits.
- The properties the source promises are proved as lemmas about those functions: pruning leaves worth-keeping neighbours, idempotence of the validations, the root folder staying first, sortedness kept by insertion, and `move` being a permutation.
- The signals are a ghost trace on the controller.
- Invalidation of a `QPersistentModelIndex` is something the item model does, outside the controller. The model represents it as an environment action, `InvalidateIndex`.

Files:
- `source_container.dfy`: module `SourceContainer`.
- `history_navigation.dfy`: module `HistoryNavigation`.
- `history_controller.dfy`: module `HistoryController`.
- `child_list.dfy`: module `ChildList`.
- `natural_order.dfy`: module `NaturalOrder`.
- `list_item.dfy`: module `ListItems`.
- `reading_list_item.dfy`: module `ReadingLists`.
- `folder_item.dfy`: module `FolderItems`.

Assumptions stated in the model:
- `naturalSortLessThanCI` is a parameter `less`. Sortedness facts assume only that it is a strict weak order.
- The column numbers `Id`, `Name` and `Ordering` are abstract constants. Nothing depends on their values, and nothing depends on their being distinct.
- A variant is null, a string or an integer. A conversion between kinds gives `""` or `0`.
- `ReadingListItem::isRoot()` is taken to mean "has no parent".
- `Q_ASSERT` conditions become preconditions. These are:
  - the current entry existing in `validateBackward` and `validateForward`, and so in `backward` and `forward`, which call them;
  - the source existing in `updateHistory`;
  - the current entry existing in `currentSourceContainer`;
  - the container existing in `getSourceModelIndex` and `getType`;
  - the item being the root in `topLevelInsertionPosition`.
- The assertion in the `YACReaderLibrarySourceContainer` constructor always holds, because a container made from an invalid index is a root. `MakeContainer` proves this.
- `clear()` must run before any other controller operation, because the constructor leaves the cursor uninitialised. `Controller.Valid()` enforces this.

Where files disagree:
- `reading_list_item.h` is out of date with `reading_list_item.cpp`. It declares `appendChild` and lacks `insertChild`, `moveChild`, `getOrdering` and the column constants. The model follows the `.cpp`.
- The comic reader's page render engine (`YACReader/render.h`) is declarations only, and `render.cpp` is not part of this model. No render behaviour is modelled.

## Model

| member | source | states |
|---|---|---|
| `SourceContainer.Invalidated` | YACReaderLibrary/yacreader_history_controller.h:34 | removing row `id` makes an index on that row invalid and leaves every other index as it was |
| `SourceContainer.DefaultContainer` | YACReaderLibrary/yacreader_history_controller.cpp:141-144 | the default container has no index, type `None`, is not a root, and so does not exist |
| `SourceContainer.MakeContainer` | YACReaderLibrary/yacreader_history_controller.cpp:146-150 | a container is a root exactly when its index is invalid; it keeps the type, keeps a valid index and stores an invalid one as the null index; it always exists when made, and a root carries the null index |
| `SourceContainer.InvalidIndexMakesRoot` | YACReaderLibrary/yacreader_history_controller.cpp:146-150 | every invalid index makes the same container, so a folder made from a stale index equals the root folder |
| `SourceContainer.RootFolder` | YACReaderLibrary/yacreader_history_controller.cpp:33 | the root folder entry exists, is a root and has type `Folder` |
| `SourceContainer.Equal` | YACReaderLibrary/yacreader_history_controller.cpp:164-167 | `==` holds exactly when the two containers are the same value (index, type and root flag) |
| `SourceContainer.NotEqual` | YACReaderLibrary/yacreader_history_controller.cpp:169-172 | `!=` is the negation of `==`, i.e. the containers differ as values |
| `SourceContainer.GetSourceModelIndex` | YACReaderLibrary/yacreader_history_controller.cpp:152-156 | callable only on an existing container; the index it gives is valid unless the container is a root |
| `SourceContainer.MakeContainerRoundTrip` | YACReaderLibrary/yacreader_history_controller.cpp:146-162 | `getSourceModelIndex()` and `getType()` give back what the constructor was given, an invalid index coming back as the null index |
| `SourceContainer.InvalidatedContainer` | YACReaderLibrary/yacreader_history_controller.cpp:174-182 | invalidation keeps type and root flag, never revives a container, never kills a root, kills a non-root container on that row, and keeps a root's index null |
| `HistoryNavigation.ScanBackward` | YACReaderLibrary/yacreader_history_controller.cpp:116-118 | the reverse `find_if`: the entry just before the result is worth keeping, and no entry from the result to the start point is |
| `HistoryNavigation.ScanForward` | YACReaderLibrary/yacreader_history_controller.cpp:132-133 | the forward `find_if`: the result is the first entry from the start point that is worth keeping, or the end |
| `HistoryNavigation.ValidatedBackward` | YACReaderLibrary/yacreader_history_controller.cpp:112-126 | keeps the prefix before the new cursor and everything from the old cursor on; the current entry stays current; all erased entries were not worth keeping; the new cursor is 0 or its predecessor exists and differs from the current entry |
| `HistoryNavigation.ValidatedForward` | YACReaderLibrary/yacreader_history_controller.cpp:128-137 | keeps the cursor and the prefix up to it, and keeps the tail after the erased range; all erased entries were not worth keeping; the cursor is last or its successor exists and differs from the current entry |
| `HistoryNavigation.KeepsMeaning` | YACReaderLibrary/yacreader_history_controller.cpp:99-110 | an entry is worth keeping only when it exists and differs from the current entry; a vanished entry or a copy of the current one is not |
| `HistoryNavigation.Cleared` | YACReaderLibrary/yacreader_history_controller.cpp:29-37 | a cleared history holds one entry, with the cursor at 0, and satisfies the invariant |
| `HistoryNavigation.SteppedBack` | YACReaderLibrary/yacreader_history_controller.cpp:39-51 | `backward()` leaves a well-formed state, never moves the cursor forward and never lengthens the history |
| `HistoryNavigation.BackwardSignals` | YACReaderLibrary/yacreader_history_controller.cpp:39-51 | a move selects the new entry first; forward-enabled is emitted exactly when there was an entry to move to; backward-disabled exactly when the cursor ends at 0 |
| `HistoryNavigation.SteppedForward` | YACReaderLibrary/yacreader_history_controller.cpp:53-65 | `forward()` leaves a well-formed state, moves the cursor forward by at most one and never lengthens the history |
| `HistoryNavigation.ForwardSignals` | YACReaderLibrary/yacreader_history_controller.cpp:53-65 | a move selects the new entry first; backward-enabled is emitted exactly when there was an entry to move to; forward-disabled exactly when the cursor ends last |
| `HistoryNavigation.VisitIgnored` | YACReaderLibrary/yacreader_history_controller.cpp:72-73 | the early return happens only for an invalid source, and under the invariant only when the history is the root folder alone |
| `HistoryNavigation.Visited` | YACReaderLibrary/yacreader_history_controller.cpp:67-89 | an ignored visit changes nothing; otherwise the entries up to the cursor stay, everything after them goes, and `source` ends last under the cursor, appended exactly when it differs from the current entry |
| `HistoryNavigation.VisitSignals` | YACReaderLibrary/yacreader_history_controller.cpp:67-89 | an ignored visit emits nothing; otherwise forward-disabled comes last, and backward-enabled is emitted exactly when `source` differs from the current entry |
| `HistoryNavigation.ValidatedCurrent` | YACReaderLibrary/yacreader_history_controller.cpp:10-27 | true, with nothing changed, exactly when the current entry exists; otherwise the current entry becomes a root of the same type; either way it exists afterwards |
| `HistoryNavigation.ValidateCurrentSignals` | YACReaderLibrary/yacreader_history_controller.cpp:10-27 | nothing when the current entry exists; otherwise backward-disabled exactly when the cursor ends at 0 and forward-disabled exactly when it ends last |
| `HistoryNavigation.Rooted` | YACReaderLibrary/yacreader_history_controller.cpp:12-16 | turning the current entry into a root makes it exist |
| `HistoryNavigation.InvalidatedNav` | YACReaderLibrary/yacreader_history_controller.h:34 | invalidation changes every entry as `InvalidatedContainer` does, and nothing else |
| `HistoryNavigation.ClearProperties` | YACReaderLibrary/yacreader_history_controller.cpp:29-37 | `clear()` leaves exactly the root folder under cursor 0 and emits backward-disabled and forward-disabled |
| `HistoryNavigation.ValidatedBackwardIdempotent` | YACReaderLibrary/yacreader_history_controller.h:68-70 | a second `validateBackward()` changes nothing: nothing removable is left before the cursor |
| `HistoryNavigation.ValidatedForwardIdempotent` | YACReaderLibrary/yacreader_history_controller.h:71-73 | a second `validateForward()` changes nothing: nothing removable is left after the cursor |
| `HistoryNavigation.ValidatedBackwardInvariant` | YACReaderLibrary/yacreader_history_controller.cpp:112-126 | `validateBackward()` keeps the cursor in range and the root folder first |
| `HistoryNavigation.ValidatedForwardInvariant` | YACReaderLibrary/yacreader_history_controller.cpp:128-137 | `validateForward()` keeps the cursor in range and the root folder first |
| `HistoryNavigation.SteppedBackProperties` | YACReaderLibrary/yacreader_history_controller.cpp:39-51 | `backward()` keeps the invariant; it moves back by one exactly when the validated list has an entry before the cursor, to an entry that exists and differs from the one left; on a move it emits `modelIndexSelected` of the new entry and forward-enabled; it emits backward-disabled exactly when it ends at 0 |
| `HistoryNavigation.SteppedForwardProperties` | YACReaderLibrary/yacreader_history_controller.cpp:53-65 | `forward()` mirrors `backward()`: it moves forward by at most one, to an existing, different entry; it emits the newly selected entry and backward-enabled; it emits forward-disabled exactly when it ends last |
| `HistoryNavigation.VisitedProperties` | YACReaderLibrary/yacreader_history_controller.cpp:67-89 | without the early return, `updateHistory` keeps the entries up to the cursor, drops the rest, ends with `source` last under the cursor, advances by one and grows the kept entries by one exactly when `source` differs from the current entry, and otherwise leaves the cursor where it was, keeps the invariant, and last emits forward-disabled |
| `HistoryNavigation.VisitStaleFolderFromRoot` | YACReaderLibrary/yacreader_history_controller.cpp:67-89 | visiting a folder made from a stale index, from the root with a forward entry, cuts the forward entry, appends nothing and only disables forward |
| `HistoryNavigation.VisitRootOnSingleEntry` | YACReaderLibrary/yacreader_history_controller.cpp:69-73 | a root source on a one-entry history changes nothing and emits nothing |
| `HistoryNavigation.RootedValidated` | YACReaderLibrary/yacreader_history_controller.cpp:12-26 | rooting the vanished current entry and validating both sides keeps the invariant and leaves both neighbours worth keeping or absent |
| `HistoryNavigation.RootedInvariant` | YACReaderLibrary/yacreader_history_controller.cpp:10-16 | only an entry after the first can have stopped existing, so rooting it keeps the root folder first |
| `HistoryNavigation.ValidatedCurrentProperties` | YACReaderLibrary/yacreader_history_controller.cpp:10-27 | returns true, changing and emitting nothing, exactly when the current entry exists; otherwise the current entry becomes a root of the same type, both neighbours are worth keeping or absent, the invariant holds, and forward-disabled is emitted exactly when the cursor ends last |
| `HistoryNavigation.InvalidatedNavInvariant` | YACReaderLibrary/yacreader_history_controller.cpp:174-182 | index invalidation keeps the invariant, because root entries go on existing |
| `HistoryController.Controller.constructor` | YACReaderLibrary/yacreader_history_controller.cpp:5-8 | a new controller has an empty history and is not usable before `clear()` |
| `HistoryController.Controller.Clear` | YACReaderLibrary/yacreader_history_controller.cpp:29-37 | the new state is `Cleared()` and the two disabling signals are appended |
| `HistoryController.Controller.ValidateBackward` | YACReaderLibrary/yacreader_history_controller.cpp:112-126 | the reverse-scan loop and erase produce `ValidatedBackward` of the old state, keep the invariant, and emit nothing |
| `HistoryController.Controller.ValidateForward` | YACReaderLibrary/yacreader_history_controller.cpp:128-137 | the forward-scan loop and erase produce `ValidatedForward` of the old state, keep the invariant, and emit nothing |
| `HistoryController.Controller.ValidateCurrentSourceContainer` | YACReaderLibrary/yacreader_history_controller.cpp:10-27 | result and new state are `ValidatedCurrent` of the old state; the signals are `ValidateCurrentSignals`; the invariant is kept |
| `HistoryController.Controller.RootCurrent` | YACReaderLibrary/yacreader_history_controller.cpp:12-16 | the vanished current entry is replaced by a root of the same type, which exists; the new state is `Rooted` of the old one |
| `HistoryController.Controller.Backward` | YACReaderLibrary/yacreader_history_controller.cpp:39-51 | the new state is `SteppedBack` of the old one and the signals are `BackwardSignals`; the invariant is kept |
| `HistoryController.Controller.Forward` | YACReaderLibrary/yacreader_history_controller.cpp:53-65 | the new state is `SteppedForward` of the old one and the signals are `ForwardSignals`; the invariant is kept |
| `HistoryController.Controller.UpdateHistory` | YACReaderLibrary/yacreader_history_controller.cpp:67-89 | the `removeLast` loop and the append produce `Visited` of the old state and the signals `VisitSignals`; the invariant is kept |
| `HistoryController.Controller.CurrentSourceContainer` | YACReaderLibrary/yacreader_history_controller.cpp:91-97 | returns the entry under the cursor, which must exist |
| `HistoryController.Controller.InvalidateIndex` | YACReaderLibrary/yacreader_history_controller.h:34 | the model invalidating a row changes the history as `InvalidatedNav` does and keeps the invariant |
| `ChildList.Inserted` | YACReaderLibrary/db/reading_list_item.cpp:173-177 | `QList::insert`: one longer, `x` at `pos`, earlier elements in place, later ones shifted by one, contents plus `x` |
| `ChildList.RemovedAt` | YACReaderLibrary/db/folder_item.cpp:64-67 | `QList::removeAt`: one shorter, earlier elements in place, later ones shifted back, contents minus the removed one |
| `ChildList.IndexOf` | YACReaderLibrary/db/reading_list_item.cpp:237-243 | `QList::indexOf`: -1 exactly when absent, otherwise the first index holding the element |
| `ChildList.RemovedOne` | YACReaderLibrary/db/reading_list_item.cpp:179-182 | `QList::removeOne`: an absent element changes nothing, otherwise the first occurrence is removed |
| `ChildList.Moved` | YACReaderLibrary/db/reading_list_item.cpp:184-189 | `QList::move` keeps the length and puts the element from `from` at `to` |
| `ChildList.RemovedOneProperties` | YACReaderLibrary/db/reading_list_item.cpp:179-182 | `removeOne` removes exactly one copy when there is one; what stays is the part before and the part after the first occurrence |
| `ChildList.MovedProperties` | YACReaderLibrary/db/reading_list_item.cpp:184-189 | `QList::move` is a permutation that puts the element at `to`, and removing it again gives the list without it, so the others keep their order |
| `ChildList.RemovedAtInserted` | YACReaderLibrary/db/reading_list_item.cpp:173-182 | removing what was just inserted gives the list back |
| `ChildList.IndexOfInserted` | YACReaderLibrary/db/reading_list_item.cpp:173-177 | an element not yet in the list is first found at the position it was inserted |
| `NaturalOrder.SortedIsPartitioned` | YACReaderLibrary/db/folder_item.cpp:23-31 | a sorted child list meets the partition precondition of `std::upper_bound` for every name |
| `NaturalOrder.UpperBoundIn` | YACReaderLibrary/db/folder_item.cpp:26-29 | binary search within a range keeps the partition point inside the range |
| `NaturalOrder.UpperBound` | YACReaderLibrary/db/folder_item.cpp:23-31 | `std::upper_bound`: no name before the result is above `v`, and every name from it on is |
| `NaturalOrder.UpperBoundUnique` | YACReaderLibrary/db/folder_item.cpp:23-31 | any position with the upper-bound property is the one `UpperBound` finds |
| `NaturalOrder.InsertAtUpperBoundSorted` | YACReaderLibrary/db/folder_item.cpp:18-31 | inserting at the upper bound keeps a sorted list sorted |
| `NaturalOrder.InsertAtLowerBoundSorted` | YACReaderLibrary/db/reading_list_item.cpp:152-160 | inserting before the first name not below the new one keeps a sorted list sorted |
| `NaturalOrder.InsertByOrderingSorted` | YACReaderLibrary/db/reading_list_item.cpp:162-171 | inserting before the first ordering not below the new one keeps orderings non-decreasing |
| `ListItems.ToULongLong` | YACReaderLibrary/db/reading_list_item.cpp:191-199 | `toULongLong()` fits in 64 bits and gives back an integer that already fits |
| `ListItems.Data` | YACReaderLibrary/db/reading_list_item.cpp:18-21 | `ListItem::data(column)` is defined only for a present column and gives the value stored in that column |
| `ListItems.WithColumn` | YACReaderLibrary/db/reading_list_item.cpp:100-105 | a guarded column write changes only that column, and only when it is present |
| `ListItems.TextRoundTrip` | YACReaderLibrary/db/reading_list_item.cpp:89-105 | writing a name and reading it back gives the name, or `""` on a too-short item |
| `ListItems.IntRoundTrip` | YACReaderLibrary/db/reading_list_item.cpp:217-230 | writing an ordering and reading it back gives the ordering, or 0 on a too-short item |
| `ListItems.OtherColumnsUnchanged` | YACReaderLibrary/db/reading_list_item.cpp:211-230 | a write to one column leaves every reading of every other column as it was |
| `ListItems.SpecialListItem.constructor` | YACReaderLibrary/db/reading_list_item.cpp:30-33 | the item holds the data given |
| `ListItems.SpecialListItem.GetType` | YACReaderLibrary/db/reading_list_item.cpp:47-57 | the `Id` column as an int, or 0 when absent |
| `ListItems.SpecialListItem.GetId` | YACReaderLibrary/db/reading_list_item.cpp:23-26 | the base `getId()` is always 0 |
| `ListItems.LabelItem.constructor` | YACReaderLibrary/db/reading_list_item.cpp:61-64 | the item holds the data given |
| `ListItems.LabelItem.ColorId` | YACReaderLibrary/db/reading_list_item.cpp:78-87 | the colour comes from the `Ordering` column, 0 when absent |
| `ListItems.LabelItem.Name` | YACReaderLibrary/db/reading_list_item.cpp:89-98 | the `Name` column as text, `""` when absent |
| `ListItems.LabelItem.SetName` | YACReaderLibrary/db/reading_list_item.cpp:100-105 | the new data is the guarded write; the name reads back; every other column is unchanged |
| `ListItems.LabelItem.GetIdAsWritten` | YACReaderLibrary/db/reading_list_item.cpp:107-116 | the id as the code computes it, through the `LabelColors` cast; it stays below 2^64 |
| `ListItems.LabelItem.GetId` | YACReaderLibrary/db/reading_list_item.cpp:107-116 | the intended id: the `Id` column as a `qulonglong`, 0 when absent, the stored value itself when it fits |
| `ListItems.ThroughLabelColors` | YACReaderLibrary/db/reading_list_item.cpp:110 | the cast through the enumeration keeps every value below 2^31 |
| `ListItems.LabelIdTruncated` | YACReaderLibrary/db/reading_list_item.cpp:107-116 | a label with id 2^32 gets id 0 from the code as written and 2^32 from the intended version |
| `ListItems.LabelIdAgreesBelow2To31` | YACReaderLibrary/db/reading_list_item.cpp:107-116 | below 2^31 the code as written and the intended version agree with the stored id |
| `ReadingLists.ReadingListItem.constructor` | YACReaderLibrary/db/reading_list_item.cpp:120-123 | the item holds the data and parent given and has no children |
| `ReadingLists.ReadingListItem.Child` | YACReaderLibrary/db/reading_list_item.cpp:142-145 | `child(row)` needs the row in range and gives the child at that row |
| `ReadingLists.ReadingListItem.GetId` | YACReaderLibrary/db/reading_list_item.cpp:191-199 | the `Id` column as a `qulonglong`, 0 when absent |
| `ReadingLists.ReadingListItem.Name` | YACReaderLibrary/db/reading_list_item.cpp:201-209 | the `Name` column as text, `""` when absent |
| `ReadingLists.ReadingListItem.SetName` | YACReaderLibrary/db/reading_list_item.cpp:211-215 | the new data is the guarded write; the name reads back; every other column is unchanged |
| `ReadingLists.ReadingListItem.GetOrdering` | YACReaderLibrary/db/reading_list_item.cpp:217-224 | the `Ordering` column as an int, 0 when absent |
| `ReadingLists.ReadingListItem.SetOrdering` | YACReaderLibrary/db/reading_list_item.cpp:226-230 | the new data is the guarded write; the ordering reads back; every other column is unchanged |
| `ReadingLists.ReadingListItem.Row` | YACReaderLibrary/db/reading_list_item.cpp:237-243 | 0 without a parent; otherwise -1 exactly when the parent does not list the item, else the first index where it does |
| `ReadingLists.ReadingListItem.TopLevelInsertionPosition` | YACReaderLibrary/db/reading_list_item.cpp:152-160 | the result is within the child count, every child before it has a name below the given one, and the child at it (if any) does not |
| `ReadingLists.ReadingListItem.InsertionPosition` | YACReaderLibrary/db/reading_list_item.cpp:162-171 | under the root, the result is the name position above; elsewhere, every child before it has a smaller ordering and the child at it (if any) an ordering at least the item's |
| `ReadingLists.ReadingListItem.InsertChildAt` | YACReaderLibrary/db/reading_list_item.cpp:173-177 | the children become the insertion of `item` at `pos`; `item`'s parent becomes this item; a new child's `row()` is `pos` |
| `ReadingLists.ReadingListItem.InsertChild` | YACReaderLibrary/db/reading_list_item.cpp:147-150 | the item is inserted at its insertion position, which has the properties above; children sorted by name (root) or by ordering (below) stay sorted |
| `ReadingLists.ReadingListItem.RemoveChild` | YACReaderLibrary/db/reading_list_item.cpp:179-182 | the children lose the first occurrence of the item, exactly one copy, and an absent item changes nothing |
| `ReadingLists.ReadingListItem.MoveChild` | YACReaderLibrary/db/reading_list_item.cpp:184-189 | the children become `QList::move` to the adjusted destination, a permutation of the old ones |
| `ReadingLists.Names` | YACReaderLibrary/db/reading_list_item.cpp:152-160 | the names of the children, one per child, in order |
| `ReadingLists.Orderings` | YACReaderLibrary/db/reading_list_item.cpp:162-171 | the orderings of the children, one per child, in order |
| `ReadingLists.NamesInserted` | YACReaderLibrary/db/reading_list_item.cpp:173-177 | inserting a child inserts its name at the same place in the names |
| `ReadingLists.OrderingsInserted` | YACReaderLibrary/db/reading_list_item.cpp:173-177 | inserting a child inserts its ordering at the same place in the orderings |
| `ReadingLists.InsertedNamesSorted` | YACReaderLibrary/db/reading_list_item.cpp:147-160 | inserting a top-level list at its name position keeps the names sorted |
| `ReadingLists.InsertedOrderingsSorted` | YACReaderLibrary/db/reading_list_item.cpp:162-171 | inserting a sublist at its ordering position keeps the orderings non-decreasing |
| `ReadingLists.MoveTarget` | YACReaderLibrary/db/reading_list_item.cpp:184-189 | the destination goes down by one exactly when it lies after the source, and stays non-negative for non-negative rows |
| `ReadingLists.MoveChildPlacement` | YACReaderLibrary/db/reading_list_item.cpp:184-189 | the moved child lands in range: just before the child that was at the destination, or last when the destination is the count; the others keep their relative order; a permutation |
| `FolderItems.FolderName` | YACReaderLibrary/db/folder_item.cpp:25 | `data(1).toString()`: the text of column 1, `""` when absent |
| `FolderItems.FolderItem.constructor` | YACReaderLibrary/db/folder_item.cpp:7-11 | the folder holds the data and parent given and has no children |
| `FolderItems.FolderItem.InsertionPosition` | YACReaderLibrary/db/folder_item.cpp:23-31 | the upper bound: within the child count, no child before it has a name above the item's, and every child from it on does |
| `FolderItems.FolderItem.InsertChildAt` | YACReaderLibrary/db/folder_item.cpp:33-37 | the children become the insertion of `item` at `pos`; `item`'s parent becomes this folder; a new child's `row()` is `pos` |
| `FolderItems.FolderItem.InsertChild` | YACReaderLibrary/db/folder_item.cpp:18-21 | the item is inserted at its upper bound, after every child of equal name, and sorted children stay sorted |
| `FolderItems.FolderItem.Child` | YACReaderLibrary/db/folder_item.cpp:39-42 | `child(row)` is total: null exactly when the row is out of range, otherwise that child |
| `FolderItems.FolderItem.Data` | YACReaderLibrary/db/folder_item.cpp:54-57 | `data(column)` is total: the value in range, null outside |
| `FolderItems.FolderItem.SetData` | YACReaderLibrary/db/folder_item.cpp:59-62 | needs the column in range; afterwards `data(column)` is the value and every other column reads as before |
| `FolderItems.FolderItem.RemoveChild` | YACReaderLibrary/db/folder_item.cpp:64-67 | needs the index in range; the children lose exactly that child |
| `FolderItems.FolderItem.ClearChildren` | YACReaderLibrary/db/folder_item.cpp:69-73 | no children remain |
| `FolderItems.FolderItem.Row` | YACReaderLibrary/db/folder_item.cpp:85-91 | 0 without a parent; otherwise -1 exactly when the parent does not list the folder, else the first index where it does |
| `FolderItems.FolderNames` | YACReaderLibrary/db/folder_item.cpp:23-31 | the names of the children, one per child, in order |
| `FolderItems.FolderNamesInserted` | YACReaderLibrary/db/folder_item.cpp:33-37 | inserting a folder inserts its name at the same place in the names |
| `FolderItems.InsertedFolderNamesSorted` | YACReaderLibrary/db/folder_item.cpp:18-31 | inserting a folder at the upper bound of its name keeps sorted names sorted |

## Left out

- The page render engine of the comic reader (`YACReader/render.h`): declarations only. Its bodies are not part of this model.
- `reading_list_model.h` and the side-bar widgets: model plumbing, SQL and UI events, with no bodies to model.
- `getIcon` of every item, and `ReadingListSeparatorItem`: icon resources and an empty item, with nothing to prove.
- Logging (`QLOG_WARN`): the warnings have no effect on the state.
- `qDeleteAll` in `clearChildren` and the destructors: memory is not modelled. `ClearChildren` only empties the list.
- `QVariant` conversions across kinds (parsing a string as a number, printing a number as text): such a conversion gives `""` or `0`.
- ListItems.SpecialListItem.GetType: returns the raw int. The cast to `TypeSpecialList` is not modelled, since that enumeration is not part of this model. The 32-bit width of `QVariant::toInt()` is not modelled either (see `ToInt` below).
- ListItems.ToInt: `QVariant::toInt()` gives a 32-bit `int`; the model returns the stored integer unbounded. How `QVariant` narrows a wider stored value is Qt behaviour outside these files.
- ReadingLists.ReadingListItem.GetOrdering: reads the ordering through `ToInt`, so it is unbounded where the source gives a 32-bit `int`.
- ReadingLists.ReadingListItem.SetOrdering: takes an unbounded `int` where the source takes a 32-bit `int`; its round trip with `GetOrdering` holds for every value, including those outside 32 bits.
- ListItems.LabelItem.ColorId: reads the colour through `ToInt`, so it is unbounded where the source gives a 32-bit value cast to `LabelColors`.
- Qt's equality of two invalidated persistent indexes is not modelled. Equality is structural.
- HistoryController.Controller.UpdateHistory: does not require `source` to satisfy `Constructible` (a root carries the null index). Every container the constructors and invalidation produce satisfies it, but a container written as a literal root with a persistent index is not excluded.
- Reentrancy through signals is not modelled. The signals are a ghost trace appended during each method, which assumes that no slot connected to `modelIndexSelected`, `enabledBackward` or `enabledForward` calls back into the controller before the method returns.
- `naturalSortLessThanCI` is not modelled. It is an arbitrary parameter, and the sortedness results assume a strict weak order.
- `SourceContainer.GetType`, `ChildCount`, `ColumnCount`, `Children`, `Parent` and `GetData`: plain accessors with no property beyond their value. They carry no contract.
- ReadingLists.ReadingListItem.InsertChild: states sortedness only as "sorted before implies sorted after". The source does not keep or check sortedness itself.
- Q_ASSERT checks are not modelled as run-time failures. They are preconditions instead.

## Findings

| source | as written | input that shows it | evidently intended | confidence | as-written member | corrected member |
|---|---|---|---|---|---|---|
| YACReaderLibrary/db/reading_list_item.cpp:107-116 | `getId()` returns the `qulonglong` id cast through the `YACReader::LabelColors` enumeration, a 32-bit int type, so only the low 32 bits survive | a label whose `Id` column holds 4294967296 (2^32) gets id 0 | return the stored id as a `qulonglong`, as `ReadingListItem::getId()` does | low, not executed (the width of `LabelColors` is assumed 32 bits, and its signedness assumed signed; the 2^32 input gives 0 either way) | `ListItems.LabelItem.GetIdAsWritten` | `ListItems.LabelItem.GetId` |
