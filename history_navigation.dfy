/** The navigation history as a value: the visited containers and the cursor
    `currentFolderNavigation`, with one function per controller operation that
    gives the new state and one that gives the signals it emits. The
    controller class in module HistoryController is proved against these. */
module HistoryNavigation {
  import opened SourceContainer

  /** The signals the controller emits. */
  datatype Signal =
    | EnabledForward(enabled: bool)
    | EnabledBackward(enabled: bool)
    | ModelIndexSelected(source: Container)

  /** The list of visited containers and the index of the current one. */
  datatype Nav = Nav(history: seq<Container>, cursor: int)

  /** The cursor points into the list. */
  predicate WellFormed(n: Nav)
  {
    0 <= n.cursor < |n.history|
  }

  /** What every operation after `clear()` keeps: the cursor is in range and
      the root folder is the first entry. */
  predicate Invariant(n: Nav)
  {
    WellFormed(n) && n.history[0] == RootFolder()
  }

  function Current(n: Nav): Container
    requires WellFormed(n)
  {
    n.history[n.cursor]
  }

  /** The predicate `ExistsAndNotEqualToCurrent`: an entry worth keeping next to
      the current one. */
  predicate Keeps(s: Container, current: Container)
  {
    StillExists(s) && NotEqual(s, current)
  }

  /** The backward `find_if` of `validateBackward`, started just before index `j`:
      one past the index of the nearest entry before `j` that is worth keeping
      next to `h[cur]`, or 0 if there is none. */
  function ScanBackward(h: seq<Container>, cur: nat, j: nat): (k: nat)
    requires cur < |h| && j <= cur
    ensures k <= j
    ensures k > 0 ==> Keeps(h[k - 1], h[cur])
    ensures forall i :: k <= i < j ==> !Keeps(h[i], h[cur])
    decreases j
  {
    if j == 0 then 0
    else if Keeps(h[j - 1], h[cur]) then j
    else ScanBackward(h, cur, j - 1)
  }

  /** The forward `find_if` of `validateForward`, started at index `j`: the index
      of the first entry from `j` on that is worth keeping next to `h[cur]`, or
      `|h|` if there is none. */
  function ScanForward(h: seq<Container>, cur: nat, j: nat): (f: nat)
    requires cur < j <= |h|
    ensures j <= f <= |h|
    ensures f < |h| ==> Keeps(h[f], h[cur])
    ensures forall i :: j <= i < f ==> !Keeps(h[i], h[cur])
    decreases |h| - j
  {
    if j == |h| then j
    else if Keeps(h[j], h[cur]) then j
    else ScanForward(h, cur, j + 1)
  }

  /** `validateBackward()`: erase the entries strictly between the nearest
      earlier entry worth keeping (or the start of the list) and the cursor,
      and move the cursor down over the erased range. */
  function ValidatedBackward(n: Nav): (r: Nav)
    requires WellFormed(n)
    ensures WellFormed(r) && r.cursor <= n.cursor
    ensures Current(r) == Current(n)
    ensures r.history[..r.cursor] == n.history[..r.cursor]
    ensures r.history[r.cursor..] == n.history[n.cursor..]
    ensures forall i :: r.cursor <= i < n.cursor ==> !Keeps(n.history[i], Current(n))
    ensures r.cursor == 0 || Keeps(r.history[r.cursor - 1], Current(r))
  {
    var k := ScanBackward(n.history, n.cursor, n.cursor);
    var h := n.history[..k] + n.history[n.cursor..];
    assert h[k..] == n.history[n.cursor..];
    Nav(h, k)
  }

  /** `validateForward()`: erase the entries after the cursor up to the first
      one worth keeping; the cursor and everything up to it stay. */
  function ValidatedForward(n: Nav): (r: Nav)
    requires WellFormed(n)
    ensures WellFormed(r) && r.cursor == n.cursor && |r.history| <= |n.history|
    ensures r.history[..r.cursor + 1] == n.history[..n.cursor + 1]
    ensures forall i :: n.cursor < i < n.cursor + 1 + |n.history| - |r.history| ==> !Keeps(n.history[i], Current(n))
    ensures r.history[r.cursor + 1..] == n.history[n.cursor + 1 + |n.history| - |r.history|..]
    ensures r.cursor == |r.history| - 1 || Keeps(r.history[r.cursor + 1], Current(r))
  {
    var f := ScanForward(n.history, n.cursor, n.cursor + 1);
    var h := n.history[..n.cursor + 1] + n.history[f..];
    assert h[..n.cursor + 1] == n.history[..n.cursor + 1];
    assert h[n.cursor + 1..] == n.history[f..];
    Nav(h, n.cursor)
  }

  /** `clear()`: the root folder alone. */
  function Cleared(): (r: Nav)
    ensures Invariant(r) && r.cursor == 0 && |r.history| == 1
  {
    Nav([RootFolder()], 0)
  }

  function ClearSignals(): seq<Signal>
  {
    [EnabledBackward(false), EnabledForward(false)]
  }

  /** `backward()`: validate backward, then step back if there is an entry before. */
  function SteppedBack(n: Nav): (r: Nav)
    requires WellFormed(n)
    ensures WellFormed(r) && r.cursor <= n.cursor && |r.history| <= |n.history|
  {
    var v := ValidatedBackward(n);
    if v.cursor > 0 then Nav(v.history, v.cursor - 1) else v
  }

  function BackwardSignals(n: Nav): (s: seq<Signal>)
    requires WellFormed(n)
    ensures EnabledForward(true) in s <==> ValidatedBackward(n).cursor > 0
    ensures EnabledBackward(false) in s <==> SteppedBack(n).cursor == 0
    ensures ValidatedBackward(n).cursor > 0 ==> s[0] == ModelIndexSelected(Current(SteppedBack(n)))
  {
    var v := ValidatedBackward(n);
    var r := SteppedBack(n);
    (if v.cursor > 0 then [ModelIndexSelected(r.history[r.cursor]), EnabledForward(true)] else [])
    + (if r.cursor == 0 then [EnabledBackward(false)] else [])
  }

  /** `forward()`: validate forward, then step forward if there is an entry after. */
  function SteppedForward(n: Nav): (r: Nav)
    requires WellFormed(n)
    ensures WellFormed(r) && n.cursor <= r.cursor <= n.cursor + 1 && |r.history| <= |n.history|
  {
    var v := ValidatedForward(n);
    if v.cursor < |v.history| - 1 then Nav(v.history, v.cursor + 1) else v
  }

  function ForwardSignals(n: Nav): (s: seq<Signal>)
    requires WellFormed(n)
    ensures var v := ValidatedForward(n);
      EnabledBackward(true) in s <==> v.cursor < |v.history| - 1
    ensures EnabledForward(false) in s <==> SteppedForward(n).cursor == |SteppedForward(n).history| - 1
    ensures var v := ValidatedForward(n);
      v.cursor < |v.history| - 1 ==> s[0] == ModelIndexSelected(Current(SteppedForward(n)))
  {
    var v := ValidatedForward(n);
    var r := SteppedForward(n);
    (if v.cursor < |v.history| - 1 then [ModelIndexSelected(r.history[r.cursor]), EnabledBackward(true)] else [])
    + (if r.cursor == |r.history| - 1 then [EnabledForward(false)] else [])
  }

  /** The early return of `updateHistory`: visiting a root source when only the
      root is in the history. */
  predicate VisitIgnored(n: Nav, source: Container)
    ensures VisitIgnored(n, source) ==> !IsValid(source.sourceModelIndex)
    ensures Invariant(n) && VisitIgnored(n, source) ==> n.history == [RootFolder()]
  {
    !IsValid(source.sourceModelIndex) && |n.history| == 1
  }

  /** `updateHistory(source)`: drop the entries after the cursor, then append
      `source` and advance unless it equals the current entry. */
  function Visited(n: Nav, source: Container): (r: Nav)
    requires WellFormed(n)
    ensures WellFormed(r)
    ensures VisitIgnored(n, source) ==> r == n
    ensures !VisitIgnored(n, source) ==>
      && |r.history| == n.cursor + 1 + (if source != Current(n) then 1 else 0)
      && r.history[..n.cursor + 1] == n.history[..n.cursor + 1]
      && r.cursor == |r.history| - 1
      && r.history[r.cursor] == source
  {
    if VisitIgnored(n, source) then n
    else
      var kept := n.history[..n.cursor + 1];
      if NotEqual(source, kept[n.cursor]) then Nav(kept + [source], n.cursor + 1)
      else Nav(kept, n.cursor)
  }

  function VisitSignals(n: Nav, source: Container): (s: seq<Signal>)
    requires WellFormed(n)
    ensures VisitIgnored(n, source) ==> s == []
    ensures !VisitIgnored(n, source) ==>
      && |s| > 0 && s[|s| - 1] == EnabledForward(false)
      && (EnabledBackward(true) in s <==> source != Current(n))
  {
    if VisitIgnored(n, source) then []
    else
      (if NotEqual(source, Current(n)) then [EnabledBackward(true)] else []) + [EnabledForward(false)]
  }

  /** The current entry turned into a root: index cleared, type kept. */
  function Rooted(n: Nav): (r: Nav)
    requires WellFormed(n)
    ensures WellFormed(r) && StillExists(Current(r))
  {
    var c := Current(n);
    Nav(n.history[n.cursor := c.(sourceModelIndex := NoIndex, isRootIndex := true)], n.cursor)
  }

  /** `validateCurrentSourceContainer()`: the result and the new state. */
  function ValidatedCurrent(n: Nav): (r: (bool, Nav))
    requires WellFormed(n)
    ensures r.0 <==> StillExists(Current(n))
    ensures r.0 ==> r.1 == n
    ensures WellFormed(r.1) && StillExists(Current(r.1))
    ensures !r.0 ==> Current(r.1) == Current(n).(sourceModelIndex := NoIndex, isRootIndex := true)
  {
    if StillExists(Current(n)) then (true, n)
    else (false, ValidatedForward(ValidatedBackward(Rooted(n))))
  }

  function ValidateCurrentSignals(n: Nav): (s: seq<Signal>)
    requires WellFormed(n)
    ensures StillExists(Current(n)) ==> s == []
    ensures var r := ValidatedCurrent(n).1;
      !StillExists(Current(n)) ==>
        && (EnabledBackward(false) in s <==> r.cursor == 0)
        && (EnabledForward(false) in s <==> r.cursor == |r.history| - 1)
  {
    if StillExists(Current(n)) then []
    else
      var b := ValidatedBackward(Rooted(n));
      var f := ValidatedForward(b);
      var back := if b.cursor == 0 then [EnabledBackward(false)] else [];
      var forward := if f.cursor == |f.history| - 1 then [EnabledForward(false)] else [];
      assert f == ValidatedCurrent(n).1;
      assert EnabledBackward(false) !in forward && EnabledForward(false) !in back;
      back + forward
  }

  /** The environment removing model row `id`: every stored copy of that
      persistent index becomes invalid. */
  function InvalidatedNav(n: Nav, id: nat): (r: Nav)
    ensures |r.history| == |n.history| && r.cursor == n.cursor
    ensures forall i :: 0 <= i < |n.history| ==> r.history[i] == InvalidatedContainer(n.history[i], id)
  {
    Nav(seq(|n.history|, i requires 0 <= i < |n.history| => InvalidatedContainer(n.history[i], id)), n.cursor)
  }

  // ---------------------------------------------------------------------------
  // Properties of the operations

  /** An entry is worth keeping only when it still exists and is not a copy
      of the current entry; the two find_if scans skip everything else. */
  lemma KeepsMeaning(s: Container, current: Container)
    ensures Keeps(s, current) ==> StillExists(s) && s != current
    ensures !StillExists(s) ==> !Keeps(s, current)
    ensures !Keeps(current, current)
  {
  }

  /** `clear()` leaves the root folder alone under the cursor and disables both
      directions. */
  lemma ClearProperties()
    ensures Cleared().history == [MakeContainer(NoIndex, Folder)] && Cleared().cursor == 0
    ensures EnabledBackward(false) in ClearSignals() && EnabledForward(false) in ClearSignals()
  {
  }

  /** A second `validateBackward()` changes nothing. */
  lemma {:induction false} ValidatedBackwardIdempotent(n: Nav)
    requires WellFormed(n)
    ensures ValidatedBackward(ValidatedBackward(n)) == ValidatedBackward(n)
  {
    var v := ValidatedBackward(n);
    assert ScanBackward(v.history, v.cursor, v.cursor) == v.cursor;
    assert v.history[..v.cursor] + v.history[v.cursor..] == v.history;
  }

  /** A second `validateForward()` changes nothing. */
  lemma {:induction false} ValidatedForwardIdempotent(n: Nav)
    requires WellFormed(n)
    ensures ValidatedForward(ValidatedForward(n)) == ValidatedForward(n)
  {
    var v := ValidatedForward(n);
    assert ScanForward(v.history, v.cursor, v.cursor + 1) == v.cursor + 1;
    assert v.history[..v.cursor + 1] + v.history[v.cursor + 1..] == v.history;
  }

  /** Both validations keep the root folder first. */
  lemma ValidatedBackwardInvariant(n: Nav)
    requires Invariant(n)
    ensures Invariant(ValidatedBackward(n))
  {
    var r := ValidatedBackward(n);
    if r.cursor == 0 {
      if n.cursor > 0 {
        assert !Keeps(n.history[0], Current(n));
      }
    } else {
      assert r.history[0] == r.history[..r.cursor][0];
    }
  }

  lemma ValidatedForwardInvariant(n: Nav)
    requires Invariant(n)
    ensures Invariant(ValidatedForward(n))
  {
    var r := ValidatedForward(n);
    assert r.history[0] == r.history[..r.cursor + 1][0];
  }

  /** `backward()` keeps the invariant; it steps back by one exactly when the
      validated history has an entry before the cursor, to an entry that still
      exists and differs from the one it left; it emits the newly selected
      entry on a move, and disables the backward direction exactly when it ends
      at the start. */
  lemma SteppedBackProperties(n: Nav)
    requires Invariant(n)
    ensures Invariant(SteppedBack(n))
    ensures SteppedBack(n).history == ValidatedBackward(n).history
    ensures var v := ValidatedBackward(n);
      if v.cursor > 0 then
        && SteppedBack(n).cursor == v.cursor - 1
        && Keeps(Current(SteppedBack(n)), Current(n))
        && ModelIndexSelected(Current(SteppedBack(n))) in BackwardSignals(n)
        && EnabledForward(true) in BackwardSignals(n)
      else SteppedBack(n) == v && BackwardSignals(n) == [EnabledBackward(false)]
    ensures EnabledBackward(false) in BackwardSignals(n) <==> SteppedBack(n).cursor == 0
  {
    ValidatedBackwardInvariant(n);
  }

  /** `forward()`: the mirror image of `backward()`. */
  lemma SteppedForwardProperties(n: Nav)
    requires Invariant(n)
    ensures Invariant(SteppedForward(n))
    ensures SteppedForward(n).history == ValidatedForward(n).history
    ensures var v := ValidatedForward(n);
      if v.cursor < |v.history| - 1 then
        && SteppedForward(n).cursor == v.cursor + 1
        && Keeps(Current(SteppedForward(n)), Current(n))
        && ModelIndexSelected(Current(SteppedForward(n))) in ForwardSignals(n)
        && EnabledBackward(true) in ForwardSignals(n)
      else SteppedForward(n) == v && ForwardSignals(n) == [EnabledForward(false)]
    ensures EnabledForward(false) in ForwardSignals(n) <==> SteppedForward(n).cursor == |SteppedForward(n).history| - 1
  {
    ValidatedForwardInvariant(n);
  }

  /** `updateHistory(source)`, when it does not return early: it keeps the
      entries up to the cursor, drops the rest, ends with `source` under the
      cursor at the end of the list, and disables the forward direction; it
      appends only when `source` differs from the current entry. */
  lemma VisitedProperties(n: Nav, source: Container)
    requires Invariant(n) && StillExists(source)
    requires !VisitIgnored(n, source)
    ensures var r := Visited(n, source);
      && Invariant(r)
      && r.cursor == |r.history| - 1
      && r.history[r.cursor] == source
      && r.history[..n.cursor + 1] == n.history[..n.cursor + 1]
      && |r.history| == n.cursor + 1 + (if source != Current(n) then 1 else 0)
      && (r.cursor == n.cursor + 1 <==> source != Current(n))
      && (source == Current(n) ==> r.cursor == n.cursor)
      && VisitSignals(n, source)[|VisitSignals(n, source)| - 1] == EnabledForward(false)
  {
    var r := Visited(n, source);
    assert r.history[0] == r.history[..n.cursor + 1][0];
  }

  /** A root source on a history that holds only the root changes nothing and
      emits nothing. */
  lemma VisitRootOnSingleEntry(n: Nav, t: SourceType)
    requires Invariant(n) && |n.history| == 1
    ensures Visited(n, MakeContainer(NoIndex, t)) == n
    ensures VisitSignals(n, MakeContainer(NoIndex, t)) == []
  {
  }

  /** A folder made from a stale index is the root folder, so visiting it from
      the root cuts the forward entries and appends nothing. */
  lemma VisitStaleFolderFromRoot(a: Container, k: nat)
    ensures var source := MakeContainer(Persistent(k, false), Folder);
      && source == RootFolder()
      && Visited(Nav([RootFolder(), a], 0), source) == Nav([RootFolder()], 0)
      && VisitSignals(Nav([RootFolder(), a], 0), source) == [EnabledForward(false)]
  {
    var n := Nav([RootFolder(), a], 0);
    assert n.history[..1] == [RootFolder()];
  }

  /** Only an entry after the first can stop existing, so turning it into a
      root keeps the root folder first. */
  lemma RootedInvariant(n: Nav)
    requires Invariant(n) && !StillExists(Current(n))
    ensures Invariant(Rooted(n))
  {
    assert n.cursor != 0;
  }

  /** `validateCurrentSourceContainer()` answers true, changing nothing, exactly
      when the current entry still exists; otherwise the current entry becomes
      a root of the same type, both neighbours of the cursor are worth keeping
      (or absent), and the root folder is still first. */
  lemma ValidatedCurrentProperties(n: Nav)
    requires Invariant(n)
    ensures ValidatedCurrent(n).0 <==> StillExists(Current(n))
    ensures ValidatedCurrent(n).0 ==> ValidatedCurrent(n).1 == n && ValidateCurrentSignals(n) == []
    ensures var r := ValidatedCurrent(n).1;
      && Invariant(r)
      && (!ValidatedCurrent(n).0 ==>
            && Current(r) == Current(n).(sourceModelIndex := NoIndex, isRootIndex := true)
            && (r.cursor == 0 || Keeps(r.history[r.cursor - 1], Current(r)))
            && (r.cursor == |r.history| - 1 || Keeps(r.history[r.cursor + 1], Current(r)))
            && (r.cursor == |r.history| - 1 <==> EnabledForward(false) in ValidateCurrentSignals(n)))
  {
    if !StillExists(Current(n)) {
      RootedValidated(n);
    }
  }

  /** The branch of `validateCurrentSourceContainer()` that roots the current
      entry and validates both sides. */
  lemma RootedValidated(n: Nav)
    requires Invariant(n) && !StillExists(Current(n))
    ensures var f := ValidatedForward(ValidatedBackward(Rooted(n)));
      && Invariant(f)
      && (f.cursor == 0 || Keeps(f.history[f.cursor - 1], Current(f)))
      && (f.cursor == |f.history| - 1 || Keeps(f.history[f.cursor + 1], Current(f)))
  {
    var z := Rooted(n);
    RootedInvariant(n);
    ValidatedBackwardInvariant(z);
    var b := ValidatedBackward(z);
    ValidatedForwardInvariant(b);
    var f := ValidatedForward(b);
    if f.cursor > 0 {
      assert f.history[f.cursor - 1] == f.history[..f.cursor + 1][f.cursor - 1];
    }
  }

  /** The environment invalidating an index keeps the invariant: the root folder
      is a root, and roots never stop existing. */
  lemma InvalidatedNavInvariant(n: Nav, id: nat)
    requires Invariant(n)
    ensures Invariant(InvalidatedNav(n, id))
    ensures forall i :: 0 <= i < |n.history| && n.history[i].isRootIndex ==> StillExists(InvalidatedNav(n, id).history[i])
  {
  }
}
