/** `YACReaderHistoryController`: the back/forward history of the library
    window, as an object whose methods change its list and cursor in place and
    record the signals they emit in a ghost trace. Each method is proved to
    produce the state and the signals given by module HistoryNavigation. */
module HistoryController {
  import opened SourceContainer
  import opened HistoryNavigation

  class Controller {
    var currentFolderNavigation: int
    var history: seq<Container>
    /** The signals emitted so far, oldest first. */
    ghost var signals: seq<Signal>

    /** The navigation state as a value. */
    function State(): Nav
      reads this
    {
      Nav(history, currentFolderNavigation)
    }

    /** Holds from the first `Clear()` on. */
    ghost predicate Valid()
      reads this
    {
      Invariant(State())
    }

    /** The constructor leaves the cursor uninitialised: `Clear()` must run
        before anything else, which `Valid()` enforces. */
    constructor ()
      ensures history == [] && signals == [] && !Valid()
    {
      currentFolderNavigation := 0;
      history := [];
      signals := [];
    }

    method Clear()
      modifies this
      ensures Valid()
      ensures State() == Cleared()
      ensures signals == old(signals) + ClearSignals()
    {
      currentFolderNavigation := 0;
      history := [];
      history := history + [MakeContainer(NoIndex, Folder)];
      signals := signals + [EnabledBackward(false)];
      signals := signals + [EnabledForward(false)];
    }

    /** The backward `find_if`: scans from the entry just before the cursor
        towards the start, then erases what lies between the entry found and
        the cursor. */
    method ValidateBackward()
      requires Valid() && StillExists(history[currentFolderNavigation])
      modifies this
      ensures Valid()
      ensures State() == ValidatedBackward(old(State()))
      ensures signals == old(signals)
    {
      ghost var before := State();
      var cur := currentFolderNavigation;
      var j := cur;
      while j > 0 && !(StillExists(history[j - 1]) && NotEqual(history[j - 1], history[cur]))
        invariant 0 <= j <= cur
        invariant ScanBackward(history, cur, j) == ScanBackward(history, cur, cur)
        decreases j
      {
        j := j - 1;
      }
      if j != cur {
        history := history[..j] + history[cur..];
        currentFolderNavigation := j;
      }
      ValidatedBackwardInvariant(before);
    }

    /** The forward `find_if`: scans from the entry just after the cursor
        towards the end, then erases what lies between the cursor and the
        entry found. */
    method ValidateForward()
      requires Valid() && StillExists(history[currentFolderNavigation])
      modifies this
      ensures Valid()
      ensures State() == ValidatedForward(old(State()))
      ensures signals == old(signals)
    {
      ghost var before := State();
      var cur := currentFolderNavigation;
      var j := cur + 1;
      while j < |history| && !(StillExists(history[j]) && NotEqual(history[j], history[cur]))
        invariant cur + 1 <= j <= |history|
        invariant ScanForward(history, cur, j) == ScanForward(history, cur, cur + 1)
        decreases |history| - j
      {
        j := j + 1;
      }
      if j != cur + 1 {
        history := history[..cur + 1] + history[j..];
      }
      ValidatedForwardInvariant(before);
    }

    /** The current entry loses its index and becomes a root of the same
        type, so that it exists again. */
    method RootCurrent()
      requires Valid() && !StillExists(history[currentFolderNavigation])
      modifies this`history
      ensures Valid() && StillExists(history[currentFolderNavigation])
      ensures State() == Rooted(old(State()))
    {
      ghost var n := State();
      RootedInvariant(n);
      var source := history[currentFolderNavigation];
      history := history[currentFolderNavigation := source.(sourceModelIndex := NoIndex, isRootIndex := true)];
    }

    method ValidateCurrentSourceContainer() returns (stillExists: bool)
      requires Valid()
      modifies this
      ensures Valid()
      ensures (stillExists, State()) == ValidatedCurrent(old(State()))
      ensures signals == old(signals) + ValidateCurrentSignals(old(State()))
    {
      ghost var n := State();
      if StillExists(history[currentFolderNavigation]) {
        return true;
      }
      RootCurrent();
      ghost var z := State();
      ghost var s0 := signals;
      ValidateBackward();
      ghost var vb := State();
      assert vb == ValidatedBackward(z);
      ghost var back: seq<Signal> := if currentFolderNavigation == 0 then [EnabledBackward(false)] else [];
      if currentFolderNavigation == 0 {
        signals := signals + [EnabledBackward(false)];
      }
      assert signals == s0 + back;
      ValidateForward();
      ghost var s1 := signals;
      assert s1 == s0 + back;
      ghost var forward: seq<Signal> := if currentFolderNavigation == |history| - 1 then [EnabledForward(false)] else [];
      if currentFolderNavigation == |history| - 1 {
        signals := signals + [EnabledForward(false)];
      }
      assert signals == s1 + forward;
      AppendAssociative(s0, back, forward);
      assert State() == ValidatedForward(vb);
      assert ValidatedCurrent(n) == (false, State());
      assert ValidateCurrentSignals(n) == back + forward;
      return false;
    }

    method Backward()
      requires Valid() && StillExists(history[currentFolderNavigation])
      modifies this
      ensures Valid()
      ensures State() == SteppedBack(old(State()))
      ensures signals == old(signals) + BackwardSignals(old(State()))
    {
      SteppedBackProperties(State());
      ValidateBackward();

      if currentFolderNavigation > 0 {
        currentFolderNavigation := currentFolderNavigation - 1;
        signals := signals + [ModelIndexSelected(history[currentFolderNavigation])];
        signals := signals + [EnabledForward(true)];
      }

      if currentFolderNavigation == 0 {
        signals := signals + [EnabledBackward(false)];
      }
    }

    method Forward()
      requires Valid() && StillExists(history[currentFolderNavigation])
      modifies this
      ensures Valid()
      ensures State() == SteppedForward(old(State()))
      ensures signals == old(signals) + ForwardSignals(old(State()))
    {
      SteppedForwardProperties(State());
      ValidateForward();

      if currentFolderNavigation < |history| - 1 {
        currentFolderNavigation := currentFolderNavigation + 1;
        signals := signals + [ModelIndexSelected(history[currentFolderNavigation])];
        signals := signals + [EnabledBackward(true)];
      }

      if currentFolderNavigation == |history| - 1 {
        signals := signals + [EnabledForward(false)];
      }
    }

    /** Drops every entry after the cursor, one `removeLast` at a time, then
        appends `source` unless it is the current entry. */
    method UpdateHistory(source: Container)
      requires Valid() && StillExists(source)
      modifies this
      ensures Valid()
      ensures State() == Visited(old(State()), source)
      ensures signals == old(signals) + VisitSignals(old(State()), source)
    {
      if !IsValid(source.sourceModelIndex) && |history| == 1 {
        return;
      }
      if !VisitIgnored(State(), source) {
        VisitedProperties(State(), source);
      }

      var numElementsToRemove := |history| - (currentFolderNavigation + 1);
      while numElementsToRemove > 0
        invariant currentFolderNavigation == old(currentFolderNavigation)
        invariant 0 <= numElementsToRemove <= |old(history)| - (currentFolderNavigation + 1)
        invariant history == old(history)[..currentFolderNavigation + 1 + numElementsToRemove]
        invariant signals == old(signals)
      {
        numElementsToRemove := numElementsToRemove - 1;
        history := history[..|history| - 1];
      }

      if NotEqual(source, history[currentFolderNavigation]) {
        history := history + [source];
        signals := signals + [EnabledBackward(true)];
        currentFolderNavigation := currentFolderNavigation + 1;
      }

      signals := signals + [EnabledForward(false)];
    }

    method CurrentSourceContainer() returns (source: Container)
      requires Valid() && StillExists(history[currentFolderNavigation])
      ensures source == Current(State()) && StillExists(source)
    {
      source := history[currentFolderNavigation];
    }

    /** Not an operation of the controller: the item model removing row `id`,
        which invalidates every stored copy of that persistent index. */
    method InvalidateIndex(id: nat)
      requires Valid()
      modifies this
      ensures Valid()
      ensures State() == InvalidatedNav(old(State()), id)
      ensures signals == old(signals)
    {
      InvalidatedNavInvariant(State(), id);
      history := InvalidatedNav(State(), id).history;
    }
  }

  /** Two batches of signals appended one after the other. */
  lemma AppendAssociative(a: seq<Signal>, b: seq<Signal>, c: seq<Signal>)
    ensures a + b + c == a + (b + c)
  {
  }
}
