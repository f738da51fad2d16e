/** The `QList` operations the tree items apply to their child lists, as
    functions on sequences, with what each one does to positions and contents. */
module ChildList {

  /** `QList::insert(pos, x)`. */
  function Inserted<T>(s: seq<T>, pos: nat, x: T): (r: seq<T>)
    requires pos <= |s|
    ensures |r| == |s| + 1 && r[pos] == x
    ensures forall i :: 0 <= i < pos ==> r[i] == s[i]
    ensures forall i :: pos < i < |r| ==> r[i] == s[i - 1]
    ensures multiset(r) == multiset(s) + multiset{x}
  {
    assert s == s[..pos] + s[pos..];
    s[..pos] + [x] + s[pos..]
  }

  /** `QList::removeAt(i)`. */
  function RemovedAt<T>(s: seq<T>, i: nat): (r: seq<T>)
    requires i < |s|
    ensures |r| == |s| - 1
    ensures forall j :: 0 <= j < i ==> r[j] == s[j]
    ensures forall j :: i <= j < |r| ==> r[j] == s[j + 1]
    ensures multiset(r) == multiset(s) - multiset{s[i]}
  {
    assert s == s[..i] + [s[i]] + s[i + 1..];
    s[..i] + s[i + 1..]
  }

  /** `QList::indexOf(x)`: the first index holding `x`, or -1. */
  function IndexOf<T(==)>(s: seq<T>, x: T): (r: int)
    ensures -1 <= r < |s|
    ensures r == -1 <==> x !in s
    ensures r >= 0 ==> s[r] == x && x !in s[..r]
  {
    if s == [] then -1
    else if s[0] == x then 0
    else
      var k := IndexOf(s[1..], x);
      assert k >= 0 ==> s[1..][..k] == s[1..k + 1];
      if k == -1 then -1 else k + 1
  }

  /** `QList::removeOne(x)`: removes the first occurrence of `x`, if any. */
  function RemovedOne<T(==)>(s: seq<T>, x: T): (r: seq<T>)
    ensures x !in s ==> r == s
    ensures x in s ==> r == RemovedAt(s, IndexOf(s, x))
  {
    var i := IndexOf(s, x);
    if i == -1 then s else RemovedAt(s, i)
  }

  /** `QList::move(from, to)`: the element at `from` is taken out and put back
      so that it ends at index `to`. */
  function Moved<T>(s: seq<T>, from: nat, to: nat): (r: seq<T>)
    requires from < |s| && to < |s|
    ensures |r| == |s| && r[to] == s[from]
  {
    Inserted(RemovedAt(s, from), to, s[from])
  }

  /** `removeOne` takes out exactly one copy of `x` when there is one, and the
      others keep their order: what stays before the removed copy is exactly
      what was before it, and what stays after is what was after it. */
  lemma RemovedOneProperties<T>(s: seq<T>, x: T)
    ensures multiset(RemovedOne(s, x)) == multiset(s) - multiset{x}
    ensures x in s ==> var i := IndexOf(s, x);
      RemovedOne(s, x) == s[..i] + s[i + 1..] && x !in s[..i]
  {
    if x in s {
      var i := IndexOf(s, x);
      assert RemovedAt(s, i) == s[..i] + s[i + 1..];
    } else {
      assert multiset(s)[x] == 0;
    }
  }

  /** `move` is a permutation that puts the moved element at `to`; taking it out
      again gives back the list with it taken out of `from`, so every other
      element keeps its relative order. */
  lemma {:induction false} MovedProperties<T>(s: seq<T>, from: nat, to: nat)
    requires from < |s| && to < |s|
    ensures |Moved(s, from, to)| == |s|
    ensures Moved(s, from, to)[to] == s[from]
    ensures RemovedAt(Moved(s, from, to), to) == RemovedAt(s, from)
    ensures multiset(Moved(s, from, to)) == multiset(s)
  {
    var rest := RemovedAt(s, from);
    var r := Moved(s, from, to);
    assert RemovedAt(r, to) == rest;
    calc {
      multiset(r);
      multiset(rest) + multiset{s[from]};
      multiset(s) - multiset{s[from]} + multiset{s[from]};
      { assert s[from] in multiset(s); }
      multiset(s);
    }
  }

  /** Taking an element out of the list just inserted gives the list back. */
  lemma RemovedAtInserted<T>(s: seq<T>, pos: nat, x: T)
    requires pos <= |s|
    ensures RemovedAt(Inserted(s, pos, x), pos) == s
  {
  }

  /** Inserting an element not yet in the list makes `pos` its first index. */
  lemma IndexOfInserted<T>(s: seq<T>, pos: nat, x: T)
    requires pos <= |s| && x !in s
    ensures IndexOf(Inserted(s, pos, x), x) == pos
  {
    var r := Inserted(s, pos, x);
    assert r[..pos] == s[..pos];
    assert x !in r[..pos];
  }
}
