/** Orders the child lists are kept in. The natural, case-insensitive name
    comparison `naturalSortLessThanCI` is not part of this model: it is passed
    to the items as a parameter `less`, and the facts below assume only that it
    is a strict weak order. */
module NaturalOrder {
  import opened ChildList

  /** `less` is asymmetric, and incomparability is transitive (if `a < c` then
      every `b` is above `a` or below `c`): what `std::upper_bound` and the
      sorted insertions need of it. */
  ghost predicate StrictWeakOrder(less: (string, string) -> bool)
  {
    && (forall a, b :: less(a, b) ==> !less(b, a))
    && (forall a, b, c :: less(a, c) ==> less(a, b) || less(b, c))
  }

  /** No name is below a name before it. */
  ghost predicate SortedBy(names: seq<string>, less: (string, string) -> bool)
  {
    forall i, j :: 0 <= i < j < |names| ==> !less(names[j], names[i])
  }

  /** The precondition of `std::upper_bound(names, v)`: the names above `v`
      come after all those that are not. */
  ghost predicate PartitionedBy(names: seq<string>, v: string, less: (string, string) -> bool)
  {
    forall i, j :: 0 <= i < j < |names| && less(v, names[i]) ==> less(v, names[j])
  }

  /** Orderings never decrease along the list. */
  ghost predicate NonDecreasing(xs: seq<int>)
  {
    forall i, j :: 0 <= i < j < |xs| ==> xs[i] <= xs[j]
  }

  /** A sorted list is partitioned with respect to every name. */
  lemma SortedIsPartitioned(names: seq<string>, v: string, less: (string, string) -> bool)
    requires StrictWeakOrder(less) && SortedBy(names, less)
    ensures PartitionedBy(names, v, less)
  {
    forall i, j | 0 <= i < j < |names| && less(v, names[i])
      ensures less(v, names[j])
    {
      assert !less(names[j], names[i]);
    }
  }

  /** `std::upper_bound` by binary search between `lo` and `hi`: the first
      name above `v`. */
  function UpperBoundIn(names: seq<string>, v: string, less: (string, string) -> bool, lo: nat, hi: nat): (pos: nat)
    requires lo <= hi <= |names|
    requires PartitionedBy(names, v, less)
    requires forall i :: 0 <= i < lo ==> !less(v, names[i])
    requires forall i :: hi <= i < |names| ==> less(v, names[i])
    ensures lo <= pos <= hi
    ensures forall i :: 0 <= i < pos ==> !less(v, names[i])
    ensures forall i :: pos <= i < |names| ==> less(v, names[i])
    decreases hi - lo
  {
    if lo == hi then lo
    else
      var mid := lo + (hi - lo) / 2;
      if less(v, names[mid]) then UpperBoundIn(names, v, less, lo, mid)
      else UpperBoundIn(names, v, less, mid + 1, hi)
  }

  /** `std::upper_bound` over the whole list: every name before the result is
      not above `v`, every name from it on is above `v`. */
  function UpperBound(names: seq<string>, v: string, less: (string, string) -> bool): (pos: nat)
    requires PartitionedBy(names, v, less)
    ensures pos <= |names|
    ensures forall i :: 0 <= i < pos ==> !less(v, names[i])
    ensures forall i :: pos <= i < |names| ==> less(v, names[i])
  {
    UpperBoundIn(names, v, less, 0, |names|)
  }

  /** The position is unique: any position with the two properties is the upper bound. */
  lemma UpperBoundUnique(names: seq<string>, v: string, less: (string, string) -> bool, p: nat)
    requires PartitionedBy(names, v, less) && p <= |names|
    requires forall i :: 0 <= i < p ==> !less(v, names[i])
    requires forall i :: p <= i < |names| ==> less(v, names[i])
    ensures p == UpperBound(names, v, less)
  {
    var u := UpperBound(names, v, less);
    assert p < |names| ==> less(v, names[p]);
    assert u < |names| ==> less(v, names[u]);
  }

  /** Inserting at the upper bound keeps a sorted list sorted, after every
      name equal to the new one. */
  lemma InsertAtUpperBoundSorted(names: seq<string>, v: string, less: (string, string) -> bool)
    requires StrictWeakOrder(less) && SortedBy(names, less)
    ensures PartitionedBy(names, v, less)
    ensures SortedBy(Inserted(names, UpperBound(names, v, less), v), less)
  {
    SortedIsPartitioned(names, v, less);
    var p := UpperBound(names, v, less);
    var r := Inserted(names, p, v);
    forall i, j | 0 <= i < j < |r|
      ensures !less(r[j], r[i])
    {
      if i == p {
        assert less(v, r[j]);
      } else if j != p {
        assert r[i] == names[if i < p then i else i - 1];
        assert r[j] == names[if j < p then j else j - 1];
      }
    }
  }

  /** Inserting before the first name that is not below `v` keeps a sorted list
      sorted: the top-level reading lists. */
  lemma InsertAtLowerBoundSorted(names: seq<string>, v: string, less: (string, string) -> bool, p: nat)
    requires StrictWeakOrder(less) && SortedBy(names, less)
    requires p <= |names|
    requires forall i :: 0 <= i < p ==> less(names[i], v)
    requires p < |names| ==> !less(names[p], v)
    ensures SortedBy(Inserted(names, p, v), less)
  {
    var r := Inserted(names, p, v);
    forall i, j | 0 <= i < j < |r|
      ensures !less(r[j], r[i])
    {
      if j == p {
        assert less(r[i], v);
      } else if i == p {
        assert r[j] == names[j - 1];
        if j - 1 > p {
          assert !less(names[j - 1], names[p]);
        }
      } else {
        assert r[i] == names[if i < p then i else i - 1];
        assert r[j] == names[if j < p then j else j - 1];
      }
    }
  }

  /** Inserting before the first ordering that is not below `v` keeps the
      orderings non-decreasing: the sublists of a reading list. */
  lemma InsertByOrderingSorted(xs: seq<int>, v: int, p: nat)
    requires NonDecreasing(xs) && p <= |xs|
    requires forall i :: 0 <= i < p ==> xs[i] < v
    requires p < |xs| ==> xs[p] >= v
    ensures NonDecreasing(Inserted(xs, p, v))
  {
    var r := Inserted(xs, p, v);
    forall i, j | 0 <= i < j < |r|
      ensures r[i] <= r[j]
    {
      if j == p {
      } else if i == p {
        assert r[j] == xs[j - 1];
        assert xs[p] <= xs[j - 1];
      } else {
        assert r[i] == xs[if i < p then i else i - 1];
        assert r[j] == xs[if j < p then j else j - 1];
      }
    }
  }
}
