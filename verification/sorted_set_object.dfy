/** The `SortedSet` class: an object whose `elements` field holds the
    state, with each mutator applying the matching pure operation of
    `SortedSets` to it. */
module SortedSetObject {
  import opened Order
  import SortedSets

  class SortedSet<T(!new)> {
    /** `#compare` and `#areEqual` as fixed by the element type. */
    const cmp: (T, T) -> int
    const eq: (T, T) -> bool
    var elements: seq<T>

    ghost predicate Valid()
      reads this
    {
      Order.Valid(cmp, eq) && Ascending(cmp, elements)
    }

    /** `new SortedSet(values)`: starts empty and adds the values in order,
        each through `add`. */
    constructor(cmp: (T, T) -> int, eq: (T, T) -> bool, values: seq<T>)
      requires Order.Valid(cmp, eq)
      ensures Valid() && this.cmp == cmp && this.eq == eq
      ensures elements == SortedSets.FromValues(cmp, eq, values)
    {
      this.cmp := cmp;
      this.eq := eq;
      elements := SortedSets.FromValues(cmp, eq, values);
      SortedSets.FromValuesAscending(cmp, eq, values);
    }

    /** `add`: returns the set itself, so that calls chain. */
    method Add(value: T) returns (self: SortedSet<T>)
      requires Valid()
      modifies this
      ensures Valid() && self == this
      ensures elements == SortedSets.Add(cmp, eq, old(elements), value)
    {
      SortedSets.AddAscending(cmp, eq, elements, value);
      elements := SortedSets.Add(cmp, eq, elements, value);
      self := this;
    }

    /** `delete`: reports whether an element equal to `value` was removed. */
    method Delete(value: T) returns (deleted: bool)
      requires Valid()
      modifies this
      ensures Valid()
      ensures SortedSets.Removal(deleted, elements) == SortedSets.Delete(eq, old(elements), value)
    {
      SortedSets.DeleteAscending(cmp, eq, elements, value);
      var r := SortedSets.Delete(eq, elements, value);
      elements := r.rest;
      deleted := r.deleted;
    }

    /** `clear`. */
    method Clear()
      requires Valid()
      modifies this
      ensures Valid() && elements == []
    {
      elements := SortedSets.Clear(elements);
    }

    /** `has`: a scan with `#areEqual`, the way `some` runs it. */
    method Has(value: T) returns (found: bool)
      ensures found <==> exists j :: 0 <= j < |elements| && eq(elements[j], value)
    {
      found := false;
      var i := 0;
      while i < |elements| && !found
        invariant 0 <= i <= |elements|
        invariant found <==> exists j :: 0 <= j < i && eq(elements[j], value)
      {
        found := eq(elements[i], value);
        i := i + 1;
      }
    }

    /** `size`. */
    method Size() returns (n: nat)
      ensures n == |elements|
    {
      n := |elements|;
    }

    /** `keys()`, `values()` and `[Symbol.iterator]()`: the elements in
        stored order. */
    method Values() returns (r: seq<T>)
      ensures r == elements
    {
      r := elements;
    }

    /** `entries()`: each element paired with itself, built the way `map`
        builds it. */
    method Entries() returns (r: seq<(T, T)>)
      ensures |r| == |elements|
      ensures forall i :: 0 <= i < |r| ==> r[i] == (elements[i], elements[i])
    {
      r := [];
      var i := 0;
      while i < |elements|
        invariant 0 <= i <= |elements| && |r| == i
        invariant forall k :: 0 <= k < i ==> r[k] == (elements[k], elements[k])
      {
        r := r + [(elements[i], elements[i])];
        i := i + 1;
      }
    }
  }

  /** The chained additions the set's own tests show: adding the
      same value twice stores it once, and `add` hands back the set. */
  method AddTwice<T(!new)>(target: SortedSet<T>, value: T) returns (after: seq<T>)
    requires target.Valid()
    modifies target
    ensures after == SortedSets.Add(target.cmp, target.eq, old(target.elements), value)
  {
    var again := target.Add(value);
    SortedSets.AddIdempotent(target.cmp, target.eq, old(target.elements), value);
    var _ := again.Add(value);
    after := target.elements;
  }
}
