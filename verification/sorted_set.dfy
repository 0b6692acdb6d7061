/** The sorted set as pure functions over its `elements` sequence.

    Every operation takes the comparator `cmp` and the equality `eq` the set
    dispatches to; the stored sequence is the set's whole state. The
    properties the set promises hold when `Order.Valid(cmp, eq)` holds and
    the sequence is `Order.Ascending`, which construction and every mutation
    preserve.
 */
module SortedSets {
  import opened Order
  import opened Arrays

  /** Outcome of `delete`: whether an element went, and the elements left. */
  datatype Removal<T> = Removal(deleted: bool, rest: seq<T>)

  /** The scan `add` performs: the index of the first stored element that
      compares `>= 0` with `v`, or -1. */
  function Successor<T>(cmp: (T, T) -> int, s: seq<T>, v: T): (r: int)
    ensures -1 <= r < |s|
    ensures r == -1 <==> forall j :: 0 <= j < |s| ==> cmp(s[j], v) < 0
    ensures 0 <= r ==> cmp(s[r], v) >= 0 && forall j :: 0 <= j < r ==> cmp(s[j], v) < 0
  {
    FindIndex(s, e => cmp(e, v) >= 0)
  }

  /** Where `v` belongs: before the successor, or at the end when there is none. */
  function InsertionPoint<T>(cmp: (T, T) -> int, s: seq<T>, v: T): (r: nat)
    ensures r <= |s|
    ensures forall j :: 0 <= j < r ==> cmp(s[j], v) < 0
    ensures r < |s| ==> cmp(s[r], v) >= 0
  {
    var i := Successor(cmp, s, v);
    if i == -1 then |s| else i
  }

  /** The scan `delete` performs: the index of the first stored element equal
      to `v`, or -1. */
  function IndexOf<T>(eq: (T, T) -> bool, s: seq<T>, v: T): (r: int)
    ensures -1 <= r < |s|
    ensures r == -1 <==> forall j :: 0 <= j < |s| ==> !eq(s[j], v)
    ensures 0 <= r ==> eq(s[r], v) && forall j :: 0 <= j < r ==> !eq(s[j], v)
  {
    FindIndex(s, e => eq(e, v))
  }

  /** `has`: some stored element is equal to `v`. */
  function Has<T>(eq: (T, T) -> bool, s: seq<T>, v: T): (b: bool)
    ensures b <==> exists j :: 0 <= j < |s| && eq(s[j], v)
  {
    Any(s, e => eq(e, v))
  }

  /** `add`: find the successor; append when there is none, splice `v` in
      before it when it is not equal to `v`, and otherwise change nothing. */
  function Add<T>(cmp: (T, T) -> int, eq: (T, T) -> bool, s: seq<T>, v: T): (r: seq<T>)
    ensures r == s || (|r| == |s| + 1 && multiset(r) == multiset(s) + multiset{v})
  {
    var i := Successor(cmp, s, v);
    if i == -1 then s + [v]
    else if !eq(s[i], v) then Insert(s, i, v)
    else s
  }

  /** `delete`: remove the first element equal to `v`, reporting whether
      there was one. */
  function Delete<T>(eq: (T, T) -> bool, s: seq<T>, v: T): (r: Removal<T>)
    ensures r.deleted <==> Has(eq, s, v)
    ensures !r.deleted ==> r.rest == s
    ensures r.deleted ==> exists i :: 0 <= i < |s| && eq(s[i], v)
                                      && (forall j :: 0 <= j < i ==> !eq(s[j], v))
                                      && r.rest == RemoveAt(s, i)
  {
    var i := IndexOf(eq, s, v);
    if i != -1 then Removal(true, RemoveAt(s, i)) else Removal(false, s)
  }

  /** `clear`: `splice(0)` drops every element. */
  function Clear<T>(s: seq<T>): (r: seq<T>)
    ensures |r| == 0
  {
    s[..0]
  }

  /** `entries`: each element paired with itself, in stored order. */
  function Entries<T>(s: seq<T>): (r: seq<(T, T)>)
    ensures |r| == |s|
    ensures forall i :: 0 <= i < |r| ==> r[i].0 == s[i] && r[i].1 == s[i]
  {
    seq(|s|, i requires 0 <= i < |s| => (s[i], s[i]))
  }

  /** The receiver a callback runs with: `undefined`, or a bound `thisArg`. */
  datatype Receiver<R> = Unbound | Bound(thisArg: R)

  /** One callback invocation: its `this`, its key and value, and the set. */
  datatype Call<T, R> = Call(self: Receiver<R>, key: T, value: T, owner: seq<T>)

  /** The invocations a `Set`'s `forEach` makes: one per element, in stored
      order, with the element as key and as value. */
  function Calls<T, R>(s: seq<T>, self: Receiver<R>): seq<Call<T, R>> {
    seq(|s|, i requires 0 <= i < |s| => Call(self, s[i], s[i], s))
  }

  /** Running a callback over a list of invocations, first to last; its
      effects are the state `acc` it threads through them. */
  function Replay<T, R, A>(callback: (A, Call<T, R>) -> A, calls: seq<Call<T, R>>, acc: A): A {
    if |calls| == 0 then acc else Replay(callback, calls[1..], callback(acc, calls[0]))
  }

  /** The element loop of `forEach` from index `i` on, every call made on
      receiver `self`. */
  function ForEachFrom<T, R, A>(s: seq<T>, i: nat, callback: (A, Call<T, R>) -> A, self: Receiver<R>, acc: A): (r: A)
    requires i <= |s|
    ensures r == Replay(callback, Calls(s, self)[i..], acc)
    decreases |s| - i
  {
    if i == |s| then acc
    else
      assert Calls(s, self)[i..][1..] == Calls(s, self)[i + 1..];
      ForEachFrom(s, i + 1, callback, self, callback(acc, Call(self, s[i], s[i], s)))
  }

  /** `forEach(callback, thisArg)` with the callback run on `thisArg`, as a
      `Set`'s `forEach` promises. */
  function ForEach<T, R, A>(s: seq<T>, callback: (A, Call<T, R>) -> A, thisArg: Receiver<R>, acc: A): (r: A)
    ensures r == Replay(callback, Calls(s, thisArg), acc)
  {
    assert Calls(s, thisArg)[0..] == Calls(s, thisArg);
    ForEachFrom(s, 0, callback, thisArg, acc)
  }

  /** `forEach` as written: `thisArg` goes to the array's `forEach`, which
      binds it to the arrow function wrapping the callback; an arrow function
      ignores that binding and calls the callback unbound. */
  function ForEachAsWritten<T, R, A>(s: seq<T>, callback: (A, Call<T, R>) -> A, thisArg: Receiver<R>, acc: A): (r: A)
    ensures r == Replay(callback, Calls(s, Unbound), acc)
  {
    assert Calls<T, R>(s, Unbound)[0..] == Calls<T, R>(s, Unbound);
    ForEachFrom(s, 0, callback, Unbound, acc)
  }

  /** The constructor: every value of the iterable goes through `add`, in order. */
  function FromValues<T>(cmp: (T, T) -> int, eq: (T, T) -> bool, values: seq<T>): (r: seq<T>)
    ensures multiset(r) <= multiset(values)
    ensures |r| <= |values|
  {
    if |values| == 0 then []
    else
      var init := values[..|values| - 1];
      assert values == init + [values[|values| - 1]];
      Add(cmp, eq, FromValues(cmp, eq, init), values[|values| - 1])
  }

  // ---------------------------------------------------------------------
  // add
  // ---------------------------------------------------------------------

  /** Inserting a value that sits strictly between its neighbours keeps the
      sequence strictly ascending. */
  lemma InsertAscending<T>(cmp: (T, T) -> int, s: seq<T>, i: nat, v: T)
    requires i <= |s| && Ascending(cmp, s)
    requires forall j :: 0 <= j < i ==> cmp(s[j], v) < 0
    requires forall j :: i <= j < |s| ==> cmp(v, s[j]) < 0
    ensures Ascending(cmp, Insert(s, i, v))
  {
    var r := Insert(s, i, v);
    forall a, b | 0 <= a < b < |r|
      ensures cmp(r[a], r[b]) < 0
    {
      if b > i {
        assert r[b] == s[b - 1];
        if a > i {
          assert r[a] == s[a - 1];
        }
      }
    }
  }

  /** Membership after an insertion: the old members and whatever equals `v`. */
  lemma HasInsert<T>(eq: (T, T) -> bool, s: seq<T>, i: nat, v: T, x: T)
    requires i <= |s|
    ensures Has(eq, Insert(s, i, v), x) <==> Has(eq, s, x) || eq(v, x)
  {
    var r := Insert(s, i, v);
    if Has(eq, s, x) {
      var j :| 0 <= j < |s| && eq(s[j], x);
      if j < i {
        assert eq(r[j], x);
      } else {
        assert eq(r[j + 1], x);
      }
    }
    if Has(eq, r, x) {
      var k :| 0 <= k < |r| && eq(r[k], x);
      if k < i {
        assert eq(s[k], x);
      } else if k > i {
        assert r[k] == s[k - 1];
      }
    }
  }

  /** When `v`'s equal is stored, the successor scan stops exactly on it. */
  lemma SuccessorOfMember<T(!new)>(cmp: (T, T) -> int, eq: (T, T) -> bool, s: seq<T>, v: T, j: nat)
    requires Valid(cmp, eq) && Ascending(cmp, s)
    requires j < |s| && eq(s[j], v)
    ensures Successor(cmp, s, v) == j
  {
    Flip(cmp, eq, s[j], v);
    forall k | 0 <= k < j
      ensures cmp(s[k], v) < 0
    {
      LessThenAtMost(cmp, eq, s[k], s[j], v);
    }
  }

  /** Where `add` puts a value, read off the comparisons alone: at the first
      element not ordered before it, or at the end, provided that element is
      not equal to it. */
  lemma AddAtSuccessor<T>(cmp: (T, T) -> int, eq: (T, T) -> bool, s: seq<T>, v: T, i: nat)
    requires i <= |s|
    requires forall j :: 0 <= j < i ==> cmp(s[j], v) < 0
    requires i < |s| ==> cmp(s[i], v) >= 0 && !eq(s[i], v)
    ensures Add(cmp, eq, s, v) == s[..i] + [v] + s[i..]
  {
    if i == |s| {
      assert s[..i] == s && s[i..] == [];
    }
  }

  /** `add` of a value already present leaves the set unchanged. */
  lemma AddPresent<T(!new)>(cmp: (T, T) -> int, eq: (T, T) -> bool, s: seq<T>, v: T)
    requires Valid(cmp, eq) && Ascending(cmp, s) && Has(eq, s, v)
    ensures Add(cmp, eq, s, v) == s
  {
    var j :| 0 <= j < |s| && eq(s[j], v);
    SuccessorOfMember(cmp, eq, s, v, j);
  }

  /** Every element from an unequal successor on compares above `v`. */
  lemma AboveSuccessor<T(!new)>(cmp: (T, T) -> int, eq: (T, T) -> bool, s: seq<T>, v: T, i: nat)
    requires Valid(cmp, eq) && Ascending(cmp, s)
    requires i < |s| && cmp(s[i], v) >= 0 && !eq(s[i], v)
    ensures forall j :: i <= j < |s| ==> cmp(v, s[j]) < 0
  {
    Flip(cmp, eq, s[i], v);
    assert cmp(s[i], v) != 0;
    forall j | i < j < |s|
      ensures cmp(v, s[j]) < 0
    {
      LessThenAtMost(cmp, eq, v, s[i], s[j]);
    }
  }

  /** `add` of an absent value inserts it once, at the first index whose
      element compares `>= 0` with it (the end when there is none): after
      every smaller element and before every larger one. */
  lemma AddAbsent<T(!new)>(cmp: (T, T) -> int, eq: (T, T) -> bool, s: seq<T>, v: T)
    requires Valid(cmp, eq) && Ascending(cmp, s) && !Has(eq, s, v)
    ensures Add(cmp, eq, s, v) == Insert(s, InsertionPoint(cmp, s, v), v)
    ensures |Add(cmp, eq, s, v)| == |s| + 1
    ensures forall j :: 0 <= j < InsertionPoint(cmp, s, v) ==> cmp(s[j], v) < 0
    ensures forall j :: InsertionPoint(cmp, s, v) <= j < |s| ==> cmp(v, s[j]) < 0
  {
    var i := Successor(cmp, s, v);
    if i == -1 {
      assert s + [v] == Insert(s, |s|, v);
    } else {
      assert !eq(s[i], v);
      AboveSuccessor(cmp, eq, s, v, i);
    }
  }

  /** `add` keeps the elements strictly ascending. */
  lemma AddAscending<T(!new)>(cmp: (T, T) -> int, eq: (T, T) -> bool, s: seq<T>, v: T)
    requires Valid(cmp, eq) && Ascending(cmp, s)
    ensures Ascending(cmp, Add(cmp, eq, s, v))
  {
    if Has(eq, s, v) {
      AddPresent(cmp, eq, s, v);
    } else {
      AddAbsent(cmp, eq, s, v);
      InsertAscending(cmp, s, InsertionPoint(cmp, s, v), v);
    }
  }

  /** After `add(v)` the members are the old ones plus whatever equals `v`. */
  lemma AddHas<T(!new)>(cmp: (T, T) -> int, eq: (T, T) -> bool, s: seq<T>, v: T, x: T)
    requires Valid(cmp, eq)
    ensures Has(eq, Add(cmp, eq, s, v), x) <==> Has(eq, s, x) || eq(v, x)
  {
    var i := Successor(cmp, s, v);
    if i == -1 {
      assert s + [v] == Insert(s, |s|, v);
      HasInsert(eq, s, |s|, v, x);
    } else if !eq(s[i], v) {
      HasInsert(eq, s, i, v, x);
    } else if eq(v, x) {
      EqTransitive(cmp, eq, s[i], v, x);
    }
  }

  /** `add` is idempotent: `add(v); add(v)` is `add(v)`. */
  lemma AddIdempotent<T(!new)>(cmp: (T, T) -> int, eq: (T, T) -> bool, s: seq<T>, v: T)
    requires Valid(cmp, eq) && Ascending(cmp, s)
    ensures Add(cmp, eq, Add(cmp, eq, s, v), v) == Add(cmp, eq, s, v)
  {
    AddAscending(cmp, eq, s, v);
    Reflexive(cmp, eq, v);
    AddHas(cmp, eq, s, v, v);
    AddPresent(cmp, eq, Add(cmp, eq, s, v), v);
  }

  // ---------------------------------------------------------------------
  // delete
  // ---------------------------------------------------------------------

  /** Two values equal to a common third are equal. */
  lemma EqThrough<T(!new)>(cmp: (T, T) -> int, eq: (T, T) -> bool, a: T, x: T, b: T)
    requires Valid(cmp, eq)
    ensures eq(a, x) && eq(b, x) ==> eq(a, b)
  {
    if eq(a, x) && eq(b, x) {
      Flip(cmp, eq, b, x);
      EqTransitive(cmp, eq, a, x, b);
    }
  }

  /** `delete` keeps the remaining elements strictly ascending. */
  lemma DeleteAscending<T>(cmp: (T, T) -> int, eq: (T, T) -> bool, s: seq<T>, v: T)
    requires Ascending(cmp, s)
    ensures Ascending(cmp, Delete(eq, s, v).rest)
  {
    var i := IndexOf(eq, s, v);
    if i != -1 {
      var r := RemoveAt(s, i);
      forall a, b | 0 <= a < b < |r|
        ensures cmp(r[a], r[b]) < 0
      {
        var a' := if a < i then a else a + 1;
        var b' := if b < i then b else b + 1;
        assert r[a] == s[a'] && r[b] == s[b'];
      }
    }
  }

  /** Removing a stored element equal to `v` takes away exactly the members
      equal to `v`: stored elements are pairwise unequal. */
  lemma RemoveEqualHas<T(!new)>(cmp: (T, T) -> int, eq: (T, T) -> bool, s: seq<T>, v: T, x: T, i: nat)
    requires Valid(cmp, eq) && Ascending(cmp, s)
    requires i < |s| && eq(s[i], v)
    ensures Has(eq, RemoveAt(s, i), x) <==> Has(eq, s, x) && !eq(v, x)
  {
    var r := RemoveAt(s, i);
    Flip(cmp, eq, v, x);
    Flip(cmp, eq, s[i], v);
    if Has(eq, r, x) {
      var k :| 0 <= k < |r| && eq(r[k], x);
      var m := if k < i then k else k + 1;
      assert r[k] == s[m];
      if m < i {
        LessNotEq(cmp, eq, s[m], s[i]);
      } else {
        LessNotEq(cmp, eq, s[i], s[m]);
      }
      EqThrough(cmp, eq, s[m], x, v);
      EqThrough(cmp, eq, s[m], v, s[i]);
    }
    if Has(eq, s, x) && !eq(v, x) {
      var j :| 0 <= j < |s| && eq(s[j], x);
      EqThrough(cmp, eq, v, s[i], x);
      Flip(cmp, eq, s[i], x);
      if j < i {
        assert eq(r[j], x);
      } else {
        assert eq(r[j - 1], x);
      }
    }
  }

  /** After `delete(v)` the members are the old ones except whatever equals
      `v`: the one equal element was removed and nothing else. */
  lemma DeleteHas<T(!new)>(cmp: (T, T) -> int, eq: (T, T) -> bool, s: seq<T>, v: T, x: T)
    requires Valid(cmp, eq) && Ascending(cmp, s)
    ensures Has(eq, Delete(eq, s, v).rest, x) <==> Has(eq, s, x) && !eq(v, x)
  {
    var i := IndexOf(eq, s, v);
    if i == -1 {
      Flip(cmp, eq, v, x);
      forall j | 0 <= j < |s|
        ensures !(eq(s[j], x) && eq(v, x))
      {
        EqThrough(cmp, eq, s[j], x, v);
      }
    } else {
      RemoveEqualHas(cmp, eq, s, v, x, i);
    }
  }

  /** Deleting a value just added restores the set exactly. */
  lemma AddThenDelete<T(!new)>(cmp: (T, T) -> int, eq: (T, T) -> bool, s: seq<T>, v: T)
    requires Valid(cmp, eq) && Ascending(cmp, s) && !Has(eq, s, v)
    ensures Delete(eq, Add(cmp, eq, s, v), v) == Removal(true, s)
  {
    AddAbsent(cmp, eq, s, v);
    var p := InsertionPoint(cmp, s, v);
    var r := Insert(s, p, v);
    Reflexive(cmp, eq, v);
    assert forall j :: 0 <= j < p ==> !eq(r[j], v);
    assert IndexOf(eq, r, v) == p;
    RemoveInserted(s, p, v);
  }

  /** With the element equal to `v` removed, `v`'s insertion point is the
      slot that element left. */
  lemma DeletedSlot<T(!new)>(cmp: (T, T) -> int, eq: (T, T) -> bool, s: seq<T>, v: T, i: nat)
    requires Valid(cmp, eq) && Ascending(cmp, s)
    requires i < |s| && eq(s[i], v)
    ensures InsertionPoint(cmp, RemoveAt(s, i), v) == i
  {
    var rest := RemoveAt(s, i);
    Flip(cmp, eq, s[i], v);
    forall j | 0 <= j < i
      ensures cmp(rest[j], v) < 0
    {
      LessThenAtMost(cmp, eq, s[j], s[i], v);
    }
    if i < |rest| {
      assert rest[i] == s[i + 1];
      EqLess(cmp, eq, v, s[i], s[i + 1]);
      Flip(cmp, eq, v, s[i + 1]);
    }
  }

  /** Deleting a present value and adding it back restores the set, with `v`
      standing where its equal stood. */
  lemma DeleteThenAdd<T(!new)>(cmp: (T, T) -> int, eq: (T, T) -> bool, s: seq<T>, v: T)
    requires Valid(cmp, eq) && Ascending(cmp, s) && Has(eq, s, v)
    ensures exists i :: 0 <= i < |s| && eq(s[i], v) && Add(cmp, eq, Delete(eq, s, v).rest, v) == s[i := v]
  {
    var i := IndexOf(eq, s, v);
    var rest := RemoveAt(s, i);
    DeleteAscending(cmp, eq, s, v);
    Reflexive(cmp, eq, v);
    DeleteHas(cmp, eq, s, v, v);
    AddAbsent(cmp, eq, rest, v);
    DeletedSlot(cmp, eq, s, v, i);
    InsertIntoGap(s, i, v);
  }

  // ---------------------------------------------------------------------
  // construction
  // ---------------------------------------------------------------------

  /** The constructor adds the last value after all the others. */
  lemma FromValuesSnoc<T>(cmp: (T, T) -> int, eq: (T, T) -> bool, values: seq<T>, v: T)
    ensures FromValues(cmp, eq, values + [v]) == Add(cmp, eq, FromValues(cmp, eq, values), v)
  {
    assert (values + [v])[..|values|] == values;
  }

  /** However the values arrive, the constructed set is strictly ascending. */
  lemma {:induction false} FromValuesAscending<T(!new)>(cmp: (T, T) -> int, eq: (T, T) -> bool, values: seq<T>)
    requires Valid(cmp, eq)
    ensures Ascending(cmp, FromValues(cmp, eq, values))
  {
    if |values| > 0 {
      FromValuesAscending(cmp, eq, values[..|values| - 1]);
      AddAscending(cmp, eq, FromValues(cmp, eq, values[..|values| - 1]), values[|values| - 1]);
    }
  }

  /** The constructed set's members are exactly the values given to it. */
  lemma {:induction false} FromValuesHas<T(!new)>(cmp: (T, T) -> int, eq: (T, T) -> bool, values: seq<T>, x: T)
    requires Valid(cmp, eq)
    ensures Has(eq, FromValues(cmp, eq, values), x) <==> Has(eq, values, x)
  {
    if |values| > 0 {
      var init := values[..|values| - 1];
      var last := values[|values| - 1];
      FromValuesHas(cmp, eq, init, x);
      AddHas(cmp, eq, FromValues(cmp, eq, init), last, x);
      assert Insert(init, |init|, last) == values;
      HasInsert(eq, init, |init|, last, x);
    }
  }

  /** Constructing a set from an already ascending sequence (such as another
      set's iteration) reproduces it element for element. */
  lemma {:induction false} FromAscending<T(!new)>(cmp: (T, T) -> int, eq: (T, T) -> bool, s: seq<T>)
    requires Valid(cmp, eq) && Ascending(cmp, s)
    ensures FromValues(cmp, eq, s) == s
  {
    if |s| > 0 {
      var init := s[..|s| - 1];
      var last := s[|s| - 1];
      assert Ascending(cmp, init);
      FromAscending(cmp, eq, init);
      assert forall j :: 0 <= j < |init| ==> cmp(init[j], last) < 0;
      AddAtSuccessor(cmp, eq, init, last, |init|);
      assert init[..|init|] + [last] + init[|init|..] == s;
    }
  }

  /** Round trip: a set built from another set's iteration has the same
      elements in the same order. */
  lemma CopyRoundTrip<T(!new)>(cmp: (T, T) -> int, eq: (T, T) -> bool, values: seq<T>)
    requires Valid(cmp, eq)
    ensures FromValues(cmp, eq, FromValues(cmp, eq, values)) == FromValues(cmp, eq, values)
  {
    FromValuesAscending(cmp, eq, values);
    FromAscending(cmp, eq, FromValues(cmp, eq, values));
  }

  /** The members after the first are the members not equal to the first. */
  lemma TailHas<T(!new)>(cmp: (T, T) -> int, eq: (T, T) -> bool, s: seq<T>, x: T)
    requires Valid(cmp, eq) && Ascending(cmp, s) && |s| > 0
    ensures Has(eq, s[1..], x) <==> Has(eq, s, x) && !eq(s[0], x)
  {
    if Has(eq, s[1..], x) {
      var m :| 0 <= m < |s[1..]| && eq(s[1..][m], x);
      assert s[1..][m] == s[m + 1];
      LessNotEq(cmp, eq, s[0], s[m + 1]);
      EqThrough(cmp, eq, s[0], x, s[m + 1]);
    }
    if Has(eq, s, x) && !eq(s[0], x) {
      var j :| 0 <= j < |s| && eq(s[j], x);
      if j > 0 {
        assert s[1..][j - 1] == s[j];
      }
    }
  }

  /** Strictly ascending sequences with the same members start with equal
      elements. */
  lemma HeadsEqual<T(!new)>(cmp: (T, T) -> int, eq: (T, T) -> bool, s: seq<T>, t: seq<T>)
    requires Valid(cmp, eq) && Ascending(cmp, s) && Ascending(cmp, t)
    requires |s| > 0 && |t| > 0
    requires Has(eq, t, s[0]) && Has(eq, s, t[0])
    ensures eq(s[0], t[0])
  {
    var a, b := s[0], t[0];
    var j :| 0 <= j < |t| && eq(t[j], a);
    var k :| 0 <= k < |s| && eq(s[k], b);
    Reflexive(cmp, eq, a);
    Reflexive(cmp, eq, b);
    assert cmp(b, t[j]) <= 0;
    assert cmp(a, s[k]) <= 0;
    Flip(cmp, eq, t[j], a);
    Flip(cmp, eq, s[k], b);
    assert TransitiveAt(cmp, b, t[j], a);
    assert TransitiveAt(cmp, a, s[k], b);
    Flip(cmp, eq, a, b);
  }

  /** Strictly ascending sequences with the same members and equal first
      elements have the same members after the first. */
  lemma TailsSameMembers<T(!new)>(cmp: (T, T) -> int, eq: (T, T) -> bool, s: seq<T>, t: seq<T>, x: T)
    requires Valid(cmp, eq) && Ascending(cmp, s) && Ascending(cmp, t)
    requires |s| > 0 && |t| > 0 && eq(s[0], t[0])
    requires Has(eq, s, x) <==> Has(eq, t, x)
    ensures Has(eq, s[1..], x) <==> Has(eq, t[1..], x)
  {
    TailHas(cmp, eq, s, x);
    TailHas(cmp, eq, t, x);
    EqSwap(cmp, eq, s[0], t[0], x);
  }

  /** Strictly ascending sequences are determined by their members: two with
      the same members have the same length and pairwise equal elements. */
  lemma {:induction false} AscendingUnique<T(!new)>(cmp: (T, T) -> int, eq: (T, T) -> bool, s: seq<T>, t: seq<T>)
    requires Valid(cmp, eq) && Ascending(cmp, s) && Ascending(cmp, t)
    requires forall x :: Has(eq, s, x) <==> Has(eq, t, x)
    ensures |s| == |t|
    ensures forall i :: 0 <= i < |s| ==> eq(s[i], t[i])
    decreases |s|
  {
    if |s| > 0 {
      Reflexive(cmp, eq, s[0]);
    }
    if |t| > 0 {
      Reflexive(cmp, eq, t[0]);
    }
    assert |s| > 0 ==> Has(eq, s, s[0]) && Has(eq, t, s[0]);
    assert |t| > 0 ==> Has(eq, t, t[0]) && Has(eq, s, t[0]);
    if |s| > 0 && |t| > 0 {
      HeadsEqual(cmp, eq, s, t);
      forall x
        ensures Has(eq, s[1..], x) <==> Has(eq, t[1..], x)
      {
        TailsSameMembers(cmp, eq, s, t, x);
      }
      assert Ascending(cmp, s[1..]) && Ascending(cmp, t[1..]);
      AscendingUnique(cmp, eq, s[1..], t[1..]);
      forall i | 0 < i < |s|
        ensures eq(s[i], t[i])
      {
        assert s[1..][i - 1] == s[i] && t[1..][i - 1] == t[i];
      }
    }
  }

  /** The order values are added in does not matter: permuted inputs give
      sets with pairwise equal elements. */
  lemma ConstructionOrderIrrelevant<T(!new)>(cmp: (T, T) -> int, eq: (T, T) -> bool, vs: seq<T>, ws: seq<T>)
    requires Valid(cmp, eq) && multiset(vs) == multiset(ws)
    ensures |FromValues(cmp, eq, vs)| == |FromValues(cmp, eq, ws)|
    ensures forall i :: 0 <= i < |FromValues(cmp, eq, vs)| ==>
              eq(FromValues(cmp, eq, vs)[i], FromValues(cmp, eq, ws)[i])
  {
    FromValuesAscending(cmp, eq, vs);
    FromValuesAscending(cmp, eq, ws);
    forall x
      ensures Has(eq, FromValues(cmp, eq, vs), x) <==> Has(eq, FromValues(cmp, eq, ws), x)
    {
      FromValuesHas(cmp, eq, vs, x);
      FromValuesHas(cmp, eq, ws, x);
      if Has(eq, vs, x) {
        var k :| 0 <= k < |vs| && eq(vs[k], x);
        assert vs[k] in multiset(ws);
        var k' :| 0 <= k' < |ws| && ws[k'] == vs[k];
      }
      if Has(eq, ws, x) {
        var k :| 0 <= k < |ws| && eq(ws[k], x);
        assert ws[k] in multiset(vs);
        var k' :| 0 <= k' < |vs| && vs[k'] == ws[k];
      }
    }
    AscendingUnique(cmp, eq, FromValues(cmp, eq, vs), FromValues(cmp, eq, ws));
  }

  // ---------------------------------------------------------------------
  // clear and iteration
  // ---------------------------------------------------------------------

  /** After `clear` the set has size 0 and no members, whatever it held. */
  lemma ClearEmpties<T>(eq: (T, T) -> bool, s: seq<T>, x: T)
    ensures |Clear(s)| == 0 && !Has(eq, Clear(s), x)
  {
  }

  /** A callback that writes down every call it receives. */
  function Record<T, R>(calls: seq<Call<T, R>>, call: Call<T, R>): seq<Call<T, R>> {
    calls + [call]
  }

  /** Replaying the recording callback appends the invocations, in order. */
  lemma {:induction false} ReplayRecords<T, R>(calls: seq<Call<T, R>>, acc: seq<Call<T, R>>)
    ensures Replay(Record, calls, acc) == acc + calls
  {
    if |calls| > 0 {
      ReplayRecords(calls[1..], Record(acc, calls[0]));
      assert acc + [calls[0]] + calls[1..] == acc + calls;
    }
  }

  /** `forEach` calls back once per element, in stored order, with the
      element as key and as value, the set itself, and `thisArg` as `this`:
      the calls follow `entries()`. */
  lemma ForEachFollowsEntries<T, R>(s: seq<T>, thisArg: Receiver<R>)
    ensures var calls := ForEach(s, Record, thisArg, []);
            |calls| == |Entries(s)|
            && forall i :: 0 <= i < |calls| ==>
                 (calls[i].key, calls[i].value) == Entries(s)[i]
                 && calls[i].owner == s && calls[i].self == thisArg
  {
    ReplayRecords(Calls(s, thisArg), []);
  }

  /** As written, a callback given a `thisArg` still runs unbound: on a
      one-element set the recorded call has no receiver, where the intended
      `forEach` passes `thisArg`. */
  lemma ThisArgLost<T, R>(x: T, target: R)
    ensures ForEachAsWritten([x], Record, Bound(target), [])[0].self == Unbound
    ensures ForEach([x], Record, Bound(target), [])[0].self == Bound(target)
  {
    ReplayRecords(Calls<T, R>([x], Unbound), []);
    ReplayRecords(Calls([x], Bound(target)), []);
  }
}
