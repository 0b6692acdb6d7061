/** The JavaScript array primitives the sorted set is written with, over
    immutable sequences. */
module Arrays {

  /** `Array.prototype.findIndex`: the first index whose element satisfies
      `p`, or -1 when none does. */
  function FindIndex<T>(s: seq<T>, p: T -> bool): (r: int)
    ensures -1 <= r < |s|
    ensures r == -1 <==> forall j :: 0 <= j < |s| ==> !p(s[j])
    ensures 0 <= r ==> p(s[r]) && forall j :: 0 <= j < r ==> !p(s[j])
  {
    if |s| == 0 then -1
    else if p(s[0]) then 0
    else
      var k := FindIndex(s[1..], p);
      if k == -1 then -1 else k + 1
  }

  /** `Array.prototype.some`: whether any element satisfies `p`. */
  function Any<T>(s: seq<T>, p: T -> bool): (b: bool)
    ensures b <==> exists j :: 0 <= j < |s| && p(s[j])
  {
    if |s| == 0 then false
    else p(s[0]) || Any(s[1..], p)
  }

  /** `splice(i, 0, v)`: `v` lands at index `i`, elements from `i` on shift
      one place right. */
  function Insert<T>(s: seq<T>, i: nat, v: T): (r: seq<T>)
    requires i <= |s|
    ensures |r| == |s| + 1 && r[i] == v
    ensures forall j {:trigger r[j]} :: 0 <= j < i ==> r[j] == s[j]
    ensures forall j {:trigger r[j]} :: i < j <= |s| ==> r[j] == s[j - 1]
    ensures multiset(r) == multiset(s) + multiset{v}
  {
    assert s == s[..i] + s[i..];
    s[..i] + [v] + s[i..]
  }

  /** `splice(i, 1)`: the element at index `i` goes, later elements shift one
      place left. */
  function RemoveAt<T>(s: seq<T>, i: nat): (r: seq<T>)
    requires i < |s|
    ensures |r| == |s| - 1
    ensures forall j {:trigger r[j]} :: 0 <= j < i ==> r[j] == s[j]
    ensures forall j {:trigger r[j]} :: i <= j < |r| ==> r[j] == s[j + 1]
    ensures multiset(r) + multiset{s[i]} == multiset(s)
  {
    assert s == s[..i] + [s[i]] + s[i + 1..];
    s[..i] + s[i + 1..]
  }

  /** Removing what was just inserted gives the original array back. */
  lemma RemoveInserted<T>(s: seq<T>, i: nat, v: T)
    requires i <= |s|
    ensures RemoveAt(Insert(s, i, v), i) == s
  {
  }

  /** Putting a removed element back where it was gives the original array. */
  lemma InsertRemoved<T>(s: seq<T>, i: nat)
    requires i < |s|
    ensures Insert(RemoveAt(s, i), i, s[i]) == s
  {
  }

  /** Removing an element and inserting a value in its slot overwrites it. */
  lemma InsertIntoGap<T>(s: seq<T>, i: nat, v: T)
    requires i < |s|
    ensures Insert(RemoveAt(s, i), i, v) == s[i := v]
  {
    var r := Insert(RemoveAt(s, i), i, v);
    forall j | 0 <= j < |s|
      ensures r[j] == s[i := v][j]
    {
      if j > i {
        assert RemoveAt(s, i)[j - 1] == s[j];
      }
    }
  }
}
