/** The comparison contract a sorted set relies on.

    A comparator `cmp` answers with an integer whose sign orders two values
    (negative: first comes before, zero: equivalent, positive: first comes
    after). An equality predicate `eq` decides set membership. The set is only
    well-behaved when the comparator's sign is a total preorder and `eq` holds
    exactly where the comparator answers zero.
 */
module Order {

  // Each law is stated pointwise and quantified with the pointwise
  // predicate as its only trigger, so that a proof instantiates it where it
  // asks to (through the lemmas below) and the solver does not enumerate
  // every chain of comparisons in scope.

  ghost predicate OppositeSignsAt<T>(cmp: (T, T) -> int, a: T, b: T) {
    cmp(a, b) < 0 <==> cmp(b, a) > 0
  }

  ghost predicate TransitiveAt<T>(cmp: (T, T) -> int, a: T, b: T, c: T) {
    cmp(a, b) <= 0 && cmp(b, c) <= 0 ==> cmp(a, c) <= 0
  }

  ghost predicate ConsistentAt<T>(cmp: (T, T) -> int, eq: (T, T) -> bool, a: T, b: T) {
    cmp(a, b) == 0 <==> eq(a, b)
  }

  /** Swapping the operands flips the sign: `cmp(a, b)` is negative exactly
      when `cmp(b, a)` is positive. */
  ghost predicate OppositeSigns<T(!new)>(cmp: (T, T) -> int) {
    forall a, b {:trigger OppositeSignsAt(cmp, a, b)} :: OppositeSignsAt(cmp, a, b)
  }

  /** "Comes no later than" is transitive. */
  ghost predicate Transitive<T(!new)>(cmp: (T, T) -> int) {
    forall a, b, c {:trigger TransitiveAt(cmp, a, b, c)} :: TransitiveAt(cmp, a, b, c)
  }

  /** Equality agrees with the comparator's zero. */
  ghost predicate Consistent<T(!new)>(cmp: (T, T) -> int, eq: (T, T) -> bool) {
    forall a, b {:trigger ConsistentAt(cmp, eq, a, b)} :: ConsistentAt(cmp, eq, a, b)
  }

  /** A comparator and equality a sorted set can be built on. */
  ghost predicate Valid<T(!new)>(cmp: (T, T) -> int, eq: (T, T) -> bool) {
    OppositeSigns(cmp) && Transitive(cmp) && Consistent(cmp, eq)
  }

  /** Every pair of stored elements is strictly ascending: sorted and free of
      equivalent elements at once. */
  predicate Ascending<T>(cmp: (T, T) -> int, s: seq<T>) {
    forall i, j :: 0 <= i < j < |s| ==> cmp(s[i], s[j]) < 0
  }

  lemma Reflexive<T(!new)>(cmp: (T, T) -> int, eq: (T, T) -> bool, a: T)
    requires Valid(cmp, eq)
    ensures cmp(a, a) == 0 && eq(a, a)
  {
    assert OppositeSignsAt(cmp, a, a);
    assert ConsistentAt(cmp, eq, a, a);
  }

  lemma Flip<T(!new)>(cmp: (T, T) -> int, eq: (T, T) -> bool, a: T, b: T)
    requires Valid(cmp, eq)
    ensures cmp(a, b) < 0 <==> cmp(b, a) > 0
    ensures cmp(a, b) == 0 <==> cmp(b, a) == 0
    ensures eq(a, b) <==> eq(b, a)
    ensures cmp(a, b) == 0 <==> eq(a, b)
    ensures cmp(b, a) == 0 <==> eq(b, a)
  {
    assert OppositeSignsAt(cmp, a, b) && OppositeSignsAt(cmp, b, a);
    assert ConsistentAt(cmp, eq, a, b) && ConsistentAt(cmp, eq, b, a);
  }

  lemma LessThenAtMost<T(!new)>(cmp: (T, T) -> int, eq: (T, T) -> bool, a: T, b: T, c: T)
    requires Valid(cmp, eq)
    requires cmp(a, b) < 0 && cmp(b, c) <= 0
    ensures cmp(a, c) < 0
  {
    Flip(cmp, eq, a, c);
    Flip(cmp, eq, a, b);
    assert TransitiveAt(cmp, b, c, a);
  }

  lemma AtMostThenLess<T(!new)>(cmp: (T, T) -> int, eq: (T, T) -> bool, a: T, b: T, c: T)
    requires Valid(cmp, eq)
    requires cmp(a, b) <= 0 && cmp(b, c) < 0
    ensures cmp(a, c) < 0
  {
    Flip(cmp, eq, a, c);
    Flip(cmp, eq, b, c);
    assert TransitiveAt(cmp, c, a, b);
  }

  /** Equality is an equivalence: transitive as well as reflexive and symmetric. */
  lemma EqTransitive<T(!new)>(cmp: (T, T) -> int, eq: (T, T) -> bool, a: T, b: T, c: T)
    requires Valid(cmp, eq)
    requires eq(a, b) && eq(b, c)
    ensures eq(a, c)
  {
    Flip(cmp, eq, a, b);
    Flip(cmp, eq, b, c);
    Flip(cmp, eq, a, c);
    assert TransitiveAt(cmp, a, b, c);
    assert TransitiveAt(cmp, c, b, a);
  }

  /** Equal values are interchangeable on the left of an equality. */
  lemma EqSwap<T(!new)>(cmp: (T, T) -> int, eq: (T, T) -> bool, a: T, b: T, x: T)
    requires Valid(cmp, eq)
    requires eq(a, b)
    ensures eq(a, x) <==> eq(b, x)
  {
    Flip(cmp, eq, a, b);
    if eq(a, x) {
      EqTransitive(cmp, eq, b, a, x);
    }
    if eq(b, x) {
      EqTransitive(cmp, eq, a, b, x);
    }
  }

  /** Equal values are interchangeable on the left of a strict comparison. */
  lemma EqLess<T(!new)>(cmp: (T, T) -> int, eq: (T, T) -> bool, a: T, b: T, c: T)
    requires Valid(cmp, eq)
    requires eq(a, b) && cmp(b, c) < 0
    ensures cmp(a, c) < 0
  {
    Flip(cmp, eq, a, b);
    AtMostThenLess(cmp, eq, a, b, c);
  }

  /** Strictly ascending pairs are never equal. */
  lemma LessNotEq<T(!new)>(cmp: (T, T) -> int, eq: (T, T) -> bool, a: T, b: T)
    requires Valid(cmp, eq)
    requires cmp(a, b) < 0
    ensures !eq(a, b) && !eq(b, a)
  {
    Flip(cmp, eq, a, b);
  }
}
