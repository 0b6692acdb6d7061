/** The sorted set's element comparison, `#compare` and `#areEqual`.

    Both dispatch on the runtime type of their first operand: an object is
    asked through its own `compareTo`/`equals`, a number is ordered by the
    relational operators and compared by `===`, and a string is ordered by
    collation and compared by `===`. Collation is modelled by ordinal
    (code point by code point) order, `TextCompare`.
 */
module Comparators {
  import opened Order
  import opened Numbers
  import opened SortedSets

  /** An element as the dispatch sees it. */
  datatype Value<O> = Object(o: O) | Number(n: JsNumber) | Text(s: string)

  /** Both operands have the same runtime type, as one set's elements do. */
  predicate SameKind<O>(a: Value<O>, b: Value<O>) {
    (a.Object? && b.Object?) || (a.Number? && b.Number?) || (a.Text? && b.Text?)
  }

  /** Ordinal string order: by the first differing character, a proper
      prefix first. */
  function TextCompare(a: string, b: string): (r: int)
    ensures -1 <= r <= 1
    ensures r == 0 <==> a == b
  {
    if |a| == 0 && |b| == 0 then 0
    else if |a| == 0 then -1
    else if |b| == 0 then 1
    else if a[0] < b[0] then -1
    else if a[0] > b[0] then 1
    else
      var r := TextCompare(a[1..], b[1..]);
      assert a == [a[0]] + a[1..] && b == [b[0]] + b[1..];
      r
  }

  /** `===` on strings. */
  predicate TextEquals(a: string, b: string) {
    a == b
  }

  /** `#compare`: ask the object, or compare numerically, or collate. */
  function Compare<O>(compareTo: (O, O) -> int, a: Value<O>, b: Value<O>): (r: int)
    requires SameKind(a, b)
    ensures a.Object? ==> r == compareTo(a.o, b.o)
    ensures a.Number? ==> -1 <= r <= 1 && (r < 0 <==> LessThan(a.n, b.n)) && (r > 0 <==> LessThan(b.n, a.n))
    ensures a.Text? ==> -1 <= r <= 1 && (r == 0 <==> a.s == b.s)
  {
    match a
    case Object(o) => compareTo(o, b.o)
    case Number(n) => NumberCompare(n, b.n)
    case Text(s) => TextCompare(s, b.s)
  }

  /** `#areEqual`: ask the object, otherwise `===`, which is false between
      values of different kinds. */
  function AreEqual<O>(equals: (O, O) -> bool, a: Value<O>, b: Value<O>): (r: bool)
    requires a.Object? ==> b.Object?
    ensures a.Object? ==> (r <==> equals(a.o, b.o))
    ensures a.Number? ==> (r <==> a == b && !a.n.NaN?)
    ensures a.Text? ==> (r <==> a == b)
  {
    match a
    case Object(o) => equals(o, b.o)
    case Number(n) => b.Number? && StrictEquals(n, b.n)
    case Text(s) => b.Text? && TextEquals(s, b.s)
  }

  // ---------------------------------------------------------------------
  // the ordinal string order is a valid comparator
  // ---------------------------------------------------------------------

  lemma {:induction false} TextOppositeSigns(a: string, b: string)
    ensures TextCompare(a, b) == -TextCompare(b, a)
  {
    if |a| > 0 && |b| > 0 && a[0] == b[0] {
      TextOppositeSigns(a[1..], b[1..]);
    }
  }

  lemma {:induction false} TextTransitive(a: string, b: string, c: string)
    requires TextCompare(a, b) <= 0 && TextCompare(b, c) <= 0
    ensures TextCompare(a, c) <= 0
  {
    if |a| > 0 && |b| > 0 && |c| > 0 && a[0] == b[0] && b[0] == c[0] {
      TextTransitive(a[1..], b[1..], c[1..]);
    }
  }

  /** Ordinal order with `===` meets the sorted set's contract. */
  lemma TextValid()
    ensures Valid(TextCompare, TextEquals)
  {
    forall a, b
      ensures OppositeSignsAt(TextCompare, a, b)
    {
      TextOppositeSigns(a, b);
    }
    forall a, b, c
      ensures TransitiveAt(TextCompare, a, b, c)
    {
      if TextCompare(a, b) <= 0 && TextCompare(b, c) <= 0 {
        TextTransitive(a, b, c);
      }
    }
  }

  // ---------------------------------------------------------------------
  // numbers: valid without NaN, broken by it
  // ---------------------------------------------------------------------

  /** The numbers the relational operators totally order. */
  type OrderedNumber = n: JsNumber | n.Finite? witness Finite(0.0)

  function OrderedCompare(a: OrderedNumber, b: OrderedNumber): int {
    NumberCompare(a, b)
  }

  predicate OrderedEquals(a: OrderedNumber, b: OrderedNumber) {
    StrictEquals(a, b)
  }

  /** Without `NaN`, the numeric comparator and `===` meet the contract. */
  lemma OrderedNumbersValid()
    ensures Valid(OrderedCompare, OrderedEquals)
  {
  }

  /** `NaN` compares as 0 against itself but is not `===` to itself, so a
      set of numbers holding `NaN` falls outside the contract: adding `NaN`
      twice stores it twice. */
  lemma NaNStoredTwice()
    ensures !Consistent(NumberCompare, StrictEquals)
    ensures Add(NumberCompare, StrictEquals, Add(NumberCompare, StrictEquals, [], NaN), NaN) == [NaN, NaN]
  {
    assert !ConsistentAt(NumberCompare, StrictEquals, NaN, NaN);
    assert Add(NumberCompare, StrictEquals, [], NaN) == [NaN];
    assert Successor(NumberCompare, [NaN], NaN) == 0;
  }

  // ---------------------------------------------------------------------
  // the dispatch, kind by kind
  // ---------------------------------------------------------------------

  /** A comparator and equality that agree everywhere with valid ones are
      valid. */
  lemma ValidAgreeing<T(!new)>(cmp: (T, T) -> int, eq: (T, T) -> bool, cmp': (T, T) -> int, eq': (T, T) -> bool)
    requires Valid(cmp, eq)
    requires forall a, b :: cmp'(a, b) == cmp(a, b) && eq'(a, b) == eq(a, b)
    ensures Valid(cmp', eq')
  {
    forall a, b
      ensures OppositeSignsAt(cmp', a, b) && ConsistentAt(cmp', eq', a, b)
    {
      Flip(cmp, eq, a, b);
    }
    forall a, b, c
      ensures TransitiveAt(cmp', a, b, c)
    {
      assert TransitiveAt(cmp, a, b, c);
    }
  }

  /** Within one kind the dispatch is as good as what it dispatches to.
      Objects whose `compareTo`/`equals` meet the contract give a valid
      comparator. */
  lemma ObjectDispatchValid<O(!new)>(compareTo: (O, O) -> int, equals: (O, O) -> bool)
    requires Valid(compareTo, equals)
    ensures Valid((a: O, b: O) => Compare(compareTo, Object(a), Object(b)),
                  (a: O, b: O) => AreEqual(equals, Object(a), Object(b)))
  {
    ValidAgreeing(compareTo, equals,
                  (a: O, b: O) => Compare(compareTo, Object(a), Object(b)),
                  (a: O, b: O) => AreEqual(equals, Object(a), Object(b)));
  }

  /** Strings give a valid comparator whatever the objects do. */
  lemma TextDispatchValid<O>(compareTo: (O, O) -> int, equals: (O, O) -> bool)
    ensures Valid((a: string, b: string) => Compare(compareTo, Text(a), Text(b)),
                  (a: string, b: string) => AreEqual(equals, Text(a), Text(b)))
  {
    TextValid();
    ValidAgreeing(TextCompare, TextEquals,
                  (a: string, b: string) => Compare(compareTo, Text(a), Text(b)),
                  (a: string, b: string) => AreEqual(equals, Text(a), Text(b)));
  }

  /** Numbers other than `NaN` give a valid comparator whatever the objects
      do. */
  lemma NumberDispatchValid<O>(compareTo: (O, O) -> int, equals: (O, O) -> bool)
    ensures Valid((a: OrderedNumber, b: OrderedNumber) => Compare(compareTo, Number(a), Number(b)),
                  (a: OrderedNumber, b: OrderedNumber) => AreEqual(equals, Number(a), Number(b)))
  {
    OrderedNumbersValid();
    ValidAgreeing(OrderedCompare, OrderedEquals,
                  (a: OrderedNumber, b: OrderedNumber) => Compare(compareTo, Number(a), Number(b)),
                  (a: OrderedNumber, b: OrderedNumber) => AreEqual(equals, Number(a), Number(b)));
  }

  // ---------------------------------------------------------------------
  // examples
  // ---------------------------------------------------------------------

  /** The first three additions of the documented example: baz, then qux,
      then foo in between. */
  lemma ExampleFirstSteps()
    ensures Add(TextCompare, TextEquals, Add(TextCompare, TextEquals,
              Add(TextCompare, TextEquals, [], "baz"), "qux"), "foo") == ["baz", "foo", "qux"]
  {
    AddAtSuccessor(TextCompare, TextEquals, [], "baz", 0);
    assert TextCompare("baz", "qux") == -1;
    AddAtSuccessor(TextCompare, TextEquals, ["baz"], "qux", 1);
    assert TextCompare("baz", "foo") == -1 && TextCompare("qux", "foo") == 1;
    AddAtSuccessor(TextCompare, TextEquals, ["baz", "qux"], "foo", 1);
  }

  /** The last addition: bar goes in front. */
  lemma ExampleLastStep()
    ensures Add(TextCompare, TextEquals, ["baz", "foo", "qux"], "bar") == ["bar", "baz", "foo", "qux"]
  {
    assert TextCompare("baz", "bar") == 1;
    AddAtSuccessor(TextCompare, TextEquals, ["baz", "foo", "qux"], "bar", 0);
  }

  /** Adding baz, qux, foo and bar in a chain yields bar, baz, foo, qux. */
  lemma ExampleOrder()
    ensures var add := (s, v) => Add(TextCompare, TextEquals, s, v);
            add(add(add(add([], "baz"), "qux"), "foo"), "bar") == ["bar", "baz", "foo", "qux"]
  {
    ExampleFirstSteps();
    ExampleLastStep();
  }

  /** A collation that ties two distinct strings, as locale collation does
      for canonically equivalent spellings, is outside the contract under
      `===`: both spellings are stored, side by side. */
  lemma CollationTiesStoredTwice(collate: (string, string) -> int, a: string, b: string)
    requires a != b && collate(a, b) == 0 && collate(b, a) == 0
    ensures !Consistent(collate, TextEquals)
    ensures Add(collate, TextEquals, Add(collate, TextEquals, [], a), b) == [b, a]
  {
    assert !ConsistentAt(collate, TextEquals, a, b);
    assert Add(collate, TextEquals, [], a) == [a];
    assert Successor(collate, [a], b) == 0;
    assert Arrays.Insert([a], 0, b) == [b, a];
  }

  /** The naming mixin's `equals`, which refuses blank names. */
  predicate NamedEquals(a: string, b: string) {
    |a| > 0 && TextCompare(a, b) == 0
  }

  /** The name-based equality refuses to equate blank names while the name
      order calls them equivalent, so it is outside the contract: a
      blank-named entity added twice is stored twice, and `has` never finds
      it, in any set. */
  lemma BlankNameStoredTwice()
    ensures !Consistent(TextCompare, NamedEquals)
    ensures Add(TextCompare, NamedEquals, Add(TextCompare, NamedEquals, [], ""), "") == ["", ""]
    ensures forall s: seq<string> :: !Has(NamedEquals, s, "")
  {
    assert !ConsistentAt(TextCompare, NamedEquals, "", "");
    assert Add(TextCompare, NamedEquals, [], "") == [""];
    assert Successor(TextCompare, [""], "") == 0;
  }
}
