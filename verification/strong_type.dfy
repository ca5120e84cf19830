/** `StrongType` and `StrongIdentifier` (StrongType.hpp): a value wrapped in its own
    type, so that values of different meaning cannot be mixed up. An identifier
    adds a `null` constant and `==` and `<` on the wrapped value, which is all a
    `std::set` of identifiers needs.

    The wrapped type is an integer type here; its zero-initialised value is 0. */
module StrongTypes {
  import opened Ordering
  import opened OrderedSets

  /** `StrongType<T>`: the public member `value`. */
  datatype StrongType = StrongType(value: int)

  /** `StrongIdentifier<T>`, derived from `StrongType<T>`. */
  datatype StrongIdentifier = StrongIdentifier(value: int)

  /** `StrongType{}`: `value{}` zero-initialises. */
  function DefaultStrongType(): (r: StrongType)
    ensures r.value == 0
  {
    StrongType(0)
  }

  /** `StrongIdentifier{}`, which is what every derived identifier type starts from. */
  function DefaultIdentifier(): (r: StrongIdentifier)
    ensures r.value == 0
  {
    StrongIdentifier(0)
  }

  /** The static member `null{}`: zero-initialised. */
  const Null: StrongIdentifier := StrongIdentifier(0)

  /** `operator==`: compares the wrapped values. */
  function Equal(a: StrongIdentifier, b: StrongIdentifier): bool {
    a.value == b.value
  }

  /** `operator<`: compares the wrapped values. */
  function Less(a: StrongIdentifier, b: StrongIdentifier): bool {
    a.value < b.value
  }

  /** The `next<T>()` generator of the identifier tests: increments the value of a
      static `previous`, which starts as `null`, and returns it. Returns the new
      identifier and the new `previous`. */
  function Next(previous: StrongIdentifier): (r: (StrongIdentifier, StrongIdentifier))
    ensures Less(previous, r.0) && r.1 == r.0
  {
    var id := StrongIdentifier(previous.value + 1);
    (id, id)
  }

  // ---------------------------------------------------------------------------
  // Properties

  /** `==` on identifiers is equality of the identifiers themselves. */
  lemma EqualIsIdentity(a: StrongIdentifier, b: StrongIdentifier)
    ensures Equal(a, b) <==> a == b
  {
  }

  /** `<` is a strict total order whose equivalence is `==`, so a `std::set` of
      identifiers keeps one identifier per value, in increasing order. */
  lemma LessIsStrictTotalOrder()
    ensures StrictTotalOrder(Less)
    ensures forall a, b :: !Less(a, b) && !Less(b, a) <==> Equal(a, b)
  {
  }

  /** `GreenId{0}`, a default-constructed id and `GreenId{}` are all `null`. */
  lemma NullIsZero()
    ensures Equal(StrongIdentifier(0), Null)
    ensures Equal(DefaultIdentifier(), Null) && DefaultIdentifier() == Null
    ensures forall a :: Equal(a, Null) <==> a.value == 0
  {
  }

  /** The identifier after `n` calls of `next()`. */
  function Generate(previous: StrongIdentifier, n: nat): StrongIdentifier
    decreases n
  {
    if n == 0 then previous else Next(Generate(previous, n - 1)).0
  }

  /** Each identifier `next()` returns is greater than all it returned before, so
      starting from `null` none of them is `null` or a repeat. */
  lemma {:induction false} NextIsIncreasing(previous: StrongIdentifier, k: nat, n: nat)
    requires k < n
    ensures Less(Generate(previous, k), Generate(previous, n))
    ensures Generate(previous, n).value == previous.value + n
    decreases n
  {
    if k < n - 1 {
      NextIsIncreasing(previous, k, n - 1);
    } else {
      GenerateCounts(previous, k);
    }
  }

  lemma {:induction false} GenerateCounts(previous: StrongIdentifier, n: nat)
    ensures Generate(previous, n).value == previous.value + n
    decreases n
  {
    if n > 0 {
      GenerateCounts(previous, n - 1);
    }
  }

  /** The container test: three identifiers from `next()` make a set of size 3,
      inserting a duplicate of the third keeps the size, and after erasing id 1,
      which removes one element, the smallest is 2. */
  lemma ContainerTest()
    ensures var (id1, p1) := Next(Null);
            var (id2, p2) := Next(p1);
            var (id3, _) := Next(p2);
            var set3 := Insert(Insert(Insert([], id1, Less), id2, Less), id3, Less);
            var withDuplicate := Insert(set3, StrongIdentifier(3), Less);
            var (erased, count) := Erase(withDuplicate, StrongIdentifier(1), Less);
            && |set3| == 3
            && |withDuplicate| == 3
            && count == 1
            && erased[0].value == 2
  {
    LessIsStrictTotalOrder();
    var s1 := Insert([], StrongIdentifier(1), Less);
    assert s1 == [StrongIdentifier(1)];
    var s2 := Insert(s1, StrongIdentifier(2), Less);
    assert s2 == [StrongIdentifier(1), StrongIdentifier(2)];
    var s3 := Insert(s2, StrongIdentifier(3), Less);
    assert s3 == [StrongIdentifier(1), StrongIdentifier(2), StrongIdentifier(3)];
  }
}
