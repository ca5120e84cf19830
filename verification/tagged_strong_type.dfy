/** `StrongType<T, UniqueTag>` and `StrongIdentifier<T, UniqueTag>`
    (TaggedStrongType.hpp): the same wrappers without inheritance, made distinct by
    a tag type that is never used for anything else. Identifiers with different
    tags are different types, so they cannot be compared or mixed. */
module TaggedStrongTypes {
  import opened Ordering
  import StrongTypes

  /** `StrongType<T, Tag>`: the public member `value`. */
  datatype StrongType<Tag> = StrongType(value: int)

  /** `StrongIdentifier<T, Tag>`. */
  datatype StrongIdentifier<Tag> = StrongIdentifier(value: int)

  /** `StrongType<T, Tag>{}`: `value{}` zero-initialises. */
  function DefaultStrongType<Tag>(): (r: StrongType<Tag>)
    ensures r.value == 0
  {
    StrongType(0)
  }

  /** The static member `null{}`: zero-initialised. */
  function Null<Tag>(): (r: StrongIdentifier<Tag>)
    ensures r.value == 0
  {
    StrongIdentifier(0)
  }

  /** `operator==`: compares the wrapped values. */
  function Equal<Tag>(a: StrongIdentifier<Tag>, b: StrongIdentifier<Tag>): bool {
    a.value == b.value
  }

  /** `operator<`: compares the wrapped values. */
  function Less<Tag>(a: StrongIdentifier<Tag>, b: StrongIdentifier<Tag>): bool {
    a.value < b.value
  }

  /** The untagged identifier with the same value. */
  function Untagged<Tag>(a: StrongIdentifier<Tag>): StrongTypes.StrongIdentifier {
    StrongTypes.StrongIdentifier(a.value)
  }

  // ---------------------------------------------------------------------------
  // Properties

  /** The tag changes nothing about the behaviour: `null`, `==` and `<` are those of
      the untagged identifier with the same value. */
  lemma AgreesWithUntagged<Tag>(a: StrongIdentifier<Tag>, b: StrongIdentifier<Tag>)
    ensures Untagged(Null<Tag>()) == StrongTypes.Null
    ensures Equal(a, b) <==> StrongTypes.Equal(Untagged(a), Untagged(b))
    ensures Less(a, b) <==> StrongTypes.Less(Untagged(a), Untagged(b))
  {
  }

  /** `==` is equality of identifiers, and `<` a strict total order whose
      equivalence is `==`. */
  lemma LessIsStrictTotalOrder<Tag(!new)>()
    ensures forall a: StrongIdentifier<Tag>, b :: Equal(a, b) <==> a == b
    ensures StrictTotalOrder(Less<Tag>)
    ensures forall a: StrongIdentifier<Tag>, b :: !Less(a, b) && !Less(b, a) <==> Equal(a, b)
  {
  }
}
