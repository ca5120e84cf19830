/** The stack of VirtualDataRef.cpp and VirtualDataPtr.cpp: a `Stack` base class that
    pushes and pops through an array object supplied by a derived class, so that a
    `StretchableArray` makes the stack grow.

    The two files differ only in how the base class holds its array (a reference to
    a member of the derived class, or a `unique_ptr`); `Push` and `Pop` are the same
    code, so one model serves both. The stack owns its array and the array's memory. */
module Stacks {
  import opened Exceptions
  import opened Heaps
  import opened Arrays

  /** The array `data_`, its memory, and the `int` member `index_`. */
  datatype Stack = Stack(mem: Memory, data: Array, index: int)

  /** The array is valid; `index_` itself may have left `0..size` after a throw. */
  ghost predicate Valid(s: Stack) {
    Arrays.Valid(s.mem, s.data)
  }

  /** The stack is in a state its operations keep: `index_` counts the stored values. */
  ghost predicate Good(s: Stack) {
    Valid(s) && 0 <= s.index <= s.data.size
  }

  /** The values on the stack, bottom first. */
  function Contents(s: Stack): (c: seq<real>)
    requires Good(s)
    ensures |c| == s.index
  {
    Elements(s.mem, s.data)[..s.index]
  }

  /** `FixedStack(size)`, the `Stack(size)` of VirtualDataPtr.cpp, and
      `StretchableStack(size)`: an array of the given kind and size, `index_` 0. */
  function NewStack(m: Memory, kind: Kind, n: int): (r: Result<Stack>)
    requires m.Valid()
    ensures r.Throw? <==> n < 0
    ensures r.Ok? ==> Good(r.value) && r.value.index == 0 && Contents(r.value) == []
    ensures r.Ok? ==> r.value.data.kind == kind && r.value.data.size == n
  {
    var (m', a) :- New(m, kind, n);
    Ok(Stack(m', a, 0))
  }

  /** `data_[index_++] = x`: `index_` is incremented before the array access runs,
      so it has moved on even when the access throws. */
  function Push(s: Stack, x: real): (r: (Stack, Result<()>))
    requires Valid(s)
    ensures Valid(r.0) && r.0.index == s.index + 1
    ensures r.0.data.kind == s.data.kind && r.0.data.size >= s.data.size
    ensures r.1.Ok? <==> 0 <= s.index < r.0.data.size
    ensures r.1.Throw? ==> r.1.error.IsOutOfRange()
    ensures s.data.kind == Fixed ==> r.0.data == s.data
    ensures s.data.kind == Fixed && s.index >= s.data.size ==> r.1 == Throw(IndexExceedsSize(s.index, s.data.size))
    ensures Good(s) && r.1.Ok? ==> Good(r.0) && Contents(r.0) == Contents(s) + [x]
  {
    var (m', a', res) := Write(s.mem, s.data, s.index, x);
    (Stack(m', a', s.index + 1), res)
  }

  /** `return data_[--index_]`: `index_` is decremented before the array access
      runs, so it has moved back even when the access throws. */
  function Pop(s: Stack): (r: (Stack, Result<real>))
    requires Valid(s)
    ensures Valid(r.0) && r.0.index == s.index - 1
    ensures r.0.data.kind == s.data.kind && r.0.data.size >= s.data.size
    ensures r.1.Ok? <==> 0 <= s.index - 1 < r.0.data.size
    ensures s.index <= 0 ==> r.1 == Throw(IndexNegative(s.index - 1))
    ensures Good(s) && s.index > 0 ==> r.1 == Ok(Contents(s)[s.index - 1])
    ensures Good(s) && s.index > 0 ==> Good(r.0) && Contents(r.0) == Contents(s)[..s.index - 1]
    ensures (Good(s) && s.index > 0) || s.data.kind == Fixed ==> r.0 == s.(index := s.index - 1)
    ensures s.data.kind == Fixed && s.index - 1 >= s.data.size ==> r.1 == Throw(IndexExceedsSize(s.index - 1, s.data.size))
  {
    var i := s.index - 1;
    var acc := Index(s.mem, s.data, i);
    var s' := Stack(acc.mem, acc.arr, i);
    match acc.loc
    case Ok(loc) => (s', Ok(Load(acc.mem, loc)))
    case Throw(e) => (s', Throw(e))
  }

  /** Pushes `xs` in order, stopping at the first push that throws. */
  function PushAll(s: Stack, xs: seq<real>): (r: (Stack, Result<()>))
    requires Valid(s)
    ensures Valid(r.0)
    decreases |xs|
  {
    if xs == [] then (s, Ok(()))
    else
      var (s1, res) := Push(s, xs[0]);
      if res.Throw? then (s1, res) else PushAll(s1, xs[1..])
  }

  /** Pops `n` times, collecting the values in the order they come off, and stopping
      at the first pop that throws. */
  function PopMany(s: Stack, n: nat): (r: (Stack, Result<seq<real>>))
    requires Valid(s)
    ensures Valid(r.0)
    decreases n
  {
    if n == 0 then (s, Ok([]))
    else
      var (s1, res) := Pop(s);
      match res
      case Throw(e) => (s1, Throw(e))
      case Ok(x) =>
        var (s2, rest) := PopMany(s1, n - 1);
        match rest
        case Throw(e) => (s2, Throw(e))
        case Ok(xs) => (s2, Ok([x] + xs))
  }

  /** `xs` back to front. */
  function Reverse<T>(xs: seq<T>): (r: seq<T>)
    ensures |r| == |xs|
  {
    if xs == [] then [] else Reverse(xs[1..]) + [xs[0]]
  }

  /** Element `i` of the reversal is element `|xs| - 1 - i` of `xs`. */
  lemma {:induction false} ReverseIndex<T>(xs: seq<T>)
    ensures forall i :: 0 <= i < |xs| ==> Reverse(xs)[i] == xs[|xs| - 1 - i]
  {
    if xs != [] {
      ReverseIndex(xs[1..]);
    }
  }

  lemma {:induction false} ReverseSnoc<T>(xs: seq<T>, x: T)
    ensures Reverse(xs + [x]) == [x] + Reverse(xs)
  {
    if xs == [] {
      assert [x][1..] == [];
    } else {
      assert (xs + [x])[1..] == xs[1..] + [x];
      ReverseSnoc(xs[1..], x);
    }
  }

  /** The values `0, 1, ..., n - 1` that the tests push. */
  function Naturals(n: nat): (r: seq<real>)
    ensures |r| == n
    ensures forall i :: 0 <= i < n ==> r[i] == i as real
  {
    seq(n, i => i as real)
  }

  /** A push is sure to succeed: a plain array has room for one more value, and a
      stretchable one can double (it cannot when its size is 0). */
  ghost predicate CanPush(s: Stack) {
    Good(s) && (if s.data.kind == Fixed then s.index < s.data.size else 0 < s.data.size)
  }

  // ---------------------------------------------------------------------------
  // Properties

  /** A push that is sure to succeed stores `x` on top, and a stretchable stack stays
      ready for the next push. */
  lemma PushWhenRoom(s: Stack, x: real)
    requires CanPush(s)
    ensures Push(s, x).1.Ok?
    ensures Good(Push(s, x).0) && Contents(Push(s, x).0) == Contents(s) + [x]
    ensures s.data.kind == Stretchable ==> CanPush(Push(s, x).0)
  {
  }

  /** Pushing `xs` onto a stack with room for them appends them to the contents. */
  lemma {:induction false} PushAllAppends(s: Stack, xs: seq<real>)
    requires Good(s)
    requires s.data.kind == Fixed ==> s.index + |xs| <= s.data.size
    requires s.data.kind == Stretchable ==> 0 < s.data.size
    ensures PushAll(s, xs).1.Ok?
    ensures Good(PushAll(s, xs).0) && Contents(PushAll(s, xs).0) == Contents(s) + xs
    ensures PushAll(s, xs).0.data.kind == s.data.kind
    ensures s.data.kind == Fixed ==> PushAll(s, xs).0.data.size == s.data.size
    decreases |xs|
  {
    if xs != [] {
      PushWhenRoom(s, xs[0]);
      var s1 := Push(s, xs[0]).0;
      PushAllAppends(s1, xs[1..]);
      AppendHeadThenTail(Contents(s), xs);
    }
  }

  lemma AppendHeadThenTail<T>(c: seq<T>, xs: seq<T>)
    requires xs != []
    ensures c + [xs[0]] + xs[1..] == c + xs
  {
    assert [xs[0]] + xs[1..] == xs;
  }

  /** Popping `n` values from a stack holding at least `n` succeeds, returns the
      top `n` in reverse order of pushing, and changes nothing but `index_`. */
  lemma {:induction false} PopManyReturnsTop(s: Stack, n: nat)
    requires Good(s) && n <= s.index
    ensures PopMany(s, n) == (s.(index := s.index - n), Ok(Reverse(Contents(s)[s.index - n..])))
    decreases n
  {
    if n == 0 {
      assert Contents(s)[s.index..] == [];
    } else {
      var s1 := s.(index := s.index - 1);
      assert Pop(s) == (s1, Ok(Contents(s)[s.index - 1]));
      PopManyReturnsTop(s1, n - 1);
      LowerIndexContents(s, s1.index);
      TopStep(Contents(s), Contents(s1), s1.index - (n - 1), PopMany(s1, n - 1).1.value);
    }
  }

  /** Lowering `index_` keeps the values below it. */
  lemma LowerIndexContents(s: Stack, k: nat)
    requires Good(s) && k <= s.index
    ensures Good(s.(index := k)) && Contents(s.(index := k)) == Contents(s)[..k]
  {
  }

  /** The values popped after the top one, `rest`, followed the top one. */
  lemma TopStep<T>(c: seq<T>, c1: seq<T>, i: nat, rest: seq<T>)
    requires 0 < |c| && i < |c| && c1 == c[..|c| - 1] && rest == Reverse(c1[i..])
    ensures [c[|c| - 1]] + rest == Reverse(c[i..])
  {
    ReverseOfSuffix(c, i, |c| - 1);
  }

  lemma SliceOfPrefix<T>(c: seq<T>, i: nat, k: nat)
    requires i <= k <= |c|
    ensures c[..k][i..] == c[i..k]
  {
  }

  lemma ReverseOfSuffix<T>(c: seq<T>, i: nat, k: nat)
    requires i <= k && k + 1 == |c|
    ensures Reverse(c[i..]) == [c[k]] + Reverse(c[..k][i..])
  {
    SliceOfPrefix(c, i, k);
    SuffixSnoc(c, i);
    ReverseSnoc(c[i..k], c[k]);
  }

  lemma SuffixSnoc<T>(c: seq<T>, i: nat)
    requires i < |c|
    ensures c[i..] == c[i..|c| - 1] + [c[|c| - 1]]
  {
  }

  /** Last in, first out: pushing `xs` and then popping `|xs|` values returns `xs`
      reversed and restores the contents. */
  lemma LastInFirstOut(s: Stack, xs: seq<real>)
    requires Good(s)
    requires s.data.kind == Fixed ==> s.index + |xs| <= s.data.size
    requires s.data.kind == Stretchable ==> 0 < s.data.size
    ensures PushAll(s, xs).1.Ok?
    ensures PopMany(PushAll(s, xs).0, |xs|).1 == Ok(Reverse(xs))
    ensures Good(PopMany(PushAll(s, xs).0, |xs|).0)
    ensures Contents(PopMany(PushAll(s, xs).0, |xs|).0) == Contents(s)
  {
    PushAllAppends(s, xs);
    var s1 := PushAll(s, xs).0;
    PopManyReturnsTop(s1, |xs|);
    assert Contents(s1)[s1.index - |xs|..] == xs;
    assert Contents(s1)[..s1.index - |xs|] == Contents(s);
  }

  /** The push-pop test: a `FixedStack(n)` filled with `0..n-1` pops `n-1` down to `0`. */
  lemma FixedStackPushPop(m: Memory, n: nat)
    requires m.Valid()
    ensures NewStack(m, Fixed, n).Ok?
    ensures var s := NewStack(m, Fixed, n).value;
            && PushAll(s, Naturals(n)).1.Ok?
            && PopMany(PushAll(s, Naturals(n)).0, n).1 == Ok(Reverse(Naturals(n)))
  {
    LastInFirstOut(NewStack(m, Fixed, n).value, Naturals(n));
  }

  /** The full-stack test: after `n` pushes onto a `FixedStack(n)`, one more push
      throws `std::out_of_range`. */
  lemma FixedStackPushFull(m: Memory, n: nat)
    requires m.Valid()
    ensures var s := PushAll(NewStack(m, Fixed, n).value, Naturals(n)).0;
            && Push(s, n as real).1 == Throw(IndexExceedsSize(n, n))
            && Push(s, n as real).1.error.IsOutOfRange()
  {
    PushAllAppends(NewStack(m, Fixed, n).value, Naturals(n));
  }

  /** The mirror of the failed pop: a failed push onto a full `FixedStack` leaves
      `index_` one past the end, so the next pop reads at the end, throws "index
      exceeds size" too, and only then is the stack back as it was. */
  lemma PopAfterFailedPushThrows(s: Stack, x: real)
    requires Good(s) && s.data.kind == Fixed && s.index == s.data.size
    ensures Push(s, x).1 == Throw(IndexExceedsSize(s.index, s.index))
    ensures Pop(Push(s, x).0).1 == Throw(IndexExceedsSize(s.index, s.index))
    ensures Pop(Push(s, x).0).0 == s
  {
  }

  /** After the three failed pushes onto a `StretchableStack(0)`, `index_` is 3 and
      the array has size 2. A pop then reads at index 2: `reserve` doubles the array
      to 4 and the pop returns a 0.0 that was never pushed. */
  lemma PopAfterFailedPushesReadsZero(m: Memory, x: real)
    requires m.Valid()
    ensures var s := NewStack(m, Stretchable, 0).value;
            var s3 := Push(Push(Push(s, x).0, x).0, x).0;
            Pop(s3).1 == Ok(0.0) && Pop(s3).0.data.size == 4 && Pop(s3).0.index == 2
  {
    var s := NewStack(m, Stretchable, 0).value;
    ThreePushesPastDoubleThrow(s, x);
    StretchablePopPastSizeReadsZero(Push(Push(Push(s, x).0, x).0, x).0);
  }

  /** A pop on a stretchable stack whose `index_` is past the end, but not past
      twice the size, grows the array and returns one of the new zeros. */
  lemma StretchablePopPastSizeReadsZero(s: Stack)
    requires Valid(s) && s.data.kind == Stretchable
    requires s.data.size <= s.index - 1 < 2 * s.data.size
    ensures Pop(s).1 == Ok(0.0) && Pop(s).0.data.size == 2 * s.data.size
  {
    var acc := Index(s.mem, s.data, s.index - 1);
    assert acc.arr.size == 2 * s.data.size;
  }

  /** The empty-stack test: popping a new stack of any kind throws
      `std::out_of_range`, and leaves `index_` at -1. */
  lemma PopEmptyThrows(m: Memory, kind: Kind, n: nat)
    requires m.Valid()
    ensures var s := NewStack(m, kind, n).value;
            && Pop(s).1 == Throw(IndexNegative(-1))
            && Pop(s).0.index == -1
  {
  }

  /** The stretch test: a `StretchableStack(n)` with `n > 0` takes `n + 1` pushes
      without throwing and pops them back in reverse order. */
  lemma StretchableStackGrows(m: Memory, n: nat)
    requires m.Valid() && 0 < n
    ensures var s := NewStack(m, Stretchable, n).value;
            && PushAll(s, Naturals(n + 1)).1.Ok?
            && PushAll(s, Naturals(n + 1)).0.data.size > n
            && PopMany(PushAll(s, Naturals(n + 1)).0, n + 1).1 == Ok(Reverse(Naturals(n + 1)))
  {
    var s := NewStack(m, Stretchable, n).value;
    LastInFirstOut(s, Naturals(n + 1));
    PushAllAppends(s, Naturals(n + 1));
  }

  /** A failed pop leaves `index_` at -1, so the next push writes at -1, throws
      too, and only then is `index_` back at 0. */
  lemma PushAfterFailedPopThrows(m: Memory, kind: Kind, n: nat, x: real)
    requires m.Valid()
    ensures var s := Pop(NewStack(m, kind, n).value).0;
            && Push(s, x).1 == Throw(IndexNegative(-1))
            && Push(s, x).0.index == 0
  {
  }

  /** A push onto a stretchable stack succeeds exactly when `index_` is below twice
      the array's size, since `reserve` doubles the array before the check. */
  lemma StretchablePushSucceedsIff(s: Stack, x: real)
    requires Valid(s) && s.data.kind == Stretchable
    ensures Push(s, x).1.Ok? <==> 0 <= s.index < 2 * s.data.size
  {
    StretchableIndexSucceedsIff(s.mem, s.data, s.index);
  }

  /** A push at or past twice the size of a stretchable stack's array grows the
      array to exactly `index_` and throws. */
  lemma StretchablePushPastDoubleThrows(s: Stack, x: real)
    requires Valid(s) && s.data.kind == Stretchable && s.index >= 2 * s.data.size
    ensures Push(s, x).0.data.size == s.index
    ensures Push(s, x).1 == Throw(IndexExceedsSize(s.index, s.index))
  {
    StretchPastDoubleStillThrows(s.mem, s.data, s.index);
  }

  /** From an empty array, three pushes onto a stretchable stack each grow the
      array to exactly the index written, and throw. */
  lemma ThreePushesPastDoubleThrow(s: Stack, x: real)
    requires Valid(s) && s.data.kind == Stretchable && s.index == 0 && s.data.size == 0
    ensures var s1 := Push(s, x).0;
            var s2 := Push(s1, x).0;
            && Push(s, x).1 == Throw(IndexExceedsSize(0, 0))
            && Push(s1, x).1 == Throw(IndexExceedsSize(1, 1))
            && Push(s2, x).1 == Throw(IndexExceedsSize(2, 2))
            && Push(s2, x).0.data.size == 2 && Push(s2, x).0.index == 3
  {
    StretchablePushPastDoubleThrows(s, x);
    var s1 := Push(s, x).0;
    StretchablePushPastDoubleThrows(s1, x);
    StretchablePushPastDoubleThrows(Push(s1, x).0, x);
  }

  /** A `StretchableStack(0)` throws on its first three pushes: each grows the
      array to exactly the index written (sizes 0, 1 and 2), and the bounds check
      then throws. The fourth push, at index 3, doubles the size to 4 and succeeds. */
  lemma EmptyStretchableStackFirstPushesThrow(m: Memory, x: real)
    requires m.Valid()
    ensures var s := NewStack(m, Stretchable, 0).value;
            var s1 := Push(s, x).0;
            var s2 := Push(s1, x).0;
            var s3 := Push(s2, x).0;
            && Push(s, x).1 == Throw(IndexExceedsSize(0, 0))
            && Push(s1, x).1 == Throw(IndexExceedsSize(1, 1))
            && Push(s2, x).1 == Throw(IndexExceedsSize(2, 2))
            && Push(s3, x).1.Ok?
  {
    var s := NewStack(m, Stretchable, 0).value;
    ThreePushesPastDoubleThrow(s, x);
    StretchablePushSucceedsIff(Push(Push(Push(s, x).0, x).0, x).0, x);
  }

  /** The four tests of VirtualDataPtr.cpp, each on a stack of size 3. */
  lemma VirtualDataPtrTests(m: Memory)
    requires m.Valid()
    ensures var s := NewStack(m, Fixed, 3).value;
            && PopMany(PushAll(s, [0.0, 1.0, 2.0]).0, 3).1 == Ok([2.0, 1.0, 0.0])
            && Push(PushAll(s, [0.0, 1.0, 2.0]).0, 3.0).1.error.IsOutOfRange()
    ensures Pop(NewStack(m, Fixed, 1).value).1.error.IsOutOfRange()
    ensures var s := NewStack(m, Stretchable, 3).value;
            && PushAll(s, [0.0, 1.0, 2.0, 3.0]).1.Ok?
            && PopMany(PushAll(s, [0.0, 1.0, 2.0, 3.0]).0, 4).1 == Ok([3.0, 2.0, 1.0, 0.0])
  {
    var s := NewStack(m, Fixed, 3).value;
    assert Naturals(3) == [0.0, 1.0, 2.0];
    assert Reverse([0.0, 1.0, 2.0]) == [2.0, 1.0, 0.0];
    FixedStackPushPop(m, 3);
    FixedStackPushFull(m, 3);
    assert Naturals(4) == [0.0, 1.0, 2.0, 3.0];
    assert Reverse([0.0, 1.0, 2.0, 3.0]) == [3.0, 2.0, 1.0, 0.0];
    StretchableStackGrows(m, 3);
  }
}
