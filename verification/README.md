# C++ value and ownership idioms, modelled in Dafny

This project models the core of a collection of C++ idioms and proves properties of the model:

- `Array` and `StretchableArray` (Array.cpp, StretchableArray.cpp): a heap block of `double`s with deep copy, move by swap, copy-and-swap assignment, a bounds check, and a virtual `reserve` hook. The hook makes the stretchable kind grow when an index lands past its end.
- The `Stack` of VirtualDataRef.cpp and VirtualDataPtr.cpp: pushes and pops through whichever array object the derived class supplies.
- `IndirectContainer`, `IndirectSequence` and `IndirectMap`: a public container of pointers, `base`, whose accessors hand out the objects pointed to.
- `reference` and `mask` (PointerVector.hpp): build a vector of raw pointers that aliases the elements of another sequence.
- `BasicLockable` (Lockable.hpp): a lock that, in a debug build, records its owning thread.
- `StrongType` and `StrongIdentifier`, plain (StrongType.hpp) and tagged (TaggedStrongType.hpp), with a `std::set` of identifiers.
- `SharedRef` and `UniqueRef`: never-null wrappers around a `std::shared_ptr` or a `std::unique_ptr`.

The model is written as pure functions over immutable datatypes:

- Memory is a `Heap` that maps addresses to objects. A pointer is `Null` or an address, so aliasing is equality of addresses.
- An operation that changes memory takes the heap and returns the new one.
- A C++ exception is a `Throw` result from module `Exceptions`. So are the outcomes that are not exceptions but end normal flow: a failed GSL `Expects`, a failed debug `assert`, and the undefined dereference of a null pointer.
- When the source changes state before it throws, the model returns both the new state and the `Throw`. This happens when `StretchableArray::reserve` grows the block before the bounds check, and when `index_` moves before the stack's array access.

Where the older headers Array.hpp and StretchableArray.hpp disagree with the implementation files (`Size`/`CheckBounds`/`Resize` against `size`/`check_bounds`/`reserve`), the model follows Array.cpp and StretchableArray.cpp.

Two consequences of the code as written are proved rather than corrected:

- `StretchableArray` admits exactly the indices `0 <= i < 2 * size`.
- For `i >= 2 * size`, `reserve` grows the array to size `i`, and the bounds check that follows still throws. So the first three pushes onto a `StretchableStack(0)` throw, and the fourth, at index 3, doubles the size to 4 and succeeds.

Modules, one per file, in dependency order: `Exceptions`, `Heaps`, `Ordering`, `Arrays`, `Stacks`, `IndirectContainers`, `PointerVectors`, `Lockables`, `OrderedSets`, `StrongTypes`, `TaggedStrongTypes`, `SharedRefs`, `UniqueRefs`.

## Model

| member | source | states |
|---|---|---|
| Arrays.New | Array.cpp:5-8 | `Array(n)` has size `n` and `n` zeros in a block no live object used before. It throws `bad_array_new_length` exactly when `n` is negative. |
| Arrays.CopyConstruct | Array.cpp:13-21 | The copy has the source's size and elements in a new block of its own. The source's elements are unchanged. |
| Arrays.CopyIsDeep | Array.cpp:13-21 | After a copy, a write through `operator[]` of either object, at any index and even when a stretchable copy grows, leaves the other's elements as they were. |
| Arrays.Swap | Array.cpp:55-59 | `swap` exchanges size and block and nothing else. Each object keeps its own dynamic type. |
| Arrays.SwapExchangesContents | Array.cpp:55-59 | Swapping twice restores both objects. One swap exchanges their elements and keeps both valid. |
| Arrays.MoveConstruct | Array.cpp:28-30 | The new object takes the source's size and block. The source is left with size 0 and a null block. |
| Arrays.MoveConstructTransfers | Array.cpp:28-30 | A move hands over the same block and elements without copying them, and empties the source. |
| Arrays.Assign | Array.cpp:49-52 | Unified assignment leaves the target with the parameter's size, block and elements. It frees the target's old block and leaves every other block alone. |
| Arrays.Destroy | Array.cpp:49-52 | Destroying the by-value parameter at the end of `assign` frees its block, if it has one, and leaves every other block alone. |
| Arrays.CopyAssign | Array.cpp:33-36 | After copy assignment the target holds its own new copy of the source's elements, the source is unchanged, and the target's old block is freed. Every other block is unchanged. |
| Arrays.MoveAssign | Array.cpp:39-42 | After move assignment the target owns the source's block and elements. The source has size 0 and a null block, the target's old block is freed, and every other block is unchanged. |
| Arrays.CheckBounds | Array.cpp:79-88 | The check passes exactly when `0 <= i < size`. Otherwise it throws `out_of_range`: "exceeds size" when `i >= size` (tested first), "negative" otherwise. |
| Arrays.Read | Array.cpp:63-66 | The const `operator[]` returns element `i` exactly when the bounds check passes, throws its exception otherwise, and changes nothing. |
| Arrays.Stretch | StretchableArray.cpp:4-13 | Growth: `reserve(i)` with `i < size` changes nothing. Otherwise the new size is `max(i, 2*size)`, the old elements are a prefix, the rest are zero, and the old block is freed. The size never decreases, and no other array's block changes. |
| Arrays.Reserve | Array.cpp:90-92 | The base class `reserve` is a no-op. For a `StretchableArray` it never shrinks the array and keeps its elements as a prefix. The block is the old one or a new one, and no other array's block changes. |
| Arrays.Index | Array.cpp:68-72 | The mutable `operator[]` reserves, then checks bounds. It succeeds exactly when `i` is below the size after reserving; a growth stays even when the check throws. No other array's block changes. |
| Arrays.Write | Array.cpp:68-72 | `a[i] = x` sets element `i` to `x` on success. Every other old element is kept and every new one is zero. A plain `Array` keeps its size and block, and no other array's block changes. |
| Arrays.FixedNeverResizes | Array.cpp:68-92 | A plain `Array` never changes size through `operator[]`, and a write succeeds exactly for `0 <= i < size`. |
| Arrays.StretchableIndexSucceedsIff | StretchableArray.cpp:4-13 | Access to a `StretchableArray` succeeds exactly when `0 <= i < 2*size`. |
| Arrays.StretchPastDoubleStillThrows | StretchableArray.cpp:6-11 | For `i >= 2*size` the array grows to exactly `i` elements, and the access still throws "index exceeds size". |
| Arrays.StretchTest | TestStretchableArray.cpp:4-17 | On a size-3 `StretchableArray` holding 0, 1, 2, a write at index 3 succeeds and the size grows past 3. All four values read back. |
| Stacks.NewStack | VirtualDataRef.cpp:77-91 | A new stack of either kind is empty, with an array of the requested size and kind. It throws exactly when the size is negative. |
| Stacks.Push | VirtualDataRef.cpp:65-68 | `Push` writes at `index_` and advances `index_` by one even when the write throws. With room, it appends `x` to the contents. A full `FixedStack` throws "index exceeds size". |
| Stacks.Pop | VirtualDataRef.cpp:70-73 | `Pop` moves `index_` back by one first. On a non-empty stack it returns the top value and changes nothing but `index_`. On an empty stack it throws "index is negative". On a `FixedStack` it changes only `index_` whatever happens, and reading past the end throws "index exceeds size". |
| Stacks.PushWhenRoom | VirtualDataPtr.cpp:52-55 | A push that has room succeeds and appends. A stretchable stack of positive size always has room for the next push. |
| Stacks.StretchablePushSucceedsIff | StretchableArray.cpp:4-13 | A push onto a stretchable stack succeeds exactly when `index_` is below twice the array's size. |
| Stacks.StretchablePushPastDoubleThrows | StretchableArray.cpp:4-13 | A push at or past twice the array's size grows the array to exactly `index_` and throws "index exceeds size". |
| Stacks.ThreePushesPastDoubleThrow | StretchableArray.cpp:4-13 | From an empty stretchable array, three pushes grow it to sizes 0, 1 and 2, and each throws. |
| Stacks.PushAllAppends | VirtualDataRef.cpp:101-104 | Pushing a sequence onto a stack with room appends the whole sequence to the contents. |
| Stacks.PopManyReturnsTop | VirtualDataRef.cpp:105-108 | Popping `n` values from a stack that holds at least `n` succeeds. It returns the top `n` in reverse order of pushing and changes nothing but `index_`, which drops by `n`. |
| Stacks.LastInFirstOut | VirtualDataPtr.cpp:52-60 | Pushing `xs` and popping `|xs|` values returns `xs` reversed and restores the contents. |
| Stacks.FixedStackPushPop | VirtualDataRef.cpp:97-109 | A `FixedStack(n)` filled with `0..n-1` pops `n-1` down to `0`. |
| Stacks.FixedStackPushFull | VirtualDataRef.cpp:111-120 | One push more than `n` onto a `FixedStack(n)` throws `out_of_range`. |
| Stacks.PopEmptyThrows | VirtualDataRef.cpp:122-126 | Popping a new stack throws `out_of_range` and leaves `index_` at -1. |
| Stacks.StretchableStackGrows | VirtualDataRef.cpp:128-142 | A `StretchableStack(n)` with `n > 0` takes `n + 1` pushes without throwing, grows past `n`, and pops them in reverse. |
| Stacks.PushAfterFailedPopThrows | VirtualDataRef.cpp:65-73 | After a failed pop, the next push writes at index -1 and throws as well, leaving `index_` at 0. |
| Stacks.PopAfterFailedPushThrows | VirtualDataRef.cpp:65-73 | After a failed push onto a full `FixedStack`, the next pop reads at the end, throws "index exceeds size", and leaves the stack exactly as it was before the push. |
| Stacks.PopAfterFailedPushesReadsZero | VirtualDataRef.cpp:65-73 | After the three failed pushes onto a `StretchableStack(0)`, a pop grows the array to 4 and returns a 0.0 that was never pushed. |
| Stacks.StretchablePopPastSizeReadsZero | StretchableArray.cpp:4-13 | A pop on a stretchable stack whose top index is past the end but below twice the size grows the array to double and returns one of the new zeros. |
| Stacks.EmptyStretchableStackFirstPushesThrow | StretchableArray.cpp:4-13 | The first three pushes onto a `StretchableStack(0)` throw "index exceeds size", because each growth reaches exactly the index written. The fourth push grows the array to size 4 and succeeds. |
| Stacks.VirtualDataPtrTests | VirtualDataPtr.cpp:73-118 | The four stack tests on size 3: LIFO order, a throwing push when full, a throwing pop when empty, and a stretchable stack that takes a fourth push. |
| Ordering.LexLessIsStrictTotalOrder | IndirectContainer.hpp:62-66 | The lexicographic order that `base < other.base` uses is a strict total order whenever the element order is one. |
| Ordering.StrLessIsStrictTotalOrder | IndirectMap.hpp:17 | `std::string`'s `<`, the key comparison of the map, is irreflexive, transitive and total. |
| IndirectContainers.Clear | IndirectContainer.hpp:138-141 | After `clear()` the container is empty with size 0. |
| IndirectContainers.CapacityAgrees | IndirectContainer.hpp:128-141 | `empty()` holds exactly when `size()` is 0, and `clear()` empties. |
| IndirectContainers.LessIsStrictTotalOrder | IndirectContainer.hpp:56-66 | `<` on containers is a strict total order whose equivalence is `==`. |
| IndirectContainers.PtrLessIsStrictTotalOrder | IndirectContainer.hpp:62-66 | The order on pointers under `base < other.base` is a strict total order. |
| IndirectContainers.EntryLessIsStrictTotalOrder | IndirectContainer.hpp:62-66 | For a map, `base < other.base` compares `(key, pointer)` pairs by key and then by pointer, and that order is a strict total order. |
| IndirectContainers.ShallowCopyShares | IndirectContainer.hpp:56-60 | A copy shares the objects. After an assignment through the copy, the two containers still compare equal and the original sees the new value. |
| IndirectContainers.Copy | IndirectContainer.hpp:17-19 | The implicit copy constructor copies the only member, `base`: the copy holds the same pointers as the original, position by position. |
| IndirectContainers.ShallowCopyTest | TestPointerVector.cpp:61-80 | Renaming the objects through a copy renames them for the original too, and the containers still compare equal. |
| IndirectContainers.At | IndirectSequence.hpp:28-36 | `at(pos)` throws `out_of_range` past the end. Otherwise it returns the referent of `base[pos]`; a null pointer is an undefined dereference. |
| IndirectContainers.Deref | IndirectSequence.hpp:28-36 | Dereferencing a pointer yields its referent exactly when it is not null. |
| IndirectContainers.AccessorsAgree | IndirectSequence.hpp:28-66 | `at` and `operator[]` return the same referent wherever both are defined, and `front()`/`back()` are positions 0 and `size-1`. |
| IndirectContainers.FrontBackTest | TestPointerVector.cpp:82-92 | For objects "front", "middle" and "back", `front()` is "front" and `back()` is "back". |
| IndirectContainers.LowerBound | IndirectMap.hpp:79-87 | `lower_bound(key)` is the first position whose key is not less than `key`. |
| IndirectContainers.UpperBound | IndirectMap.hpp:89-96 | `upper_bound(key)` is the first position whose key is greater than `key`. |
| IndirectContainers.EqualRange | IndirectMap.hpp:72-77 | `equal_range(key)` is a pair of positions within the map. |
| IndirectContainers.Find | IndirectMap.hpp:62-65 | `find(key)` is either the end or a position holding `key`. |
| IndirectContainers.Count | IndirectMap.hpp:57-60 | `count(key)` is 0 or 1. |
| IndirectContainers.MapAt | IndirectMap.hpp:37-45 | `at(key)` throws `out_of_range` for a missing key and succeeds only for a present one. |
| IndirectContainers.BoundsPartition | IndirectMap.hpp:79-96 | In a sorted map, every entry from `lower_bound` on has a key not less than `key`, and every entry from `upper_bound` on a greater one. |
| IndirectContainers.KeyPosition | IndirectMap.hpp:62-96 | The entry holding `key` is where `lower_bound` and `find` point, and `upper_bound` points just past it. |
| IndirectContainers.FindLocatesKey | IndirectMap.hpp:57-70 | `contains(key)` holds exactly when the key is present. `count(key)` is 1 or 0 accordingly, and `find` agrees with `lower_bound` for a present key. |
| IndirectContainers.UpperBoundIsLowerBoundPlusCount | IndirectMap.hpp:57-96 | `upper_bound(key) == lower_bound(key) + count(key)`. |
| IndirectContainers.EqualRangeSpansKey | IndirectMap.hpp:72-77 | `equal_range(key)` spans exactly the entries with key `key`, which number `count(key)`. |
| IndirectContainers.MapAtReturnsReferent | IndirectMap.hpp:37-45 | `at(key)` throws `out_of_range` exactly when the key is absent. Otherwise it returns the referent of the pointer stored under `key`. |
| IndirectContainers.MapSubscriptInsertsNull | IndirectMap.hpp:47-55 | For a present key, `operator[]` leaves the map alone and returns the referent. For an absent key it inserts the key with a null pointer, which keeps the map sorted and adds one entry, and the dereference is undefined. |
| IndirectContainers.InsertKeepsSorted | IndirectMap.hpp:47-55 | Inserting a key at the position between the smaller and the larger keys, as `std::map` does for a missing key, keeps the keys strictly ordered. |
| IndirectContainers.EraseIf | TestPointerMap.cpp:98-101 | `erase_if` keeps exactly the entries whose referent fails the predicate, and returns how many it removed. A sorted map stays sorted, so the result is the kept entries in key order. |
| IndirectContainers.ErasesTwo | TestPointerMap.cpp:98-101 | Erasing by the name "two" from the test's map of "one", "three" and "two" leaves exactly the entries for "one" and "three", in order, and reports 1. |
| IndirectContainers.EraseIfTest | TestPointerMap.cpp:89-105 | Erasing the entry whose object is named "two" from a three-entry map removes 1 entry and leaves 2. |
| PointerVectors.Reference | PointerVector.hpp:19-27 | `reference(s)` has the length of `s`, and its entry `i` points to element `i` of `s`. Every element must be addressable, since each one's address is taken. |
| PointerVectors.SetPositions | PointerVector.hpp:41-45 | Each position `mask` keeps is below the limit and has its bit set. Their number is the count of set bits. |
| PointerVectors.SetPositionsIncreasing | PointerVector.hpp:41-45 | The kept positions are in increasing order, the order of the loop. |
| PointerVectors.SetPositionsComplete | PointerVector.hpp:41-45 | Every position below the limit whose bit is set is kept. |
| PointerVectors.Mask | PointerVector.hpp:35-47 | The loop of `mask` builds the pointers to the elements at the set positions among the first `min(size, bits)`. It keeps as many as there are set bits among them, and so at most `min(size, bits)`. Only the selected elements need be addressable. |
| PointerVectors.MaskComplete | PointerVector.hpp:41-45 | Every considered element whose bit is set has its pointer in the result. |
| PointerVectors.MaskSelectsInOrder | PointerVector.hpp:41-46 | Entry `k` of the result points to the element at the `k`-th set position. These positions increase, and each has its bit set. |
| PointerVectors.MaskIgnoresExcessBits | PointerVector.hpp:39 | Bits beyond the length of the sequence do not affect the result. |
| PointerVectors.MaskIgnoresExcessElements | PointerVector.hpp:39 | For a contiguous vector, elements beyond the length of the mask do not affect the result. |
| PointerVectors.MaskIgnoresExcessPointers | PointerVector.hpp:39 | For an indirect sequence, such as a `SharedPointerVector`, pointers beyond the length of the mask do not affect the result, and need not be addressable. |
| PointerVectors.FullMaskIsReference | PointerVector.hpp:19-47 | A mask with every bit set gives the same view as `reference`. |
| PointerVectors.MaskAliases | PointerVector.hpp:43 | The result aliases the original: after a write through entry `k` of the masked view, the original's element at the `k`-th set position holds the new value. |
| PointerVectors.MaskSkipsNull | PointerVector.hpp:39-43 | A null pointer at a position whose bit is clear is never dereferenced: masking `[null, p]` with false, true gives `[p]`. |
| PointerVectors.MaskTest | TestPointerVector.cpp:109-126 | Masking "one", "two", "three" with true, false, true gives a view of size 2 on "one" and "three". Renaming its second entry "tres" renames the container's third element. |
| Lockables.Fresh | Lockable.hpp:17-21 | A new lockable is unlocked and unowned. |
| Lockables.Lock | Lockable.hpp:26-32 | `lock()` by `t` makes `t` the holder of the lock. |
| Lockables.Unlock | Lockable.hpp:34-40 | `unlock()` releases the lock. |
| Lockables.AssertOwnership | Lockable.hpp:42-50 | `assert_ownership()` never fails in a release build. |
| Lockables.LockUnlockPreserveValid | Lockable.hpp:26-40 | `lock()` and `unlock()` keep the recorded owner equal to the holder in a debug build, and absent in a release build. |
| Lockables.AssertOwnershipAgrees | Lockable.hpp:42-59 | `assert_ownership()` passes exactly when `this_thread_is_owner()` holds, and otherwise aborts with an assertion failure. |
| Lockables.OwnerIsHolder | Lockable.hpp:52-59 | A thread is the owner exactly when it holds the lock (debug), or always (release). |
| Lockables.LockMakesOwner | Lockable.hpp:26-32 | After `t` locks, `t` is the owner, and in a debug build no other thread is. |
| Lockables.UnlockLeavesNoOwner | Lockable.hpp:34-40 | After `unlock()`, in a debug build no thread is the owner, and the lockable is as new. |
| Lockables.LockGuardTest | Lockable.cpp:12-16 | Under a lock guard `assert_ownership()` passes, and lock then unlock restores the lockable. |
| Lockables.UnownedTest | Lockable.cpp:24-38 | On an unlocked lockable, `assert_ownership()` and `this_thread_is_owner()` fail in a debug build and pass in a release build. |
| OrderedSets.Insert | TestStrongType.cpp:123-132 | `insert` keeps the set sorted and holds exactly the old elements and `x`. The size grows by one exactly when `x` was absent. |
| OrderedSets.Erase | TestStrongType.cpp:134 | `erase` keeps the set sorted, removes exactly `x`, and returns 1 or 0 as `x` was present or not. |
| OrderedSets.FirstIsLeast | TestStrongType.cpp:135 | The first element, `*begin()`, is less than every other element. |
| OrderedSets.InsertPresentIsIdentity | TestStrongType.cpp:131-132 | Inserting an element already present leaves the set unchanged. |
| OrderedSets.EraseUndoesInsert | TestStrongType.cpp:126-134 | Erasing a just-inserted new element gives the set back and reports 1. |
| StrongTypes.DefaultStrongType | StrongType.hpp:11 | A default-constructed strong type has value 0. |
| StrongTypes.DefaultIdentifier | StrongType.hpp:41-42 | A default-constructed identifier has value 0. |
| StrongTypes.Next | TestStrongType.cpp:52-57 | `next()` returns an identifier greater than the previous one and stores it as the new previous. |
| StrongTypes.EqualIsIdentity | StrongType.hpp:44-47 | `a == b` holds exactly when the identifiers are equal, that is, when their values are. |
| StrongTypes.LessIsStrictTotalOrder | StrongType.hpp:49-52 | `<` is a strict total order whose equivalence is `==`, which is what `std::set` requires. |
| StrongTypes.NullIsZero | TestStrongType.cpp:71-80 | `GreenId{0}` and a default-constructed id equal `null`, and an id equals `null` exactly when its value is 0. |
| StrongTypes.NextIsIncreasing | TestStrongType.cpp:52-57 | Each identifier `next()` returns is greater than every earlier one, and the `n`-th has value `n` above the start. |
| StrongTypes.ContainerTest | TestStrongType.cpp:122-136 | Three ids from `next()` make a set of size 3, and a duplicate keeps size 3. Erasing id 1 removes one element and leaves 2 as the smallest. |
| TaggedStrongTypes.DefaultStrongType | TaggedStrongType.hpp:13 | A default-constructed tagged strong type has value 0. |
| TaggedStrongTypes.Null | TaggedStrongType.hpp:25-26 | `null` has value 0. |
| TaggedStrongTypes.AgreesWithUntagged | TaggedStrongType.hpp:28-36 | The tagged `null`, `==` and `<` agree with the untagged identifier of the same value. |
| TaggedStrongTypes.LessIsStrictTotalOrder | TaggedStrongType.hpp:28-36 | Tagged `==` is identity, and `<` is a strict total order whose equivalence is `==`. |
| SharedRefs.Make | SharedRef.hpp:48-52 | Construction succeeds exactly for a non-null pointer, and `share()` then returns that pointer. Null violates `Expects`. |
| SharedRefs.Reset | SharedRef.hpp:54-58 | `reset(p)` succeeds exactly for a non-null `p`, which becomes the held pointer. Null violates `Expects`. |
| SharedRefs.Share | SharedRef.hpp:94-102 | `share()` is never null. |
| SharedRefs.Copy | SharedRef.hpp:32-33 | A copy holds the same pointer. |
| SharedRefs.Swap | SharedRef.hpp:104-110 | `swap` exchanges the referents of the two wrappers. |
| SharedRefs.ShareAgreesWithGet | SharedRef.hpp:72-102 | `share()` points to the object `get()` returns. |
| SharedRefs.CopySharesReferent | SharedRef.hpp:32-33 | A copy refers to the same object, so an assignment through the copy is seen through the original. |
| SharedRefs.SwapIsInvolution | SharedRef.hpp:104-110 | Swapping twice restores both wrappers. |
| SharedRefs.CopyTest | TestSharedRef.cpp:59-93 | A copy-constructed `d` shares `a`'s "one", and a copy-assigned `c` shares `b`'s "two". `a` and `b` do not share. |
| SharedRefs.RebindTest | TestSharedRef.cpp:123-133 | Assigning a new wrapper to a copy rebinds the copy only. |
| SharedRefs.SwapTest | TestSharedRef.cpp:135-143 | After `swap(a, b)`, `b` refers to `a`'s old object. |
| SharedRefs.NullIsRefused | SharedRef.hpp:48-58 | The constructor and `reset` refuse null. |
| UniqueRefs.Make | UniqueRef.hpp:44-48 | Construction succeeds exactly for a non-null pointer, and `get()` then refers to that object. Null violates `Expects`. |
| UniqueRefs.New | UniqueRef.hpp:44-48 | Wrapping a newly allocated object yields a wrapper of an object no live object used before, holding the given value. |
| UniqueRefs.Reset | UniqueRef.hpp:50-54 | `reset(p)` succeeds exactly for a non-null `p`. It destroys the old object, refers to `p`'s, and leaves every other object alone. |
| UniqueRefs.Swap | UniqueRef.hpp:78-84 | `swap` exchanges the referents of the two wrappers. |
| UniqueRefs.NewKeepsUnique | UniqueRef.hpp:35-48 | Since copying is deleted, adding a wrapper of a new object keeps every wrapper's object distinct and alive. |
| UniqueRefs.ResetKeepsUnique | UniqueRef.hpp:50-54 | Resetting one wrapper to a new object keeps every wrapper's object distinct and alive, and leaves the others' objects untouched. |
| UniqueRefs.SwapKeepsUnique | UniqueRef.hpp:78-84 | Swapping two wrappers keeps every wrapper's object distinct and alive, and exchanges their referents. |
| UniqueRefs.ConstructorTest | TestUniqueRef.cpp:42-50 | Two wrappers made from two new objects refer to different objects. |
| UniqueRefs.SwapTest | TestUniqueRef.cpp:98-104 | After swapping wrappers of "one" and "two", `b` refers to "one" and `a` to "two". |

## Left out

- `double` elements are modelled as `real`. No arithmetic on them matters, and floating point is not modelled.
- `size_` is a `gsl::index`, a signed 64-bit integer, and the stacks' `index_` is a plain `int` (VirtualDataRef.cpp:23, VirtualDataPtr.cpp:25), which wraps at 2^31. The model uses unbounded integers, so an overflow of `2 * size_`, of `index_++` or `--index_`, or of `++previous.value` is not modelled.
- Arrays.MoveAssign: requires the target and the source to be different objects. A functional model cannot alias its two arguments, so self-move-assignment is not modelled. (Copy self-assignment is modelled.)
- The destructor of `Array` is the implicit release of `data_`. `Arrays.Destroy` models it where the source runs it: on the by-value parameter of `assign`, and on the old block inside `reserve`. The end of an array object's lifetime elsewhere is not modelled.
- The `Verbose` base and members, and all `std::cout` logging, are left out: names of objects, trace output, and the `Stack` name strings.
- The iterators of `IndirectContainer` (`begin`, `end`, `rbegin`, `rend` and their const forms) are left out. Positions stand for iterators, with the end iterator equal to the length.
- The const and non-const overloads of each accessor, and of `reference` and `mask`, run the same code. One function models each pair.
- `std::map` is modelled as its entries in increasing key order, and lookups as linear scans. Only the results are modelled, not the logarithmic cost. Keys are fixed to `std::string`.
- Several members model one-line accessors and have no contract of their own. A lemma about them states their behaviour instead:
  - `IndirectContainers.Subscript`, `Front` and `Back`: `AccessorsAgree`;
  - `IndirectContainers.IsEmpty` and `Size`: `CapacityAgrees`;
  - `IndirectContainers.Equal` and `Less`: `LessIsStrictTotalOrder`;
  - `IndirectContainers.Contains`: `FindLocatesKey`;
  - `Lockables.ThisThreadIsOwner`: `OwnerIsHolder` and `AssertOwnershipAgrees`;
  - `SharedRefs.Get`: `ShareAgreesWithGet`;
  - `UniqueRefs.Get`: the contracts of `Make` and `New`, and the `*KeepsUnique` lemmas;
  - `StrongTypes.Equal` and `Less`: `EqualIsIdentity` and `LessIsStrictTotalOrder`;
  - `StrongTypes.Generate`, the identifier after `n` calls of `next()`: `NextIsIncreasing`;
  - `TaggedStrongTypes.Equal` and `Less`: `AgreesWithUntagged` and `LessIsStrictTotalOrder`;
  - `Arrays.Size`: `Valid`, which makes the array's elements exactly `size()` long.
- IndirectContainers.MapSubscript: has no contract of its own. Its behaviour is stated by `MapSubscriptInsertsNull`, including the undefined dereference of the null pointer it inserts. The rvalue-key overload is the same code.
- `IndirectMap::at` and `operator[]` (IndirectMap.hpp:37-55) are declared to return `std::pair<const key_type, T>&`, but their bodies return the `T&` that `*base.at(key)` and `*base[key]` give. The model follows the bodies: a lookup yields the referent, by its address.
- `std::vector<bool>` bit packing is not modelled; the mask is a sequence of booleans.
- `reference` and `mask` do not modify their input. This holds by construction, since they take the sequence as a value and no memory.
- The stack constructors' default argument `size = 1` (VirtualDataRef.cpp:34,49 and VirtualDataPtr.cpp:10,36) is not a separate operation. A default-constructed stack is `NewStack(m, kind, 1)`.
- Real mutual exclusion is left out:
  - blocking of `std::mutex`;
  - `std::this_thread::get_id()`, which becomes a parameter;
  - the static initialisation of `none_`;
  - the timing tests.
- Lockables.Lock: requires the lock to be free. Waiting for it is not modelled.
- Lockables.Unlock: requires the caller to hold the lock, as `std::mutex::unlock` does.
- The values of `StrongType` are integers. The floating-point strong types of the tests and the arithmetic operators of StrongOperators.hpp are not part of this model. Nor are the scoped-enum identifiers (`RedId`, `BlueId`), which are not `StrongIdentifier`s.
- TestStrongType.cpp names `StrongIdentifier<>` with a default type argument that StrongType.hpp does not declare; the model takes the value type to be an integer.
- Reference counting in `SharedRef` is left out: when a shared object is destroyed is not modelled.
- `SharedRef` and `UniqueRef` declare their move constructor and move assignment deleted, so the model has no move. The tests call move operations and the `makeSharedRef`/`makeUniqueRef` helpers, none of which the headers declare.
- The defaulted destructor of `UniqueRef` destroys the owned object. The lifetime of the wrappers themselves is not modelled, so nothing frees an object when its wrapper goes out of scope; only `reset` frees one.
- UniqueRefs.Reset: requires the new pointer not to be the wrapper's own object, which a separate `unique_ptr` can never hold.
- Conversions to `T&` and `std::shared_ptr<T>` are the same as `get()` and `share()`, apart from their logging. They are covered by those functions.
