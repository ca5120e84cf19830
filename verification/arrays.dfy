/** `Array`, a bounds-checked owner of a heap block of doubles, and its growable
    subclass `StretchableArray` (Array.cpp, StretchableArray.cpp).

    An array object is its two data members, `size_` and `data_`, together with its
    dynamic type, which decides which override of the virtual `reserve` runs. The
    blocks live in a `Memory`; every operation takes the memory and returns the new
    one. Element values (doubles) are modelled as reals; nothing computes with them. */
module Arrays {
  import opened Exceptions
  import opened Heaps

  /** The dynamic type of an array object. */
  datatype Kind = Fixed | Stretchable

  /** The data members `size_` (a `gsl::index`) and `data_` (a `unique_ptr<double[]>`). */
  datatype Array = Array(kind: Kind, size: int, data: Ptr)

  /** The heap blocks that arrays own. */
  type Memory = Heap<seq<real>>

  /** The target of a `double&`: element `index` of the block at address `block`. */
  datatype Loc = Loc(block: nat, index: nat)

  /** The outcome of the mutable `operator[]`: the memory and array after `reserve`,
      and the reference returned or the exception thrown. */
  datatype Access = Access(mem: Memory, arr: Array, loc: Result<Loc>)

  function Max(a: int, b: int): int {
    if a < b then b else a
  }

  /** `a` owns a block of exactly `size_` elements, or is empty with a null block. */
  ghost predicate Valid(m: Memory, a: Array) {
    && m.Valid()
    && 0 <= a.size
    && (a.data.Null? ==> a.size == 0)
    && (a.data.Addr? ==> a.data.addr in m.cells && |m.cells[a.data.addr]| == a.size)
  }

  /** The two objects own different blocks, as two distinct array objects always do. */
  predicate Separate(a: Array, b: Array) {
    a.data.Null? || a.data != b.data
  }

  /** Every block in `m` other than `block` is still in `m'`, unchanged: an
      operation on one array leaves every other array's elements alone. */
  ghost predicate OthersUnchanged(m: Memory, m': Memory, block: Ptr) {
    forall b :: b in m.cells && Addr(b) != block ==> b in m'.cells && m'.cells[b] == m.cells[b]
  }

  /** The contents of `a`, in index order. */
  function Elements(m: Memory, a: Array): (es: seq<real>)
    requires Valid(m, a)
    ensures |es| == a.size
  {
    if a.data.Null? then [] else m.cells[a.data.addr]
  }

  /** What `std::make_unique<double[]>(n)` stores: `n` value-initialised doubles. */
  function Zeros(n: nat): (z: seq<real>)
    ensures |z| == n
    ensures forall i :: 0 <= i < n ==> z[i] == 0.0
  {
    seq(n, _ => 0.0)
  }

  /** An object whose members still hold their default initialisers: `size_{0}`
      and a null `data_`. The move constructor starts from this state. */
  function Empty(kind: Kind): Array {
    Array(kind, 0, Null)
  }

  /** `Array(size)` and `StretchableArray(size)`: a fresh block of `n` zeros; a
      negative size makes the allocation throw and no object is made. */
  function New(m: Memory, kind: Kind, n: int): (r: Result<(Memory, Array)>)
    requires m.Valid()
    ensures r.Throw? <==> n < 0
    ensures r.Throw? ==> r.error == BadArrayNewLength(n)
    ensures r.Ok? ==>
              && Valid(r.value.0, r.value.1)
              && r.value.1.kind == kind
              && r.value.1.size == n
              && Elements(r.value.0, r.value.1) == Zeros(n)
              && r.value.1.data.Addr? && r.value.1.data.addr !in m.cells
              && Extends(m, r.value.0)
  {
    if n < 0 then Throw(BadArrayNewLength(n))
    else
      var (m', p) := Alloc(m, Zeros(n));
      Ok((m', Array(kind, n, Addr(p))))
  }

  /** The copy constructor: a new block holding the same elements (a deep copy);
      the object copied from is unchanged. `kind` is the type being constructed. */
  function CopyConstruct(m: Memory, kind: Kind, other: Array): (r: (Memory, Array))
    requires Valid(m, other)
    ensures Valid(r.0, r.1) && Valid(r.0, other)
    ensures r.1.kind == kind && r.1.size == other.size
    ensures Elements(r.0, r.1) == Elements(m, other)
    ensures Elements(r.0, other) == Elements(m, other)
    ensures r.1.data.Addr? && r.1.data.addr !in m.cells
    ensures Extends(m, r.0)
  {
    var (m', p) := Alloc(m, Elements(m, other));
    (m', Array(kind, other.size, Addr(p)))
  }

  /** The non-member `swap`: exchanges `size_` and `data_`; each object keeps its
      own dynamic type. */
  function Swap(left: Array, right: Array): (r: (Array, Array))
    ensures r.0.kind == left.kind && r.1.kind == right.kind
    ensures r.0.size == right.size && r.0.data == right.data
    ensures r.1.size == left.size && r.1.data == left.data
  {
    (Array(left.kind, right.size, right.data), Array(right.kind, left.size, left.data))
  }

  /** The move constructor: swaps a default-initialised object with `other`.
      Returns the new object and what is left of `other`. */
  function MoveConstruct(kind: Kind, other: Array): (r: (Array, Array))
    ensures r.0 == Array(kind, other.size, other.data)
    ensures r.1 == Array(other.kind, 0, Null)
  {
    Swap(Empty(kind), other)
  }

  /** The destructor: releases the block, if there is one. */
  function Destroy(m: Memory, a: Array): (m': Memory)
    requires m.Valid()
    ensures m'.Valid()
    ensures a.data.Addr? ==> a.data.addr !in m'.cells
    ensures OthersUnchanged(m, m', a.data)
  {
    if a.data.Addr? then Free(m, a.data.addr) else m
  }

  /** `assign(Array other)`: `other` is the by-value parameter; it is swapped with
      the target and then destroyed, taking the target's old block with it. */
  function Assign(m: Memory, target: Array, other: Array): (r: (Memory, Array))
    requires Valid(m, target) && Valid(m, other) && Separate(target, other)
    ensures Valid(r.0, r.1)
    ensures r.1.kind == target.kind && r.1.size == other.size && r.1.data == other.data
    ensures Elements(r.0, r.1) == Elements(m, other)
    ensures target.data.Addr? ==> target.data.addr !in r.0.cells
    ensures OthersUnchanged(m, r.0, target.data)
  {
    var (t, o) := Swap(target, other);
    (Destroy(m, o), t)
  }

  /** Copy assignment: copy-construct the parameter, then `assign`. The target ends
      with its own copy of the source's elements and the source is unchanged. */
  function CopyAssign(m: Memory, target: Array, source: Array): (r: (Memory, Array))
    requires Valid(m, target) && Valid(m, source)
    ensures Valid(r.0, r.1)
    ensures r.1.kind == target.kind && r.1.size == source.size
    ensures Elements(r.0, r.1) == Elements(m, source)
    ensures r.1.data.Addr? && r.1.data.addr !in m.cells
    ensures Separate(target, source) ==> Valid(r.0, source) && Elements(r.0, source) == Elements(m, source)
    ensures target.data.Addr? ==> target.data.addr !in r.0.cells
    ensures OthersUnchanged(m, r.0, target.data)
  {
    var (m1, tmp) := CopyConstruct(m, Fixed, source);
    Assign(m1, target, tmp)
  }

  /** Move assignment: move-construct the parameter from the source, then `assign`.
      The target takes over the source's block; the source is left empty with a
      null block. Returns the memory, the target and the source. */
  function MoveAssign(m: Memory, target: Array, source: Array): (r: (Memory, Array, Array))
    requires Valid(m, target) && Valid(m, source) && Separate(target, source)
    ensures Valid(r.0, r.1) && Valid(r.0, r.2)
    ensures r.1.kind == target.kind && r.1.size == source.size && r.1.data == source.data
    ensures Elements(r.0, r.1) == Elements(m, source)
    ensures r.2 == Array(source.kind, 0, Null)
    ensures target.data.Addr? ==> target.data.addr !in r.0.cells
    ensures OthersUnchanged(m, r.0, target.data)
  {
    var (tmp, rest) := MoveConstruct(Fixed, source);
    var (m', t) := Assign(m, target, tmp);
    (m', t, rest)
  }

  /** `size()`. */
  function Size(a: Array): int {
    a.size
  }

  /** `check_bounds(i)`: the first test is `i >= size_`, the second `i < 0`. */
  function CheckBounds(a: Array, i: int): (r: Result<()>)
    ensures r.Ok? <==> 0 <= i < a.size
    ensures r.Throw? ==> r.error.IsOutOfRange()
    ensures i >= a.size ==> r == Throw(IndexExceedsSize(i, a.size))
    ensures i < 0 && i < a.size ==> r == Throw(IndexNegative(i))
  {
    if i >= a.size then Throw(IndexExceedsSize(i, a.size))
    else if i < 0 then Throw(IndexNegative(i))
    else Ok(())
  }

  /** The const `operator[]`: element `i` after a successful bounds check. It
      returns a value and no new memory, so it changes nothing. */
  function Read(m: Memory, a: Array, i: int): (r: Result<real>)
    requires Valid(m, a)
    ensures r.Ok? <==> 0 <= i < a.size
    ensures r.Ok? ==> r.value == Elements(m, a)[i]
    ensures r.Throw? ==> r.error == (if i >= a.size then IndexExceedsSize(i, a.size) else IndexNegative(i))
  {
    var _ :- CheckBounds(a, i);
    Ok(Elements(m, a)[i])
  }

  /** `StretchableArray::reserve(i)`: an index at or past the end replaces the block
      by one of `max(i, 2 * size_)` elements that starts with the old ones. */
  function Stretch(m: Memory, a: Array, i: int): (r: (Memory, Array))
    requires Valid(m, a)
    ensures Valid(r.0, r.1) && r.1.kind == a.kind
    ensures i < a.size ==> r == (m, a)
    ensures i >= a.size ==> r.1.size == Max(i, 2 * a.size)
    ensures r.1.size >= a.size
    ensures Elements(r.0, r.1)[..a.size] == Elements(m, a)
    ensures forall k :: a.size <= k < r.1.size ==> Elements(r.0, r.1)[k] == 0.0
    ensures i >= a.size ==> r.1.data.Addr? && r.1.data.addr !in m.cells
    ensures i >= a.size && a.data.Addr? ==> a.data.addr !in r.0.cells
    ensures OthersUnchanged(m, r.0, a.data)
  {
    if i < a.size then (m, a)
    else
      var larger := Max(i, 2 * a.size);
      var (m1, p) := Alloc(m, Elements(m, a) + Zeros(larger - a.size));
      (Destroy(m1, a), Array(a.kind, larger, Addr(p)))
  }

  /** The virtual `reserve(i)`: a no-op for `Array`, `Stretch` for `StretchableArray`. */
  function Reserve(m: Memory, a: Array, i: int): (r: (Memory, Array))
    requires Valid(m, a)
    ensures Valid(r.0, r.1) && r.1.kind == a.kind && r.1.size >= a.size
    ensures a.kind == Fixed ==> r == (m, a)
    ensures Elements(r.0, r.1)[..a.size] == Elements(m, a)
    ensures forall k :: a.size <= k < r.1.size ==> Elements(r.0, r.1)[k] == 0.0
    ensures r.1.data == a.data || (r.1.data.Addr? && r.1.data.addr !in m.cells)
    ensures OthersUnchanged(m, r.0, a.data)
  {
    match a.kind
    case Fixed => (m, a)
    case Stretchable => Stretch(m, a, i)
  }

  /** The mutable `operator[]`: `reserve(i)` first, then `check_bounds(i)`. The
      effect of `reserve` stays even when the bounds check throws. */
  function Index(m: Memory, a: Array, i: int): (r: Access)
    requires Valid(m, a)
    ensures Valid(r.mem, r.arr) && r.arr.kind == a.kind && r.arr.size >= a.size
    ensures a.kind == Fixed ==> r.mem == m && r.arr == a
    ensures Elements(r.mem, r.arr)[..a.size] == Elements(m, a)
    ensures forall k :: a.size <= k < r.arr.size ==> Elements(r.mem, r.arr)[k] == 0.0
    ensures r.arr.data == a.data || (r.arr.data.Addr? && r.arr.data.addr !in m.cells)
    ensures OthersUnchanged(m, r.mem, a.data)
    ensures r.loc.Ok? <==> 0 <= i < r.arr.size
    ensures r.loc.Ok? ==> r.arr.data.Addr? && r.loc.value == Loc(r.arr.data.addr, i)
    ensures r.loc.Throw? ==>
              r.loc.error == (if i >= r.arr.size then IndexExceedsSize(i, r.arr.size) else IndexNegative(i))
  {
    var (m', a') := Reserve(m, a, i);
    match CheckBounds(a', i)
    case Ok(_) => Access(m', a', Ok(Loc(a'.data.addr, i)))
    case Throw(e) => Access(m', a', Throw(e))
  }

  /** `loc` names an element of a live block. */
  predicate ValidLoc(m: Memory, loc: Loc) {
    loc.block in m.cells && loc.index < |m.cells[loc.block]|
  }

  /** Reading through a `double&`. */
  function Load(m: Memory, loc: Loc): real
    requires ValidLoc(m, loc)
  {
    m.cells[loc.block][loc.index]
  }

  /** Assigning through a `double&`: that element changes and nothing else. */
  function Store(m: Memory, loc: Loc, x: real): (m': Memory)
    requires m.Valid() && ValidLoc(m, loc)
    ensures m'.Valid() && m'.cells.Keys == m.cells.Keys
    ensures m'.cells[loc.block] == m.cells[loc.block][loc.index := x]
    ensures forall b :: b in m.cells && b != loc.block ==> m'.cells[b] == m.cells[b]
  {
    Update(m, loc.block, m.cells[loc.block][loc.index := x])
  }

  /** `a[i] = x` through the mutable `operator[]`: on success element `i` becomes
      `x` and the other elements are those after `reserve`. */
  function Write(m: Memory, a: Array, i: int, x: real): (r: (Memory, Array, Result<()>))
    requires Valid(m, a)
    ensures Valid(r.0, r.1) && r.1.kind == a.kind && r.1.size >= a.size
    ensures a.kind == Fixed ==> r.1 == a
    ensures r.2.Ok? <==> 0 <= i < r.1.size
    ensures r.2.Ok? ==> Elements(r.0, r.1)[i] == x
    ensures forall k :: a.size <= k < r.1.size && k != i ==> Elements(r.0, r.1)[k] == 0.0
    ensures forall k :: 0 <= k < a.size && k != i ==> Elements(r.0, r.1)[k] == Elements(m, a)[k]
    ensures r.2.Throw? ==> r.0 == Index(m, a, i).mem && r.2.error.IsOutOfRange()
    ensures OthersUnchanged(m, r.0, a.data)
  {
    var acc := Index(m, a, i);
    match acc.loc
    case Ok(loc) => (Store(acc.mem, loc, x), acc.arr, Ok(()))
    case Throw(e) => (acc.mem, acc.arr, Throw(e))
  }

  // ---------------------------------------------------------------------------
  // Properties

  /** Swapping twice restores both objects, and a swap of two valid objects leaves
      two valid objects with their contents exchanged. */
  lemma SwapExchangesContents(m: Memory, left: Array, right: Array)
    requires Valid(m, left) && Valid(m, right)
    ensures Swap(Swap(left, right).0, Swap(left, right).1) == (left, right)
    ensures Valid(m, Swap(left, right).0) && Valid(m, Swap(left, right).1)
    ensures Elements(m, Swap(left, right).0) == Elements(m, right)
    ensures Elements(m, Swap(left, right).1) == Elements(m, left)
  {
  }

  /** The move constructor hands the elements over without copying them and leaves
      the source with size 0 and a null block. */
  lemma MoveConstructTransfers(m: Memory, kind: Kind, other: Array)
    requires Valid(m, other)
    ensures Valid(m, MoveConstruct(kind, other).0) && Valid(m, MoveConstruct(kind, other).1)
    ensures Elements(m, MoveConstruct(kind, other).0) == Elements(m, other)
    ensures MoveConstruct(kind, other).0.data == other.data
    ensures Size(MoveConstruct(kind, other).1) == 0 && MoveConstruct(kind, other).1.data == Null
  {
  }

  /** The copy is deep: a write through `operator[]` of the copy, at any index and
      even when a stretchable copy grows, leaves the original's elements alone, and
      a write through the original leaves the copy's alone. */
  lemma CopyIsDeep(m: Memory, kind: Kind, other: Array, i: int, x: real)
    requires Valid(m, other)
    ensures var (m', c) := CopyConstruct(m, kind, other);
            var (m1, _, _) := Write(m', c, i, x);
            var (m2, _, _) := Write(m', other, i, x);
            && Valid(m1, other) && Elements(m1, other) == Elements(m, other)
            && Valid(m2, c) && Elements(m2, c) == Elements(m, other)
  {
  }

  /** A plain `Array` never changes size through `operator[]`. */
  lemma FixedNeverResizes(m: Memory, a: Array, i: int, x: real)
    requires Valid(m, a) && a.kind == Fixed
    ensures Index(m, a, i).arr.size == a.size
    ensures Write(m, a, i, x).1.size == a.size
    ensures Write(m, a, i, x).2.Ok? <==> 0 <= i < a.size
  {
  }

  /** Access to a `StretchableArray` succeeds exactly for the indices below twice
      the size; a size of 0 therefore admits no index at all. */
  lemma StretchableIndexSucceedsIff(m: Memory, a: Array, i: int)
    requires Valid(m, a) && a.kind == Stretchable
    ensures Index(m, a, i).loc.Ok? <==> 0 <= i < 2 * a.size
  {
  }

  /** For an index at or past twice the size, `reserve` grows the array to exactly
      that index, and the bounds check that follows still throws. */
  lemma StretchPastDoubleStillThrows(m: Memory, a: Array, i: int)
    requires Valid(m, a) && a.kind == Stretchable && i >= 2 * a.size
    ensures Index(m, a, i).arr.size == i
    ensures Index(m, a, i).loc == Throw(IndexExceedsSize(i, i))
  {
  }

  /** The test that writes past the end of a `StretchableArray` of size 3: the
      write succeeds, the size grows, and every value reads back. */
  lemma StretchTest()
    ensures var r := New(EmptyHeap(), Stretchable, 3);
            && r.Ok?
            && var (m0, a0) := r.value;
            && var (m1, a1, r1) := Write(m0, a0, 0, 0.0);
            && var (m2, a2, r2) := Write(m1, a1, 1, 1.0);
            && var (m3, a3, r3) := Write(m2, a2, 2, 2.0);
            && Size(a3) == 3
            && var (m4, a4, r4) := Write(m3, a3, 3, 3.0);
            && r1.Ok? && r2.Ok? && r3.Ok? && r4.Ok?
            && Size(a4) > 3
            && Read(m4, a4, 0) == Ok(0.0)
            && Read(m4, a4, 1) == Ok(1.0)
            && Read(m4, a4, 2) == Ok(2.0)
            && Read(m4, a4, 3) == Ok(3.0)
  {
  }
}
