/** `IndirectContainer`, `IndirectSequence` and `IndirectMap` (IndirectContainer.hpp,
    IndirectSequence.hpp, IndirectMap.hpp): a public container of pointers, `base`,
    whose accessors hand out the objects pointed to.

    Pointers are addresses into a `Heap` of objects, so two pointers alias exactly
    when they hold the same address. A `std::vector` of pointers is a sequence; a
    `std::map` is the sequence of its entries in increasing key order, and an
    iterator into either is a position in that sequence (the end iterator being
    the length). Keys are `std::string`s. */
module IndirectContainers {
  import opened Exceptions
  import opened Heaps
  import opened Ordering

  /** The member `base`, as the sequence its iterators visit. */
  datatype IndirectContainer<E> = IndirectContainer(base: seq<E>)

  /** `std::less` on pointers: by address, null first. */
  function PtrLess(p: Ptr, q: Ptr): bool {
    match (p, q)
    case (Null, Addr(_)) => true
    case (Addr(a), Addr(b)) => a < b
    case _ => false
  }

  /** `operator==`: the pointer containers are equal; the objects are not compared. */
  function Equal<E(==)>(c: IndirectContainer<E>, d: IndirectContainer<E>): bool {
    c.base == d.base
  }

  /** `operator<`: the order of the pointer containers, that is the lexicographic
      order of their elements under `less`. */
  function Less<E>(c: IndirectContainer<E>, d: IndirectContainer<E>, less: (E, E) -> bool): bool {
    LexLess(c.base, d.base, less)
  }

  /** `empty()`. */
  function IsEmpty<E>(c: IndirectContainer<E>): bool {
    |c.base| == 0
  }

  /** The defaulted copy constructor: copies `base` pointer for pointer, and not
      the objects the pointers refer to. */
  function Copy<E>(c: IndirectContainer<E>): (r: IndirectContainer<E>)
    ensures |r.base| == |c.base|
    ensures forall i :: 0 <= i < |c.base| ==> r.base[i] == c.base[i]
  {
    IndirectContainer(seq(|c.base|, i requires 0 <= i < |c.base| => c.base[i]))
  }

  /** `size()`. */
  function Size<E>(c: IndirectContainer<E>): nat {
    |c.base|
  }

  /** `clear()`: empties the container. The referents are not tracked here: the
      raw-pointer containers leave them alive, the `unique_ptr` ones destroy them. */
  function Clear<E>(c: IndirectContainer<E>): (r: IndirectContainer<E>)
    ensures IsEmpty(r) && Size(r) == 0
  {
    IndirectContainer([])
  }

  /** `*p`: the referent's address; dereferencing null is undefined behaviour. */
  function Deref(p: Ptr): (r: Result<nat>)
    ensures r.Ok? <==> p.Addr?
    ensures r.Ok? ==> r.value == p.addr
  {
    if p.Null? then Throw(NullDereference) else Ok(p.addr)
  }

  // ---------------------------------------------------------------------------
  // IndirectSequence over a std::vector of pointers

  type IndirectSequence = IndirectContainer<Ptr>

  /** `at(pos)`: `base.at(pos)` throws past the end; then the pointer is dereferenced. */
  function At(c: IndirectSequence, pos: nat): (r: Result<nat>)
    ensures pos >= |c.base| ==> r == Throw(PositionOutOfRange(pos, |c.base|))
    ensures pos < |c.base| && c.base[pos].Addr? ==> r == Ok(c.base[pos].addr)
    ensures pos < |c.base| && c.base[pos].Null? ==> r == Throw(NullDereference)
  {
    if pos >= |c.base| then Throw(PositionOutOfRange(pos, |c.base|)) else Deref(c.base[pos])
  }

  /** `operator[](pos)`: no bounds check, so `pos` must be below the size. */
  function Subscript(c: IndirectSequence, pos: nat): (r: Result<nat>)
    requires pos < |c.base|
  {
    Deref(c.base[pos])
  }

  /** `front()`: the referent of the first pointer; the container must not be empty. */
  function Front(c: IndirectSequence): (r: Result<nat>)
    requires |c.base| > 0
  {
    Deref(c.base[0])
  }

  /** `back()`: the referent of the last pointer; the container must not be empty. */
  function Back(c: IndirectSequence): (r: Result<nat>)
    requires |c.base| > 0
  {
    Deref(c.base[|c.base| - 1])
  }

  // ---------------------------------------------------------------------------
  // IndirectMap over a std::map<std::string, pointer>

  /** A `std::pair<const Key, pointer>` stored in the map. */
  datatype Entry = Entry(key: string, ptr: Ptr)

  type IndirectMap = IndirectContainer<Entry>

  /** `std::pair`'s `operator<`: by key, then by pointer. */
  function EntryLess(e: Entry, f: Entry): bool {
    StrLess(e.key, f.key) || (e.key == f.key && PtrLess(e.ptr, f.ptr))
  }

  /** The entries are in strictly increasing key order, as a `std::map` keeps them. */
  ghost predicate Sorted(c: IndirectMap) {
    forall i, j :: 0 <= i < j < |c.base| ==> StrLess(c.base[i].key, c.base[j].key)
  }

  function Keys(c: IndirectMap): set<string> {
    set e | e in c.base :: e.key
  }

  function LowerBoundFrom(es: seq<Entry>, key: string, i: nat): (r: nat)
    requires i <= |es|
    ensures i <= r <= |es|
    ensures forall j :: i <= j < r ==> StrLess(es[j].key, key)
    ensures r < |es| ==> !StrLess(es[r].key, key)
    decreases |es| - i
  {
    if i == |es| || !StrLess(es[i].key, key) then i else LowerBoundFrom(es, key, i + 1)
  }

  function UpperBoundFrom(es: seq<Entry>, key: string, i: nat): (r: nat)
    requires i <= |es|
    ensures i <= r <= |es|
    ensures forall j :: i <= j < r ==> !StrLess(key, es[j].key)
    ensures r < |es| ==> StrLess(key, es[r].key)
    decreases |es| - i
  {
    if i == |es| || StrLess(key, es[i].key) then i else UpperBoundFrom(es, key, i + 1)
  }

  /** `lower_bound(key)`: the first entry whose key is not less than `key`. */
  function LowerBound(c: IndirectMap, key: string): (r: nat)
    ensures r <= |c.base|
    ensures forall j :: 0 <= j < r ==> StrLess(c.base[j].key, key)
    ensures r < |c.base| ==> !StrLess(c.base[r].key, key)
  {
    LowerBoundFrom(c.base, key, 0)
  }

  /** `upper_bound(key)`: the first entry whose key is greater than `key`. */
  function UpperBound(c: IndirectMap, key: string): (r: nat)
    ensures r <= |c.base|
    ensures forall j :: 0 <= j < r ==> !StrLess(key, c.base[j].key)
    ensures r < |c.base| ==> StrLess(key, c.base[r].key)
  {
    UpperBoundFrom(c.base, key, 0)
  }

  /** `equal_range(key)`: the pair of `lower_bound(key)` and `upper_bound(key)`. */
  function EqualRange(c: IndirectMap, key: string): (r: (nat, nat))
    ensures r.0 <= |c.base| && r.1 <= |c.base|
  {
    (LowerBound(c, key), UpperBound(c, key))
  }

  /** `find(key)`: the position of the entry with that key, or the end. */
  function Find(c: IndirectMap, key: string): (r: nat)
    ensures r <= |c.base|
    ensures r < |c.base| ==> c.base[r].key == key
  {
    var p := LowerBound(c, key);
    if p < |c.base| && c.base[p].key == key then p else |c.base|
  }

  /** `contains(key)`. */
  function Contains(c: IndirectMap, key: string): bool {
    Find(c, key) < |c.base|
  }

  /** `count(key)`. */
  function Count(c: IndirectMap, key: string): (r: nat)
    ensures r <= 1
  {
    if Contains(c, key) then 1 else 0
  }

  /** `at(key)`: `base.at(key)` throws for a missing key; then the pointer is
      dereferenced. */
  function MapAt(c: IndirectMap, key: string): (r: Result<nat>)
    ensures r.Ok? ==> Contains(c, key)
    ensures !Contains(c, key) ==> r == Throw(KeyNotFound(key))
  {
    if Contains(c, key) then Deref(c.base[Find(c, key)].ptr) else Throw(KeyNotFound(key))
  }

  /** `operator[](key)`: `base[key]` inserts a null pointer for a missing key, and
      the dereference that follows is then undefined. Returns the map afterwards. */
  function MapSubscript(c: IndirectMap, key: string): (r: (IndirectMap, Result<nat>))
    requires Sorted(c)
  {
    var p := LowerBound(c, key);
    if p < |c.base| && c.base[p].key == key then (c, Deref(c.base[p].ptr))
    else (IndirectContainer(c.base[..p] + [Entry(key, Null)] + c.base[p..]), Throw(NullDereference))
  }

  /** Every entry points to a live object. */
  predicate AllLive<T>(c: IndirectMap, h: Heap<T>) {
    forall e :: e in c.base ==> e.ptr.Addr? && e.ptr.addr in h.cells
  }

  /** The `erase_if` of the map test: removes the entries whose referent satisfies
      `pred`, and returns how many it removed. */
  function EraseIf<T>(c: IndirectMap, h: Heap<T>, pred: T -> bool): (r: (IndirectMap, nat))
    requires AllLive(c, h)
    ensures |r.0.base| + r.1 == |c.base|
    ensures forall e :: e in r.0.base <==> e in c.base && !pred(h.cells[e.ptr.addr])
    ensures Sorted(c) ==> Sorted(r.0)
    decreases |c.base|
  {
    if c.base == [] then (c, 0)
    else
      var e := c.base[0];
      assert e in c.base;
      var (rest, n) := EraseIf(IndirectContainer(c.base[1..]), h, pred);
      if pred(h.cells[e.ptr.addr]) then (rest, n + 1)
      else (IndirectContainer([e] + rest.base), n)
  }

  // ---------------------------------------------------------------------------
  // Properties

  /** `empty()` holds exactly when `size()` is 0, and `clear()` empties. */
  lemma CapacityAgrees<E>(c: IndirectContainer<E>)
    ensures IsEmpty(c) <==> Size(c) == 0
    ensures IsEmpty(Clear(c))
  {
  }

  /** `operator<` is a strict total order on containers when `less` is one on their
      elements; in particular, for sequences of pointers ordered by address. */
  lemma LessIsStrictTotalOrder<E(!new)>(less: (E, E) -> bool)
    requires StrictTotalOrder(less)
    ensures forall c: IndirectContainer<E> :: !Less(c, c, less)
    ensures forall c: IndirectContainer<E>, d, e :: Less(c, d, less) && Less(d, e, less) ==> Less(c, e, less)
    ensures forall c: IndirectContainer<E>, d :: !Equal(c, d) ==> Less(c, d, less) || Less(d, c, less)
  {
    forall c: IndirectContainer<E> {
      LexLessIrreflexive(c.base, less);
    }
    forall c: IndirectContainer<E>, d, e | Less(c, d, less) && Less(d, e, less) {
      LexLessTransitive(c.base, d.base, e.base, less);
    }
    forall c: IndirectContainer<E>, d | !Equal(c, d) {
      LexLessConnected(c.base, d.base, less);
    }
  }

  lemma PtrLessIsStrictTotalOrder()
    ensures StrictTotalOrder(PtrLess)
  {
  }

  /** The order on map entries under `base < other.base`, by key and then by
      pointer, is a strict total order; so `<` on maps is one too. */
  lemma EntryLessIsStrictTotalOrder()
    ensures StrictTotalOrder(EntryLess)
  {
    StrLessIsStrictTotalOrder();
    PtrLessIsStrictTotalOrder();
  }

  /** A copy of the container shares the objects: after an assignment through the
      copy's element `pos`, the two containers are still equal and the original's
      element `pos` has the new value. */
  lemma ShallowCopyShares<T>(c: IndirectSequence, h: Heap<T>, pos: nat, x: T)
    requires h.Valid() && pos < |c.base| && h.Live(c.base[pos])
    ensures var copy := Copy(c);
            var h' := Update(h, Subscript(copy, pos).value, x);
            && Equal(c, copy)
            && Subscript(c, pos).Ok? && h'.cells[Subscript(c, pos).value] == x
  {
    assert Copy(c).base == c.base;
  }

  /** The shallow-copy test: renaming the three objects through a copy of a
      container of "one", "two" and "three" renames them for the original too,
      and the two containers still compare equal. */
  lemma ShallowCopyTest()
    ensures var h := Heap(map[0 := "one", 1 := "two", 2 := "three"], 3);
            var container: IndirectSequence := IndirectContainer([Addr(0), Addr(1), Addr(2)]);
            var copy := Copy(container);
            var h1 := Update(h, Subscript(copy, 0).value, "alfa");
            var h2 := Update(h1, Subscript(copy, 1).value, "bravo");
            var h3 := Update(h2, Subscript(copy, 2).value, "charlie");
            && Equal(container, copy)
            && h3.cells[Subscript(container, 0).value] != "one"
            && h3.cells[Subscript(container, 1).value] != "two"
  {
    var container: IndirectSequence := IndirectContainer([Addr(0), Addr(1), Addr(2)]);
    assert Copy(container).base == container.base;
  }

  /** The checked and unchecked accessors agree wherever both are defined, and
      `front()` and `back()` are the ends. The const and mutable overloads have
      one body each, so one function models both. */
  lemma AccessorsAgree(c: IndirectSequence, pos: nat)
    requires pos < |c.base|
    ensures At(c, pos) == Subscript(c, pos)
    ensures Front(c) == At(c, 0) && Back(c) == At(c, |c.base| - 1)
  {
  }

  /** The front/back test: a container built from objects named "front", "middle"
      and "back" has "front" at the front and "back" at the back. */
  lemma FrontBackTest()
    ensures var h := Heap(map[0 := "front", 1 := "middle", 2 := "back"], 3);
            var c: IndirectSequence := IndirectContainer([Addr(0), Addr(1), Addr(2)]);
            && h.cells[Front(c).value] == "front"
            && h.cells[Back(c).value] == "back"
  {
  }

  /** In a sorted map, `lower_bound` splits the entries into those with smaller keys
      and those without, and `upper_bound` those with keys not greater and greater. */
  lemma BoundsPartition(c: IndirectMap, key: string)
    requires Sorted(c)
    ensures forall j :: LowerBound(c, key) <= j < |c.base| ==> !StrLess(c.base[j].key, key)
    ensures forall j :: UpperBound(c, key) <= j < |c.base| ==> StrLess(key, c.base[j].key)
  {
    StrLessIsStrictTotalOrder();
  }

  /** The scan of `lower_bound` stops at the first entry whose key is not less. */
  lemma {:induction false} LowerBoundFromIsFirst(es: seq<Entry>, key: string, i: nat, j: nat)
    requires i <= j <= |es|
    requires forall k :: i <= k < j ==> StrLess(es[k].key, key)
    requires j < |es| ==> !StrLess(es[j].key, key)
    ensures LowerBoundFrom(es, key, i) == j
    decreases j - i
  {
    if i < j {
      LowerBoundFromIsFirst(es, key, i + 1, j);
    }
  }

  /** The scan of `upper_bound` stops at the first entry whose key is greater. */
  lemma {:induction false} UpperBoundFromIsFirst(es: seq<Entry>, key: string, i: nat, j: nat)
    requires i <= j <= |es|
    requires forall k :: i <= k < j ==> !StrLess(key, es[k].key)
    requires j < |es| ==> StrLess(key, es[j].key)
    ensures UpperBoundFrom(es, key, i) == j
    decreases j - i
  {
    if i < j {
      UpperBoundFromIsFirst(es, key, i + 1, j);
    }
  }

  /** In a sorted map, the entry holding `key` is where `lower_bound` and `find`
      point, and `upper_bound` points just past it. */
  lemma KeyPosition(c: IndirectMap, key: string, j: nat)
    requires Sorted(c) && j < |c.base| && c.base[j].key == key
    ensures LowerBound(c, key) == j && Find(c, key) == j
    ensures UpperBound(c, key) == j + 1
  {
    StrLessIsStrictTotalOrder();
    LowerBoundFromIsFirst(c.base, key, 0, j);
    UpperBoundFromIsFirst(c.base, key, 0, j + 1);
  }

  /** In a sorted map, `find` locates the key exactly when it is present, and then
      `lower_bound` points at it. */
  lemma FindLocatesKey(c: IndirectMap, key: string)
    requires Sorted(c)
    ensures Contains(c, key) <==> key in Keys(c)
    ensures Count(c, key) == (if key in Keys(c) then 1 else 0)
    ensures key in Keys(c) ==> Find(c, key) == LowerBound(c, key)
  {
    if key in Keys(c) {
      var j :| 0 <= j < |c.base| && c.base[j].key == key;
      KeyPosition(c, key, j);
    }
  }

  /** In a sorted map, `upper_bound` is `lower_bound` plus `count`. */
  lemma UpperBoundIsLowerBoundPlusCount(c: IndirectMap, key: string)
    requires Sorted(c)
    ensures UpperBound(c, key) == LowerBound(c, key) + Count(c, key)
  {
    FindLocatesKey(c, key);
    if key in Keys(c) {
      var j :| 0 <= j < |c.base| && c.base[j].key == key;
      KeyPosition(c, key, j);
    } else {
      StrLessIsStrictTotalOrder();
      var lb := LowerBound(c, key);
      assert forall e :: e in c.base ==> e.key != key;
      assert lb < |c.base| ==> c.base[lb].key != key;
      UpperBoundFromIsFirst(c.base, key, 0, lb);
    }
  }

  /** In a sorted map, `equal_range(key)` spans exactly the entries whose key is
      `key`: none when the key is absent, and otherwise the one entry `find` locates. */
  lemma EqualRangeSpansKey(c: IndirectMap, key: string)
    requires Sorted(c)
    ensures var (first, last) := EqualRange(c, key);
            && first <= last
            && last - first == Count(c, key)
            && (forall j :: first <= j < last ==> c.base[j].key == key)
            && (forall j :: 0 <= j < |c.base| && c.base[j].key == key ==> first <= j < last)
  {
    UpperBoundIsLowerBoundPlusCount(c, key);
    FindLocatesKey(c, key);
    forall j | 0 <= j < |c.base| && c.base[j].key == key
      ensures LowerBound(c, key) <= j < UpperBound(c, key)
    {
      KeyPosition(c, key, j);
    }
  }

  /** `at(key)` is the referent stored under `key`, and throws `std::out_of_range`
      exactly when the key is absent. */
  lemma MapAtReturnsReferent(c: IndirectMap, key: string)
    requires Sorted(c)
    ensures MapAt(c, key).Throw? && MapAt(c, key).error.IsOutOfRange() <==> key !in Keys(c)
    ensures forall i :: 0 <= i < |c.base| && c.base[i].key == key ==> MapAt(c, key) == Deref(c.base[i].ptr)
  {
    FindLocatesKey(c, key);
    forall i | 0 <= i < |c.base| && c.base[i].key == key
      ensures MapAt(c, key) == Deref(c.base[i].ptr)
    {
      KeyPosition(c, key, i);
    }
  }

  /** `operator[](key)` leaves the map alone and returns the referent when the key
      is present; otherwise it inserts the key with a null pointer, keeps the map
      sorted, and the dereference is undefined. */
  lemma MapSubscriptInsertsNull(c: IndirectMap, key: string)
    requires Sorted(c)
    ensures Sorted(MapSubscript(c, key).0)
    ensures Keys(MapSubscript(c, key).0) == Keys(c) + {key}
    ensures key in Keys(c) ==> MapSubscript(c, key).0 == c && MapSubscript(c, key).1 == Deref(c.base[Find(c, key)].ptr)
    ensures key !in Keys(c) ==> MapSubscript(c, key).1 == Throw(NullDereference)
    ensures key !in Keys(c) ==> Size(MapSubscript(c, key).0) == Size(c) + 1
  {
    FindLocatesKey(c, key);
    BoundsPartition(c, key);
    StrLessIsStrictTotalOrder();
    var p := LowerBound(c, key);
    if !(p < |c.base| && c.base[p].key == key) {
      if p < |c.base| {
        assert StrLess(key, c.base[p].key);
      }
      InsertKeepsSorted(c, p, key);
      var es := c.base[..p] + [Entry(key, Null)] + c.base[p..];
      assert Keys(IndirectContainer(es)) == Keys(c) + {key} by {
        assert forall e :: e in es <==> e in c.base || e == Entry(key, Null);
      }
    }
  }

  /** Inserting `key` at a position between the smaller and the greater keys keeps
      the map sorted. */
  lemma InsertKeepsSorted(c: IndirectMap, p: nat, key: string)
    requires Sorted(c) && p <= |c.base|
    requires forall j :: 0 <= j < p ==> StrLess(c.base[j].key, key)
    requires p < |c.base| ==> StrLess(key, c.base[p].key)
    ensures Sorted(IndirectContainer(c.base[..p] + [Entry(key, Null)] + c.base[p..]))
  {
    StrLessIsStrictTotalOrder();
    var es := c.base[..p] + [Entry(key, Null)] + c.base[p..];
    forall i, j | 0 <= i < j < |es| ensures StrLess(es[i].key, es[j].key) {
      if j < p || i > p {
      } else if i == p {
        assert StrLess(key, c.base[j - 1].key);
      } else if j == p {
        assert StrLess(c.base[i].key, key);
      } else {
        assert StrLess(c.base[i].key, key) && StrLess(key, c.base[j - 1].key);
      }
    }
  }

  /** The predicate of the erase-if test. */
  predicate IsTwo(name: string) {
    name == "two"
  }

  /** The map of the erase-if test, over the objects "one", "two" and "three". */
  function TestMap(): IndirectMap {
    IndirectContainer([Entry("one", Addr(0)), Entry("three", Addr(2)), Entry("two", Addr(1))])
  }

  function TestObjects(): Heap<string> {
    Heap(map[0 := "one", 1 := "two", 2 := "three"], 3)
  }

  lemma ErasesTwo()
    ensures EraseIf(TestMap(), TestObjects(), IsTwo) == (IndirectContainer([Entry("one", Addr(0)), Entry("three", Addr(2))]), 1)
  {
    var h, pred := TestObjects(), IsTwo;
    var one, three, two := Entry("one", Addr(0)), Entry("three", Addr(2)), Entry("two", Addr(1));
    assert EraseIf(IndirectContainer([three, two]), h, pred) == (IndirectContainer([three]), 1) by {
      assert [three, two][1..] == [two] && [two][1..] == [];
      assert !pred(h.cells[2]) && [three] + [] == [three];
    }
    assert [one, three, two][1..] == [three, two];
    assert !pred(h.cells[0]) && [one] + [three] == [one, three];
  }

  /** The map the erase-if test is left with holds "one" and "three", not "two". */
  lemma OneAndThreeLookups()
    ensures var c: IndirectMap := IndirectContainer([Entry("one", Addr(0)), Entry("three", Addr(2))]);
            Size(c) == 2 && !Contains(c, "two") && Contains(c, "one") && Contains(c, "three")
  {
    var c: IndirectMap := IndirectContainer([Entry("one", Addr(0)), Entry("three", Addr(2))]);
    assert Sorted(c) by {
      assert StrLess("one", "three");
    }
    KeyPosition(c, "one", 0);
    KeyPosition(c, "three", 1);
    FindLocatesKey(c, "two");
    assert "two" !in Keys(c) by {
      assert "two" != "one" && "two" != "three";
    }
  }

  /** The map's erase-if test: of the objects "one", "two" and "three", the one named
      "two" is erased, one entry is removed and two remain. */
  lemma EraseIfTest()
    ensures var (c', removed) := EraseIf(TestMap(), TestObjects(), IsTwo);
            && removed == 1
            && Size(c') == 2
            && !Contains(c', "two") && Contains(c', "one") && Contains(c', "three")
  {
    ErasesTwo();
    OneAndThreeLookups();
  }
}
