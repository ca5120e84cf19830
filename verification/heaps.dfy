/** Memory: objects at addresses, and the pointers that name them. */
module Heaps {

  /** The value of a raw, unique or shared pointer: null or the address of an object. */
  datatype Ptr = Null | Addr(addr: nat)

  /** The objects alive at some moment, by address; `next` is where the allocator
      places the next object, so it is above every address in use. */
  datatype Heap<T> = Heap(cells: map<nat, T>, next: nat) {
    ghost predicate Valid() {
      forall a :: a in cells ==> a < next
    }

    /** `p` points to a live object. */
    predicate Live(p: Ptr) {
      p.Addr? && p.addr in cells
    }
  }

  /** A heap with nothing in it. */
  function EmptyHeap<T>(): (h: Heap<T>)
    ensures h.Valid() && h.cells == map[]
  {
    Heap(map[], 0)
  }

  /** Every object of `h` is still in `h'` with the same value. */
  ghost predicate Extends<T>(h: Heap<T>, h': Heap<T>) {
    forall a :: a in h.cells ==> a in h'.cells && h'.cells[a] == h.cells[a]
  }

  /** `new`: places `x` at an address no live object uses. */
  function Alloc<T>(h: Heap<T>, x: T): (r: (Heap<T>, nat))
    requires h.Valid()
    ensures r.1 !in h.cells
    ensures r.0.Valid() && r.0.cells == h.cells[r.1 := x]
    ensures Extends(h, r.0)
  {
    (Heap(h.cells[h.next := x], h.next + 1), h.next)
  }

  /** `delete`: the object at `a`, if any, is gone and nothing else changes. */
  function Free<T>(h: Heap<T>, a: nat): (h': Heap<T>)
    requires h.Valid()
    ensures h'.Valid() && a !in h'.cells
    ensures forall b :: b != a ==> (b in h'.cells <==> b in h.cells)
    ensures forall b :: b in h'.cells ==> h'.cells[b] == h.cells[b]
  {
    Heap(h.cells - {a}, h.next)
  }

  /** Assignment through a pointer: the object at `a` becomes `x`, nothing else changes. */
  function Update<T>(h: Heap<T>, a: nat, x: T): (h': Heap<T>)
    requires h.Valid() && a in h.cells
    ensures h'.Valid() && h'.cells.Keys == h.cells.Keys
    ensures h'.cells[a] == x
    ensures forall b :: b in h.cells && b != a ==> h'.cells[b] == h.cells[b]
  {
    Heap(h.cells[a := x], h.next)
  }
}
