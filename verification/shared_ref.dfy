/** `SharedRef<T>` (SharedRef.hpp): like `std::reference_wrapper`, but holding a
    `std::shared_ptr` that is never null. Copies share the referent; `reset` and
    assignment rebind the wrapper, never touch the object.

    A wrapper is the address its `p_` holds, so aliasing is equality of addresses.
    Reference counting, and so when the shared object is destroyed, is not
    modelled. */
module SharedRefs {
  import opened Exceptions
  import opened Heaps

  /** The member `p_`, a non-null pointer: the address of the referent. */
  datatype SharedRef = SharedRef(p: nat)

  /** `SharedRef(p)`: `Expects(p_ != nullptr)` terminates the program on null. */
  function Make(p: Ptr): (r: Result<SharedRef>)
    ensures r.Ok? <==> p.Addr?
    ensures r.Ok? ==> Share(r.value) == p
    ensures r.Throw? ==> r.error == ContractViolation
  {
    if p.Null? then Throw(ContractViolation) else Ok(SharedRef(p.addr))
  }

  /** `reset(p)`: `Expects(p != nullptr)`, then `p_` becomes `p`. */
  function Reset(r: SharedRef, p: Ptr): (r': Result<SharedRef>)
    ensures r'.Ok? <==> p.Addr?
    ensures r'.Ok? ==> Share(r'.value) == p
    ensures r'.Throw? ==> r'.error == ContractViolation
  {
    if p.Null? then Throw(ContractViolation) else Ok(r.(p := p.addr))
  }

  /** `get()` and the conversion to `T&`: the referent, by its address. */
  function Get(r: SharedRef): nat {
    r.p
  }

  /** `share()` and the conversion to `std::shared_ptr<T>`: `p_` itself. */
  function Share(r: SharedRef): (p: Ptr)
    ensures p.Addr?
  {
    Addr(r.p)
  }

  /** The defaulted copy constructor and copy assignment copy `p_`. */
  function Copy(r: SharedRef): (c: SharedRef)
    ensures Share(c) == Share(r)
  {
    SharedRef(r.p)
  }

  /** The non-member `swap`: exchanges the `p_` of the two wrappers. */
  function Swap(a: SharedRef, b: SharedRef): (r: (SharedRef, SharedRef))
    ensures Get(r.0) == Get(b) && Get(r.1) == Get(a)
  {
    (SharedRef(b.p), SharedRef(a.p))
  }

  // ---------------------------------------------------------------------------
  // Properties

  /** A wrapper never holds null: `share()` is always a pointer to the object that
      `get()` returns. */
  lemma ShareAgreesWithGet(r: SharedRef)
    ensures Share(r).Addr? && Share(r).addr == Get(r)
  {
  }

  /** A copy refers to the same object: an assignment to the object through the
      copy is seen through the original. */
  lemma CopySharesReferent<T>(r: SharedRef, h: Heap<T>, x: T)
    requires h.Valid() && Get(r) in h.cells
    ensures Get(Copy(r)) == Get(r)
    ensures Update(h, Get(Copy(r)), x).cells[Get(r)] == x
  {
  }

  /** Swapping twice restores both wrappers. */
  lemma SwapIsInvolution(a: SharedRef, b: SharedRef)
    ensures var (a', b') := Swap(a, b); Swap(a', b') == (a, b)
  {
  }

  /** The copy test: with `d` a copy of `a` and `c` assigned from `b`, `a` and `d`
      share "one", `b` and `c` share "two", and `a` and `b` do not share. */
  lemma CopyTest()
    ensures var h := Heap(map[0 := "one", 1 := "two", 2 := "three"], 3);
            var a := Make(Addr(0)).value;
            var b := Make(Addr(1)).value;
            var c := Make(Addr(2)).value;
            var d := Copy(a);
            var c' := Copy(b);
            && Get(a) == Get(d) && h.cells[Get(d)] == "one"
            && Get(b) == Get(c') && h.cells[Get(c')] == "two"
            && Get(a) != Get(b) && Get(c) != Get(c')
  {
  }

  /** The rebind test: after `b = a` and then `b` assigned a new wrapper, `a` still
      refers to the first object and `b` to the second. */
  lemma RebindTest()
    ensures var a := Make(Addr(0)).value;
            var b := Copy(a);
            var b' := Copy(Make(Addr(1)).value);
            Get(a) == 0 && Get(b) == Get(a) && Get(b') == 1
  {
  }

  /** The swap test: after `swap(a, b)`, `b` refers to the square that `a` held. */
  lemma SwapTest()
    ensures var h := Heap(map[0 := "square", 1 := "circle"], 2);
            var (a', b') := Swap(Make(Addr(0)).value, Make(Addr(1)).value);
            h.cells[Get(b')] == "square" && h.cells[Get(a')] == "circle"
  {
  }

  /** A null pointer is refused by both the constructor and `reset`. */
  lemma NullIsRefused(r: SharedRef)
    ensures Make(Null) == Throw(ContractViolation)
    ensures Reset(r, Null) == Throw(ContractViolation)
  {
  }
}
