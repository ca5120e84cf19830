/** `UniqueRef<T>` (UniqueRef.hpp): like `std::reference_wrapper`, but owning its
    object through a `std::unique_ptr` that is never null. Copying is deleted, so
    no two wrappers ever refer to the same object.

    A wrapper is the address its `p_` holds. The wrappers alive at one time are a
    sequence, and the objects a heap: creating, resetting and swapping wrappers
    keeps every wrapper's object distinct and alive. */
module UniqueRefs {
  import opened Exceptions
  import opened Heaps

  /** The member `p_`, a non-null pointer: the address of the owned object. */
  datatype UniqueRef = UniqueRef(p: nat)

  /** `UniqueRef(p)`: `Expects(p_ != nullptr)` terminates the program on null. */
  function Make(p: Ptr): (r: Result<UniqueRef>)
    ensures r.Ok? <==> p.Addr?
    ensures r.Ok? ==> Get(r.value) == p.addr
    ensures r.Throw? ==> r.error == ContractViolation
  {
    if p.Null? then Throw(ContractViolation) else Ok(UniqueRef(p.addr))
  }

  /** `get()` and the conversion to `T&`: the owned object, by its address. */
  function Get(r: UniqueRef): nat {
    r.p
  }

  /** `UniqueRef<T>(new T{x})`: a new object, owned by a new wrapper. */
  function New<T>(h: Heap<T>, x: T): (r: (Heap<T>, UniqueRef))
    requires h.Valid()
    ensures r.0.Valid() && Get(r.1) !in h.cells
    ensures Get(r.1) in r.0.cells && r.0.cells[Get(r.1)] == x
    ensures Extends(h, r.0)
  {
    var (h', a) := Alloc(h, x);
    (h', UniqueRef(a))
  }

  /** `reset(p)`: `Expects(p != nullptr)`, then `p_ = std::move(p)` destroys the
      object owned before. `p` is a `unique_ptr` of its own, so it never holds the
      object this wrapper owns. */
  function Reset<T>(h: Heap<T>, r: UniqueRef, p: Ptr): (res: Result<(Heap<T>, UniqueRef)>)
    requires h.Valid() && p != Addr(Get(r))
    ensures res.Ok? <==> p.Addr?
    ensures res.Throw? ==> res.error == ContractViolation
    ensures res.Ok? ==> var (h', r') := res.value;
              && h'.Valid() && Get(r') == p.addr && Get(r) !in h'.cells
              && forall a :: a != Get(r) && a in h.cells ==> a in h'.cells && h'.cells[a] == h.cells[a]
  {
    if p.Null? then Throw(ContractViolation) else Ok((Free(h, Get(r)), UniqueRef(p.addr)))
  }

  /** The non-member `swap`: exchanges the `p_` of the two wrappers. */
  function Swap(a: UniqueRef, b: UniqueRef): (r: (UniqueRef, UniqueRef))
    ensures Get(r.0) == Get(b) && Get(r.1) == Get(a)
  {
    (UniqueRef(b.p), UniqueRef(a.p))
  }

  // ---------------------------------------------------------------------------
  // The wrappers alive at one time

  /** No two wrappers own the same object. */
  ghost predicate Unique(refs: seq<UniqueRef>) {
    forall i, j :: 0 <= i < j < |refs| ==> Get(refs[i]) != Get(refs[j])
  }

  /** Every wrapper's object is alive. */
  ghost predicate Owned<T>(refs: seq<UniqueRef>, h: Heap<T>) {
    forall i :: 0 <= i < |refs| ==> Get(refs[i]) in h.cells
  }

  /** Creating a wrapper for a new object keeps ownership unique. */
  lemma NewKeepsUnique<T>(refs: seq<UniqueRef>, h: Heap<T>, x: T)
    requires h.Valid() && Unique(refs) && Owned(refs, h)
    ensures var (h', r) := New(h, x);
            && Unique(refs + [r]) && Owned(refs + [r], h')
            && forall i :: 0 <= i < |refs| ==> h'.cells[Get(refs[i])] == h.cells[Get(refs[i])]
  {
  }

  /** Resetting wrapper `i` to a new object keeps ownership unique, and every other
      wrapper's object is untouched. */
  lemma ResetKeepsUnique<T>(refs: seq<UniqueRef>, h: Heap<T>, i: nat, x: T)
    requires h.Valid() && Unique(refs) && Owned(refs, h) && i < |refs|
    ensures var (h1, a) := Alloc(h, x);
            var res := Reset(h1, refs[i], Addr(a));
            && res.Ok?
            && var (h2, r) := res.value;
               var refs' := refs[i := r];
               && Unique(refs') && Owned(refs', h2)
               && h2.cells[Get(r)] == x
               && forall j :: 0 <= j < |refs| && j != i ==> h2.cells[Get(refs[j])] == h.cells[Get(refs[j])]
  {
  }

  /** Swapping wrappers `i` and `j` keeps ownership unique and leaves the objects
      alone. */
  lemma SwapKeepsUnique<T>(refs: seq<UniqueRef>, h: Heap<T>, i: nat, j: nat)
    requires Unique(refs) && Owned(refs, h) && i < |refs| && j < |refs| && i != j
    ensures var (a, b) := Swap(refs[i], refs[j]);
            var refs' := refs[i := a][j := b];
            && Unique(refs') && Owned(refs', h)
            && Get(refs'[i]) == Get(refs[j]) && Get(refs'[j]) == Get(refs[i])
  {
    var (a, b) := Swap(refs[i], refs[j]);
    var refs' := refs[i := a][j := b];
    forall k, l | 0 <= k < l < |refs'| ensures Get(refs'[k]) != Get(refs'[l]) {
      var k' := if k == i then j else if k == j then i else k;
      var l' := if l == i then j else if l == j then i else l;
      assert Get(refs'[k]) == Get(refs[k']) && Get(refs'[l]) == Get(refs[l']);
      assert k' != l';
      if k' > l' {
        assert Get(refs[l']) != Get(refs[k']);
      }
    }
  }

  /** The constructor test: two wrappers made from two new objects refer to
      different objects. */
  lemma ConstructorTest()
    ensures var (h1, a) := New(EmptyHeap(), "one");
            var (h2, b) := New(h1, "two");
            Get(a) != Get(b) && h2.cells[Get(a)] == "one" && h2.cells[Get(b)] == "two"
  {
  }

  /** The swap test: after `swap(a, b)` of wrappers of "one" and "two", `b` refers
      to "one" and `a` to "two". */
  lemma SwapTest()
    ensures var (h1, a) := New(EmptyHeap(), "one");
            var (h2, b) := New(h1, "two");
            var (a', b') := Swap(a, b);
            h2.cells[Get(b')] == "one" && h2.cells[Get(a')] == "two"
  {
  }
}
