/** `reference` and `mask` (PointerVector.hpp): build a `RawPointerVector`, an
    indirect sequence of raw pointers, that refers to the elements of another
    sequence instead of copying them.

    The sequence given to them is either a plain `std::vector<T>`, whose elements
    lie at consecutive addresses, or itself an indirect sequence, whose elements
    are the objects its pointers refer to. In both cases `&sequence[i]` is the
    address of element `i`, and the result holds exactly such addresses, so a
    write through the result is a write to the original element. */
module PointerVectors {
  import opened Heaps
  import opened IndirectContainers

  /** The sequence handed to `reference` or `mask`. */
  datatype Sequence =
    | Contiguous(start: nat, length: nat)
    | Indirect(view: IndirectSequence)

  /** Element `i` can be addressed: an indirect sequence holding a null pointer
      at `i` has no element there, and taking its address is undefined. */
  predicate Addressable(s: Sequence, i: nat) {
    s.Indirect? && i < |s.view.base| ==> s.view.base[i].Addr?
  }

  /** Every element can be addressed, as `reference` needs, since it takes the
      address of each one. */
  predicate WellFormed(s: Sequence) {
    forall i :: 0 <= i < Length(s) ==> Addressable(s, i)
  }

  /** `sequence.size()`. */
  function Length(s: Sequence): nat {
    match s
    case Contiguous(_, length) => length
    case Indirect(view) => |view.base|
  }

  /** `&sequence[i]`. */
  function Address(s: Sequence, i: nat): nat
    requires i < Length(s) && Addressable(s, i)
  {
    match s
    case Contiguous(start, _) => start + i
    case Indirect(view) => view.base[i].addr
  }

  /** The view `reference` is meant to build: one pointer per element, in order. */
  function ReferenceView(s: Sequence): (r: IndirectSequence)
    requires WellFormed(s)
  {
    IndirectContainer(seq(Length(s), i requires 0 <= i < Length(s) => Addr(Address(s, i))))
  }

  /** `reference(sequence)`: appends `&element` for every element, in order. */
  method Reference(s: Sequence) returns (v: IndirectSequence)
    requires WellFormed(s)
    ensures |v.base| == Length(s)
    ensures forall i :: 0 <= i < Length(s) ==> v.base[i] == Addr(Address(s, i))
  {
    var base: seq<Ptr> := [];
    var i := 0;
    while i < Length(s)
      invariant 0 <= i <= Length(s)
      invariant |base| == i
      invariant forall k :: 0 <= k < i ==> base[k] == Addr(Address(s, k))
    {
      base := base + [Addr(Address(s, i))];
      i := i + 1;
    }
    v := IndirectContainer(base);
  }

  /** How many of the first `n` bits are set. */
  function CountTrue(bits: seq<bool>, n: nat): nat
    requires n <= |bits|
  {
    if n == 0 then 0 else CountTrue(bits, n - 1) + (if bits[n - 1] then 1 else 0)
  }

  /** The positions below `n` whose bit is set, in increasing order. */
  function SetPositions(bits: seq<bool>, n: nat): (r: seq<nat>)
    requires n <= |bits|
    ensures |r| == CountTrue(bits, n) && |r| <= n
    ensures forall k :: 0 <= k < |r| ==> r[k] < n && bits[r[k]]
  {
    if n == 0 then []
    else SetPositions(bits, n - 1) + (if bits[n - 1] then [n - 1] else [])
  }

  /** The set positions come in increasing order. */
  lemma {:induction false} SetPositionsIncreasing(bits: seq<bool>, n: nat)
    requires n <= |bits|
    ensures forall k, l :: 0 <= k < l < |SetPositions(bits, n)| ==> SetPositions(bits, n)[k] < SetPositions(bits, n)[l]
  {
    if n > 0 {
      SetPositionsIncreasing(bits, n - 1);
    }
  }

  /** Every position below `n` whose bit is set is among the set positions. */
  lemma {:induction false} SetPositionsComplete(bits: seq<bool>, n: nat)
    requires n <= |bits|
    ensures forall i :: 0 <= i < n && bits[i] ==> i in SetPositions(bits, n)
  {
    if n > 0 {
      SetPositionsComplete(bits, n - 1);
      var r := SetPositions(bits, n);
      assert r == SetPositions(bits, n - 1) + (if bits[n - 1] then [n - 1] else []);
      forall i | 0 <= i < n && bits[i] ensures i in r {
        if i < n - 1 {
          assert i in SetPositions(bits, n - 1);
        } else {
          assert r[|r| - 1] == n - 1;
        }
      }
    }
  }

  /** The number of positions `mask` looks at. */
  function Considered(s: Sequence, bits: seq<bool>): nat {
    if Length(s) < |bits| then Length(s) else |bits|
  }

  /** The pointers to the elements at positions `ps`. */
  function Pointers(s: Sequence, ps: seq<nat>): (r: seq<Ptr>)
    requires forall k :: 0 <= k < |ps| ==> ps[k] < Length(s) && Addressable(s, ps[k])
    ensures |r| == |ps|
    ensures forall k :: 0 <= k < |ps| ==> r[k] == Addr(Address(s, ps[k]))
  {
    if ps == [] then [] else [Addr(Address(s, ps[0]))] + Pointers(s, ps[1..])
  }

  /** Every element `mask` takes the address of can be addressed: the considered
      positions whose bit is set. Null pointers elsewhere are never dereferenced. */
  predicate Selectable(s: Sequence, bits: seq<bool>) {
    forall i :: 0 <= i < Considered(s, bits) && bits[i] ==> Addressable(s, i)
  }

  /** The view `mask` is meant to build: pointers to the elements at the set
      positions among the considered ones, in order. */
  function MaskView(s: Sequence, bits: seq<bool>): IndirectSequence
    requires Selectable(s, bits)
  {
    IndirectContainer(Pointers(s, SetPositions(bits, Considered(s, bits))))
  }

  lemma {:induction false} PointersAppend(s: Sequence, ps: seq<nat>, qs: seq<nat>)
    requires forall k :: 0 <= k < |ps| ==> ps[k] < Length(s) && Addressable(s, ps[k])
    requires forall k :: 0 <= k < |qs| ==> qs[k] < Length(s) && Addressable(s, qs[k])
    ensures Pointers(s, ps + qs) == Pointers(s, ps) + Pointers(s, qs)
  {
    var r := Pointers(s, ps + qs);
    assert |r| == |Pointers(s, ps) + Pointers(s, qs)|;
    forall k | 0 <= k < |r| ensures r[k] == (Pointers(s, ps) + Pointers(s, qs))[k] {
      if k < |ps| {
        assert (ps + qs)[k] == ps[k];
      } else {
        assert (ps + qs)[k] == qs[k - |ps|];
      }
    }
  }

  /** One step of the loop of `mask`. */
  lemma MaskStep(s: Sequence, bits: seq<bool>, i: nat)
    requires Selectable(s, bits) && i < Considered(s, bits)
    ensures Pointers(s, SetPositions(bits, i + 1))
         == Pointers(s, SetPositions(bits, i)) + (if bits[i] then [Addr(Address(s, i))] else [])
  {
    if bits[i] {
      PointersAppend(s, SetPositions(bits, i), [i]);
    } else {
      assert SetPositions(bits, i + 1) == SetPositions(bits, i);
    }
  }

  /** What the loop of `mask` has appended after looking at the first `i` positions. */
  function Selected(s: Sequence, bits: seq<bool>, i: nat): seq<Ptr>
    requires Selectable(s, bits) && i <= Considered(s, bits)
  {
    if i == 0 then []
    else Selected(s, bits, i - 1) + (if bits[i - 1] then [Addr(Address(s, i - 1))] else [])
  }

  lemma {:induction false} SelectedIsMaskView(s: Sequence, bits: seq<bool>, i: nat)
    requires Selectable(s, bits) && i <= Considered(s, bits)
    ensures Selected(s, bits, i) == Pointers(s, SetPositions(bits, i))
  {
    if i > 0 {
      SelectedIsMaskView(s, bits, i - 1);
      MaskStep(s, bits, i - 1);
    }
  }

  /** `mask(sequence, mask)`: for each considered position whose bit is set,
      appends `&sequence[i]`. */
  method Mask(s: Sequence, bits: seq<bool>) returns (v: IndirectSequence)
    requires Selectable(s, bits)
    ensures v == MaskView(s, bits)
    ensures |v.base| == CountTrue(bits, Considered(s, bits)) <= Considered(s, bits)
  {
    var size := Considered(s, bits);
    var base: seq<Ptr> := [];
    var i := 0;
    while i < size
      invariant 0 <= i <= size
      invariant base == Selected(s, bits, i)
    {
      if bits[i] {
        base := base + [Addr(Address(s, i))];
      }
      i := i + 1;
    }
    v := IndirectContainer(base);
    SelectedIsMaskView(s, bits, size);
  }

  /** Every considered element whose bit is set has its pointer in the view. */
  lemma MaskComplete(s: Sequence, bits: seq<bool>)
    requires Selectable(s, bits)
    ensures forall i :: 0 <= i < Considered(s, bits) && bits[i] ==> Addr(Address(s, i)) in MaskView(s, bits).base
  {
    var ps := SetPositions(bits, Considered(s, bits));
    SetPositionsComplete(bits, Considered(s, bits));
    forall i | 0 <= i < Considered(s, bits) && bits[i] ensures Addr(Address(s, i)) in MaskView(s, bits).base {
      var k :| 0 <= k < |ps| && ps[k] == i;
      assert MaskView(s, bits).base[k] == Addr(Address(s, i));
    }
  }

  // ---------------------------------------------------------------------------
  // Properties

  lemma {:induction false} SetPositionsPrefix(bits: seq<bool>, m: seq<bool>, n: nat)
    requires n <= |bits| && n <= |m| && bits[..n] == m[..n]
    ensures SetPositions(bits, n) == SetPositions(m, n)
  {
    if n > 0 {
      assert bits[..n - 1] == bits[..n][..n - 1] && m[..n - 1] == m[..n][..n - 1];
      assert bits[n - 1] == bits[..n][n - 1] && m[n - 1] == m[..n][n - 1];
      SetPositionsPrefix(bits, m, n - 1);
    }
  }

  /** Bits past the end of the sequence are ignored. */
  lemma MaskIgnoresExcessBits(s: Sequence, bits: seq<bool>)
    requires Selectable(s, bits) && Length(s) <= |bits|
    ensures Selectable(s, bits[..Length(s)])
    ensures MaskView(s, bits) == MaskView(s, bits[..Length(s)])
  {
    assert Considered(s, bits[..Length(s)]) == Considered(s, bits);
    SetPositionsPrefix(bits, bits[..Length(s)], Length(s));
  }

  /** Elements past the end of the mask are ignored: a vector with more elements
      than bits masks the same as its prefix. */
  lemma MaskIgnoresExcessElements(start: nat, length: nat, bits: seq<bool>)
    requires |bits| <= length
    ensures MaskView(Contiguous(start, length), bits) == MaskView(Contiguous(start, |bits|), bits)
  {
    var ps := SetPositions(bits, |bits|);
    var r := Pointers(Contiguous(start, length), ps);
    var r' := Pointers(Contiguous(start, |bits|), ps);
    assert forall k :: 0 <= k < |ps| ==> r[k] == r'[k];
  }

  /** The same for an indirect sequence, such as the `SharedPointerVector` of the
      tests: pointers past the end of the mask do not change the result. */
  lemma MaskIgnoresExcessPointers(c: IndirectSequence, bits: seq<bool>)
    requires |bits| <= |c.base| && Selectable(Indirect(c), bits)
    ensures Selectable(Indirect(IndirectContainer(c.base[..|bits|])), bits)
    ensures MaskView(Indirect(c), bits) == MaskView(Indirect(IndirectContainer(c.base[..|bits|])), bits)
  {
    var s, t := Indirect(c), Indirect(IndirectContainer(c.base[..|bits|]));
    assert Considered(s, bits) == |bits| == Considered(t, bits);
    var ps := SetPositions(bits, |bits|);
    assert forall k :: 0 <= k < |ps| ==> Pointers(s, ps)[k] == Pointers(t, ps)[k];
  }

  /** The result of `mask` is exactly the pointers to the elements whose bit is
      set, in the order of the sequence: every pointer it holds refers to an
      element whose bit is set, and earlier pointers refer to earlier elements. */
  lemma MaskSelectsInOrder(s: Sequence, bits: seq<bool>)
    requires Selectable(s, bits)
    ensures var ps := SetPositions(bits, Considered(s, bits));
            && |MaskView(s, bits).base| == |ps|
            && (forall k :: 0 <= k < |ps| ==>
                  ps[k] < Considered(s, bits) && bits[ps[k]] && MaskView(s, bits).base[k] == Addr(Address(s, ps[k])))
            && forall k, l :: 0 <= k < l < |ps| ==> ps[k] < ps[l]
  {
    SetPositionsIncreasing(bits, Considered(s, bits));
  }

  /** A mask with every bit set refers to every element, like `reference`. */
  lemma {:induction false} FullMaskIsReference(s: Sequence)
    requires WellFormed(s)
    ensures MaskView(s, seq(Length(s), _ => true)) == ReferenceView(s)
  {
    var bits := seq(Length(s), _ => true);
    var ps := SetPositions(bits, Length(s));
    assert |ps| == Length(s) by {
      CountAllTrue(bits, Length(s));
    }
    SetPositionsIncreasing(bits, Length(s));
    forall k | 0 <= k < |ps| ensures ps[k] == k {
      IncreasingIdentity(ps, Length(s), k);
    }
  }

  lemma {:induction false} CountAllTrue(bits: seq<bool>, n: nat)
    requires n <= |bits| && forall i :: 0 <= i < |bits| ==> bits[i]
    ensures CountTrue(bits, n) == n
  {
    if n > 0 {
      CountAllTrue(bits, n - 1);
    }
  }

  /** A strictly increasing sequence of `n` naturals below `n` is 0, 1, ..., n-1. */
  lemma {:induction false} IncreasingIdentity(ps: seq<nat>, n: nat, k: nat)
    requires |ps| == n && k < n
    requires forall j :: 0 <= j < n ==> ps[j] < n
    requires forall i, j :: 0 <= i < j < n ==> ps[i] < ps[j]
    ensures ps[k] == k
  {
    AtLeastIndex(ps, k);
    AtMostIndex(ps, n, k);
  }

  lemma {:induction false} AtLeastIndex(ps: seq<nat>, k: nat)
    requires k < |ps|
    requires forall i, j :: 0 <= i < j < |ps| ==> ps[i] < ps[j]
    ensures ps[k] >= k
    decreases k
  {
    if k > 0 {
      AtLeastIndex(ps, k - 1);
    }
  }

  lemma {:induction false} AtMostIndex(ps: seq<nat>, n: nat, k: nat)
    requires |ps| == n && k < n
    requires forall j :: 0 <= j < n ==> ps[j] < n
    requires forall i, j :: 0 <= i < j < n ==> ps[i] < ps[j]
    ensures ps[k] <= k
    decreases n - k
  {
    if k < n - 1 {
      AtMostIndex(ps, n, k + 1);
    }
  }

  /** The masked view aliases the original: after a write through its element `k`,
      the original sequence's corresponding element holds the new value. */
  lemma MaskAliases<T>(c: IndirectSequence, bits: seq<bool>, h: Heap<T>, k: nat, x: T)
    requires Selectable(Indirect(c), bits) && h.Valid()
    requires forall i :: 0 <= i < Considered(Indirect(c), bits) && bits[i] ==> h.Live(c.base[i])
    requires k < |MaskView(Indirect(c), bits).base|
    ensures var masked := MaskView(Indirect(c), bits);
            var pos := SetPositions(bits, Considered(Indirect(c), bits))[k];
            && pos < |c.base| && masked.base[k] == c.base[pos] && h.Live(masked.base[k])
            && var h' := Update(h, Subscript(masked, k).value, x);
               h'.cells[Subscript(c, pos).value] == x
  {
    var masked := MaskView(Indirect(c), bits);
    var ps := SetPositions(bits, Considered(Indirect(c), bits));
    var pos := ps[k];
    assert pos < |c.base|;
    assert masked.base[k] == Addr(Address(Indirect(c), pos)) == c.base[pos];
    assert h.Live(c.base[pos]);
  }

  /** Null pointers at positions whose bit is clear are never dereferenced: masking
      a null pointer and a pointer to `a` with false, true gives a view on `a`. */
  lemma MaskSkipsNull(a: nat)
    ensures var s := Indirect(IndirectContainer([Null, Addr(a)]));
            && !WellFormed(s) && Selectable(s, [false, true])
            && MaskView(s, [false, true]).base == [Addr(a)]
  {
    var s := Indirect(IndirectContainer([Null, Addr(a)]));
    assert !Addressable(s, 0);
    var bits := [false, true];
    assert SetPositions(bits, 2) == [1] by {
      assert SetPositions(bits, 1) == [];
    }
  }

  /** The mask test: masking "one", "two", "three" with true, false, true gives a
      view of size 2 on "one" and "three", and renaming the second to "tres" renames
      the container's third element. */
  lemma MaskTest()
    ensures var h := Heap(map[0 := "one", 1 := "two", 2 := "three"], 3);
            var container: IndirectSequence := IndirectContainer([Addr(0), Addr(1), Addr(2)]);
            var masked := MaskView(Indirect(container), [true, false, true]);
            var h' := Update(h, Subscript(masked, 1).value, "tres");
            && Size(masked) == Size(container) - 1
            && h'.cells[Subscript(container, 2).value] == "tres"
            && h.cells[Subscript(masked, 0).value] == h.cells[Subscript(container, 0).value]
            && h'.cells[Subscript(masked, 1).value] == h'.cells[Subscript(container, 2).value]
  {
    var bits := [true, false, true];
    assert SetPositions(bits, 3) == [0, 2];
  }
}
