/** Strict orders and the lexicographic order of sequences, which `std::vector`,
    `std::map` and `std::string` use for `operator<`. */
module Ordering {

  ghost predicate Irreflexive<T(!new)>(less: (T, T) -> bool) {
    forall x :: !less(x, x)
  }

  ghost predicate Transitive<T(!new)>(less: (T, T) -> bool) {
    forall x, y, z :: less(x, y) && less(y, z) ==> less(x, z)
  }

  /** Any two different values are ordered one way or the other. */
  ghost predicate Connected<T(!new)>(less: (T, T) -> bool) {
    forall x, y :: x != y ==> less(x, y) || less(y, x)
  }

  /** What `std::set` and `std::map` need of their comparison, with equivalence
      coinciding with equality. */
  ghost predicate StrictTotalOrder<T(!new)>(less: (T, T) -> bool) {
    Irreflexive(less) && Transitive(less) && Connected(less)
  }

  /** `std::lexicographical_compare`: the first position where one element is less
      than the other decides; otherwise the shorter sequence is less. */
  function LexLess<T>(a: seq<T>, b: seq<T>, less: (T, T) -> bool): bool
    decreases |a|
  {
    if |b| == 0 then false
    else if |a| == 0 then true
    else if less(a[0], b[0]) then true
    else if less(b[0], a[0]) then false
    else LexLess(a[1..], b[1..], less)
  }

  /** `std::string`'s `operator<`, comparing characters by code. */
  function StrLess(a: string, b: string): bool {
    LexLess(a, b, (x: char, y: char) => x < y)
  }

  lemma {:induction false} LexLessIrreflexive<T(!new)>(a: seq<T>, less: (T, T) -> bool)
    requires Irreflexive(less)
    ensures !LexLess(a, a, less)
    decreases |a|
  {
    if |a| > 0 {
      LexLessIrreflexive(a[1..], less);
    }
  }

  lemma {:induction false} LexLessTransitive<T(!new)>(a: seq<T>, b: seq<T>, c: seq<T>, less: (T, T) -> bool)
    requires StrictTotalOrder(less)
    requires LexLess(a, b, less) && LexLess(b, c, less)
    ensures LexLess(a, c, less)
    decreases |a|
  {
    if |a| > 0 {
      assert |b| > 0 && |c| > 0;
      if less(a[0], b[0]) || less(b[0], c[0]) {
        assert a[0] == b[0] || b[0] == c[0] || less(a[0], c[0]);
      } else {
        assert a[0] == b[0] && b[0] == c[0];
        LexLessTransitive(a[1..], b[1..], c[1..], less);
      }
    }
  }

  lemma {:induction false} LexLessConnected<T(!new)>(a: seq<T>, b: seq<T>, less: (T, T) -> bool)
    requires StrictTotalOrder(less)
    requires a != b
    ensures LexLess(a, b, less) || LexLess(b, a, less)
    decreases |a|
  {
    if |a| > 0 && |b| > 0 && a[0] == b[0] {
      assert a == [a[0]] + a[1..] && b == [b[0]] + b[1..];
      LexLessConnected(a[1..], b[1..], less);
    }
  }

  /** The lexicographic order over a strict total order is itself one. */
  lemma LexLessIsStrictTotalOrder<T(!new)>(less: (T, T) -> bool)
    requires StrictTotalOrder(less)
    ensures StrictTotalOrder((a: seq<T>, b: seq<T>) => LexLess(a, b, less))
  {
    forall a: seq<T> {
      LexLessIrreflexive(a, less);
    }
    forall a: seq<T>, b: seq<T>, c: seq<T> | LexLess(a, b, less) && LexLess(b, c, less) {
      LexLessTransitive(a, b, c, less);
    }
    forall a: seq<T>, b: seq<T> | a != b {
      LexLessConnected(a, b, less);
    }
  }

  /** `StrLess` is a strict total order on strings. */
  lemma StrLessIsStrictTotalOrder()
    ensures forall a :: !StrLess(a, a)
    ensures forall a, b, c :: StrLess(a, b) && StrLess(b, c) ==> StrLess(a, c)
    ensures forall a, b :: a != b ==> StrLess(a, b) || StrLess(b, a)
  {
    var charLess := (x: char, y: char) => x < y;
    assert StrictTotalOrder(charLess);
    forall a: string {
      LexLessIrreflexive(a, charLess);
    }
    forall a: string, b: string, c: string | StrLess(a, b) && StrLess(b, c) {
      LexLessTransitive(a, b, c, charLess);
    }
    forall a: string, b: string | a != b {
      LexLessConnected(a, b, charLess);
    }
  }
}
