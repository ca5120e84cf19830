/** `std::set` over a strict total order: its elements in increasing order, as its
    iterators visit them, so `begin()` is the smallest. */
module OrderedSets {
  import opened Ordering

  ghost predicate SortedBy<T>(s: seq<T>, less: (T, T) -> bool) {
    forall i, j :: 0 <= i < j < |s| ==> less(s[i], s[j])
  }

  /** `insert(x)`: adds `x` unless an equivalent element, one neither less nor
      greater, is already present; under a strict total order that is `x` itself. */
  function Insert<T(==,!new)>(s: seq<T>, x: T, less: (T, T) -> bool): (r: seq<T>)
    requires StrictTotalOrder(less) && SortedBy(s, less)
    ensures SortedBy(r, less)
    ensures forall y :: y in r <==> y in s || y == x
    ensures |r| == if x in s then |s| else |s| + 1
  {
    if s == [] then [x]
    else if less(x, s[0]) then
      assert x !in s by {
        forall y | y in s ensures y != x {
          var k :| 0 <= k < |s| && s[k] == y;
          assert k == 0 || less(s[0], s[k]);
        }
      }
      [x] + s
    else if !less(s[0], x) then
      s
    else
      var rest := Insert(s[1..], x, less);
      assert forall y :: y in s[1..] ==> less(s[0], y) by {
        forall y | y in s[1..] ensures less(s[0], y) {
          var k :| 0 <= k < |s[1..]| && s[1..][k] == y;
          assert s[1..][k] == s[k + 1];
        }
      }
      assert s == [s[0]] + s[1..];
      assert x in s <==> x in s[1..];
      [s[0]] + rest
  }

  /** `erase(x)`: removes the element equivalent to `x`, and returns how many it
      removed. */
  function Erase<T(==,!new)>(s: seq<T>, x: T, less: (T, T) -> bool): (r: (seq<T>, nat))
    requires StrictTotalOrder(less) && SortedBy(s, less)
    ensures SortedBy(r.0, less)
    ensures forall y :: y in r.0 <==> y in s && y != x
    ensures r.1 == if x in s then 1 else 0
    ensures |r.0| + r.1 == |s|
  {
    if s == [] then ([], 0)
    else
      assert s == [s[0]] + s[1..];
      assert forall y :: y in s[1..] ==> less(s[0], y) by {
        forall y | y in s[1..] ensures less(s[0], y) {
          var k :| 0 <= k < |s[1..]| && s[1..][k] == y;
          assert s[1..][k] == s[k + 1];
        }
      }
      if !less(x, s[0]) && !less(s[0], x) then (s[1..], 1)
      else
        var (rest, n) := Erase(s[1..], x, less);
        ([s[0]] + rest, n)
  }

  /** The first element, `*begin()`, is less than every other element. */
  lemma FirstIsLeast<T(!new)>(s: seq<T>, less: (T, T) -> bool)
    requires SortedBy(s, less) && |s| > 0
    ensures forall y :: y in s && y != s[0] ==> less(s[0], y)
  {
    forall y | y in s && y != s[0] ensures less(s[0], y) {
      var k :| 0 <= k < |s| && s[k] == y;
    }
  }

  /** Inserting an element already present changes nothing. */
  lemma InsertPresentIsIdentity<T(!new)>(s: seq<T>, x: T, less: (T, T) -> bool)
    requires StrictTotalOrder(less) && SortedBy(s, less) && x in s
    ensures Insert(s, x, less) == s
  {
    SortedSetsEqual(Insert(s, x, less), s, less);
  }

  /** Erasing what was just inserted into a set without it gives the set back. */
  lemma EraseUndoesInsert<T(!new)>(s: seq<T>, x: T, less: (T, T) -> bool)
    requires StrictTotalOrder(less) && SortedBy(s, less) && x !in s
    ensures Erase(Insert(s, x, less), x, less) == (s, 1)
  {
    SortedSetsEqual(Erase(Insert(s, x, less), x, less).0, s, less);
  }

  /** Two sorted sequences with the same elements are equal. */
  lemma {:induction false} SortedSetsEqual<T(!new)>(s: seq<T>, t: seq<T>, less: (T, T) -> bool)
    requires StrictTotalOrder(less) && SortedBy(s, less) && SortedBy(t, less)
    requires forall y :: y in s <==> y in t
    ensures s == t
    decreases |s|
  {
    assert s != [] ==> s[0] in s;
    assert t != [] ==> t[0] in t;
    if s != [] {
      FirstIsLeast(s, less);
      FirstIsLeast(t, less);
      assert s[0] in t && t[0] in s;
      assert s[0] == t[0];
      assert s == [s[0]] + s[1..] && t == [t[0]] + t[1..];
      forall y ensures y in s[1..] <==> y in t[1..] {
        if y in s[1..] {
          var k :| 0 <= k < |s[1..]| && s[1..][k] == y;
          assert less(s[0], s[k + 1]) && y == s[k + 1];
          assert y != t[0] && y in t;
          assert y in t[1..];
        }
        if y in t[1..] {
          var k :| 0 <= k < |t[1..]| && t[1..][k] == y;
          assert less(t[0], t[k + 1]) && y == t[k + 1];
          assert y != s[0] && y in s;
          assert y in s[1..];
        }
      }
      SortedSetsEqual(s[1..], t[1..], less);
    }
  }
}
