/** Duplicate-free sequences kept in the order of a strict total order: the
    model of collecting values into a `HashSet` and then calling `sorted()`
    on it. */
module SortedSets {

  ghost predicate IsStrictTotalOrder<T(!new)>(lt: (T, T) -> bool) {
    && (forall a :: !lt(a, a))
    && (forall a, b, c :: lt(a, b) && lt(b, c) ==> lt(a, c))
    && (forall a, b :: a == b || lt(a, b) || lt(b, a))
  }

  /** Strictly increasing, hence free of duplicates. */
  predicate StrictlyAscending<T>(s: seq<T>, lt: (T, T) -> bool) {
    forall i, j :: 0 <= i < j < |s| ==> lt(s[i], s[j])
  }

  /** Adds `x` to the ordered set `s`, at its place; a value already there
      is not added again. */
  function InsertUnique<T(==, !new)>(x: T, s: seq<T>, lt: (T, T) -> bool): (r: seq<T>)
    requires IsStrictTotalOrder(lt) && StrictlyAscending(s, lt)
    ensures StrictlyAscending(r, lt)
    ensures forall y :: y in r <==> y in s || y == x
    ensures x in s ==> r == s
  {
    if |s| == 0 then [x]
    else if x == s[0] then s
    else if lt(x, s[0]) then
      assert forall k :: 0 <= k < |s| ==> lt(x, s[k]);
      [x] + s
    else
      var rest := InsertUnique(x, s[1..], lt);
      assert forall y :: y in s <==> y == s[0] || y in s[1..];
      BelowAll(s[0], s[1..], lt);
      assert forall k :: 0 <= k < |rest| ==> rest[k] in rest;
      [s[0]] + rest
  }

  lemma BelowAll<T>(b: T, s: seq<T>, lt: (T, T) -> bool)
    requires forall k :: 0 <= k < |s| ==> lt(b, s[k])
    ensures forall y :: y in s ==> lt(b, y)
  {
  }

  /** The first element of an ordered set is below all the others. */
  lemma FirstIsLeast<T(!new)>(s: seq<T>, lt: (T, T) -> bool, y: T)
    requires IsStrictTotalOrder(lt) && StrictlyAscending(s, lt)
    requires y in s
    ensures y == s[0] || lt(s[0], y)
  {
  }

  /** An ordered set is determined by its elements: two of them with the
      same elements are the same sequence, whatever order the elements were
      collected in. */
  lemma {:induction false} SameElementsSameSequence<T(!new)>(a: seq<T>, b: seq<T>, lt: (T, T) -> bool)
    requires IsStrictTotalOrder(lt)
    requires StrictlyAscending(a, lt) && StrictlyAscending(b, lt)
    requires forall y :: y in a <==> y in b
    ensures a == b
    decreases |a|
  {
    assert |b| > 0 ==> b[0] in b;
    if |a| > 0 {
      assert a[0] in b;
      FirstIsLeast(b, lt, a[0]);
      FirstIsLeast(a, lt, b[0]);
      assert a[0] == b[0];
      assert forall y :: y in a[1..] <==> y in a && y != a[0];
      assert forall y :: y in b[1..] <==> y in b && y != b[0];
      SameElementsSameSequence(a[1..], b[1..], lt);
      assert a == [a[0]] + a[1..] && b == [b[0]] + b[1..];
    }
  }
}
