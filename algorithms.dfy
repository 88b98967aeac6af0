/** The standard algorithms the lambdas are handed to: `std::sort` with a comparator,
    `std::find_if`, `std::transform` writing back into its input, and `std::copy_if`
    through a `back_inserter`. */
module StdAlgorithm {

  // ---------------------------------------------------------------------------
  // Comparators

  /** What `std::sort` demands of its comparator: a strict weak ordering. Irreflexivity and
      transitivity make it a strict partial order; the third clause says "not below" is
      transitive too, so that equivalent elements form classes. */
  ghost predicate StrictWeakOrder<T(!new)>(less: (T, T) -> bool) {
    && (forall x :: !less(x, x))
    && (forall x, y, z :: less(x, y) && less(y, z) ==> less(x, z))
    && (forall x, y, z :: !less(x, y) && !less(y, z) ==> !less(x, z))
  }

  /** Any two different elements are ordered: the comparator is a strict total order. */
  ghost predicate Connected<T(!new)>(less: (T, T) -> bool) {
    forall x, y :: x != y ==> less(x, y) || less(y, x)
  }

  /** Sorted with respect to `less`, as `std::sort` leaves a range: no element is below
      one that comes before it. */
  ghost predicate SortedBy<T>(s: seq<T>, less: (T, T) -> bool) {
    forall i, j :: 0 <= i < j < |s| ==> !less(s[j], s[i])
  }

  /** The same, checked between neighbours only, which is enough for a strict weak ordering. */
  predicate AdjacentSortedBy<T>(s: seq<T>, less: (T, T) -> bool) {
    |s| < 2 || (!less(s[1], s[0]) && AdjacentSortedBy(s[1..], less))
  }

  lemma {:induction false} AdjacentSortedIsSorted<T(!new)>(s: seq<T>, less: (T, T) -> bool)
    requires StrictWeakOrder(less) && AdjacentSortedBy(s, less)
    ensures SortedBy(s, less)
  {
    if |s| >= 2 {
      AdjacentSortedIsSorted(s[1..], less);
      forall j | 1 <= j < |s|
        ensures !less(s[j], s[0])
      {
        assert s[j] == s[1..][j - 1];
        if j > 1 {
          assert s[1] == s[1..][0];
        }
      }
    }
  }

  /** Under a strict total order a multiset has exactly one sorted arrangement, so whatever
      sorting algorithm is used, the outcome is determined. */
  lemma {:induction false} SortedUnique<T(!new)>(s: seq<T>, t: seq<T>, less: (T, T) -> bool)
    requires Connected(less)
    requires SortedBy(s, less) && SortedBy(t, less) && multiset(s) == multiset(t)
    ensures s == t
  {
    assert |s| == |multiset(s)| == |multiset(t)| == |t|;
    if |s| > 0 {
      assert s[0] in multiset(t) && t[0] in multiset(s);
      FirstIsLeast(t, less, s[0]);
      FirstIsLeast(s, less, t[0]);
      MultisetTail(s);
      MultisetTail(t);
      SortedTail(s, less);
      SortedTail(t, less);
      SortedUnique(s[1..], t[1..], less);
      assert s == [s[0]] + s[1..] && t == [t[0]] + t[1..];
    }
  }

  /** Nothing in a sorted sequence is below its first element. */
  lemma FirstIsLeast<T>(s: seq<T>, less: (T, T) -> bool, x: T)
    requires SortedBy(s, less) && x in s
    ensures x == s[0] || !less(x, s[0])
  {
    var k :| 0 <= k < |s| && s[k] == x;
    if k > 0 {
      assert !less(s[k], s[0]);
    }
  }

  lemma MultisetTail<T>(s: seq<T>)
    requires |s| > 0
    ensures multiset(s[1..]) == multiset(s) - multiset{s[0]}
  {
    assert s == [s[0]] + s[1..];
  }

  lemma SortedTail<T>(s: seq<T>, less: (T, T) -> bool)
    requires |s| > 0 && SortedBy(s, less)
    ensures SortedBy(s[1..], less)
  {
    forall i, j | 0 <= i < j < |s| - 1
      ensures !less(s[1..][j], s[1..][i])
    {
      assert s[1..][j] == s[j + 1] && s[1..][i] == s[i + 1];
    }
  }

  // ---------------------------------------------------------------------------
  // std::sort

  /** `std::sort(a.begin(), a.end(), less)`: afterwards the array is sorted by `less` and holds
      the same elements. The library's introsort is replaced by an insertion sort; only the
      outcome is observable. */
  method Sort<T(!new)>(a: array<T>, less: (T, T) -> bool)
    requires StrictWeakOrder(less)
    modifies a
    ensures SortedBy(a[..], less)
    ensures multiset(a[..]) == old(multiset(a[..]))
  {
    var i := 0;
    while i < a.Length
      invariant 0 <= i <= a.Length
      invariant SortedBy(a[..i], less)
      invariant multiset(a[..]) == old(multiset(a[..]))
    {
      Insert(a, i, less);
      i := i + 1;
    }
  }

  /** Moves `a[i]` left past every element it is below, so that `a[..i+1]` is sorted. */
  method Insert<T(!new)>(a: array<T>, i: nat, less: (T, T) -> bool)
    requires StrictWeakOrder(less)
    requires i < a.Length && SortedBy(a[..i], less)
    modifies a
    ensures SortedBy(a[..i + 1], less)
    ensures a[i + 1..] == old(a[i + 1..])
    ensures multiset(a[..]) == old(multiset(a[..]))
  {
    var j := i;
    while j > 0 && less(a[j], a[j - 1])
      invariant 0 <= j <= i
      invariant forall k, l :: 0 <= k < l <= i && k != j && l != j ==> !less(a[l], a[k])
      invariant forall l :: j < l <= i ==> less(a[j], a[l])
      invariant a[i + 1..] == old(a[i + 1..])
      invariant multiset(a[..]) == old(multiset(a[..]))
    {
      a[j - 1], a[j] := a[j], a[j - 1];
      j := j - 1;
    }
    InsertedSorted(a, i, j, less);
  }

  /** The exit condition of `Insert`'s loop: the moved element stands after everything it is
      not below and before everything it is below. */
  lemma InsertedSorted<T(!new)>(a: array<T>, i: nat, j: nat, less: (T, T) -> bool)
    requires StrictWeakOrder(less)
    requires j <= i < a.Length
    requires forall k, l :: 0 <= k < l <= i && k != j && l != j ==> !less(a[l], a[k])
    requires forall l :: j < l <= i ==> less(a[j], a[l])
    requires j == 0 || !less(a[j], a[j - 1])
    ensures SortedBy(a[..i + 1], less)
  {
    forall k, l | 0 <= k < l <= i
      ensures !less(a[l], a[k])
    {
      if l == j {
        if k < j - 1 {
          assert !less(a[j - 1], a[k]);
        }
      } else if k == j {
        assert less(a[j], a[l]);
      }
    }
  }

  // ---------------------------------------------------------------------------
  // std::find_if

  /** `std::find_if(a.begin(), a.end(), pred)` as an index: the first position whose element
      satisfies `pred`, or `a.Length` (the end iterator) when there is none. */
  method FindIf<T>(a: array<T>, pred: T -> bool) returns (it: nat)
    ensures it <= a.Length
    ensures it < a.Length ==> pred(a[it])
    ensures forall k :: 0 <= k < it ==> !pred(a[k])
  {
    it := 0;
    while it < a.Length && !pred(a[it])
      invariant it <= a.Length
      invariant forall k :: 0 <= k < it ==> !pred(a[k])
    {
      it := it + 1;
    }
  }

  // ---------------------------------------------------------------------------
  // std::transform

  /** `std::transform(a.begin(), a.end(), a.begin(), op)`: every element is replaced by `op`
      of itself. */
  method TransformInPlace<T>(a: array<T>, op: T --> T)
    requires forall k :: 0 <= k < a.Length ==> op.requires(a[k])
    modifies a
    ensures forall k :: 0 <= k < a.Length ==> op.requires(old(a[k])) && a[k] == op(old(a[k]))
  {
    var i := 0;
    while i < a.Length
      invariant 0 <= i <= a.Length
      invariant forall k :: 0 <= k < i ==> op.requires(old(a[k])) && a[k] == op(old(a[k]))
      invariant forall k :: i <= k < a.Length ==> a[k] == old(a[k])
    {
      a[i] := op(a[i]);
      i := i + 1;
    }
  }

  // ---------------------------------------------------------------------------
  // std::copy_if

  /** The elements of `s` that satisfy `pred`, in their order: what `copy_if` appends. */
  function Filter<T>(s: seq<T>, pred: T -> bool): seq<T>
  {
    if s == [] then []
    else if pred(s[|s| - 1]) then Filter(s[..|s| - 1], pred) + [s[|s| - 1]]
    else Filter(s[..|s| - 1], pred)
  }

  /** `std::copy_if(a.begin(), a.end(), back_inserter(out), pred)` on an empty `out`; the input
      is only read. */
  method CopyIf<T>(a: array<T>, pred: T -> bool) returns (out: seq<T>)
    ensures out == Filter(a[..], pred)
  {
    out := [];
    var i := 0;
    while i < a.Length
      invariant 0 <= i <= a.Length
      invariant out == Filter(a[..i], pred)
    {
      assert a[..i + 1][..i] == a[..i];
      if pred(a[i]) {
        out := out + [a[i]];
      }
      i := i + 1;
    }
    assert a[..i] == a[..];
  }

  /** `idx` lists, in increasing order, the positions of `s` at which the elements of `sub` stand. */
  ghost predicate Embedding<T>(idx: seq<nat>, sub: seq<T>, s: seq<T>) {
    && |idx| == |sub|
    && (forall k :: 0 <= k < |idx| ==> idx[k] < |s| && sub[k] == s[idx[k]])
    && (forall k, l :: 0 <= k < l < |idx| ==> idx[k] < idx[l])
  }

  /** `sub` is `s` with some elements left out, the rest kept in order. */
  ghost predicate IsSubsequence<T>(sub: seq<T>, s: seq<T>) {
    exists idx: seq<nat> :: Embedding(idx, sub, s)
  }

  lemma EmbeddingExtend<T>(idx: seq<nat>, sub: seq<T>, s: seq<T>, x: T)
    requires Embedding(idx, sub, s)
    ensures Embedding(idx, sub, s + [x])
  {
  }

  lemma EmbeddingSnoc<T>(idx: seq<nat>, sub: seq<T>, s: seq<T>, x: T)
    requires Embedding(idx, sub, s)
    ensures Embedding(idx + [|s|], sub + [x], s + [x])
  {
  }

  /** Everything `Filter` keeps satisfies the predicate. */
  lemma {:induction false} FilterSatisfies<T>(s: seq<T>, pred: T -> bool)
    ensures forall x :: x in Filter(s, pred) ==> pred(x)
  {
    if s != [] {
      FilterSatisfies(s[..|s| - 1], pred);
    }
  }

  /** `Filter` keeps every occurrence of an element that satisfies the predicate and drops every
      occurrence of one that does not. */
  lemma {:induction false} FilterCount<T>(s: seq<T>, pred: T -> bool, x: T)
    ensures multiset(Filter(s, pred))[x] == if pred(x) then multiset(s)[x] else 0
  {
    if s != [] {
      FilterCount(s[..|s| - 1], pred, x);
      assert s == s[..|s| - 1] + [s[|s| - 1]];
    }
  }

  lemma FilterSnoc<T>(s: seq<T>, x: T, pred: T -> bool)
    ensures Filter(s + [x], pred) == if pred(x) then Filter(s, pred) + [x] else Filter(s, pred)
  {
    assert (s + [x])[..|s|] == s;
  }

  /** An element is kept exactly when it occurs in the input and satisfies the predicate. */
  lemma FilterMembership<T>(s: seq<T>, pred: T -> bool, x: T)
    ensures x in Filter(s, pred) <==> x in s && pred(x)
  {
    FilterCount(s, pred, x);
    assert x in Filter(s, pred) <==> multiset(Filter(s, pred))[x] > 0;
    assert x in s <==> multiset(s)[x] > 0;
  }

  /** `Filter` keeps the order of the input. */
  lemma {:induction false} FilterIsSubsequence<T>(s: seq<T>, pred: T -> bool)
    ensures IsSubsequence(Filter(s, pred), s)
  {
    if s == [] {
      assert Embedding([], Filter(s, pred), s);
    } else {
      var init, last := s[..|s| - 1], s[|s| - 1];
      assert s == init + [last];
      FilterIsSubsequence(init, pred);
      var idx: seq<nat> :| Embedding(idx, Filter(init, pred), init);
      if pred(last) {
        EmbeddingSnoc(idx, Filter(init, pred), init, last);
      } else {
        EmbeddingExtend(idx, Filter(init, pred), init, last);
      }
    }
  }
}
