/** The lambda demonstrations. The first five hand a lambda to a standard algorithm on a small
    vector; each of these is modelled twice: once on an arbitrary vector (the algorithm with the
    lambda plugged in) and once on the literal data the demonstration uses, with the outcome it
    prints. The sixth, `recursive_lambda`, defines one recurrence three ways; it is modelled by
    the recurrence, proved to have a single solution, and the value all three print. */
module Lambdas {

  import opened CppInt
  import opened Wrappers
  import opened StdAlgorithm
  import StdString
  import opened People

  // ---------------------------------------------------------------------------
  // lambda_sort: sort in descending order

  /** The comparator `[](const int& a, const int& b) { return a > b; }`. */
  function Greater(a: int32, b: int32): bool { a > b }

  lemma GreaterIsStrictTotalOrder()
    ensures StrictWeakOrder(Greater) && Connected(Greater)
  {
  }

  /** `sort(v.begin(), v.end(), >)`: the vector ends up non-increasing and holds the same
      elements. */
  method SortDescending(v: array<int32>)
    modifies v
    ensures SortedBy(v[..], Greater)
    ensures multiset(v[..]) == old(multiset(v[..]))
  {
    GreaterIsStrictTotalOrder();
    Sort(v, Greater);
  }

  /** Sorted by the comparator means non-increasing. */
  lemma SortedByGreater(v: seq<int32>)
    ensures SortedBy(v, Greater) <==> forall i, j :: 0 <= i < j < |v| ==> v[i] >= v[j]
  {
  }

  /** `lambda_sort()`: sorting {5, 1, 8, 3, 9, 2} descending prints 9 8 5 3 2 1. */
  method LambdaSort() returns (v: seq<int32>)
    ensures v == [9, 8, 5, 3, 2, 1]
  {
    var a := new int32[6] [5, 1, 8, 3, 9, 2];
    assert a[..] == [5, 1, 8, 3, 9, 2];
    SortDescending(a);
    v := a[..];
    DescendingOutcome(v);
  }

  /** The only non-increasing arrangement of {5, 1, 8, 3, 9, 2}. */
  lemma DescendingOutcome(v: seq<int32>)
    requires SortedBy(v, Greater)
    requires multiset(v) == multiset([5, 1, 8, 3, 9, 2])
    ensures v == [9, 8, 5, 3, 2, 1]
  {
    DescendingSameElements();
    DescendingExpected();
    GreaterIsStrictTotalOrder();
    SortedUnique(v, [9, 8, 5, 3, 2, 1], Greater);
  }

  lemma DescendingSameElements()
    ensures var before: seq<int32> := [5, 1, 8, 3, 9, 2];
            multiset(before) == multiset([9, 8, 5, 3, 2, 1])
  {
  }

  lemma DescendingExpected()
    ensures SortedBy([9, 8, 5, 3, 2, 1], Greater)
  {
    assert AdjacentSortedBy([9, 8, 5, 3, 2, 1], Greater);
    GreaterIsStrictTotalOrder();
    AdjacentSortedIsSorted([9, 8, 5, 3, 2, 1], Greater);
  }

  // ---------------------------------------------------------------------------
  // first_divisible: the first multiple of three

  /** The predicate `[](const int& a) { return a % 3 == 0; }`. */
  function DivisibleBy3(a: int32): bool { DivisibleBy(a, 3) }

  /** `find_if` with the predicate, then `*it` unless `it` is the end: the element at the lowest
      index that is a multiple of three, or None when there is none. */
  method FirstDivisibleBy3(v: array<int32>) returns (r: Option<int32>)
    ensures r == None <==> forall k :: 0 <= k < v.Length ==> !DivisibleBy3(v[k])
    ensures r.Some? ==> exists k :: 0 <= k < v.Length && v[k] == r.value && DivisibleBy3(v[k])
                                    && forall j :: 0 <= j < k ==> !DivisibleBy3(v[j])
  {
    var it := FindIf(v, DivisibleBy3);
    if it != v.Length {
      r := Some(v[it]);
    } else {
      r := None;
    }
  }

  /** `first_divisible()`: in {5, 1, 8, 3, 9, 2} the first multiple of three is 3. */
  method FirstDivisible() returns (r: Option<int32>)
    ensures r == Some(3)
  {
    var v := new int32[6] [5, 1, 8, 3, 9, 2];
    r := FirstDivisibleBy3(v);
    assert !DivisibleBy3(v[0]) && !DivisibleBy3(v[1]) && !DivisibleBy3(v[2]) && DivisibleBy3(v[3]);
  }

  // ---------------------------------------------------------------------------
  // lambda_transform: double every element

  /** The lambda `[](auto& num) mutable { return num *= 2; }`: doubling is defined only while it
      does not overflow `int`. */
  function Double(num: int32): int32
    requires -0x4000_0000 <= num < 0x4000_0000
  {
    num * 2
  }

  /** `transform(numbers.begin(), numbers.end(), numbers.begin(), doubling)`: every element is
      replaced by twice its old value; the length of a vector never changes. */
  method DoubleAll(numbers: array<int32>)
    requires forall k :: 0 <= k < numbers.Length ==> -0x4000_0000 <= numbers[k] < 0x4000_0000
    modifies numbers
    ensures forall k :: 0 <= k < numbers.Length ==> numbers[k] as int == 2 * old(numbers[k]) as int
  {
    TransformInPlace(numbers, Double);
  }

  /** `lambda_transform()`: {1, 2, 3, 4, 5} becomes {2, 4, 6, 8, 10}. */
  method LambdaTransform() returns (numbers: seq<int32>)
    ensures numbers == [2, 4, 6, 8, 10]
  {
    var a := new int32[5] [1, 2, 3, 4, 5];
    DoubleAll(a);
    numbers := a[..];
  }

  // ---------------------------------------------------------------------------
  // filter_with_predicates: keep the multiples of a captured divisor

  /** The capturing lambda `[divisor = val](const auto& num) { return num % divisor == 0; }`. */
  function DivisibleByCaptured(divisor: int32): (pred: int32 -> bool)
    requires divisor != 0
  {
    num => DivisibleBy(num, divisor)
  }

  /** `copy_if(numbers, back_inserter(filtered), pred)`: `filtered` is the subsequence of the
      multiples of `divisor`, in their order, each as often as it occurs; `numbers` is only read. */
  method FilterDivisible(numbers: array<int32>, divisor: int32) returns (filtered: seq<int32>)
    requires divisor != 0
    ensures forall x :: x in filtered ==> DivisibleBy(x, divisor)
    ensures forall x :: multiset(filtered)[x] == if DivisibleBy(x, divisor) then multiset(numbers[..])[x] else 0
    ensures IsSubsequence(filtered, numbers[..])
  {
    var pred := DivisibleByCaptured(divisor);
    filtered := CopyIf(numbers, pred);
    FilterSatisfies(numbers[..], pred);
    forall x {
      FilterCount(numbers[..], pred, x);
    }
    FilterIsSubsequence(numbers[..], pred);
  }

  /** The vector {1, 2, ..., 10} of `filter_with_predicates`. */
  const ONE_TO_TEN: seq<int32> := [1, 2, 3, 4, 5, 6, 7, 8, 9, 10]

  /** `filter_with_predicates(val)`: of 1..10 it keeps the multiples of `val`, in increasing
      order; with `val == 2` that is {2, 4, 6, 8, 10}. */
  method FilterWithPredicates(val: int32) returns (filtered: seq<int32>)
    requires val != 0
    ensures forall x :: x in filtered <==> 1 <= x <= 10 && DivisibleBy(x, val)
    ensures forall i, j :: 0 <= i < j < |filtered| ==> filtered[i] < filtered[j]
    ensures val == 2 ==> filtered == [2, 4, 6, 8, 10]
  {
    var numbers := new int32[10] [1, 2, 3, 4, 5, 6, 7, 8, 9, 10];
    assert numbers[..] == ONE_TO_TEN;
    filtered := CopyIf(numbers, DivisibleByCaptured(val));
    FilterOneToTen(val);
    if val == 2 {
      FilterEvens();
    }
  }

  /** What copying the multiples of `divisor` out of 1..10 leaves. */
  lemma FilterOneToTen(divisor: int32)
    requires divisor != 0
    ensures forall x :: x in Filter(ONE_TO_TEN, DivisibleByCaptured(divisor)) <==> 1 <= x <= 10 && DivisibleBy(x, divisor)
    ensures var f := Filter(ONE_TO_TEN, DivisibleByCaptured(divisor));
            forall i, j :: 0 <= i < j < |f| ==> f[i] < f[j]
  {
    var pred := DivisibleByCaptured(divisor);
    OneToTenIncreasing();
    FilterIncreasing(ONE_TO_TEN, pred);
    forall x: int32
      ensures x in Filter(ONE_TO_TEN, pred) <==> 1 <= x <= 10 && DivisibleBy(x, divisor)
    {
      FilterMembership(ONE_TO_TEN, pred, x);
      OneToTenMembers(x);
    }
  }

  lemma OneToTenMembers(x: int32)
    ensures x in ONE_TO_TEN <==> 1 <= x <= 10
  {
  }

  lemma OneToTenIncreasing()
    ensures forall i, j :: 0 <= i < j < |ONE_TO_TEN| ==> ONE_TO_TEN[i] < ONE_TO_TEN[j]
  {
  }

  /** What `copy_if` keeps of a strictly increasing sequence is strictly increasing. */
  lemma FilterIncreasing(s: seq<int32>, pred: int32 -> bool)
    requires forall i, j :: 0 <= i < j < |s| ==> s[i] < s[j]
    ensures var f := Filter(s, pred); forall i, j :: 0 <= i < j < |f| ==> f[i] < f[j]
  {
    FilterIsSubsequence(s, pred);
    IncreasingSubsequence(Filter(s, pred), s);
  }

  /** With divisor 2 the outcome is {2, 4, 6, 8, 10}, built up two elements of 1..10 at a time:
      each odd number is dropped and the even one after it kept. */
  lemma FilterEvens()
    ensures Filter(ONE_TO_TEN, DivisibleByCaptured(2)) == [2, 4, 6, 8, 10]
  {
    var even := DivisibleByCaptured(2);
    FilterOddEven([], 1);
    assert [] + [1, 2] == [1, 2];
    assert Filter([1, 2], even) == [2];
    FilterOddEven([1, 2], 3);
    assert [1, 2] + [3, 4] == [1, 2, 3, 4];
    assert Filter([1, 2, 3, 4], even) == [2, 4];
    FilterOddEven([1, 2, 3, 4], 5);
    assert [1, 2, 3, 4] + [5, 6] == [1, 2, 3, 4, 5, 6];
    assert Filter([1, 2, 3, 4, 5, 6], even) == [2, 4, 6];
    FilterOddEven([1, 2, 3, 4, 5, 6], 7);
    assert [1, 2, 3, 4, 5, 6] + [7, 8] == [1, 2, 3, 4, 5, 6, 7, 8];
    assert Filter([1, 2, 3, 4, 5, 6, 7, 8], even) == [2, 4, 6, 8];
    FilterOddEven([1, 2, 3, 4, 5, 6, 7, 8], 9);
    assert [1, 2, 3, 4, 5, 6, 7, 8] + [9, 10] == ONE_TO_TEN;
  }

  /** Appending an odd number and its successor keeps just the successor. */
  lemma FilterOddEven(s: seq<int32>, odd: int32)
    requires 0 < odd < 0x7FFF_FFFF && odd % 2 == 1
    ensures Filter(s + [odd, odd + 1], DivisibleByCaptured(2)) == Filter(s, DivisibleByCaptured(2)) + [odd + 1]
  {
    var even := DivisibleByCaptured(2);
    assert !even(odd) && even(odd + 1);
    FilterSnoc(s, odd, even);
    FilterSnoc(s + [odd], odd + 1, even);
    assert s + [odd, odd + 1] == s + [odd] + [odd + 1];
  }

  /** A subsequence of a strictly increasing sequence is strictly increasing. */
  lemma IncreasingSubsequence(sub: seq<int32>, s: seq<int32>)
    requires IsSubsequence(sub, s)
    requires forall i, j :: 0 <= i < j < |s| ==> s[i] < s[j]
    ensures forall i, j :: 0 <= i < j < |sub| ==> sub[i] < sub[j]
  {
    var idx: seq<nat> :| Embedding(idx, sub, s);
  }

  // ---------------------------------------------------------------------------
  // custom_sort: persons by name, then by age

  /** The comparator of `custom_sort`, branch for branch: by name, and by age when neither name
      is below the other. */
  function CustomSortLess(a: PersonRecord, b: PersonRecord): bool {
    if StdString.Less(a.name, b.name) then true
    else if StdString.Less(b.name, a.name) then false
    else a.age < b.age
  }

  /** The comparator is the lexicographic order on (name, age). */
  lemma CustomSortLessIsLexicographic(a: PersonRecord, b: PersonRecord)
    ensures CustomSortLess(a, b) <==>
              StdString.Less(a.name, b.name) || (a.name == b.name && a.age < b.age)
  {
    if a.name == b.name {
      StdString.LessIrreflexive(a.name);
    } else {
      StdString.LessConnected(a.name, b.name);
    }
  }

  /** So it is a strict total order on persons, and fit for `std::sort`. */
  lemma CustomSortLessIsStrictTotalOrder()
    ensures StrictWeakOrder(CustomSortLess) && Connected(CustomSortLess)
  {
    forall a: PersonRecord, b: PersonRecord {
      CustomSortLessIsLexicographic(a, b);
    }
    forall a: PersonRecord, b: PersonRecord, c: PersonRecord
      | StdString.Less(a.name, b.name) && StdString.Less(b.name, c.name)
      ensures StdString.Less(a.name, c.name)
    {
      StdString.LessTransitive(a.name, b.name, c.name);
    }
    forall a: PersonRecord, b: PersonRecord | a.name != b.name
      ensures StdString.Less(a.name, b.name) || StdString.Less(b.name, a.name)
    {
      StdString.LessConnected(a.name, b.name);
    }
    forall a: PersonRecord {
      StdString.LessIrreflexive(a.name);
    }
  }

  /** `sort(people.begin(), people.end(), comparator)`: sorted by name, then age, and the same
      persons as before. */
  method SortPeople(people: array<PersonRecord>)
    modifies people
    ensures SortedBy(people[..], CustomSortLess)
    ensures multiset(people[..]) == old(multiset(people[..]))
  {
    CustomSortLessIsStrictTotalOrder();
    Sort(people, CustomSortLess);
  }

  /** `custom_sort()`: the four persons come out as Alice 25, Alice 37, Bob 30, Charlie 20. */
  method CustomSort() returns (people: seq<PersonRecord>)
    ensures people == [PersonRecord("Alice", 25), PersonRecord("Alice", 37),
                       PersonRecord("Bob", 30), PersonRecord("Charlie", 20)]
  {
    var a := new PersonRecord[4] [PersonRecord("Charlie", 20), PersonRecord("Alice", 25),
                                  PersonRecord("Bob", 30), PersonRecord("Alice", 37)];
    assert a[..] == [PersonRecord("Charlie", 20), PersonRecord("Alice", 25),
                     PersonRecord("Bob", 30), PersonRecord("Alice", 37)];
    SortPeople(a);
    people := a[..];
    PeopleOutcome(people);
  }

  /** The only arrangement of the four persons that the comparator accepts as sorted. */
  lemma PeopleOutcome(v: seq<PersonRecord>)
    requires SortedBy(v, CustomSortLess)
    requires multiset(v) == multiset([PersonRecord("Charlie", 20), PersonRecord("Alice", 25),
                                      PersonRecord("Bob", 30), PersonRecord("Alice", 37)])
    ensures v == [PersonRecord("Alice", 25), PersonRecord("Alice", 37),
                  PersonRecord("Bob", 30), PersonRecord("Charlie", 20)]
  {
    var expected := [PersonRecord("Alice", 25), PersonRecord("Alice", 37),
                     PersonRecord("Bob", 30), PersonRecord("Charlie", 20)];
    assert multiset(v) == multiset(expected);
    PeopleExpected();
    CustomSortLessIsStrictTotalOrder();
    SortedUnique(v, expected, CustomSortLess);
  }

  lemma PeopleExpected()
    ensures SortedBy([PersonRecord("Alice", 25), PersonRecord("Alice", 37),
                      PersonRecord("Bob", 30), PersonRecord("Charlie", 20)], CustomSortLess)
  {
    var expected := [PersonRecord("Alice", 25), PersonRecord("Alice", 37),
                     PersonRecord("Bob", 30), PersonRecord("Charlie", 20)];
    assert AdjacentSortedBy(expected, CustomSortLess);
    CustomSortLessIsStrictTotalOrder();
    AdjacentSortedIsSorted(expected, CustomSortLess);
  }

  // ---------------------------------------------------------------------------
  // recursive_lambda: three ways of writing one recurrence

  /** `f1`, a `std::function` that calls itself through a reference capture:
      F(0) = F(1) = 1 and F(x) = F(x-1) + F(x-2). */
  function F1(x: nat): nat
  {
    if x == 0 || x == 1 then 1 else F1(x - 1) + F1(x - 2)
  }

  /** The body shared by `fib` and by the inner lambda of `f2`, which receive themselves as the
      argument `ff` and recurse through it. */
  function FibBody(x: nat, ff: nat -> nat): nat
  {
    if x == 0 || x == 1 then 1 else ff(x - 1) + ff(x - 2)
  }

  /** What `lambda(x, lambda)` computes for every `x`: a function `g` that is its own recursive
      callee, `g(x) == FibBody(x, g)`. */
  ghost predicate SolvesFibBody(g: nat -> nat) {
    forall x: nat :: g(x) == FibBody(x, g)
  }

  /** `f1` is such a function ... */
  lemma F1SolvesFibBody()
    ensures SolvesFibBody(x => F1(x))
  {
  }

  /** ... and it is the only one: so `fib(n, fib)`, `f2(n)` and `f1(n)` agree on every `n >= 0`. */
  lemma {:induction false} FibBodySolutionUnique(g: nat -> nat, n: nat)
    requires SolvesFibBody(g)
    ensures g(n) == F1(n)
  {
    if n >= 2 {
      FibBodySolutionUnique(g, n - 1);
      FibBodySolutionUnique(g, n - 2);
      assert g(n) == FibBody(n, g);
    } else {
      assert g(n) == FibBody(n, g);
    }
  }

  /** A reference definition: Fibonacci numbers by iteration over consecutive pairs. */
  function FibPair(n: nat): (nat, nat)
  {
    if n == 0 then (1, 1)
    else
      var previous := FibPair(n - 1);
      (previous.1, previous.0 + previous.1)
  }

  lemma {:induction false} F1MatchesFibPair(n: nat)
    ensures FibPair(n) == (F1(n), F1(n + 1))
  {
    if n > 0 {
      F1MatchesFibPair(n - 1);
      assert F1(n + 1) == F1(n) + F1(n - 1);
    }
  }

  /** `recursive_lambda()`: all three lambdas print 8 for 5. */
  lemma RecursiveLambda()
    ensures F1(5) == 8
    ensures forall g: nat -> nat :: SolvesFibBody(g) ==> g(5) == 8
  {
    forall g: nat -> nat | SolvesFibBody(g)
      ensures g(5) == 8
    {
      FibBodySolutionUnique(g, 5);
    }
  }
}
