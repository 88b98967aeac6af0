# C++ lambdas and special members, modelled in Dafny

This project models the core of a small collection of C++11/14 demonstrations in Dafny and
proves properties of that model. It covers two parts:

- **Two helper classes** from `include/helper_struct.h`:
  - `Person` holds a name and an `int` age. It has default, parameterised, copy and move
    constructors, copy and move assignment with a self-assignment guard, getters, setters and
    `toString`.
  - `str` owns a NUL-terminated `char` buffer. It has a constructor from `const char*`, copy
    and move constructors, copy-and-swap `operator=` and `operator+`.
- **The lambda demonstrations** from `src/lambda/lambdas.cpp`. The first five hand a lambda to a
  standard algorithm; the sixth defines a recursive lambda and calls it:
  - `lambda_sort`: `std::sort` in descending order.
  - `first_divisible`: `std::find_if`.
  - `lambda_transform`: `std::transform` in place.
  - `filter_with_predicates`: `std::copy_if` with a capturing lambda.
  - `custom_sort`: `std::sort` of persons with a by-name-then-age comparator.
  - `recursive_lambda`: a recursive lambda written three ways.

Layout:

| file | module | contents |
|---|---|---|
| `wrappers.dfy` | `Wrappers` | `Option` |
| `cpp_int.dfy` | `CppInt` | C++ `int` as a 32-bit `newtype`, and C++'s truncating `%` |
| `decimal.dfy` | `Decimal` | `std::to_string` on integers, and a reader proving the format loses nothing |
| `std_string.dfy` | `StdString` | `std::string`'s `<`: lexicographic, and proved a strict total order |
| `cstring.dfy` | `CString` | `strlen`, `memcpy` as array methods, and class `Str` (`str`) |
| `person.dfy` | `People` | class `Person`, and the value record `PersonRecord` |
| `algorithms.dfy` | `StdAlgorithm` | `std::sort`, `std::find_if`, `std::transform`, `std::copy_if` |
| `lambdas.dfy` | `Lambdas` | each demonstration: the lambda, the algorithm applied to an arbitrary input, and the demonstration's own literal input with its printed outcome |

Both classes are Dafny classes whose methods change their fields:

- `Str` keeps its buffer in an `array<char>` that is `null` once moved from. Its `Valid()`
  invariant says the buffer's one NUL is its last cell.
- `std::sort` and `std::transform` work in place on arrays. `std::find_if` only reads its array
  and returns an index. `std::copy_if` only reads its array and returns the copied elements as a
  sequence, the `back_inserter`'s target.
- The printed outcome of each demonstration is proved exactly:
  - `9 8 5 3 2 1` for `lambda_sort`.
  - `3` for `first_divisible`.
  - `2 4 6 8 10` for `lambda_transform`.
  - `2 4 6 8 10` for `filter_with_predicates(2)`, the call `src/main.cpp` makes.
  - The four persons in name-then-age order for `custom_sort`.
  - `8` three times for `recursive_lambda`.
- The sorting outcomes follow from `SortedUnique`: under a strict total order, a multiset has
  exactly one sorted arrangement. So the outcome does not depend on which sorting algorithm
  `std::sort` uses.

## Model

| member | source | states |
|---|---|---|
| `People.Person.Default` | include/helper_struct.h:13 | `Person()` holds the name "Unknown" and age 0 |
| `People.Person.constructor` | include/helper_struct.h:14 | `Person(name, age)` holds exactly the given name and age |
| `People.Person.Copy` | include/helper_struct.h:17-19 | the copy has the other person's name and age |
| `People.Person.Move` | include/helper_struct.h:22-24 | the new person has the source's old name and age; the source keeps its age |
| `People.Person.CopyAssign` | include/helper_struct.h:27-34 | afterwards this person has the other's name and age; self-assignment changes nothing; returns this object |
| `People.Person.MoveAssign` | include/helper_struct.h:37-44 | this person takes the other's old name and age; a distinct source keeps its age; self-move changes nothing; returns this object |
| `People.Person.GetName` | include/helper_struct.h:53 | returns the name field; no contract of its own, the other members' contracts are stated through it |
| `People.Person.GetAge` | include/helper_struct.h:54 | returns the age field; no contract of its own, the other members' contracts are stated through it |
| `People.Person.SetName` | include/helper_struct.h:57 | the name is replaced and the age is unchanged |
| `People.Person.SetAge` | include/helper_struct.h:58 | the age is replaced and the name is unchanged |
| `People.Person.ToString` | include/helper_struct.h:61-63 | the result is "Name: ", then the name, then ", Age: ", then exactly `to_string(age)`: a suffix that reads back as the age, starts with '-' exactly for a negative age, and has no leading zero and no "-0" |
| `People.ToStringDistinguishesAges` | include/helper_struct.h:61-63 | two persons with one name and different ages print differently |
| `Decimal.IntToStringRoundTrip` | include/helper_struct.h:62 | reading back `to_string(n)` as a signed decimal gives `n` |
| `Decimal.IntToStringInjective` | include/helper_struct.h:62 | `to_string` gives different numbers different spellings |
| `Decimal.NatToStringValue` | include/helper_struct.h:62 | the digits written for `n` are all digits and denote `n` |
| `Decimal.IntToString` | include/helper_struct.h:62 | `to_string(n)` is nonempty, starts with '-' exactly for negative `n`, is otherwise all digits, has no leading zero except in "0", and never reads "-0" |
| `CString.CLen` | include/helper_struct.h:79 | `strlen` is the index of the first NUL: a NUL stands there and none before it |
| `CString.StrLen` | include/helper_struct.h:110-111 | the scan returns the index of the first NUL in the buffer |
| `CString.Memcpy` | include/helper_struct.h:114-115 | `count` cells of the source land at `offset`; every other cell of the destination is unchanged |
| `CString.CLenAppend` | include/helper_struct.h:113-115 | the C length of a NUL-free prefix followed by a C string is the prefix length plus that string's length |
| `CString.CContentAppend` | include/helper_struct.h:113-115 | that concatenation stands for the prefix followed by the string's content |
| `CString.ConcatBuffers` | include/helper_struct.h:110-115 | the new buffer is the left characters without their NUL, then the whole right buffer with its NUL |
| `CString.Str.constructor` | include/helper_struct.h:78-82 | a fresh buffer of `strlen(d) + 1` cells whose content is that of `d`; the invariant holds |
| `CString.Str.Copy` | include/helper_struct.h:88-94 | a fresh buffer of the same length and content as `rhs`'s |
| `CString.Str.Move` | include/helper_struct.h:96-101 | takes `rhs`'s buffer itself, leaves `rhs` with none, and keeps the content |
| `CString.Str.Swap` | include/helper_struct.h:103-104 | the two objects exchange buffers; both keep the invariant |
| `CString.Str.CopyAssign` | include/helper_struct.h:103-107 | assigning an lvalue gives this object a fresh buffer with the other's old content, even for self-assignment; returns this object |
| `CString.Str.MoveAssign` | include/helper_struct.h:103-107 | assigning an rvalue gives this object the other's old buffer; a distinct source is left with none; returns this object |
| `CString.Str.Concat` | include/helper_struct.h:109-122 | a fresh `str` of `|a| + |b| + 1` cells, NUL at the end, whose content is this content followed by `rhs`'s |
| `StdString.Less` | src/lambda/lambdas.cpp:91-93 | `std::string`'s `<` (and `>` with the operands swapped); no contract of its own, characterised by `StdString.LessIrreflexive`, `StdString.LessTransitive`, `StdString.LessConnected` and `StdString.PrefixIsLess` |
| `StdString.LessIrreflexive` | src/lambda/lambdas.cpp:91-93 | no string is below itself under `std::string`'s `<` |
| `StdString.LessTransitive` | src/lambda/lambdas.cpp:91-93 | string `<` is transitive |
| `StdString.LessConnected` | src/lambda/lambdas.cpp:91-93 | of two different strings one is below the other |
| `StdString.PrefixIsLess` | src/lambda/lambdas.cpp:91-93 | a proper prefix is below the longer string |
| `StdAlgorithm.Sort` | src/lambda/lambdas.cpp:12-14 | under a strict weak order the array ends sorted by the comparator and is a permutation of the old one |
| `StdAlgorithm.Insert` | src/lambda/lambdas.cpp:12-14 | one insertion step: the prefix through `i` is sorted, the rest is untouched, the elements are permuted |
| `StdAlgorithm.AdjacentSortedIsSorted` | src/lambda/lambdas.cpp:12-14 | under a strict weak order, ordered neighbours mean ordered everywhere |
| `StdAlgorithm.SortedUnique` | src/lambda/lambdas.cpp:12-14 | under a strict total order, two sorted sequences with the same elements are equal |
| `StdAlgorithm.FindIf` | src/lambda/lambdas.cpp:23-25 | the first index whose element satisfies the predicate, or the end when none does |
| `StdAlgorithm.TransformInPlace` | src/lambda/lambdas.cpp:41-44 | every element is replaced by the operation applied to its old value |
| `StdAlgorithm.CopyIf` | src/lambda/lambdas.cpp:62-65 | the output is `Filter` of the input |
| `StdAlgorithm.FilterSatisfies` | src/lambda/lambdas.cpp:62-65 | everything copied satisfies the predicate |
| `StdAlgorithm.FilterCount` | src/lambda/lambdas.cpp:62-65 | each element is copied as often as it occurs if it satisfies the predicate, else never |
| `StdAlgorithm.FilterSnoc` | src/lambda/lambdas.cpp:62-65 | one more input element appends itself to the output exactly when it satisfies the predicate |
| `StdAlgorithm.FilterMembership` | src/lambda/lambdas.cpp:62-65 | `x` is copied iff it occurs in the input and satisfies the predicate |
| `StdAlgorithm.FilterIsSubsequence` | src/lambda/lambdas.cpp:62-65 | the output keeps the input's order |
| `CppInt.CppRem` | src/lambda/lambdas.cpp:24 | C++ `%`: `a == (a / b) * b + a % b` with the truncating quotient, the remainder below the divisor in magnitude and of the dividend's sign |
| `CppInt.DivisibleBy` | src/lambda/lambdas.cpp:64 | `num % divisor == 0`; no contract of its own, characterised by `CppInt.DivisibleByIsMultiple` |
| `CppInt.DivisibleByIsMultiple` | src/lambda/lambdas.cpp:64 | `num % divisor == 0` holds exactly when `num` is an integer multiple of `divisor`, both directions |
| `CppInt.CppRemOdd` | src/lambda/lambdas.cpp:64 | negating the dividend negates the C++ remainder |
| `Lambdas.Greater` | src/lambda/lambdas.cpp:12-14 | the comparator `a > b`; no contract of its own, characterised by `Lambdas.GreaterIsStrictTotalOrder` and `Lambdas.SortedByGreater` |
| `Lambdas.GreaterIsStrictTotalOrder` | src/lambda/lambdas.cpp:12-14 | `>` is a strict weak order and connected, so a valid `std::sort` comparator |
| `Lambdas.SortDescending` | src/lambda/lambdas.cpp:12-14 | the vector ends sorted by `>` and holds the same elements |
| `Lambdas.SortedByGreater` | src/lambda/lambdas.cpp:12-14 | sorted by `>` means non-increasing |
| `Lambdas.DescendingOutcome` | src/lambda/lambdas.cpp:9-14 | the only arrangement of {5, 1, 8, 3, 9, 2} sorted by `>` is 9 8 5 3 2 1 |
| `Lambdas.LambdaSort` | src/lambda/lambdas.cpp:7-18 | `lambda_sort` leaves 9 8 5 3 2 1 |
| `Lambdas.DivisibleBy3` | src/lambda/lambdas.cpp:23-25 | the predicate `a % 3 == 0`; no contract of its own, it is `CppInt.DivisibleBy` with divisor 3, characterised by `CppInt.DivisibleByIsMultiple` |
| `Lambdas.FirstDivisibleBy3` | src/lambda/lambdas.cpp:23-28 | None iff no element is a multiple of 3, otherwise the element at the lowest such index |
| `Lambdas.FirstDivisible` | src/lambda/lambdas.cpp:20-29 | `first_divisible` finds 3 |
| `Lambdas.Double` | src/lambda/lambdas.cpp:42-44 | the doubling lambda's result; no contract of its own, characterised by `Lambdas.DoubleAll` |
| `Lambdas.DoubleAll` | src/lambda/lambdas.cpp:41-44 | every element becomes twice its old value |
| `Lambdas.LambdaTransform` | src/lambda/lambdas.cpp:31-50 | `lambda_transform` turns 1..5 into 2 4 6 8 10 |
| `Lambdas.DivisibleByCaptured` | src/lambda/lambdas.cpp:63-65 | the capturing lambda, a predicate fixed by the captured divisor; no contract of its own, characterised by `Lambdas.FilterDivisible` and `CppInt.DivisibleByIsMultiple` |
| `Lambdas.FilterDivisible` | src/lambda/lambdas.cpp:62-65 | the output holds only multiples of the divisor, each as often as in the input, in input order |
| `Lambdas.FilterOneToTen` | src/lambda/lambdas.cpp:53-65 | from 1..10 exactly the multiples of the divisor are kept, in increasing order |
| `Lambdas.FilterIncreasing` | src/lambda/lambdas.cpp:62-65 | what is copied from a strictly increasing sequence is strictly increasing |
| `Lambdas.IncreasingSubsequence` | src/lambda/lambdas.cpp:62-65 | a subsequence of a strictly increasing sequence is strictly increasing |
| `Lambdas.FilterEvens` | src/lambda/lambdas.cpp:53-65 | with divisor 2 the outcome is 2 4 6 8 10 |
| `Lambdas.FilterWithPredicates` | src/lambda/lambdas.cpp:52-70 | `filter_with_predicates(val)` keeps exactly the multiples of `val` in 1..10, increasing; for 2 that is 2 4 6 8 10 |
| `Lambdas.CustomSortLess` | src/lambda/lambdas.cpp:90-97 | the comparator, branch for branch; no contract of its own, characterised by `Lambdas.CustomSortLessIsLexicographic` |
| `Lambdas.CustomSortLessIsLexicographic` | src/lambda/lambdas.cpp:90-97 | the comparator is the lexicographic order on (name, age) |
| `Lambdas.CustomSortLessIsStrictTotalOrder` | src/lambda/lambdas.cpp:90-97 | the comparator is a strict weak order and connected, so it is a valid `std::sort` comparator |
| `Lambdas.SortPeople` | src/lambda/lambdas.cpp:89-97 | the persons end sorted by the comparator and are a permutation of the old ones |
| `Lambdas.PeopleOutcome` | src/lambda/lambdas.cpp:74-97 | the only sorted arrangement of the four persons is Alice 25, Alice 37, Bob 30, Charlie 20 |
| `Lambdas.CustomSort` | src/lambda/lambdas.cpp:73-104 | `custom_sort` leaves Alice 25, Alice 37, Bob 30, Charlie 20 |
| `Lambdas.F1` | src/lambda/lambdas.cpp:112-116 | `f1`; no contract of its own, characterised by `Lambdas.F1MatchesFibPair` and `Lambdas.FibBodySolutionUnique` |
| `Lambdas.FibBody` | src/lambda/lambdas.cpp:119-123 | the body shared by `f2`'s inner lambda and `fib` (lines 127-131), with the callee as a parameter; no contract of its own, characterised by `Lambdas.FibBodySolutionUnique` |
| `Lambdas.F1SolvesFibBody` | src/lambda/lambdas.cpp:112-122 | `f1` satisfies the recurrence that the self-applied lambdas define |
| `Lambdas.FibBodySolutionUnique` | src/lambda/lambdas.cpp:118-131 | every function satisfying that recurrence equals `f1` everywhere, so `fib(n, fib)`, `f2(n)` and `f1(n)` agree |
| `Lambdas.F1MatchesFibPair` | src/lambda/lambdas.cpp:112-116 | `f1` agrees with an independent pairwise-iteration definition of the Fibonacci numbers |
| `Lambdas.RecursiveLambda` | src/lambda/lambdas.cpp:133-135 | all three calls give 8 for 5 |

## Left out

- Console output (`cout`, `printv`, the messages the special members print, `operator<<`) is
  not modelled. The demonstrations return the values they would print.
- Destructors (`~Person`, `~str`) and `delete[]` are not modelled, because Dafny has no
  deallocation. `operator+` frees its temporary buffer; that is invisible here.
- `std::sort`'s introsort is replaced by an insertion sort. Only its outcome is specified, and
  `SortedUnique` shows the outcome is the same for any sorting algorithm.
- `People.Person.Move` and `People.Person.MoveAssign` promise nothing about the moved-from
  name: a moved-from `std::string` is valid but unspecified. The bodies empty it.
- Person and `str` copy and move assignment return this object (`self == this`). Chaining
  through the returned reference is not modelled beyond that.
- The vector of persons in `custom_sort` holds `PersonRecord` values, not `Person` objects.
  The element copies and moves that `std::sort` makes are not modelled.
- Characters compare by code point. `std::char_traits<char>::lt` compares as `unsigned char`,
  which is the same order for the ASCII names used here.
- `Lambdas.DoubleAll` requires every element to lie in [-2^30, 2^30). Doubling outside that
  range overflows `int`, which is undefined behaviour in C++.
- `CString.Str.Copy`, `CString.Str.CopyAssign` and `CString.Str.Concat` require their operands to
  own a buffer (`data != null`). On a moved-from `str` the C++ code calls `strlen(nullptr)`,
  which is undefined behaviour.
- `CString.StrLen` and `CString.Str.constructor` require a NUL inside the array. Without one,
  C++ `strlen` reads past the end of the array, which is undefined behaviour.
- `Lambdas.FilterDivisible`, `Lambdas.FilterWithPredicates` and `Lambdas.DivisibleByCaptured`
  require a nonzero divisor. `num % 0` is undefined behaviour in C++.
- `Lambdas.Double` is a pure function. The C++ lambda takes `auto&` and also writes the doubled
  value through its parameter, even though `std::transform` does not allow its operation to
  modify the elements. `transform` then stores the same value back into the same element, so
  the outcome is the same, and the model does not capture the write through the reference.
- `CppInt.CppRem` gives 0 for `INT_MIN % -1`, which is undefined behaviour in C++.
- `Lambdas.F1` and `Lambdas.FibBody` are defined on unbounded naturals:
  - The C++ `int` result overflows from argument 46 on.
  - A negative argument makes the C++ lambdas recurse without end.
  - So the model's domain is the non-negative arguments.
- `Lambdas.FibBodySolutionUnique`: the self-applying lambdas `fib` and `f2` cannot be
  written in Dafny as given. They are modelled as any function that satisfies the recurrence
  the lambda body defines, and that function is proved to be `f1`.
- The comment in `recursive_lambda` asks for a factorial, but the code computes Fibonacci
  numbers. The model follows the code.
- The other demonstrations in `src/lambda/lambdas.cpp` are not part of this model:
  `process_vector`, `func_param_lambda`, `immediate_invocation_lambda`, `generic_print_lambda`.
  The range-based-for, `auto` and `decltype` examples are not part of it either.
- `Person`'s getters carry no contract of their own. The other members' contracts are stated
  through them.
