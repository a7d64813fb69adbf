# Royal-Road arithmetic core in Dafny

This project models four small arithmetic modules of the Royal-Road
teaching repository and proves what they compute:

- `fraction_algorithms.py` (module `Fractions`): the module-level `gcd`
  loop, `Fraction.gcd`, the normalising constructor, `simplify`, the four
  arithmetic operators and their in-place twins, the six comparisons,
  `__invert__` and `__abs__`.  Python's floored `//` and `%` are modelled
  by `FloorDiv` and `FloorMod`.  `Fraction.gcd` is therefore not always
  positive: for a non-zero second argument it takes that argument's sign,
  and for a zero second argument it returns the first one.  A fraction is a
  datatype, since nothing changes it after construction.  The exact value
  of a fraction is a Dafny `real`, and every operation is proved to return
  the normal (positive denominator, lowest terms) fraction of the exact
  rational result.
- `arithmetic_algorithms.py` (module `Arithmetic`): the successor-based
  recursive and iterative addition and multiplication,
  `generalized_addition` and `multiplication`, including how they behave
  off the naturals.
- `quantum/complex_numbers.py` (module `ComplexNumbers`): the ring
  operations on complex numbers with integer coordinates, the
  component-wise vector operations, the `ComplexVector` class with its
  `__next__` cursor, and `linear_combination`.
- `logic_gates.py` (module `LogicGates`): the seven gates over arbitrary
  integers, `NOT` and `NOR` returning `Option<int>` for Python's `None`.

Where docstrings and code disagree the model follows the code: the
docstrings of `Fraction.__sub__`, `__mult__` and `__truediv__` promise an
unsimplified result, but all three go through `simplify`; and the
docstrings of `Complex.__sub__` and `ComplexVector.__sub__` describe
subtracting this number (vector) from the other one, but the code
computes `self - other`, which is what `ComplexNumbers.Sub` and
`ComplexNumbers.VecSub` model.

Python exceptions become `Err(...)` values of `Wrappers.Result`.  Loops in
the source are methods with loop invariants, proved against a function
that states their result. 

## Model

| member | source | states |
|---|---|---|
| `Fractions.FloorMod` | fraction_algorithms.py:44 | Python's `%`: the remainder lies between 0 and the divisor, on the divisor's side, and is 0 exactly when the divisor divides |
| `Fractions.FloorDiv` | fraction_algorithms.py:29-30 | Python's `//`: the quotient that pairs with `FloorMod`, `a == b * q + a % b` |
| `Fractions.EuclidGcd` | fraction_algorithms.py:41-45 | `Fraction.gcd(a, 0) == a`; for `b != 0` the result is non-zero and has the sign of `b`; it is 0 exactly when both arguments are 0 |
| `Fractions.FractionGcd` | fraction_algorithms.py:41-45 | the `while b` loop computes `EuclidGcd` |
| `Fractions.GcdDividesBoth` | fraction_algorithms.py:41-45 | the result of `Fraction.gcd` divides both arguments |
| `Fractions.GcdGreatest` | fraction_algorithms.py:41-45 | every common divisor of the arguments divides the result, so its absolute value is the greatest common divisor |
| `Fractions.GcdCanBeNegative` | fraction_algorithms.py:41-45 | `Fraction.gcd(6, -4) == -2` under floored `%` |
| `Fractions.GcdScale` | fraction_algorithms.py:41-45 | scaling both arguments by a positive factor scales the result by it |
| `Fractions.Gcd` | fraction_algorithms.py:15-23 | module `gcd(m, n)` raises `ZeroDivisionError` exactly when `n == 0`; otherwise it returns `Fraction.gcd(m, n)`, a non-zero common divisor that every common divisor divides |
| `Fractions.Make` | fraction_algorithms.py:26-39 | the constructor succeeds exactly for a non-zero denominator and then gives a fraction with positive denominator, coprime parts and equal cross products; every failure is `ZeroDivisionError` (by `EuclidGcd`, the gcd is 0, so the `//` raises, exactly when both parts are 0) |
| `Fractions.NewFraction` | fraction_algorithms.py:26-39 | `__init__` step by step (assign the quotients, then overwrite on a negative denominator) returns what `Make` returns |
| `Fractions.DivideOutGcd` | fraction_algorithms.py:27-30 | for a non-zero denominator both `//` divisions are exact, the new denominator is positive, the quotients are coprime and the value is kept |
| `Fractions.NoNegativeDenominator` | fraction_algorithms.py:32-35 | whenever the quotients exist the denominator quotient is not negative, so the sign-flip branch is never taken |
| `Fractions.ValueOfMake` | fraction_algorithms.py:26-39 | a constructed fraction has the exact value `n / d` |
| `Fractions.MakeOfNormal` | fraction_algorithms.py:26-39 | a normal fraction is a fixed point of the constructor |
| `Fractions.MakeCanonical` | fraction_algorithms.py:26-39 | two pairs construct the same fraction exactly when their cross products are equal |
| `Fractions.NormalFormUnique` | fraction_algorithms.py:26-39 | two normal fractions with equal cross products are identical |
| `Fractions.EuclidsLemma` | fraction_algorithms.py:41-45 | for positive `m` and `y`, an `m` coprime to `x` that divides `x * y` divides `y` (the step behind uniqueness of normal forms) |
| `Fractions.Simplify` | fraction_algorithms.py:47-52 | `simplify(n, d)` is the constructor `Fraction(n, d)`: the second division by the gcd changes nothing |
| `Fractions.Add` | fraction_algorithms.py:54-58 | succeeds exactly when both denominators are non-zero, with a normal fraction whose value is the exact sum; otherwise raises `ZeroDivisionError` |
| `Fractions.Sub` | fraction_algorithms.py:60-62 | as `Add`, for the exact difference |
| `Fractions.Mul` | fraction_algorithms.py:64-66 | as `Add`, for the exact product |
| `Fractions.Div` | fraction_algorithms.py:68-70 | raises `ZeroDivisionError` exactly when the dividend's denominator or the divisor's numerator is 0; otherwise a normal fraction whose value is the exact quotient |
| `Fractions.DivByZeroRaises` | fraction_algorithms.py:68-70 | dividing by a zero-valued normal fraction raises `ZeroDivisionError` |
| `Fractions.InPlaceAdd` | fraction_algorithms.py:72-76 | `__iadd__` returns what `__add__` returns |
| `Fractions.InPlaceSub` | fraction_algorithms.py:78-80 | `__isub__` returns what `__sub__` returns |
| `Fractions.InPlaceMul` | fraction_algorithms.py:82-84 | `__imult__` returns what `__mult__` returns |
| `Fractions.InPlaceDiv` | fraction_algorithms.py:86-88 | `__itruediv__` returns what `__truediv__` returns |
| `Fractions.Eq` | fraction_algorithms.py:90-91 | for non-zero denominators, true exactly when the values are equal |
| `Fractions.EqIsIdentity` | fraction_algorithms.py:90-91 | on normal fractions `__eq__` holds exactly for identical fields |
| `Fractions.Ne` | fraction_algorithms.py:93-94 | the negation of `__eq__`; different values |
| `Fractions.Lt` | fraction_algorithms.py:96-97 | for positive denominators, true exactly when the first value is smaller |
| `Fractions.Gt` | fraction_algorithms.py:99-100 | `__lt__` with the operands swapped; for positive denominators a larger value |
| `Fractions.Ge` | fraction_algorithms.py:102-103 | true exactly when `__gt__` or `__eq__` holds |
| `Fractions.Le` | fraction_algorithms.py:105-106 | true exactly when `__lt__` or `__eq__` holds |
| `Fractions.Trichotomy` | fraction_algorithms.py:90-100 | exactly one of `<`, `==`, `>` holds for any two fractions |
| `Fractions.Invert` | fraction_algorithms.py:108-110 | raises `ZeroDivisionError` exactly on a zero numerator; otherwise a normal fraction whose value is the reciprocal |
| `Fractions.InvertInvolution` | fraction_algorithms.py:108-110 | inverting a non-zero normal fraction twice gives it back |
| `Fractions.AbsAsWritten` | fraction_algorithms.py:112-113 | `__abs__` as written raises `ZeroDivisionError` exactly on a zero numerator and otherwise returns the reciprocal of the absolute value |
| `Fractions.AbsCorrected` | fraction_algorithms.py:112-113 | the evident intent: succeeds for every non-zero denominator with the absolute value, and otherwise raises `ZeroDivisionError` |
| `Fractions.AbsDiscrepancy` | fraction_algorithms.py:112-113 | on 1/2 `__abs__` gives 2/1 and on 0/1 it raises, where the absolute values are 1/2 and 0/1 |
| `Arithmetic.AddOne` | arithmetic_algorithms.py:5-6 | the successor, undone by `subtract_one` |
| `Arithmetic.SubtractOne` | arithmetic_algorithms.py:8-9 | the predecessor, below its argument |
| `Arithmetic.AddRecursive` | arithmetic_algorithms.py:16-19 | `add_recursive(a, b) == a + b` for every natural `b` |
| `Arithmetic.Add` | arithmetic_algorithms.py:28-32 | the loop returns `a + b` for `b >= 0` and `a` for `b <= 0` |
| `Arithmetic.AddRecursiveAgreesWithAdd` | arithmetic_algorithms.py:16-32 | `add_recursive` and the iterative `add` agree on every natural second argument |
| `Arithmetic.MultiplyRecursive` | arithmetic_algorithms.py:21-24 | `a * b` for natural `a` and `b`; for negative `a` it is 0 at `b == 0` and `a` otherwise, because `add` ignores a negative second argument |
| `Arithmetic.Multiply` | arithmetic_algorithms.py:34-38 | the loop returns `a * b` for `a >= 0, b >= 1`, and `a` whenever `b <= 1` or `a < 0` |
| `Arithmetic.MultiplyByZero` | arithmetic_algorithms.py:34-38 | `multiply(a, 0)` returns `a` |
| `Arithmetic.MultiplyCorrected` | arithmetic_algorithms.py:21-38 | the repaired loop, in `multiply_recursive`'s argument order, agrees with `multiply_recursive` and returns `a * b` on naturals, 0 included |
| `Arithmetic.GeneralizedAddition` | arithmetic_algorithms.py:44-48 | the loop returns the sum of the positive inputs, never negative |
| `Arithmetic.PositivesOfNaturals` | arithmetic_algorithms.py:44-48 | with no negative input that sum is the plain sum |
| `Arithmetic.Copies` | arithmetic_algorithms.py:51 | `[a for x in range(n)]` has `max(n, 0)` entries, all `a` |
| `Arithmetic.SumOfCopies` | arithmetic_algorithms.py:50-52 | the positive-part sum of `n` copies of `a` is `n * a` for `a > 0` and 0 otherwise |
| `Arithmetic.Multiplication` | arithmetic_algorithms.py:50-52 | `a * b` for natural `a`, `b`; 0 when either is not positive |
| `ComplexNumbers.Add` | quantum/complex_numbers.py:42-44 | component-wise sum |
| `ComplexNumbers.Sub` | quantum/complex_numbers.py:46-48 | the difference is what, added to `b`, gives `a` back |
| `ComplexNumbers.AddSubInverse` | quantum/complex_numbers.py:42-48 | `(a + b) - b == a` exactly |
| `ComplexNumbers.Mul` | quantum/complex_numbers.py:50-52 | the product `(x1*x2 - y1*y2, x1*y2 + y1*x2)`, with `(1, 0)` as unit; its laws are the lemmas below |
| `ComplexNumbers.MulCommutative` | quantum/complex_numbers.py:50-52 | the product is commutative |
| `ComplexNumbers.MulAssociative` | quantum/complex_numbers.py:50-52 | the product is associative |
| `ComplexNumbers.MulDistributesOverAdd` | quantum/complex_numbers.py:42-52 | the product distributes over the sum |
| `ComplexNumbers.ScalarMultiplication` | quantum/complex_numbers.py:60-62 | scaling by `s` is multiplying by the complex number `(s, 0)` |
| `ComplexNumbers.ScalarMultiplicationLaws` | quantum/complex_numbers.py:60-62 | scalar 1 is the identity; scaling twice scales by the product |
| `ComplexNumbers.ComplexConjugate` | quantum/complex_numbers.py:64-66 | keeps `x`, and the conjugate plus the number is real |
| `ComplexNumbers.ConjugateInvolution` | quantum/complex_numbers.py:64-78 | conjugating twice is the identity; `__neg__` negates both components |
| `ComplexNumbers.ConjugateOfProduct` | quantum/complex_numbers.py:50-66 | the conjugate of a product is the product of the conjugates |
| `ComplexNumbers.ModulusSquared` | quantum/complex_numbers.py:72-74 | `x*x + y*y`, never negative, 0 only at 0 |
| `ComplexNumbers.ConjugateProductIsReal` | quantum/complex_numbers.py:72-74 | `z` times its conjugate has imaginary part 0 and real part the squared modulus |
| `ComplexNumbers.ModulusSquaredOfProduct` | quantum/complex_numbers.py:50-74 | the squared modulus is multiplicative |
| `ComplexNumbers.Neg` | quantum/complex_numbers.py:76-78 | the additive inverse |
| `ComplexNumbers.ZipWith` | quantum/complex_numbers.py:101-114 | a comprehension over `zip`: length the shorter operand's, entry `i` the operation on the two `i`-th entries |
| `ComplexNumbers.MapEach` | quantum/complex_numbers.py:124-130 | a comprehension over one list: same length, entry `i` the operation on entry `i` |
| `ComplexNumbers.VecAdd` | quantum/complex_numbers.py:101-104 | vector sum: length `min(len(u), len(v))`, entry `i` is `u[i] + v[i]` |
| `ComplexNumbers.VecSub` | quantum/complex_numbers.py:106-109 | vector difference, truncated likewise |
| `ComplexNumbers.VecMul` | quantum/complex_numbers.py:111-114 | component-wise product, truncated likewise |
| `ComplexNumbers.VecScale` | quantum/complex_numbers.py:124-126 | scalar multiplication keeps the length and scales every entry |
| `ComplexNumbers.VecConjugate` | quantum/complex_numbers.py:128-130 | conjugation keeps the length and conjugates every entry |
| `ComplexNumbers.VecAddSubInverse` | quantum/complex_numbers.py:101-109 | `(u + v) - v == u` when `u` is not longer than `v` |
| `ComplexNumbers.VecMulCommutative` | quantum/complex_numbers.py:111-114 | the component-wise product is commutative |
| `ComplexNumbers.VecConjugateInvolution` | quantum/complex_numbers.py:128-130 | conjugating a vector twice is the identity |
| `ComplexNumbers.VecScaleByOne` | quantum/complex_numbers.py:124-126 | scaling a vector by 1 is the identity |
| `ComplexNumbers.ComplexVector.constructor` | quantum/complex_numbers.py:97-99 | stores the entries with the cursor at 0 |
| `ComplexNumbers.ComplexVector.Plus` | quantum/complex_numbers.py:101-104 | a fresh vector holding `VecAdd` of the two entry lists |
| `ComplexNumbers.ComplexVector.Minus` | quantum/complex_numbers.py:106-109 | a fresh vector holding `VecSub` of the two entry lists |
| `ComplexNumbers.ComplexVector.Times` | quantum/complex_numbers.py:111-114 | a fresh vector holding `VecMul` of the two entry lists |
| `ComplexNumbers.ComplexVector.ScalarMultiplication` | quantum/complex_numbers.py:124-126 | a fresh vector holding `VecScale` of the entries |
| `ComplexNumbers.ComplexVector.ComplexConjugate` | quantum/complex_numbers.py:128-130 | a fresh vector holding `VecConjugate` of the entries |
| `ComplexNumbers.ComplexVector.Length` | quantum/complex_numbers.py:132-133 | the number of entries, whatever the cursor |
| `ComplexNumbers.ComplexVector.Next` | quantum/complex_numbers.py:139-146 | returns the entry at the cursor and advances it by one; at or past the end raises `StopIteration` and leaves the cursor alone |
| `ComplexNumbers.ShortestLength` | quantum/complex_numbers.py:30 | the number of tuples `zip(*vectors)` yields: the length of the shortest vector |
| `ComplexNumbers.LinearCombination` | quantum/complex_numbers.py:5-34 | the two loops return what `LinearCombinationSpec` states: `IndexError` with no vectors, or with a non-empty first vector and fewer than two pairs or a paired vector shorter than the first; otherwise the first two scaled vectors added entry by entry over the first vector's length |
| `ComplexNumbers.ScaleEach` | quantum/complex_numbers.py:23-29 | one scaled copy of each vector that has a paired scalar, in order, as many as `zip` makes pairs |
| `ComplexNumbers.AddPairs` | quantum/complex_numbers.py:31-34 | the sums of the first `length` pairs in order, or `IndexError` when fewer pairs exist |
| `ComplexNumbers.ShortestScaled` | quantum/complex_numbers.py:28-30 | scaling keeps lengths, so `zip(*scaled)` covers the first vector exactly when no paired vector is shorter |
| `ComplexNumbers.LinearCombinationOfTwo` | quantum/complex_numbers.py:22-34 | for two equal-length vectors the answer has that length and entry `i` is `s1*v1[i] + s2*v2[i]` |
| `ComplexNumbers.ScaledSum` | quantum/complex_numbers.py:6-7 | the scaled vectors of the first `n` pairs added entry by entry, as long as the shortest of those vectors |
| `ComplexNumbers.ScaledSumEntries` | quantum/complex_numbers.py:6-7 | entry `i` of that sum is the sum of `scalars[j] * vectors[j][i]` over every `j < n` |
| `ComplexNumbers.LinearCombinationCorrected` | quantum/complex_numbers.py:5-34 | the code with only the summation repaired: the same failures as the code (`IndexError` with no vectors, `[]` for an empty first vector, `IndexError` when a paired vector is shorter than the first) except that one pair now suffices; the result is as long as the first vector |
| `ComplexNumbers.CorrectedKeepsErrors` | quantum/complex_numbers.py:5-34 | unless there is exactly one pair, the repair fails exactly where the code does, and with exactly two pairs it returns the code's answer |
| `ComplexNumbers.LinearCombinationCorrectedEntries` | quantum/complex_numbers.py:5-7 | each entry of the corrected combination sums the contributions of every paired vector |
| `ComplexNumbers.SingleVectorRaises` | quantum/complex_numbers.py:30-34 | with one vector `[1]` and scalar 1 the code raises `IndexError`, where the combination is `[1]` |
| `ComplexNumbers.ThirdVectorDropped` | quantum/complex_numbers.py:30-34 | three vectors `[1]` with scalars 1 give `[2]`, where the combination is `[3]` |
| `ComplexNumbers.OnlyFirstTwoContribute` | quantum/complex_numbers.py:30 | a successful answer is the answer for the first two vector-scalar pairs alone |
| `LogicGates.And` | logic_gates.py:4-8 | true exactly when both inputs are 1 |
| `LogicGates.Nand` | logic_gates.py:10-14 | the negation of `AND` for every input |
| `LogicGates.Or` | logic_gates.py:16-22 | true exactly when an input is 1 |
| `LogicGates.Xor` | logic_gates.py:24-28 | 1 exactly when the inputs differ, else 0 |
| `LogicGates.Not` | logic_gates.py:30-34 | flips a bit; `None` for any other input |
| `LogicGates.Nor` | logic_gates.py:36-44 | defined exactly on pairs of bits, 1 exactly when both are 0, the bit of not `OR` |
| `LogicGates.Xnor` | logic_gates.py:46-50 | `1 - XOR(a, b)` for every input |
| `LogicGates.NotInvolution` | logic_gates.py:30-34 | `NOT` undoes itself on bits |
| `LogicGates.NandDeMorgan` | logic_gates.py:10-34 | on bits `NAND(a, b)` is `OR(NOT a, NOT b)` |
| `LogicGates.NorDeMorgan` | logic_gates.py:4-44 | on bits `NOR(a, b)` is `AND(NOT a, NOT b)` |
| `LogicGates.XorFromAndOr` | logic_gates.py:10-28 | on bits `XOR` is `OR` and `NAND` |
| `LogicGates.XorOffBits` | logic_gates.py:16-28 | off the bits the gates disagree: `XOR(2, 3) == 1` while `OR(2, 3)` is false |

## Findings

| source | as written | input that shows it | evidently intended | confidence | as-written member | corrected member |
|---|---|---|---|---|---|---|
| fraction_algorithms.py:112-113 | `__abs__` constructs `Fraction(abs(denominator), abs(numerator))`, the reciprocal | `abs(Fraction(1, 2))` is 2/1; `abs(Fraction(0, 1))` raises `ZeroDivisionError` | `Fraction(abs(numerator), abs(denominator))`: 1/2 and 0/1 | not executed; high | `Fractions.AbsAsWritten` | `Fractions.AbsCorrected` |
| quantum/complex_numbers.py:30 | `vectors_to_add` keeps only `x[0], x[1]` of each `zip(*scaled_vectors)` tuple | one vector `[1]` with scalar 1 raises `IndexError`; three vectors `[1]` with scalars 1 give `[2]` | the sum of every vector that has a scalar, `[1]` and `[3]` here; the code's error cases and its empty result for an empty first vector stay as they are | not executed; medium | `ComplexNumbers.ThirdVectorDropped` | `ComplexNumbers.LinearCombinationCorrected` |
| arithmetic_algorithms.py:34-38 | `product_so_far` starts at `number1` and the loop runs `number2 - 1` times | `multiply(5, 0)` returns 5 | 0, as `multiply_recursive(5, 0)` returns; the repair starts at 0, runs `b` times and calls `add(a, product)` as `multiply_recursive` does (with `multiply`'s `add(product, a)` it differs only for negative `a`) | not executed; high | `Arithmetic.MultiplyByZero` | `Arithmetic.MultiplyCorrected` |

`Fractions.AbsDiscrepancy` exhibits the first row on its inputs;
`ComplexNumbers.SingleVectorRaises` and `ComplexNumbers.ThirdVectorDropped`
exhibit the second, and `ComplexNumbers.OnlyFirstTwoContribute` states it
for every input;
`Arithmetic.Multiply` states the as-written behaviour for every input.

## Left out

- `Fraction.__repr__`, `Complex.__str__`/`__repr__` and `ComplexVector.__str__`/`__repr__`: string formatting only.
- `Complex.modulus`: it takes a floating-point square root.
- `Complex.__truediv__` and `ComplexVector.__truediv__`: they multiply by the float `1/denominator.x`.
- `Complex.__eq__`: an epsilon comparison meant for floats; complex numbers here are compared exactly.
- `ComplexVector.inner_product`: its body is `pass`.
- `ComplexVector.__iter__` is not a separate member: `zip` in the vector operators reads the entries from the start whatever the cursor, which is what `ZipWith` over `entries` does.
- Float coordinates (the default `y=0.0` included): coordinates and scalars are integers.
- `ComplexNumbers.LinearCombination`: lists and `ComplexVector`s are both modelled as sequences of entries; other iterables are not.
- `ComplexNumbers.ComplexVector.Next`: the cursor is a natural number; Python would also let a caller set a negative `current_index`, which would index from the end of the list.
- Python's operator dispatch: `__mult__` is misspelled, so `*` is not bound to it, and `+=` binds the `__i*__` twins; every method is modelled as a named function instead.
- `Fractions.Lt` and `Fractions.Gt` (and so `Ge`, `Le`): their reading as an order of values is stated for positive denominators only. On a pair where exactly one denominator is negative, which the constructor never produces, cross-multiplication compares the other way.
- `Arithmetic.AddRecursive` and `Arithmetic.MultiplyRecursive`: require a natural second argument, because the source recursion never reaches its base case on a negative one (Python stops it with `RecursionError`, which is not modelled).
- Python's recursion depth limit for large natural arguments is not modelled.
- `calculus/infinite_sequences.py`: floats, console output and a symbolic-algebra library.
- `mishnah/trees.py`: a demonstration of an external tree library with console and image output.
- `number_line/views.py` and `number_line/urls.py`: web template rendering and URL routing.
