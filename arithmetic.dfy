/** Arithmetic built from successor steps (arithmetic_algorithms.py).
    The functions are meant for natural numbers but accept any Python
    integer; what they do outside the naturals is stated here too:
    `range(n)` is empty for `n <= 0`, so the loops then run zero times. */
module Arithmetic {

  function AddOne(n: int): (r: int)
    ensures r > n && SubtractOne(r) == n
  {
    n + 1
  }

  function SubtractOne(n: int): (r: int)
    ensures r < n
    ensures r + 1 == n
  {
    n - 1
  }

  /** Recursive addition: peel one off the second argument per call.  The
      source recursion never reaches its base case for a negative second
      argument, so the model only admits naturals there. */
  function AddRecursive(a: int, b: int): (r: int)
    requires b >= 0
    decreases b
    ensures r == a + b
  {
    if b == 0 then a
    else AddOne(AddRecursive(a, SubtractOne(b)))
  }

  /** What the iterative `add` computes: `b` successor steps from `a`, and
      none at all when `b` is not positive. */
  function AddResult(a: int, b: int): int
  {
    if b > 0 then a + b else a
  }

  /** Iterative addition: `sum_so_far` starts at `a` and is incremented
      once per element of `range(b)`. */
  method Add(a: int, b: int) returns (sum: int)
    ensures sum == AddResult(a, b)
    ensures b >= 0 ==> sum == a + b
    ensures b <= 0 ==> sum == a
  {
    sum := a;
    var i := 0;
    while i < b
      invariant b >= 0 ==> 0 <= i <= b
      invariant b < 0 ==> i == 0
      invariant sum == a + i
    {
      sum := sum + 1;
      i := i + 1;
    }
  }

  /** The iterative `add` is the loop form of `add_recursive`: on every
      natural second argument the two agree.  This follows from the two
      contracts, since both are `a + b` there. */
  lemma AddRecursiveAgreesWithAdd(a: int, b: int)
    requires b >= 0
    ensures AddRecursive(a, b) == AddResult(a, b)
  {
  }

  /** Recursive multiplication: each level adds `a` to the product of the
      level below with the iterative `add`, whose second argument is that
      product.  A negative `a` therefore makes every level after the first
      return `a` unchanged. */
  function MultiplyRecursive(a: int, b: int): (r: int)
    requires b >= 0
    decreases b
    ensures a >= 0 ==> r == a * b
    ensures a < 0 ==> r == if b == 0 then 0 else a
  {
    if b == 0 then 0
    else AddResult(a, MultiplyRecursive(a, SubtractOne(b)))
  }

  /** Iterative multiplication: `product_so_far` starts at `a` and `a` is
      added `b - 1` times.  On naturals this is `a * b` except at `b == 0`,
      where the loop does not run and `a` itself comes back. */
  method Multiply(a: int, b: int) returns (product: int)
    ensures a >= 0 && b >= 1 ==> product == a * b
    ensures b <= 1 || a < 0 ==> product == a
  {
    product := a;
    var i := 0;
    while i < b - 1
      invariant b >= 1 ==> 0 <= i <= b - 1
      invariant b < 1 ==> i == 0
      invariant product == if a >= 0 then a * (i + 1) else a
    {
      product := Add(product, a);
      i := i + 1;
    }
  }

  /** `multiply(a, 0)` gives back `a` where the product is 0. */
  method MultiplyByZero(a: int) returns (product: int)
    ensures product == a
  {
    product := Multiply(a, 0);
  }

  /** The repair of `multiply`: start the accumulator at 0 and run the loop
      once per element of `range(b)`, each time computing `add(a, product)`
      in the argument order of `multiply_recursive`, which it therefore
      agrees with on every natural `b`.  The loop of `multiply` calls
      `add(product, a)` instead; the two orders differ only for negative
      `a`, where `add` ignores a negative second argument. */
  method MultiplyCorrected(a: int, b: int) returns (product: int)
    ensures a >= 0 && b >= 0 ==> product == a * b
    ensures b >= 0 ==> product == MultiplyRecursive(a, b)
  {
    product := 0;
    var i := 0;
    while i < b
      invariant b >= 0 ==> 0 <= i <= b
      invariant b < 0 ==> i == 0
      invariant product == MultiplyRecursive(a, i)
    {
      product := Add(a, product);
      i := i + 1;
    }
  }

  /** The sum of a sequence, from the front. */
  function Sum(xs: seq<int>): int
  {
    if xs == [] then 0 else xs[0] + Sum(xs[1..])
  }

  /** The positive elements of a sequence, in order. */
  function Positives(xs: seq<int>): (ps: seq<int>)
    ensures forall i :: 0 <= i < |ps| ==> ps[i] > 0
    ensures |ps| <= |xs|
  {
    if xs == [] then []
    else (if xs[0] > 0 then [xs[0]] else []) + Positives(xs[1..])
  }

  lemma {:induction false} SumConcat(xs: seq<int>, ys: seq<int>)
    ensures Sum(xs + ys) == Sum(xs) + Sum(ys)
  {
    if xs == [] {
      assert xs + ys == ys;
    } else {
      assert (xs + ys)[1..] == xs[1..] + ys;
      SumConcat(xs[1..], ys);
    }
  }

  lemma {:induction false} PositivesConcat(xs: seq<int>, ys: seq<int>)
    ensures Positives(xs + ys) == Positives(xs) + Positives(ys)
  {
    if xs == [] {
      assert xs + ys == ys;
    } else {
      assert (xs + ys)[1..] == xs[1..] + ys;
      PositivesConcat(xs[1..], ys);
    }
  }

  /** Summing with the iterative `add` skips every non-positive input, so
      the result is the sum of the positive inputs. */
  method GeneralizedAddition(inputs: seq<int>) returns (sum: int)
    ensures sum == Sum(Positives(inputs))
    ensures sum >= 0
  {
    sum := 0;
    SumPositivesNonNegative(inputs);
    for i := 0 to |inputs|
      invariant sum == Sum(Positives(inputs[..i]))
    {
      sum := Add(sum, inputs[i]);
      SumPositivesStep(inputs, i);
    }
    assert inputs[..|inputs|] == inputs;
  }

  /** One more input adds its positive part to the sum of positives. */
  lemma SumPositivesStep(xs: seq<int>, i: int)
    requires 0 <= i < |xs|
    ensures Sum(Positives(xs[..i + 1])) == Sum(Positives(xs[..i])) + AddResult(0, xs[i])
  {
    assert xs[..i + 1] == xs[..i] + [xs[i]];
    PositivesConcat(xs[..i], [xs[i]]);
    assert [xs[i]][1..] == [];
    SumConcat(Positives(xs[..i]), Positives([xs[i]]));
  }

  lemma {:induction false} SumPositivesNonNegative(xs: seq<int>)
    ensures Sum(Positives(xs)) >= 0
  {
    if xs != [] {
      SumPositivesNonNegative(xs[1..]);
      SumConcat(if xs[0] > 0 then [xs[0]] else [], Positives(xs[1..]));
    }
  }

  /** With no negative input `generalized_addition` is the plain sum. */
  lemma {:induction false} PositivesOfNaturals(xs: seq<int>)
    requires forall i :: 0 <= i < |xs| ==> xs[i] >= 0
    ensures Sum(Positives(xs)) == Sum(xs)
  {
    if xs != [] {
      PositivesOfNaturals(xs[1..]);
      SumConcat(if xs[0] > 0 then [xs[0]] else [], Positives(xs[1..]));
    }
  }

  /** `n` copies of `a`, as `[a for x in range(n)]` builds them. */
  function Copies(a: int, n: int): (s: seq<int>)
    ensures |s| == if n > 0 then n else 0
    ensures forall i :: 0 <= i < |s| ==> s[i] == a
  {
    if n > 0 then seq(n, _ => a) else []
  }

  /** The positive part sum of `n` copies of `a` is `n * a` when `a > 0`
      and 0 otherwise. */
  lemma {:induction false} SumOfCopies(a: int, n: nat)
    ensures Sum(Positives(Copies(a, n))) == if a > 0 then n * a else 0
  {
    if n > 0 {
      var s := Copies(a, n);
      assert s[1..] == Copies(a, n - 1);
      SumOfCopies(a, n - 1);
      SumConcat(if a > 0 then [a] else [], Positives(s[1..]));
      assert Sum(if a > 0 then [a] else []) == if a > 0 then a else 0;
    }
  }

  /** Multiplication as repeated addition: `b` copies of `a`, summed. */
  method Multiplication(a: int, b: int) returns (product: int)
    ensures a >= 0 && b >= 0 ==> product == a * b
    ensures a <= 0 || b <= 0 ==> product == 0
  {
    var copies := Copies(a, b);
    product := GeneralizedAddition(copies);
    if b > 0 {
      SumOfCopies(a, b);
    }
  }
}
