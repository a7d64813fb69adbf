/** Complex numbers and complex vectors (quantum/complex_numbers.py),
    restricted to the exact ring operations.  Coordinates are unbounded
    integers, an exact stand-in for the Python numbers. */
module ComplexNumbers {
  import opened Wrappers

  datatype Complex = Complex(x: int, y: int)

  function Add(a: Complex, b: Complex): (r: Complex)
    ensures r.x == a.x + b.x && r.y == a.y + b.y
  {
    Complex(a.x + b.x, a.y + b.y)
  }

  function Sub(a: Complex, b: Complex): (r: Complex)
    ensures Add(r, b) == a
  {
    Complex(a.x - b.x, a.y - b.y)
  }

  /** `__mul__`: the product `(x1*x2 - y1*y2, x1*y2 + y1*x2)`, with
      `(1, 0)` as its unit. */
  function Mul(a: Complex, b: Complex): (r: Complex)
    ensures r.x == a.x * b.x - a.y * b.y && r.y == a.x * b.y + a.y * b.x
    ensures b == Complex(1, 0) ==> r == a
  {
    Complex(a.x * b.x - a.y * b.y, a.x * b.y + a.y * b.x)
  }

  function ScalarMultiplication(z: Complex, scalar: int): (r: Complex)
    ensures r == Mul(Complex(scalar, 0), z)
  {
    Complex(scalar * z.x, scalar * z.y)
  }

  function ComplexConjugate(z: Complex): (r: Complex)
    ensures r.x == z.x && Add(r, z).y == 0
  {
    Complex(z.x, -z.y)
  }

  /** The squared modulus, read off as the real part of `z` times its
      conjugate. */
  function ModulusSquared(z: Complex): (r: int)
    ensures r == z.x * z.x + z.y * z.y
    ensures r >= 0
    ensures r == 0 <==> z == Complex(0, 0)
  {
    Mul(z, ComplexConjugate(z)).x
  }

  function Neg(z: Complex): (r: Complex)
    ensures Add(z, r) == Complex(0, 0)
  {
    Complex(-z.x, -z.y)
  }

  /** Subtraction undoes addition exactly. */
  lemma AddSubInverse(a: Complex, b: Complex)
    ensures Sub(Add(a, b), b) == a
  {
  }

  lemma MulCommutative(a: Complex, b: Complex)
    ensures Mul(a, b) == Mul(b, a)
  {
  }

  lemma MulAssociative(a: Complex, b: Complex, c: Complex)
    ensures Mul(Mul(a, b), c) == Mul(a, Mul(b, c))
  {
  }

  lemma MulDistributesOverAdd(a: Complex, b: Complex, c: Complex)
    ensures Mul(a, Add(b, c)) == Add(Mul(a, b), Mul(a, c))
  {
  }

  /** Conjugation undoes itself, and `__neg__` is different from it: it
      flips both coordinates. */
  lemma ConjugateInvolution(z: Complex)
    ensures ComplexConjugate(ComplexConjugate(z)) == z
    ensures Neg(z) == Complex(-z.x, -z.y)
  {
  }

  /** Conjugation is a ring homomorphism. */
  lemma ConjugateOfProduct(a: Complex, b: Complex)
    ensures ComplexConjugate(Mul(a, b)) == Mul(ComplexConjugate(a), ComplexConjugate(b))
  {
  }

  /** `z` times its conjugate is real. */
  lemma ConjugateProductIsReal(z: Complex)
    ensures Mul(z, ComplexConjugate(z)) == Complex(ModulusSquared(z), 0)
  {
  }

  /** The squared modulus is multiplicative. */
  lemma ModulusSquaredOfProduct(a: Complex, b: Complex)
    ensures ModulusSquared(Mul(a, b)) == ModulusSquared(a) * ModulusSquared(b)
  {
  }

  /** The scalar 1 leaves a number alone; scalars compose by
      multiplication. */
  lemma ScalarMultiplicationLaws(z: Complex, s: int, t: int)
    ensures ScalarMultiplication(z, 1) == z
    ensures ScalarMultiplication(ScalarMultiplication(z, t), s) == ScalarMultiplication(z, s * t)
  {
  }

  // Component-wise vector operations.  `zip` stops at the shorter operand.

  function Min(a: int, b: int): int
  {
    if a <= b then a else b
  }

  /** `[op(u, v) for (u, v) in zip(us, vs)]`. */
  function ZipWith(op: (Complex, Complex) -> Complex, us: seq<Complex>, vs: seq<Complex>): (r: seq<Complex>)
    ensures |r| == Min(|us|, |vs|)
    ensures forall i :: 0 <= i < |r| ==> r[i] == op(us[i], vs[i])
  {
    if us == [] || vs == [] then []
    else [op(us[0], vs[0])] + ZipWith(op, us[1..], vs[1..])
  }

  /** `[op(u) for u in us]`. */
  function MapEach(op: Complex -> Complex, us: seq<Complex>): (r: seq<Complex>)
    ensures |r| == |us|
    ensures forall i :: 0 <= i < |r| ==> r[i] == op(us[i])
  {
    if us == [] then []
    else [op(us[0])] + MapEach(op, us[1..])
  }

  function VecAdd(us: seq<Complex>, vs: seq<Complex>): (r: seq<Complex>)
    ensures |r| == Min(|us|, |vs|)
    ensures forall i :: 0 <= i < |r| ==> r[i] == Add(us[i], vs[i])
  {
    ZipWith(Add, us, vs)
  }

  function VecSub(us: seq<Complex>, vs: seq<Complex>): (r: seq<Complex>)
    ensures |r| == Min(|us|, |vs|)
    ensures forall i :: 0 <= i < |r| ==> r[i] == Sub(us[i], vs[i])
  {
    ZipWith(Sub, us, vs)
  }

  function VecMul(us: seq<Complex>, vs: seq<Complex>): (r: seq<Complex>)
    ensures |r| == Min(|us|, |vs|)
    ensures forall i :: 0 <= i < |r| ==> r[i] == Mul(us[i], vs[i])
  {
    ZipWith(Mul, us, vs)
  }

  function VecScale(us: seq<Complex>, scalar: int): (r: seq<Complex>)
    ensures |r| == |us|
    ensures forall i :: 0 <= i < |r| ==> r[i] == ScalarMultiplication(us[i], scalar)
  {
    MapEach(z => ScalarMultiplication(z, scalar), us)
  }

  function VecConjugate(us: seq<Complex>): (r: seq<Complex>)
    ensures |r| == |us|
    ensures forall i :: 0 <= i < |r| ==> r[i] == ComplexConjugate(us[i])
  {
    MapEach(ComplexConjugate, us)
  }

  /** Vector subtraction undoes vector addition, once the result is cut to
      the shorter operand. */
  lemma VecAddSubInverse(us: seq<Complex>, vs: seq<Complex>)
    requires |us| <= |vs|
    ensures VecSub(VecAdd(us, vs), vs) == us
  {
    var r := VecSub(VecAdd(us, vs), vs);
    assert |r| == |us|;
    forall i | 0 <= i < |us| ensures r[i] == us[i] {
      AddSubInverse(us[i], vs[i]);
    }
  }

  lemma VecMulCommutative(us: seq<Complex>, vs: seq<Complex>)
    ensures VecMul(us, vs) == VecMul(vs, us)
  {
    var r, t := VecMul(us, vs), VecMul(vs, us);
    forall i | 0 <= i < |r| ensures r[i] == t[i] {
      MulCommutative(us[i], vs[i]);
    }
  }

  lemma VecConjugateInvolution(us: seq<Complex>)
    ensures VecConjugate(VecConjugate(us)) == us
  {
  }

  lemma VecScaleByOne(us: seq<Complex>)
    ensures VecScale(us, 1) == us
  {
    var r := VecScale(us, 1);
    forall i | 0 <= i < |us| ensures r[i] == us[i] {
      ScalarMultiplicationLaws(us[i], 1, 1);
    }
  }

  /** A vector of complex numbers with the cursor used by `__next__`.
      Vector arithmetic builds new vectors and leaves both operands alone;
      only `Next` changes state. */
  class ComplexVector {
    var entries: seq<Complex>
    var currentIndex: nat

    constructor (entries: seq<Complex>)
      ensures this.entries == entries && currentIndex == 0
    {
      this.entries := entries;
      currentIndex := 0;
    }

    method Plus(other: ComplexVector) returns (r: ComplexVector)
      ensures fresh(r) && r.entries == VecAdd(entries, other.entries) && r.currentIndex == 0
    {
      r := new ComplexVector(VecAdd(entries, other.entries));
    }

    method Minus(other: ComplexVector) returns (r: ComplexVector)
      ensures fresh(r) && r.entries == VecSub(entries, other.entries) && r.currentIndex == 0
    {
      r := new ComplexVector(VecSub(entries, other.entries));
    }

    method Times(other: ComplexVector) returns (r: ComplexVector)
      ensures fresh(r) && r.entries == VecMul(entries, other.entries) && r.currentIndex == 0
    {
      r := new ComplexVector(VecMul(entries, other.entries));
    }

    method ScalarMultiplication(scalar: int) returns (r: ComplexVector)
      ensures fresh(r) && r.entries == VecScale(entries, scalar) && r.currentIndex == 0
    {
      r := new ComplexVector(VecScale(entries, scalar));
    }

    method ComplexConjugate() returns (r: ComplexVector)
      ensures fresh(r) && r.entries == VecConjugate(entries) && r.currentIndex == 0
    {
      r := new ComplexVector(VecConjugate(entries));
    }

    /** `__len__`: the number of entries, whatever the cursor. */
    method Length() returns (n: nat)
      ensures n == |entries|
    {
      n := |entries|;
    }

    /** `__next__`: the entry under the cursor, which then moves on by one;
        past the end it raises `StopIteration` and the cursor stays. */
    method Next() returns (r: Result<Complex>)
      modifies this`currentIndex
      ensures old(currentIndex) < |entries| ==>
        r == Ok(entries[old(currentIndex)]) && currentIndex == old(currentIndex) + 1
      ensures old(currentIndex) >= |entries| ==>
        r == Err(StopIteration) && currentIndex == old(currentIndex)
    {
      if currentIndex >= |entries| {
        return Err(StopIteration);
      }
      var current := entries[currentIndex];
      currentIndex := currentIndex + 1;
      return Ok(current);
    }
  }

  // linear_combination

  /** The length of the shortest vector, which is how many tuples
      `zip(*vectors)` yields. */
  function ShortestLength(vectors: seq<seq<Complex>>): (m: nat)
    requires |vectors| > 0
    ensures forall j :: 0 <= j < |vectors| ==> m <= |vectors[j]|
    ensures exists j :: 0 <= j < |vectors| && m == |vectors[j]|
  {
    if |vectors| == 1 then |vectors[0]|
    else
      var rest := ShortestLength(vectors[1..]);
      assert forall j :: 1 <= j < |vectors| ==> vectors[1..][j - 1] == vectors[j];
      if |vectors[0]| <= rest then |vectors[0]| else rest
  }

  /** What `linear_combination(vectors, scalars)` returns, or raises.  The
      answer has the length of the first vector; entry `i` takes the
      scaled `i`-th entries of the first two vectors only.  It raises
      `IndexError` when there is no vector, and when the first vector is
      non-empty and either fewer than two vector-scalar pairs exist or
      some paired vector is shorter than the first. */
  function LinearCombinationSpec(vectors: seq<seq<Complex>>, scalars: seq<int>): Result<seq<Complex>>
  {
    if |vectors| == 0 then Err(IndexError)
    else if |vectors[0]| == 0 then Ok([])
    else if Min(|vectors|, |scalars|) >= 2
         && forall j :: 0 <= j < Min(|vectors|, |scalars|) ==> |vectors[0]| <= |vectors[j]|
    then Ok(VecAdd(VecScale(vectors[0], scalars[0]), VecScale(vectors[1], scalars[1])))
    else Err(IndexError)
  }

  /** `linear_combination`: scale each vector paired with a scalar, pair up
      the first two scaled vectors entry by entry, and add the pairs for as
      many positions as the first vector has. */
  method LinearCombination(vectors: seq<seq<Complex>>, scalars: seq<int>) returns (r: Result<seq<Complex>>)
    ensures r == LinearCombinationSpec(vectors, scalars)
  {
    if |vectors| == 0 {
      return Err(IndexError);
    }
    var length := |vectors[0]|;
    var scaled := ScaleEach(vectors, scalars);
    var toAdd: seq<(Complex, Complex)> := [];
    if |scaled| > 0 {
      var m := ShortestLength(scaled);
      ShortestScaled(vectors, scalars, scaled);
      if m > 0 && |scaled| < 2 {
        return Err(IndexError);
      }
      toAdd := seq(m, i requires 0 <= i < m => (scaled[0][i], scaled[1][i]));
    }
    r := AddPairs(toAdd, length);
    if r.Ok? && length > 0 {
      SumsOfPairs(r.value, scaled[0], scaled[1]);
    }
  }

  /** The first loop: one scaled copy of each vector that has a scalar. */
  method ScaleEach(vectors: seq<seq<Complex>>, scalars: seq<int>) returns (scaled: seq<seq<Complex>>)
    ensures |scaled| == Min(|vectors|, |scalars|)
    ensures forall t :: 0 <= t < |scaled| ==> scaled[t] == VecScale(vectors[t], scalars[t])
  {
    scaled := [];
    for j := 0 to Min(|vectors|, |scalars|)
      invariant |scaled| == j
      invariant forall t :: 0 <= t < j ==> scaled[t] == VecScale(vectors[t], scalars[t])
    {
      scaled := scaled + [VecScale(vectors[j], scalars[j])];
    }
  }

  /** The second loop: for each of the first `length` positions, the sum of
      the pair there; `IndexError` when the pairs run out first. */
  method AddPairs(toAdd: seq<(Complex, Complex)>, length: nat) returns (r: Result<seq<Complex>>)
    ensures length > |toAdd| ==> r == Err(IndexError)
    ensures length <= |toAdd| ==> r.Ok? && |r.value| == length
    ensures r.Ok? ==> forall t :: 0 <= t < |r.value| ==> r.value[t] == Add(toAdd[t].0, toAdd[t].1)
  {
    var answer: seq<Complex> := [];
    for i := 0 to length
      invariant |answer| == i
      invariant i <= |toAdd|
      invariant forall t :: 0 <= t < i ==> answer[t] == Add(toAdd[t].0, toAdd[t].1)
    {
      if i >= |toAdd| {
        return Err(IndexError);
      }
      answer := answer + [Add(toAdd[i].0, toAdd[i].1)];
    }
    return Ok(answer);
  }

  /** Entry-by-entry sums over the first vector's length are `VecAdd`. */
  lemma SumsOfPairs(answer: seq<Complex>, u: seq<Complex>, v: seq<Complex>)
    requires |answer| == |u| <= |v|
    requires forall t :: 0 <= t < |answer| ==> answer[t] == Add(u[t], v[t])
    ensures answer == VecAdd(u, v)
  {
  }

  /** What `zip(*scaled)` sees: scaling keeps lengths, so the scaled
      vectors are as long as the first one exactly when every paired
      vector is at least as long as the first. */
  lemma ShortestScaled(vectors: seq<seq<Complex>>, scalars: seq<int>, scaled: seq<seq<Complex>>)
    requires 0 < |scaled| == Min(|vectors|, |scalars|)
    requires forall t :: 0 <= t < |scaled| ==> scaled[t] == VecScale(vectors[t], scalars[t])
    ensures ShortestLength(scaled) <= |vectors[0]|
    ensures ShortestLength(scaled) == |vectors[0]| <==>
      forall j :: 0 <= j < |scaled| ==> |vectors[0]| <= |vectors[j]|
    ensures forall t :: 0 <= t < |scaled| ==> |scaled[t]| == |vectors[t]|
  {
  }

  /** Two vectors of one length and two scalars: entry `i` of the answer
      is `s1 * v1[i] + s2 * v2[i]`. */
  lemma LinearCombinationOfTwo(v1: seq<Complex>, v2: seq<Complex>, s1: int, s2: int)
    requires |v1| == |v2|
    ensures LinearCombinationSpec([v1, v2], [s1, s2]).Ok?
    ensures var r := LinearCombinationSpec([v1, v2], [s1, s2]).value;
      |r| == |v1| &&
      forall i :: 0 <= i < |r| ==> r[i] == Add(ScalarMultiplication(v1[i], s1), ScalarMultiplication(v2[i], s2))
  {
    if |v1| > 0 {
      var vs := [v1, v2];
      assert forall j :: 0 <= j < 2 ==> |vs[0]| <= |vs[j]|;
    }
  }

  /** Vectors and scalars past the second never change a successful
      answer: it is the answer for the first two pairs alone. */
  lemma OnlyFirstTwoContribute(vectors: seq<seq<Complex>>, scalars: seq<int>)
    requires |vectors| >= 2 && |scalars| >= 2
    requires LinearCombinationSpec(vectors, scalars).Ok?
    ensures LinearCombinationSpec(vectors, scalars) == LinearCombinationSpec(vectors[..2], scalars[..2])
  {
    var vs := vectors[..2];
    if |vectors[0]| > 0 {
      assert forall j :: 0 <= j < 2 ==> |vs[0]| <= |vs[j]| by {
        assert vs[1] == vectors[1];
        assert 1 < Min(|vectors|, |scalars|);
      }
    }
  }

  // The linear combination `linear_combination` evidently means

  /** Entry `i` of the combination of the first `n` pairs: the sum of
      `scalars[j] * vectors[j][i]` for `j < n`. */
  function EntrySum(vectors: seq<seq<Complex>>, scalars: seq<int>, n: nat, i: nat): Complex
    requires n <= |vectors| && n <= |scalars|
    requires forall j :: 0 <= j < n ==> i < |vectors[j]|
  {
    if n == 0 then Complex(0, 0)
    else Add(EntrySum(vectors, scalars, n - 1, i), ScalarMultiplication(vectors[n - 1][i], scalars[n - 1]))
  }

  /** The scaled vectors of the first `n` pairs added entry by entry, cut to
      the shortest of them as `zip` does. */
  function ScaledSum(vectors: seq<seq<Complex>>, scalars: seq<int>, n: nat): (r: seq<Complex>)
    requires 0 < n <= |vectors| && n <= |scalars|
    ensures forall j :: 0 <= j < n ==> |r| <= |vectors[j]|
    ensures exists j :: 0 <= j < n && |r| == |vectors[j]|
  {
    if n == 1 then VecScale(vectors[0], scalars[0])
    else VecAdd(ScaledSum(vectors, scalars, n - 1), VecScale(vectors[n - 1], scalars[n - 1]))
  }

  /** Entry `i` of `ScaledSum` is the sum of `scalars[j] * vectors[j][i]`. */
  lemma {:induction false} ScaledSumEntries(vectors: seq<seq<Complex>>, scalars: seq<int>, n: nat, i: nat)
    requires 0 < n <= |vectors| && n <= |scalars|
    requires i < |ScaledSum(vectors, scalars, n)|
    ensures forall j :: 0 <= j < n ==> i < |vectors[j]|
    ensures ScaledSum(vectors, scalars, n)[i] == EntrySum(vectors, scalars, n, i)
  {
    if n == 1 {
      assert EntrySum(vectors, scalars, 0, i) == Complex(0, 0);
    } else {
      ScaledSumEntries(vectors, scalars, n - 1, i);
    }
  }

  /** `linear_combination` with only the summation repaired: every vector
      that has a scalar contributes, not just the first two.  Everything
      else is kept as the code does it: `IndexError` with no vectors, `[]`
      for an empty first vector, the answer as long as the first vector,
      and `IndexError` when a paired vector is shorter than the first. */
  function LinearCombinationCorrected(vectors: seq<seq<Complex>>, scalars: seq<int>): (r: Result<seq<Complex>>)
    ensures r.Err? ==> r.error == IndexError
    ensures r.Ok? <==>
              (|vectors| > 0 &&
               (|vectors[0]| == 0 ||
                (Min(|vectors|, |scalars|) >= 1 &&
                 forall j :: 0 <= j < Min(|vectors|, |scalars|) ==> |vectors[0]| <= |vectors[j]|)))
    ensures r.Ok? ==> |r.value| == |vectors[0]|
  {
    var n := Min(|vectors|, |scalars|);
    if |vectors| == 0 then Err(IndexError)
    else if |vectors[0]| == 0 then Ok([])
    else if n >= 1 && forall j :: 0 <= j < n ==> |vectors[0]| <= |vectors[j]|
    then Ok(ScaledSum(vectors, scalars, n))
    else Err(IndexError)
  }

  /** The repair changes the outcome only where the code keeps too few
      vectors: with two or more pairs, or none, it fails exactly when the
      code does, and with exactly two pairs it gives the code's answer. */
  lemma CorrectedKeepsErrors(vectors: seq<seq<Complex>>, scalars: seq<int>)
    requires Min(|vectors|, |scalars|) != 1
    ensures LinearCombinationCorrected(vectors, scalars).Ok? <==> LinearCombinationSpec(vectors, scalars).Ok?
    ensures Min(|vectors|, |scalars|) == 2 ==>
      LinearCombinationCorrected(vectors, scalars) == LinearCombinationSpec(vectors, scalars)
  {
    if Min(|vectors|, |scalars|) == 2 && |vectors[0]| > 0 {
      assert ScaledSum(vectors, scalars, 1) == VecScale(vectors[0], scalars[0]);
    }
  }

  /** Every vector with a scalar contributes to each entry of the corrected
      combination. */
  lemma LinearCombinationCorrectedEntries(vectors: seq<seq<Complex>>, scalars: seq<int>, i: nat)
    requires LinearCombinationCorrected(vectors, scalars).Ok?
    requires i < |LinearCombinationCorrected(vectors, scalars).value|
    ensures forall j :: 0 <= j < Min(|vectors|, |scalars|) ==> i < |vectors[j]|
    ensures LinearCombinationCorrected(vectors, scalars).value[i]
         == EntrySum(vectors, scalars, Min(|vectors|, |scalars|), i)
  {
    assert |vectors[0]| > 0;
    ScaledSumEntries(vectors, scalars, Min(|vectors|, |scalars|), i);
  }

  /** As written, a single non-empty vector raises; the combination the
      docstring promises is that vector scaled. */
  lemma SingleVectorRaises()
    ensures LinearCombinationSpec([[Complex(1, 0)]], [1]) == Err(IndexError)
    ensures LinearCombinationCorrected([[Complex(1, 0)]], [1]) == Ok([Complex(1, 0)])
  {
    CorrectedOfOne([[Complex(1, 0)]], [1]);
    ScaleOne();
  }

  /** As written, a third vector is dropped: three unit vectors combine to
      2 where the docstring's combination is 3. */
  lemma ThirdVectorDropped()
    ensures LinearCombinationSpec([[Complex(1, 0)], [Complex(1, 0)], [Complex(1, 0)]], [1, 1, 1]) == Ok([Complex(2, 0)])
    ensures LinearCombinationCorrected([[Complex(1, 0)], [Complex(1, 0)], [Complex(1, 0)]], [1, 1, 1]) == Ok([Complex(3, 0)])
  {
    var v := [Complex(1, 0)];
    SpecOfThree([v, v, v], [1, 1, 1]);
    CorrectedOfThree([v, v, v], [1, 1, 1]);
    ScaleOne();
    AddOnes(v, v);
    AddOnes([Complex(2, 0)], v);
  }

  lemma CorrectedOfOne(vs: seq<seq<Complex>>, ss: seq<int>)
    requires |vs| == 1 && |ss| == 1 && |vs[0]| > 0
    ensures LinearCombinationCorrected(vs, ss) == Ok(VecScale(vs[0], ss[0]))
  {
  }

  lemma CorrectedOfThree(vs: seq<seq<Complex>>, ss: seq<int>)
    requires |vs| == 3 && |ss| == 3
    requires 0 < |vs[0]| <= |vs[1]| && |vs[0]| <= |vs[2]|
    ensures LinearCombinationCorrected(vs, ss)
         == Ok(VecAdd(VecAdd(VecScale(vs[0], ss[0]), VecScale(vs[1], ss[1])), VecScale(vs[2], ss[2])))
  {
    assert ScaledSum(vs, ss, 2) == VecAdd(VecScale(vs[0], ss[0]), VecScale(vs[1], ss[1]));
  }

  lemma SpecOfThree(vs: seq<seq<Complex>>, ss: seq<int>)
    requires |vs| == 3 && |ss| == 3
    requires 0 < |vs[0]| <= |vs[1]| && |vs[0]| <= |vs[2]|
    ensures LinearCombinationSpec(vs, ss) == Ok(VecAdd(VecScale(vs[0], ss[0]), VecScale(vs[1], ss[1])))
  {
    assert forall j :: 0 <= j < 3 ==> |vs[0]| <= |vs[j]|;
  }

  lemma ScaleOne()
    ensures VecScale([Complex(1, 0)], 1) == [Complex(1, 0)]
  {
    var r := VecScale([Complex(1, 0)], 1);
    assert |r| == 1 && r[0] == Complex(1, 0);
  }

  lemma AddOnes(u: seq<Complex>, v: seq<Complex>)
    requires |u| == 1 && v == [Complex(1, 0)]
    ensures VecAdd(u, v) == [Complex(u[0].x + 1, u[0].y)]
  {
    var r := VecAdd(u, v);
    assert |r| == 1 && r[0] == Add(u[0], v[0]);
  }
}
