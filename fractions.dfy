/** Fractions over Python integers (fraction_algorithms.py).

    Python's `//` and `%` round towards minus infinity, so `a % b` takes
    the sign of `b`; `FloorDiv` and `FloorMod` model them on top of
    Dafny's Euclidean operators.  Every exception the code raises is a
    `ZeroDivisionError`, returned here as `Err(ZeroDivisionError)`. */
module Fractions {
  import opened Wrappers

  function Abs(n: int): (r: nat)
    ensures r == n || r == -n
  {
    if n < 0 then -n else n
  }

  // Python's floored division and remainder

  /** Python's `a % b`: the remainder lies between 0 and `b`, on the side
      of `b`. */
  function FloorMod(a: int, b: int): (r: int)
    requires b != 0
    ensures b > 0 ==> 0 <= r < b
    ensures b < 0 ==> b < r <= 0
    ensures r == 0 <==> a % b == 0
  {
    if b > 0 || a % b == 0 then a % b else a % b + b
  }

  /** Python's `a // b`, paired with `FloorMod`. */
  function FloorDiv(a: int, b: int): (q: int)
    requires b != 0
    ensures a == b * q + FloorMod(a, b)
  {
    if b > 0 || a % b == 0 then a / b else a / b - 1
  }

  // Divisibility

  /** `d` divides `n`; only 0 is a multiple of 0. */
  ghost predicate Divides(d: int, n: int)
  {
    if d == 0 then n == 0 else n % d == 0
  }

  lemma MulModZero(d: int, k: int)
    requires d != 0
    ensures (d * k) % d == 0
  {
    var q, r := (d * k) / d, (d * k) % d;
    assert d * k == d * q + r;
    assert d * (k - q) == r;
    if k - q != 0 {
      LeAbsProduct(d, k - q);
      assert false;
    }
  }

  lemma {:induction false} MulAtLeast(d: nat, k: int)
    requires k >= 1
    decreases k
    ensures d * k >= d
  {
    if k > 1 {
      MulAtLeast(d, k - 1);
      assert d * k == d * (k - 1) + d;
    }
  }

  lemma LeAbsProduct(d: int, k: int)
    requires k != 0
    ensures Abs(d * k) >= Abs(d)
  {
    assert Abs(d * k) == Abs(d) * Abs(k) by {
      if d < 0 && k < 0 {
        assert d * k == (-d) * (-k);
      } else if d < 0 {
        assert d * k == -((-d) * k);
      } else if k < 0 {
        assert d * k == -(d * (-k));
      }
    }
    MulAtLeast(Abs(d), Abs(k));
  }

  lemma DividesByWitness(d: int, n: int, k: int)
    requires n == d * k
    ensures Divides(d, n)
  {
    if d != 0 {
      MulModZero(d, k);
    }
  }

  lemma DividesWitness(d: int, n: int) returns (k: int)
    requires Divides(d, n)
    ensures n == d * k
  {
    if d == 0 {
      k := 0;
    } else {
      k := n / d;
    }
  }

  /** A common divisor of `x` and `y` divides `x * q + y`. */
  lemma DividesCombination(d: int, x: int, y: int, q: int)
    requires Divides(d, x) && Divides(d, y)
    ensures Divides(d, x * q + y)
  {
    var kx := DividesWitness(d, x);
    var ky := DividesWitness(d, y);
    assert x * q + y == d * (kx * q + ky) by {
      assert x * q == d * (kx * q);
    }
    DividesByWitness(d, x * q + y, kx * q + ky);
  }

  // Fraction.gcd

  /** `Fraction.gcd(a, b)`: Euclid's algorithm with the floored `%`.  For
      `b == 0` it is `a`; otherwise it is never 0 and has the sign of `b`,
      because a floored remainder has the sign of its divisor. */
  function EuclidGcd(a: int, b: int): (g: int)
    decreases Abs(b)
    ensures b == 0 ==> g == a
    ensures b != 0 ==> g != 0 && (g > 0 <==> b > 0)
    ensures g == 0 <==> a == 0 && b == 0
  {
    if b == 0 then a else EuclidGcd(b, FloorMod(a, b))
  }

  /** The result of `Fraction.gcd` divides both arguments. */
  lemma {:induction false} GcdDividesBoth(a: int, b: int)
    decreases Abs(b)
    ensures Divides(EuclidGcd(a, b), a) && Divides(EuclidGcd(a, b), b)
  {
    if b == 0 {
      DividesByWitness(a, a, 1);
      DividesByWitness(a, 0, 0);
    } else {
      var r := FloorMod(a, b);
      GcdDividesBoth(b, r);
      DividesCombination(EuclidGcd(a, b), b, r, FloorDiv(a, b));
    }
  }

  /** Every common divisor of the arguments divides the result of
      `Fraction.gcd`: its absolute value is the greatest common divisor. */
  lemma {:induction false} GcdGreatest(a: int, b: int, d: int)
    requires Divides(d, a) && Divides(d, b)
    decreases Abs(b)
    ensures Divides(d, EuclidGcd(a, b))
  {
    if b != 0 {
      var q := FloorDiv(a, b);
      DividesCombination(d, b, a, -q);
      assert b * -q + a == FloorMod(a, b);
      GcdGreatest(b, FloorMod(a, b), d);
    }
  }

  /** The module-level `gcd(m, n)`: repeat `m, n = n, m % n` while `m % n`
      is not 0.  It raises at the first `m % n` when `n == 0`; otherwise
      it agrees with `Fraction.gcd`. */
  method Gcd(m: int, n: int) returns (r: Result<int>)
    ensures n == 0 <==> r == Err(ZeroDivisionError)
    ensures n != 0 ==> r == Ok(EuclidGcd(m, n))
    ensures r.Ok? ==> r.value != 0 && Divides(r.value, m) && Divides(r.value, n)
    ensures r.Ok? ==> forall c :: Divides(c, m) && Divides(c, n) ==> Divides(c, r.value)
  {
    if n == 0 {
      return Err(ZeroDivisionError);
    }
    var a, b := m, n;
    while FloorMod(a, b) != 0
      invariant b != 0
      invariant EuclidGcd(a, b) == EuclidGcd(m, n)
      decreases Abs(b)
    {
      var oldA, oldB := a, b;
      a := oldB;
      b := FloorMod(oldA, oldB);
    }
    r := Ok(b);
    GcdDividesBoth(m, n);
    forall c | Divides(c, m) && Divides(c, n) ensures Divides(c, r.value) {
      GcdGreatest(m, n, c);
    }
  }

  /** `Fraction.gcd(a, b)`: `a, b = b, a % b` while `b` is not 0. */
  method FractionGcd(a: int, b: int) returns (g: int)
    ensures g == EuclidGcd(a, b)
  {
    var x, y := a, b;
    while y != 0
      invariant EuclidGcd(x, y) == EuclidGcd(a, b)
      decreases Abs(y)
    {
      x, y := y, FloorMod(x, y);
    }
    g := x;
  }

  // The Fraction class

  /** A fraction as its two fields.  The datatype admits any pair of
      integers; `Normal` is the form the constructor produces. */
  datatype Fraction = Fraction(numerator: int, denominator: int)

  /** `a` and `b` have no common divisor but 1 and -1. */
  ghost predicate Coprime(a: int, b: int)
  {
    forall c :: Divides(c, a) && Divides(c, b) ==> c == 1 || c == -1
  }

  /** The form the class documents: positive denominator, lowest terms. */
  ghost predicate Normal(f: Fraction)
  {
    f.denominator > 0 && Coprime(f.numerator, f.denominator)
  }

  /** The rational number a fraction stands for. */
  ghost function Value(f: Fraction): real
    requires f.denominator != 0
  {
    f.numerator as real / f.denominator as real
  }

  lemma ProductSign(a: int, b: int)
    requires a * b > 0
    ensures a != 0 && b != 0 && (a > 0 <==> b > 0)
  {
    if a > 0 && b < 0 {
      assert a * b == -(a * (-b));
      MulAtLeast(a, -b);
    } else if a < 0 && b > 0 {
      assert a * b == -((-a) * b);
      assert (-a) * b == b * (-a);
      MulAtLeast(b, -a);
    }
  }

  lemma MulAssociative(a: int, b: int, c: int)
    ensures a * (b * c) == (a * b) * c
  {
  }

  /** `c * k == 1` leaves `c` a unit. */
  lemma UnitFactor(g: int, c: int, k: int)
    requires g != 0 && g == (g * c) * k
    ensures c == 1 || c == -1
  {
    assert g * (c * k - 1) == 0 by {
      assert (g * c) * k == g * (c * k);
    }
    if c * k - 1 != 0 {
      LeAbsProduct(g, c * k - 1);
    }
    assert c * k == 1;
    LeAbsProduct(c, k);
  }

  /** A common divisor of the quotients, times the gcd, is a common
      divisor of the parts, hence of the gcd itself: so it is a unit. */
  lemma QuotientsCoprime(n: int, d: int, g: int, num: int, den: int)
    requires g == EuclidGcd(n, d) && g != 0
    requires n == g * num && d == g * den
    ensures Coprime(num, den)
  {
    forall c | Divides(c, num) && Divides(c, den) ensures c == 1 || c == -1 {
      var kn := DividesWitness(c, num);
      var kd := DividesWitness(c, den);
      MulAssociative(g, c, kn);
      MulAssociative(g, c, kd);
      DividesByWitness(g * c, n, kn);
      DividesByWitness(g * c, d, kd);
      GcdGreatest(n, d, g * c);
      var k := DividesWitness(g * c, g);
      UnitFactor(g, c, k);
    }
  }

  /** Dividing both parts by their `Fraction.gcd` is exact, leaves a
      positive denominator (the gcd has the denominator's sign), leaves the
      parts coprime, and keeps the value. */
  lemma DivideOutGcd(n: int, d: int)
    requires d != 0
    ensures var g := EuclidGcd(n, d);
      && g != 0
      && n == g * FloorDiv(n, g)
      && d == g * FloorDiv(d, g)
      && FloorDiv(d, g) > 0
      && Coprime(FloorDiv(n, g), FloorDiv(d, g))
      && FloorDiv(n, g) * d == n * FloorDiv(d, g)
  {
    var g := EuclidGcd(n, d);
    GcdDividesBoth(n, d);
    var num, den := FloorDiv(n, g), FloorDiv(d, g);
    assert n == g * num;
    assert d == g * den;
    PositiveQuotient(d, g, den);
    QuotientsCoprime(n, d, g, num, den);
    ScaledCross(g, num, den);
  }

  /** A divisor with the sign of `d` leaves a positive quotient. */
  lemma PositiveQuotient(d: int, g: int, den: int)
    requires d != 0 && d == g * den && (g > 0 <==> d > 0)
    ensures den > 0
  {
    if g > 0 {
      ProductSign(g, den);
    } else {
      assert -d == (-g) * den;
      ProductSign(-g, den);
    }
  }

  lemma ScaledCross(g: int, a: int, b: int)
    ensures a * (g * b) == (g * a) * b
  {
    MulAssociative(a, g, b);
    MulAssociative(g, a, b);
  }

  /** A normal fraction's gcd is 1, so the constructor gives it back. */
  lemma MakeOfNormal(f: Fraction)
    requires Normal(f)
    ensures EuclidGcd(f.numerator, f.denominator) == 1
    ensures Make(f.numerator, f.denominator) == Ok(f)
  {
    var g := EuclidGcd(f.numerator, f.denominator);
    GcdDividesBoth(f.numerator, f.denominator);
    assert g == 1;
    assert FloorMod(f.numerator, 1) == 0 && FloorMod(f.denominator, 1) == 0;
  }

  /** `Fraction(n, d)` (`__init__`): divide both parts by
      `Fraction.gcd(n, d)` with `//`, make the denominator positive if it
      came out negative, and raise if it is 0.  When both parts are 0 the
      gcd is 0 and the `//` itself raises.  The constructor succeeds exactly
      for a non-zero denominator, and then yields the unique normal
      fraction of the same value. */
  function Make(n: int, d: int): (r: Result<Fraction>)
    ensures r.Ok? <==> d != 0
    ensures r.Err? ==> r.error == ZeroDivisionError
    ensures r.Ok? ==> Normal(r.value) && r.value.numerator * d == n * r.value.denominator
  {
    var g := EuclidGcd(n, d);
    if g == 0 then Err(ZeroDivisionError)
    else
      var num, den := FloorDiv(n, g), FloorDiv(d, g);
      assert d != 0 ==> den > 0 && Coprime(num, den) && num * d == n * den by {
        if d != 0 {
          DivideOutGcd(n, d);
        }
      }
      if den < 0 then Ok(Fraction(-1 * num, Abs(den)))
      else if den == 0 then Err(ZeroDivisionError)
      else Ok(Fraction(num, den))
  }

  /** `__init__` step by step: the fields are assigned the quotients and
      then overwritten when the denominator is negative. */
  method NewFraction(n: int, d: int) returns (r: Result<Fraction>)
    ensures r == Make(n, d)
    ensures r.Ok? <==> d != 0
    ensures r.Ok? ==> Normal(r.value) && r.value.numerator * d == n * r.value.denominator
  {
    var greatestFactor := FractionGcd(n, d);
    if greatestFactor == 0 {
      return Err(ZeroDivisionError);
    }
    var numerator := FloorDiv(n, greatestFactor);
    var denominator := FloorDiv(d, greatestFactor);
    if denominator < 0 {
      denominator := Abs(denominator);
      numerator := -1 * numerator;
    } else if denominator == 0 {
      return Err(ZeroDivisionError);
    }
    r := Ok(Fraction(numerator, denominator));
  }

  /** The sign flip of `__init__` never happens: whenever the quotients
      exist, the gcd has the sign of the denominator. */
  lemma NoNegativeDenominator(n: int, d: int)
    requires EuclidGcd(n, d) != 0
    ensures FloorDiv(d, EuclidGcd(n, d)) >= 0
  {
    if d != 0 {
      DivideOutGcd(n, d);
    }
  }

  /** `Fraction.simplify(n, d)`: divide by the gcd, then construct, which
      divides by the gcd again.  The second division changes nothing, so
      `simplify` is the constructor itself. */
  function Simplify(n: int, d: int): (r: Result<Fraction>)
    ensures r == Make(n, d)
  {
    var g := EuclidGcd(n, d);
    if g == 0 then Err(ZeroDivisionError)
    else
      assert d != 0 ==> Make(FloorDiv(n, g), FloorDiv(d, g)) == Make(n, d) by {
        if d != 0 {
          DivideOutGcd(n, d);
          MakeOfNormal(Fraction(FloorDiv(n, g), FloorDiv(d, g)));
        }
      }
      Make(FloorDiv(n, g), FloorDiv(d, g))
  }

  // The exact rational value

  lemma CrossToValue(n1: int, d1: int, n2: int, d2: int)
    requires d1 != 0 && d2 != 0 && n1 * d2 == n2 * d1
    ensures n1 as real / d1 as real == n2 as real / d2 as real
  {
    assert (n1 * d2) as real == n1 as real * d2 as real;
    assert (n2 * d1) as real == n2 as real * d1 as real;
  }

  lemma ProductNonZero(a: int, b: int)
    ensures a * b != 0 <==> a != 0 && b != 0
  {
    if a != 0 && b != 0 {
      LeAbsProduct(a, b);
    }
  }

  /** A successful construction has the value `n / d`. */
  lemma ValueOfMake(n: int, d: int)
    requires d != 0
    ensures Make(n, d).Ok? && Value(Make(n, d).value) == n as real / d as real
  {
    var f := Make(n, d).value;
    CrossToValue(f.numerator, f.denominator, n, d);
  }

  lemma SumOfQuotients(a: Fraction, b: Fraction)
    requires a.denominator != 0 && b.denominator != 0
    ensures a.denominator * b.denominator != 0
    ensures Value(a) + Value(b) ==
      (a.numerator * b.denominator + a.denominator * b.numerator) as real / (a.denominator * b.denominator) as real
    ensures Value(a) - Value(b) ==
      (a.numerator * b.denominator - a.denominator * b.numerator) as real / (a.denominator * b.denominator) as real
    ensures Value(a) * Value(b) ==
      (a.numerator * b.numerator) as real / (a.denominator * b.denominator) as real
  {
    ProductNonZero(a.denominator, b.denominator);
    var n1, d1, n2, d2 := a.numerator as real, a.denominator as real, b.numerator as real, b.denominator as real;
    assert (a.numerator * b.denominator) as real == n1 * d2;
    assert (a.denominator * b.numerator) as real == d1 * n2;
    assert (a.numerator * b.numerator) as real == n1 * n2;
    assert (a.denominator * b.denominator) as real == d1 * d2;
  }

  lemma QuotientOfQuotients(a: Fraction, b: Fraction)
    requires a.denominator != 0 && b.denominator != 0 && b.numerator != 0
    ensures a.denominator * b.numerator != 0 && Value(b) != 0.0
    ensures Value(a) / Value(b) ==
      (a.numerator * b.denominator) as real / (a.denominator * b.numerator) as real
  {
    ProductNonZero(a.denominator, b.numerator);
    var n1, d1, n2, d2 := a.numerator as real, a.denominator as real, b.numerator as real, b.denominator as real;
    assert (a.numerator * b.denominator) as real == n1 * d2;
    assert (a.denominator * b.numerator) as real == d1 * n2;
  }

  // Arithmetic: each operation renormalises through `simplify`

  /** `__add__`: succeeds exactly when both denominators are non-zero, with
      the normal fraction of the exact sum. */
  function Add(a: Fraction, b: Fraction): (r: Result<Fraction>)
    ensures r.Ok? <==> a.denominator != 0 && b.denominator != 0
    ensures r.Err? ==> r.error == ZeroDivisionError
    ensures r.Ok? ==> Normal(r.value) && Value(r.value) == Value(a) + Value(b)
  {
    var n := a.numerator * b.denominator + a.denominator * b.numerator;
    var d := a.denominator * b.denominator;
    assert d != 0 ==> Value(Simplify(n, d).value) == Value(a) + Value(b) by {
      ProductNonZero(a.denominator, b.denominator);
      if d != 0 {
        ValueOfMake(n, d);
        SumOfQuotients(a, b);
      }
    }
    Simplify(n, d)
  }

  /** `__sub__`: as `__add__`, for the exact difference.  (Its docstring
      says the result is unsimplified; the code simplifies it.) */
  function Sub(a: Fraction, b: Fraction): (r: Result<Fraction>)
    ensures r.Ok? <==> a.denominator != 0 && b.denominator != 0
    ensures r.Err? ==> r.error == ZeroDivisionError
    ensures r.Ok? ==> Normal(r.value) && Value(r.value) == Value(a) - Value(b)
  {
    var n := a.numerator * b.denominator - a.denominator * b.numerator;
    var d := a.denominator * b.denominator;
    assert d != 0 ==> Value(Simplify(n, d).value) == Value(a) - Value(b) by {
      ProductNonZero(a.denominator, b.denominator);
      if d != 0 {
        ValueOfMake(n, d);
        SumOfQuotients(a, b);
      }
    }
    Simplify(n, d)
  }

  /** `__mult__`: as `__add__`, for the exact product. */
  function Mul(a: Fraction, b: Fraction): (r: Result<Fraction>)
    ensures r.Ok? <==> a.denominator != 0 && b.denominator != 0
    ensures r.Err? ==> r.error == ZeroDivisionError
    ensures r.Ok? ==> Normal(r.value) && Value(r.value) == Value(a) * Value(b)
  {
    var n := a.numerator * b.numerator;
    var d := a.denominator * b.denominator;
    assert d != 0 ==> Value(Simplify(n, d).value) == Value(a) * Value(b) by {
      ProductNonZero(a.denominator, b.denominator);
      if d != 0 {
        ValueOfMake(n, d);
        SumOfQuotients(a, b);
      }
    }
    Simplify(n, d)
  }

  /** `__truediv__`: raises exactly when `a` has denominator 0 or `b` has
      numerator 0, so dividing by a zero-valued fraction raises; otherwise
      the normal fraction of the exact quotient. */
  function Div(a: Fraction, b: Fraction): (r: Result<Fraction>)
    ensures r.Ok? <==> a.denominator != 0 && b.numerator != 0
    ensures r.Err? ==> r.error == ZeroDivisionError
    ensures r.Ok? ==> Normal(r.value)
    ensures r.Ok? && b.denominator != 0 ==> Value(b) != 0.0 && Value(r.value) == Value(a) / Value(b)
  {
    var n := a.numerator * b.denominator;
    var d := a.denominator * b.numerator;
    ProductNonZero(a.denominator, b.numerator);
    assert d != 0 && b.denominator != 0 ==> Value(b) != 0.0 && Value(Simplify(n, d).value) == Value(a) / Value(b) by {
      if d != 0 && b.denominator != 0 {
        ValueOfMake(n, d);
        QuotientOfQuotients(a, b);
      }
    }
    Simplify(n, d)
  }

  // The in-place twins compute the same expressions as the binary forms

  function InPlaceAdd(a: Fraction, b: Fraction): (r: Result<Fraction>)
    ensures r == Add(a, b)
  {
    var n := a.numerator * b.denominator + a.denominator * b.numerator;
    var d := a.denominator * b.denominator;
    Simplify(n, d)
  }

  function InPlaceSub(a: Fraction, b: Fraction): (r: Result<Fraction>)
    ensures r == Sub(a, b)
  {
    Simplify(a.numerator * b.denominator - a.denominator * b.numerator, a.denominator * b.denominator)
  }

  function InPlaceMul(a: Fraction, b: Fraction): (r: Result<Fraction>)
    ensures r == Mul(a, b)
  {
    Simplify(a.numerator * b.numerator, a.denominator * b.denominator)
  }

  function InPlaceDiv(a: Fraction, b: Fraction): (r: Result<Fraction>)
    ensures r == Div(a, b)
  {
    Simplify(a.numerator * b.denominator, a.denominator * b.numerator)
  }

  // Comparisons by cross-multiplication

  lemma CrossOrder(a: Fraction, b: Fraction)
    requires a.denominator > 0 && b.denominator > 0
    ensures a.numerator * b.denominator < b.numerator * a.denominator <==> Value(a) < Value(b)
    ensures a.numerator * b.denominator == b.numerator * a.denominator <==> Value(a) == Value(b)
  {
    var n1, d1, n2, d2 := a.numerator as real, a.denominator as real, b.numerator as real, b.denominator as real;
    assert (a.numerator * b.denominator) as real == n1 * d2;
    assert (b.numerator * a.denominator) as real == n2 * d1;
    assert Value(a) - Value(b) == (n1 * d2 - n2 * d1) / (d1 * d2);
    assert d1 * d2 > 0.0;
  }

  lemma CrossEqual(a: Fraction, b: Fraction)
    requires a.denominator != 0 && b.denominator != 0
    ensures a.numerator * b.denominator == b.numerator * a.denominator <==> Value(a) == Value(b)
  {
    var n1, d1, n2, d2 := a.numerator as real, a.denominator as real, b.numerator as real, b.denominator as real;
    assert (a.numerator * b.denominator) as real == n1 * d2;
    assert (b.numerator * a.denominator) as real == n2 * d1;
    assert Value(a) - Value(b) == (n1 * d2 - n2 * d1) / (d1 * d2);
    assert d1 * d2 != 0.0;
  }

  /** `__eq__`: equal values, for any non-zero denominators. */
  function Eq(a: Fraction, b: Fraction): (r: bool)
    ensures a.denominator != 0 && b.denominator != 0 ==> (r <==> Value(a) == Value(b))
  {
    assert a.denominator != 0 && b.denominator != 0 ==>
      (a.numerator * b.denominator == b.numerator * a.denominator <==> Value(a) == Value(b)) by {
      if a.denominator != 0 && b.denominator != 0 {
        CrossEqual(a, b);
      }
    }
    a.numerator * b.denominator == b.numerator * a.denominator
  }

  /** `__ne__` is the negation of `__eq__`: different values. */
  function Ne(a: Fraction, b: Fraction): (r: bool)
    ensures r <==> !Eq(a, b)
    ensures a.denominator != 0 && b.denominator != 0 ==> (r <==> Value(a) != Value(b))
  {
    !Eq(a, b)
  }

  /** `__lt__`: for positive denominators, a smaller value. */
  function Lt(a: Fraction, b: Fraction): (r: bool)
    ensures a.denominator > 0 && b.denominator > 0 ==> (r <==> Value(a) < Value(b))
  {
    assert a.denominator > 0 && b.denominator > 0 ==>
      (a.numerator * b.denominator < b.numerator * a.denominator <==> Value(a) < Value(b)) by {
      if a.denominator > 0 && b.denominator > 0 {
        CrossOrder(a, b);
      }
    }
    a.numerator * b.denominator < b.numerator * a.denominator
  }

  /** `__gt__`: for positive denominators, a larger value. */
  function Gt(a: Fraction, b: Fraction): (r: bool)
    ensures r == Lt(b, a)
    ensures a.denominator > 0 && b.denominator > 0 ==> (r <==> Value(a) > Value(b))
  {
    a.numerator * b.denominator > b.numerator * a.denominator
  }

  /** `__ge__`: greater or equal. */
  function Ge(a: Fraction, b: Fraction): (r: bool)
    ensures r <==> Gt(a, b) || Eq(a, b)
  {
    a.numerator * b.denominator >= b.numerator * a.denominator
  }

  /** `__le__`: less or equal. */
  function Le(a: Fraction, b: Fraction): (r: bool)
    ensures r <==> Lt(a, b) || Eq(a, b)
  {
    a.numerator * b.denominator <= b.numerator * a.denominator
  }

  /** Exactly one of `<`, `==` and `>` holds, for any two fractions. */
  lemma Trichotomy(a: Fraction, b: Fraction)
    ensures Lt(a, b) || Eq(a, b) || Gt(a, b)
    ensures !(Lt(a, b) && Eq(a, b)) && !(Lt(a, b) && Gt(a, b)) && !(Eq(a, b) && Gt(a, b))
  {
  }

  lemma ReciprocalQuotient(n: int, d: int)
    requires n != 0 && d != 0
    ensures n as real / d as real != 0.0
    ensures d as real / n as real == 1.0 / (n as real / d as real)
  {
  }

  lemma QuotientSign(x: real, y: real)
    requires y > 0.0
    ensures x / y >= 0.0 <==> x >= 0.0
  {
    var q := x / y;
    assert q * y == x;
    if q < 0.0 {
      assert q * y < 0.0;
    } else {
      assert q * y >= 0.0;
    }
  }

  lemma AbsQuotient(n: int, d: int)
    requires d != 0
    ensures RealAbs(n as real / d as real) == Abs(n) as real / Abs(d) as real
  {
    if d < 0 {
      NegateQuotient(n, d);
      AbsQuotientPositive(-n, -d);
    } else {
      AbsQuotientPositive(n, d);
    }
  }

  lemma NegateQuotient(n: int, d: int)
    requires d != 0
    ensures n as real / d as real == (-n) as real / (-d) as real
  {
  }

  lemma AbsQuotientPositive(n: int, d: int)
    requires d > 0
    ensures RealAbs(n as real / d as real) == Abs(n) as real / d as real
  {
    QuotientSign(n as real, d as real);
    if n < 0 {
      assert -(n as real / d as real) == (-n) as real / d as real;
    }
  }

  /** `__invert__`: the constructor applied to the swapped fields.  It
      raises exactly on a zero numerator, and otherwise gives the normal
      fraction of the reciprocal. */
  function Invert(f: Fraction): (r: Result<Fraction>)
    ensures r.Ok? <==> f.numerator != 0
    ensures r.Err? ==> r.error == ZeroDivisionError
    ensures r.Ok? ==> Normal(r.value)
    ensures r.Ok? && f.denominator != 0 ==> Value(f) != 0.0 && Value(r.value) == 1.0 / Value(f)
  {
    assert f.numerator != 0 && f.denominator != 0 ==>
      Value(f) != 0.0 && Value(Make(f.denominator, f.numerator).value) == 1.0 / Value(f) by {
      if f.numerator != 0 && f.denominator != 0 {
        ValueOfMake(f.denominator, f.numerator);
        ReciprocalQuotient(f.numerator, f.denominator);
      }
    }
    Make(f.denominator, f.numerator)
  }

  function RealAbs(x: real): real
  {
    if x < 0.0 then -x else x
  }

  /** `__abs__` as written: the constructor applied to the absolute values of
      the fields in swapped order, so it yields the reciprocal of the
      absolute value and raises on a zero numerator. */
  function AbsAsWritten(f: Fraction): (r: Result<Fraction>)
    ensures r.Ok? <==> f.numerator != 0
    ensures r.Err? ==> r.error == ZeroDivisionError
    ensures r.Ok? ==> Normal(r.value)
    ensures r.Ok? && f.denominator != 0 ==> Value(f) != 0.0 && Value(r.value) == 1.0 / RealAbs(Value(f))
  {
    assert f.numerator != 0 && f.denominator != 0 ==>
      Value(f) != 0.0 && Value(Make(Abs(f.denominator), Abs(f.numerator)).value) == 1.0 / RealAbs(Value(f)) by {
      if f.numerator != 0 && f.denominator != 0 {
        ValueOfMake(Abs(f.denominator), Abs(f.numerator));
        AbsQuotient(f.numerator, f.denominator);
        ReciprocalQuotient(Abs(f.numerator), Abs(f.denominator));
      }
    }
    Make(Abs(f.denominator), Abs(f.numerator))
  }

  /** The absolute value `__abs__` evidently means: the fields in their own
      order.  Defined exactly when the denominator is non-zero. */
  function AbsCorrected(f: Fraction): (r: Result<Fraction>)
    ensures r.Ok? <==> f.denominator != 0
    ensures r.Err? ==> r.error == ZeroDivisionError
    ensures r.Ok? ==> Normal(r.value) && Value(r.value) == RealAbs(Value(f))
  {
    assert f.denominator != 0 ==> Value(Make(Abs(f.numerator), Abs(f.denominator)).value) == RealAbs(Value(f)) by {
      if f.denominator != 0 {
        ValueOfMake(Abs(f.numerator), Abs(f.denominator));
        AbsQuotient(f.numerator, f.denominator);
      }
    }
    Make(Abs(f.numerator), Abs(f.denominator))
  }

  /** The discrepancy: on one half `__abs__` returns two, and on zero it
      raises, where the absolute values are one half and zero. */
  lemma AbsDiscrepancy()
    ensures AbsAsWritten(Fraction(1, 2)) == Ok(Fraction(2, 1))
    ensures AbsCorrected(Fraction(1, 2)) == Ok(Fraction(1, 2))
    ensures AbsAsWritten(Fraction(0, 1)) == Err(ZeroDivisionError)
    ensures AbsCorrected(Fraction(0, 1)) == Ok(Fraction(0, 1))
  {
    assert EuclidGcd(2, 1) == 1;
    assert EuclidGcd(1, 2) == 1;
    assert EuclidGcd(0, 1) == 1;
  }

  // Normal forms are unique

  /** Floored division is the only split of `a` into a multiple of `b` and
      a remainder on the side of `b`. */
  lemma FloorUnique(a: int, b: int, q: int, r: int)
    requires b != 0 && a == b * q + r
    requires b > 0 ==> 0 <= r < b
    requires b < 0 ==> b < r <= 0
    ensures FloorMod(a, b) == r && FloorDiv(a, b) == q
  {
    var q', r' := FloorDiv(a, b), FloorMod(a, b);
    assert b * (q - q') == r' - r;
    if q - q' != 0 {
      LeAbsProduct(b, q - q');
      assert false;
    }
  }

  lemma FloorModScale(a: int, b: int, k: int)
    requires b != 0 && k > 0
    ensures b * k != 0 && FloorMod(a * k, b * k) == FloorMod(a, b) * k
  {
    var q, r := FloorDiv(a, b), FloorMod(a, b);
    ScaleSplit(a, b, q, r, k);
    ScaleRemainder(b, r, k);
    FloorUnique(a * k, b * k, q, r * k);
  }

  lemma ScaleSplit(a: int, b: int, q: int, r: int, k: int)
    requires a == b * q + r
    ensures a * k == (b * k) * q + r * k
  {
    assert a * k == (b * q) * k + r * k;
    MulAssociative(b, q, k);
    MulAssociative(b, k, q);
  }

  /** Scaling a remainder and its divisor by a positive factor keeps the
      remainder on the divisor's side and below it. */
  lemma ScaleRemainder(b: int, r: int, k: int)
    requires b != 0 && k > 0
    requires b > 0 ==> 0 <= r < b
    requires b < 0 ==> b < r <= 0
    ensures b * k != 0 && (b * k > 0 <==> b > 0)
    ensures b > 0 ==> 0 <= r * k < b * k
    ensures b < 0 ==> b * k < r * k <= 0
  {
    if b > 0 {
      MulAtLeast(b, k);
      MulAtLeast(b - r, k);
      if r > 0 { MulAtLeast(r, k); }
    } else {
      MulAtLeast(-b, k);
      MulAtLeast(r - b, k);
      if r < 0 { MulAtLeast(-r, k); }
    }
  }

  /** Scaling both arguments by a positive factor scales `Fraction.gcd`. */
  lemma {:induction false} GcdScale(a: int, b: int, k: int)
    requires k > 0
    decreases Abs(b)
    ensures EuclidGcd(a * k, b * k) == EuclidGcd(a, b) * k
  {
    if b != 0 {
      FloorModScale(a, b, k);
      GcdScale(b, FloorMod(a, b), k);
    }
  }

  /** Euclid's lemma: a positive `m` coprime to `x` that divides `x * y`
      divides `y`. */
  lemma EuclidsLemma(x: int, m: int, y: int)
    requires m > 0 && y > 0 && Coprime(x, m) && Divides(m, x * y)
    ensures Divides(m, y)
  {
    DividesByWitness(m, m * y, y);
    GcdGreatest(x * y, m * y, m);
    GcdScale(x, m, y);
    GcdDividesBoth(x, m);
    assert EuclidGcd(x, m) == 1;
  }

  /** Two normal fractions of equal cross products are the same fraction. */
  lemma NormalFormUnique(a: Fraction, b: Fraction)
    requires Normal(a) && Normal(b)
    requires a.numerator * b.denominator == b.numerator * a.denominator
    ensures a == b
  {
    DividesByWitness(a.denominator, a.numerator * b.denominator, b.numerator);
    EuclidsLemma(a.numerator, a.denominator, b.denominator);
    DividesByWitness(b.denominator, b.numerator * a.denominator, a.numerator);
    EuclidsLemma(b.numerator, b.denominator, a.denominator);
    var k1 := DividesWitness(a.denominator, b.denominator);
    var k2 := DividesWitness(b.denominator, a.denominator);
    assert a.denominator == (a.denominator * k1) * k2;
    UnitFactor(a.denominator, k1, k2);
    if k1 == -1 {
      assert false;
    }
    assert a.denominator == b.denominator;
    assert (a.numerator - b.numerator) * a.denominator == 0;
    if a.numerator - b.numerator != 0 {
      LeAbsProduct(a.denominator, a.numerator - b.numerator);
      assert false;
    }
  }

  /** On normal fractions `__eq__` is identity. */
  lemma EqIsIdentity(a: Fraction, b: Fraction)
    requires Normal(a) && Normal(b)
    ensures Eq(a, b) <==> a == b
  {
    if Eq(a, b) {
      NormalFormUnique(a, b);
    }
  }

  /** The constructor maps two pairs to the same fraction exactly when the
      pairs have equal cross products. */
  lemma MakeCanonical(n1: int, d1: int, n2: int, d2: int)
    requires d1 != 0 && d2 != 0
    ensures Make(n1, d1) == Make(n2, d2) <==> n1 * d2 == n2 * d1
  {
    ValueOfMake(n1, d1);
    ValueOfMake(n2, d2);
    var f1, f2 := Make(n1, d1).value, Make(n2, d2).value;
    CrossEqual(Fraction(n1, d1), Fraction(n2, d2));
    CrossEqual(f1, f2);
    if n1 * d2 == n2 * d1 {
      NormalFormUnique(f1, f2);
    }
  }

  /** Inverting a non-zero normal fraction twice gives it back. */
  lemma InvertInvolution(f: Fraction)
    requires Normal(f) && f.numerator != 0
    ensures Invert(f).Ok? && Invert(Invert(f).value) == Ok(f)
  {
    var g := Invert(f).value;
    assert g.numerator * f.numerator == f.denominator * g.denominator;
    ProductNonZero(f.denominator, g.denominator);
    MakeOfNormal(f);
    MakeCanonical(g.denominator, g.numerator, f.numerator, f.denominator);
  }

  /** `Fraction.gcd` may be negative: it follows the sign of `b`. */
  lemma GcdCanBeNegative()
    ensures EuclidGcd(6, -4) == -2
    ensures FloorMod(6, -4) == -2 && FloorDiv(6, -4) == -2
  {
  }

  /** Dividing a fraction by a zero-valued normal fraction raises. */
  lemma DivByZeroRaises(a: Fraction, b: Fraction)
    requires Normal(b) && Value(b) == 0.0
    ensures Div(a, b) == Err(ZeroDivisionError)
  {
    assert b.numerator == 0 by {
      ReciprocalQuotientZero(b.numerator, b.denominator);
    }
  }

  lemma ReciprocalQuotientZero(n: int, d: int)
    requires d != 0 && n as real / d as real == 0.0
    ensures n == 0
  {
    if n != 0 {
      ReciprocalQuotient(n, d);
      assert false;
    }
  }
}
