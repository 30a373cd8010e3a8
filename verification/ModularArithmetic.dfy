/**
 Residues modulo a number: congruence, powers, and square-and-multiply.
 Congruent numbers can replace one another in sums, products and powers; the loop
 of the source, which halves the exponent and squares the base, keeps the product of
 the result and the remaining power.
 */
module ModularArithmetic {
  import opened Wrappers

  type Modulus = m: int | m > 1 witness 2

  /** Congruence modulo m. */
  predicate Same(a: int, b: int, m: Modulus) {
    a % m == b % m
  }

  //// Congruence

  lemma {:induction false} Monotone(a: int, b: int, m: int)
    requires a <= b && m >= 0
    ensures a * m <= b * m
  {
    assert (b - a) * m >= 0;
  }

  lemma {:induction false} SmallMultiple(k: int, r: int, m: int)
    requires m > 0 && r == k * m && -m < r < m
    ensures r == 0
  {
    if k > 0 {
      Monotone(1, k, m);
    } else {
      Monotone(k, if k == 0 then 0 else -1, m);
    }
  }

  lemma {:induction false} SameBy(a: int, b: int, k: int, m: Modulus)
    requires a == b + k * m
    ensures Same(a, b, m)
  {
    var qa, qb := a / m, b / m;
    assert a == qa * m + a % m && b == qb * m + b % m;
    assert a % m - b % m == (k + qb - qa) * m;
    SmallMultiple(k + qb - qa, a % m - b % m, m);
  }

  lemma {:induction false} Factor(a: int, b: int, m: Modulus) returns (k: int)
    requires Same(a, b, m)
    ensures a == b + k * m
  {
    k := a / m - b / m;
    assert a == (a / m) * m + a % m && b == (b / m) * m + b % m;
  }

  lemma {:induction false} Reduce(a: int, m: Modulus)
    ensures Same(a % m, a, m) && 0 <= a % m < m
  {
    assert a == (a / m) * m + a % m;
    SameBy(a, a % m, a / m, m);
  }

  lemma {:induction false} Small(a: int, m: Modulus)
    requires 0 <= a < m
    ensures a % m == a
  {
    assert a % m - a == (-(a / m)) * m;
    SmallMultiple(-(a / m), a % m - a, m);
  }

  lemma {:induction false} SmallSame(a: int, b: int, m: Modulus)
    requires 0 <= a < m && 0 <= b < m && Same(a, b, m)
    ensures a == b
  {
    Small(a, m);
    Small(b, m);
  }

  lemma {:induction false} PlusSame(a: int, a': int, b: int, b': int, m: Modulus)
    requires Same(a, a', m) && Same(b, b', m)
    ensures Same(a + b, a' + b', m)
  {
    var k := Factor(a, a', m);
    var l := Factor(b, b', m);
    assert (k + l) * m == k * m + l * m;
    SameBy(a + b, a' + b', k + l, m);
  }

  lemma {:induction false} MinusSame(a: int, a': int, b: int, b': int, m: Modulus)
    requires Same(a, a', m) && Same(b, b', m)
    ensures Same(a - b, a' - b', m)
  {
    var k := Factor(a, a', m);
    var l := Factor(b, b', m);
    assert (k - l) * m == k * m - l * m;
    SameBy(a - b, a' - b', k - l, m);
  }

  lemma {:induction false} ProductExpansion(a: int, b: int, k: int, l: int, m: int)
    ensures (a + k * m) * (b + l * m) == a * b + (a * l + k * b + k * l * m) * m
  {
    calc {
      (a + k * m) * (b + l * m);
      a * b + a * (l * m) + (k * m) * b + (k * m) * (l * m);
      a * b + (a * l) * m + (k * b) * m + (k * l * m) * m;
      a * b + (a * l + k * b + k * l * m) * m;
    }
  }

  lemma {:induction false} TimesSame(a: int, a': int, b: int, b': int, m: Modulus)
    requires Same(a, a', m) && Same(b, b', m)
    ensures Same(a * b, a' * b', m)
  {
    var k := Factor(a, a', m);
    var l := Factor(b, b', m);
    ProductExpansion(a', b', k, l, m);
    SameBy(a * b, a' * b', a' * l + k * b' + k * l * m, m);
  }

  /** Congruence to zero carries over to sums and differences. */
  lemma {:induction false} DifferenceZero(a: int, b: int, m: Modulus)
    ensures Same(a - b, 0, m) <==> Same(a, b, m)
  {
    if Same(a, b, m) {
      MinusSame(a, b, b, b, m);
    }
    if Same(a - b, 0, m) {
      PlusSame(a - b, 0, b, b, m);
    }
  }

  //// The remainder of a language whose division truncates

  function TruncatedRemainder(value: int, modulus: Modulus): int {
    if value >= 0 then value % modulus else -((-value) % modulus)
  }

  function Modulo(value: int, modulus: Modulus): int {
    var remainder := TruncatedRemainder(value, modulus);
    if remainder >= 0 then remainder else remainder + modulus
  }

  /** Adding the modulus to a negative remainder gives the residue. */
  lemma {:induction false} ModuloIsResidue(value: int, modulus: Modulus)
    ensures Modulo(value, modulus) == value % modulus
  {
    if value < 0 {
      var r := (-value) % modulus;
      assert -value == ((-value) / modulus) * modulus + r;
      assert value == -r + (-((-value) / modulus)) * modulus;
      SameBy(value, -r, -((-value) / modulus), modulus);
      if r == 0 {
        Small(0, modulus);
      } else {
        SameBy(modulus - r, -r, 1, modulus);
        Small(modulus - r, modulus);
      }
    }
  }

  //// Powers

  function Power(base: int, exponent: nat): int {
    if exponent == 0 then 1 else base * Power(base, exponent - 1)
  }

  lemma {:induction false} Associate(a: int, b: int, c: int)
    ensures a * (b * c) == (a * b) * c
  {
  }

  lemma {:induction false} PowerPlus(base: int, a: nat, b: nat)
    ensures Power(base, a + b) == Power(base, a) * Power(base, b)
  {
    if a > 0 {
      PowerPlus(base, a - 1, b);
      Associate(base, Power(base, a - 1), Power(base, b));
    }
  }

  lemma {:induction false} Rearrange(a: int, b: int, x: int, y: int)
    ensures (a * b) * (x * y) == (a * x) * (b * y)
  {
    calc {
      (a * b) * (x * y);
      a * (b * (x * y));
      a * (x * (b * y));
      (a * x) * (b * y);
    }
  }

  lemma {:induction false} PowerProduct(a: int, b: int, n: nat)
    ensures Power(a * b, n) == Power(a, n) * Power(b, n)
  {
    if n > 0 {
      PowerProduct(a, b, n - 1);
      var x, y := Power(a, n - 1), Power(b, n - 1);
      Rearrange(a, b, x, y);
    }
  }

  lemma {:induction false} PowerDouble(base: int, n: nat)
    ensures Power(base * base, n) == Power(base, n + n)
  {
    PowerProduct(base, base, n);
    PowerPlus(base, n, n);
  }

  lemma {:induction false} PowerSame(a: int, b: int, n: nat, m: Modulus)
    requires Same(a, b, m)
    ensures Same(Power(a, n), Power(b, n), m)
  {
    if n > 0 {
      PowerSame(a, b, n - 1, m);
      TimesSame(a, b, Power(a, n - 1), Power(b, n - 1), m);
    }
  }

  //// Square and multiply

  /** What one turn keeps: the result times what is still to be raised. */
  ghost predicate PowerSoFar(result: int, base: int, exponent: nat, goal: int, m: Modulus) {
    0 <= result < m && Same(result * Power(base, exponent), goal, m)
  }

  lemma {:induction false} PowerTurn(result: int, base: int, exponent: nat, goal: int, m: Modulus)
    requires exponent > 0 && PowerSoFar(result, base, exponent, goal, m)
    ensures PowerSoFar(
      if exponent % 2 == 1 then result * base % m else result, base * base % m, exponent / 2, goal, m)
  {
    var half, square := exponent / 2, base * base;
    var next := if exponent % 2 == 1 then result * base % m else result;
    var full := if exponent % 2 == 1 then result * base else result;
    Reduce(square, m);
    Reduce(full, m);
    if exponent % 2 == 0 { Small(result, m); }
    PowerSame(square % m, square, half, m);
    TimesSame(next, full, Power(square % m, half), Power(square, half), m);
    PowerDouble(base, half);
    if exponent % 2 == 1 {
      assert Power(base, exponent) == base * Power(base, half + half);
      assert (result * base) * Power(square, half) == result * (base * Power(square, half));
    } else {
      assert exponent == half + half;
    }
  }

  method ModularPower(base: int, exponent: nat, modulus: Modulus) returns (result: int)
    ensures result == Power(base, exponent) % modulus
  {
    result := 1;
    var currentBase := Modulo(base, modulus);
    var currentExponent: nat := exponent;
    ModuloIsResidue(base, modulus);
    Reduce(base, modulus);
    PowerSame(currentBase, base, exponent, modulus);
    ghost var goal := Power(base, exponent);
    while currentExponent > 0
      invariant PowerSoFar(result, currentBase, currentExponent, goal, modulus)
    {
      PowerTurn(result, currentBase, currentExponent, goal, modulus);
      if currentExponent % 2 == 1 {
        ModuloIsResidue(result * currentBase, modulus);
        result := Modulo(result * currentBase, modulus);
      }
      ModuloIsResidue(currentBase * currentBase, modulus);
      currentBase := Modulo(currentBase * currentBase, modulus);
      currentExponent := currentExponent / 2;
    }
    assert result * Power(currentBase, 0) == result;
    Small(result, modulus);
  }

  //// Fermat's theorem and what follows from it

  /** Fermat's theorem for the modulus, a hypothesis wherever it is needed. */
  ghost predicate Fermat(p: Modulus) {
    forall a: int :: !Same(a, 0, p) ==> Same(Power(a, p - 1), 1, p)
  }

  /** The modular inverse by Fermat's theorem; there is none for a multiple of the modulus. */
  function Inverse(a: int, p: Modulus): int {
    Power(a, p - 2) % p
  }

  method ModularInverse(value: int, modulus: Modulus) returns (r: Option<int>)
    ensures r.None? <==> Same(value, 0, modulus)
    ensures r.Some? ==> r.value == Inverse(value, modulus)
    ensures r.Some? && Fermat(modulus) ==> Same(value * r.value, 1, modulus)
  {
    ModuloIsResidue(value, modulus);
    Small(0, modulus);
    if Modulo(value, modulus) == 0 {
      return None;
    }
    var power := ModularPower(value, modulus - 2, modulus);
    if Fermat(modulus) {
      InverseCorrect(value, modulus);
    }
    return Some(power);
  }

  lemma {:induction false} InverseCorrect(a: int, p: Modulus)
    requires Fermat(p) && !Same(a, 0, p)
    ensures Same(a * Inverse(a, p), 1, p)
  {
    Reduce(Power(a, p - 2), p);
    TimesSame(a, a, Inverse(a, p), Power(a, p - 2), p);
    assert a * Power(a, p - 2) == Power(a, p - 1);
  }

  /** A product vanishes only if a factor does. */
  lemma {:induction false} NoZeroDivisors(a: int, b: int, p: Modulus)
    requires Fermat(p) && Same(a * b, 0, p) && !Same(a, 0, p)
    ensures Same(b, 0, p)
  {
    var inverse := Inverse(a, p);
    InverseCorrect(a, p);
    TimesSame(a * inverse, 1, b, b, p);
    assert (a * inverse) * b == inverse * (a * b);
    TimesSame(inverse, inverse, a * b, 0, p);
  }

  lemma {:induction false} Cancel(a: int, x: int, y: int, p: Modulus)
    requires Fermat(p) && Same(a * x, a * y, p) && !Same(a, 0, p)
    ensures Same(x, y, p)
  {
    DifferenceZero(a * x, a * y, p);
    assert a * x - a * y == a * (x - y);
    NoZeroDivisors(a, x - y, p);
    DifferenceZero(x, y, p);
  }
}
