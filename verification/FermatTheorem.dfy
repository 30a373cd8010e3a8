/**
 Fermat's little theorem, from the binomial theorem and Euclid's lemma.
 The inner binomial coefficients of a prime are multiples of it, so that raising to
 the prime commutes with adding one; the theorem follows by counting up from zero,
 and cancelling one factor.
 */
module FermatTheorem {
  import opened ModularArithmetic

  ghost predicate Prime(p: Modulus) {
    forall a: Modulus :: a < p ==> p % a != 0
  }

  /** A prime that divides a product divides the second factor, if it is larger than the first. */
  lemma {:induction false} Euclid(p: Modulus, a: int, b: int)
    requires Prime(p) && 0 < a < p && Same(a * b, 0, p)
    ensures Same(b, 0, p)
    decreases a
  {
    if a > 1 {
      var divisor: Modulus := a;
      var q, r := p / divisor, p % divisor;
      assert p == q * a + r;
      TimesSame(q, q, a * b, 0, p);
      SameBy(p * b, 0, b, p);
      MinusSame(p * b, 0, q * (a * b), 0, p);
      Remainder(p, q, a, r, b);
      Euclid(p, r, b);
    }
  }

  lemma {:induction false} Remainder(p: int, q: int, a: int, r: int, b: int)
    requires p == q * a + r
    ensures p * b - q * (a * b) == r * b
  {
    Associate(q, a, b);
    assert p * b == (q * a) * b + r * b;
  }

  //// Binomial coefficients

  function Choose(n: nat, k: nat): nat {
    if k == 0 then 1 else if n == 0 then 0 else Choose(n - 1, k - 1) + Choose(n - 1, k)
  }

  lemma {:induction false} ChooseBeyond(n: nat, k: nat)
    requires k > n
    ensures Choose(n, k) == 0
  {
    if n > 0 {
      ChooseBeyond(n - 1, k - 1);
      ChooseBeyond(n - 1, k);
    }
  }

  lemma {:induction false} ChooseAll(n: nat)
    ensures Choose(n, n) == 1
  {
    if n > 0 {
      ChooseAll(n - 1);
      ChooseBeyond(n - 1, n);
    }
  }

  /** The absorption identity. */
  lemma {:induction false} Absorption(n: nat, k: nat)
    requires n > 0 && k > 0
    ensures k * Choose(n, k) == n * Choose(n - 1, k - 1)
  {
    if n == 1 {
      if k > 1 {
        ChooseBeyond(1, k);
      }
    } else {
      Absorption(n - 1, k);
      if k > 1 {
        Absorption(n - 1, k - 1);
      }
      AbsorptionStep(n, k, Choose(n - 1, k - 1), Choose(n - 1, k), if k > 1 then Choose(n - 2, k - 2) else 0,
        Choose(n - 2, k - 1));
    }
  }

  lemma {:induction false} AbsorptionStep(n: int, k: int, left: int, right: int, lower: int, upper: int)
    requires (k - 1) * left == (n - 1) * lower && k * right == (n - 1) * upper
    requires left == lower + upper
    ensures k * (left + right) == n * left
  {
    assert k * (left + right) == k * left + k * right;
    assert k * left == (k - 1) * left + left;
    assert (n - 1) * left == (n - 1) * lower + (n - 1) * upper;
    assert n * left == (n - 1) * left + left;
  }

  /** A prime divides its inner binomial coefficients. */
  lemma {:induction false} InnerCoefficient(p: Modulus, k: nat)
    requires Prime(p) && 0 < k < p
    ensures Same(Choose(p, k), 0, p)
  {
    Absorption(p, k);
    var c := Choose(p - 1, k - 1);
    assert p * c == 0 + c * p;
    SameBy(k * Choose(p, k), 0, c, p);
    Euclid(p, k, Choose(p, k));
  }

  //// The binomial theorem

  /** The first terms of the expansion of (a + 1) to the n. */
  function Expansion(a: int, n: nat, terms: nat): int {
    if terms == 0 then 0 else Expansion(a, n, terms - 1) + Choose(n, terms - 1) * Power(a, terms - 1)
  }

  lemma {:induction false} ExpansionStep(a: int, n: nat, terms: nat)
    requires terms > 0
    ensures Expansion(a, n + 1, terms) == a * Expansion(a, n, terms - 1) + Expansion(a, n, terms)
  {
    if terms > 1 {
      var k := terms - 1;
      ExpansionStep(a, n, k);
      PascalTerm(a, Choose(n, k - 1), Choose(n, k), Power(a, k - 1), Expansion(a, n, k - 1));
    }
  }

  lemma {:induction false} PascalTerm(a: int, left: int, right: int, power: int, sum: int)
    ensures a * sum + (left + right) * (a * power) == a * (sum + left * power) + right * (a * power)
  {
    assert left * (a * power) == a * (left * power);
    assert (left + right) * (a * power) == left * (a * power) + right * (a * power);
    assert a * (sum + left * power) == a * sum + a * (left * power);
  }

  lemma {:induction false} LastTerm(a: int, n: nat)
    ensures Expansion(a, n, n + 2) == Expansion(a, n, n + 1)
  {
    ChooseBeyond(n, n + 1);
    assert Expansion(a, n, n + 2) == Expansion(a, n, n + 1) + Choose(n, n + 1) * Power(a, n + 1);
  }

  lemma {:induction false} Distribute(a: int, sum: int)
    ensures (a + 1) * sum == a * sum + sum
  {
  }

  lemma {:induction false} BinomialTheorem(a: int, n: nat)
    ensures Expansion(a, n, n + 1) == Power(a + 1, n)
  {
    if n == 0 {
      assert Expansion(a, 0, 1) == Expansion(a, 0, 0) + Choose(0, 0) * Power(a, 0);
    } else {
      BinomialTheorem(a, n - 1);
      var sum := Expansion(a, n - 1, n);
      ExpansionStep(a, n - 1, n + 1);
      LastTerm(a, n - 1);
      Distribute(a, sum);
    }
  }

  //// Fermat's theorem

  /** Modulo a prime, all inner terms of the expansion vanish. */
  lemma {:induction false} InnerTermsVanish(a: int, p: Modulus, terms: nat)
    requires Prime(p) && 0 < terms <= p
    ensures Same(Expansion(a, p, terms), 1, p)
  {
    if terms == 1 {
      assert Expansion(a, p, 1) == Expansion(a, p, 0) + Choose(p, 0) * Power(a, 0);
    } else {
      var k := terms - 1;
      InnerTermsVanish(a, p, k);
      InnerCoefficient(p, k);
      TimesSame(Choose(p, k), 0, Power(a, k), Power(a, k), p);
      PlusSame(Expansion(a, p, k), 1, Choose(p, k) * Power(a, k), 0, p);
    }
  }

  lemma {:induction false} PowerOfPrime(a: nat, p: Modulus)
    requires Prime(p)
    ensures Same(Power(a, p), a, p)
  {
    if a == 0 {
      assert Power(0, p) == 0 * Power(0, p - 1);
    } else {
      var b := a - 1;
      PowerOfPrime(b, p);
      BinomialTheorem(b, p);
      InnerTermsVanish(b, p, p);
      ChooseAll(p);
      assert Power(b + 1, p) == Expansion(b, p, p) + Power(b, p);
      PlusSame(Expansion(b, p, p), 1, Power(b, p), b, p);
    }
  }

  lemma {:induction false} ResidueOrder(a: int, p: Modulus)
    requires Prime(p) && !Same(a, 0, p)
    ensures Same(Power(a, p - 1), 1, p)
  {
    var r, power := a % p, Power(a % p, p - 1);
    Reduce(a, p);
    Small(0, p);
    PowerOfPrime(r, p);
    assert Power(r, p) == r * power;
    DifferenceZero(r * power, r, p);
    assert r * power - r == r * (power - 1);
    Euclid(p, r, power - 1);
    DifferenceZero(power, 1, p);
    PowerSame(r, a, p - 1, p);
  }

  /** Fermat's theorem holds for every prime. */
  lemma {:induction false} PrimeIsFermat(p: Modulus)
    requires Prime(p)
    ensures Fermat(p)
  {
    forall a: int | !Same(a, 0, p)
      ensures Same(Power(a, p - 1), 1, p)
    {
      ResidueOrder(a, p);
    }
  }
}
