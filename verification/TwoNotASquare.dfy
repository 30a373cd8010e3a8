/**
 Two is not a square modulo a prime that is five modulo eight (by counting signs, after Gauss).
 The even numbers below the prime are, up to sign, the numbers of its lower half; the
 number of signs is odd for such primes, and comparing the two products gives the power
 of two that the curve constant is built from.
 */
module TwoNotASquare {
  import opened ModularArithmetic
  import opened FermatTheorem

  function Factorial(n: nat): int {
    if n == 0 then 1 else n * Factorial(n - 1)
  }

  /** 2 * 4 * ... * 2n. */
  function Evens(n: nat): int {
    if n == 0 then 1 else (2 * n) * Evens(n - 1)
  }

  /** 1 * 3 * ... * (2n - 1). */
  function Odds(n: nat): int {
    if n == 0 then 1 else (2 * n - 1) * Odds(n - 1)
  }

  /** The largest i of the even factors up to 4m. */
  function Upper(m: nat, i: nat): int {
    if i == 0 then 1 else (4 * m + 2 - 2 * i) * Upper(m, i - 1)
  }

  lemma {:induction false} EvensAreDoubled(n: nat)
    ensures Evens(n) == Power(2, n) * Factorial(n)
  {
    if n > 0 {
      EvensAreDoubled(n - 1);
      Rearrange(2, n, Power(2, n - 1), Factorial(n - 1));
    }
  }

  lemma {:induction false} EvensAndOdds(n: nat)
    ensures Evens(n) * Odds(n) == Factorial(2 * n)
  {
    if n > 0 {
      EvensAndOdds(n - 1);
      Rearrange(2 * n, 2 * n - 1, Evens(n - 1), Odds(n - 1));
      assert Factorial(2 * n) == (2 * n) * Factorial(2 * n - 1);
      assert Factorial(2 * n - 1) == (2 * n - 1) * Factorial(2 * n - 2);
      Associate(2 * n, 2 * n - 1, Factorial(2 * n - 2));
    }
  }

  lemma {:induction false} UpperSplits(m: nat, i: nat)
    requires i <= 2 * m
    ensures Evens(2 * m) == Evens(2 * m - i) * Upper(m, i)
  {
    if i > 0 {
      UpperSplits(m, i - 1);
      var rest, above := Evens(2 * m - i), Upper(m, i - 1);
      assert Evens(2 * m - (i - 1)) == (2 * (2 * m - (i - 1))) * rest;
      assert 2 * (2 * m - (i - 1)) == 4 * m + 2 - 2 * i;
      Swap(4 * m + 2 - 2 * i, rest, above);
    }
  }

  lemma {:induction false} Swap(a: int, b: int, c: int)
    ensures (a * b) * c == b * (a * c)
  {
    Associate(a, b, c);
    Associate(b, a, c);
  }

  /** (-1) * (-3) * ... * -(2n - 1). */
  function SignedOdds(n: nat): int {
    if n == 0 then 1 else -(2 * n - 1) * SignedOdds(n - 1)
  }

  /** Modulo 4m + 1, each of the largest even factors is the negative of an odd number. */
  lemma {:induction false} UpperIsSignedOdds(m: nat, i: nat, p: Modulus)
    requires p == 4 * m + 1
    ensures Same(Upper(m, i), SignedOdds(i), p)
  {
    if i > 0 {
      UpperIsSignedOdds(m, i - 1, p);
      SameBy(4 * m + 2 - 2 * i, -(2 * i - 1), 1, p);
      TimesSame(4 * m + 2 - 2 * i, -(2 * i - 1), Upper(m, i - 1), SignedOdds(i - 1), p);
    }
  }

  lemma {:induction false} Flip(a: int, b: int)
    ensures -a * b == -(a * b) && -a * -b == a * b
  {
  }

  lemma {:induction false} SignsAlternate(n: nat)
    ensures SignedOdds(n) == if n % 2 == 0 then Odds(n) else -Odds(n)
  {
    if n > 0 {
      SignsAlternate(n - 1);
      Flip(2 * n - 1, Odds(n - 1));
    }
  }

  lemma {:induction false} FactorialNonzero(n: nat, p: Modulus)
    requires Prime(p) && n < p
    ensures !Same(Factorial(n), 0, p)
  {
    Small(0, p);
    if n == 0 {
      Small(1, p);
    } else {
      FactorialNonzero(n - 1, p);
      if Same(n * Factorial(n - 1), 0, p) {
        Euclid(p, n, Factorial(n - 1));
      }
    }
  }

  /** The even numbers up to p - 1 multiply to minus the product of all numbers up to half of it. */
  lemma {:induction false} ProductOfEvens(m: nat, p: Modulus)
    requires p == 4 * m + 1 && m % 2 == 1
    ensures Same(Evens(2 * m), -Factorial(2 * m), p)
  {
    UpperSplits(m, m);
    UpperIsSignedOdds(m, m, p);
    EvensAndOdds(m);
    SignsAlternate(m);
    Negated(Evens(m), Odds(m));
    SignedProduct(Evens(m), Upper(m, m), -Odds(m), Factorial(2 * m), p);
  }

  lemma {:induction false} Negated(a: int, b: int)
    ensures a * -b == -(a * b)
  {
  }

  lemma {:induction false} SignedProduct(a: int, b: int, c: int, product: int, p: Modulus)
    requires Same(b, c, p) && a * c == -product
    ensures Same(a * b, -product, p)
  {
    TimesSame(a, a, b, c, p);
  }

  /** Raised to half of p - 1, two is minus one. */
  lemma {:induction false} HalfPowerOfTwo(p: Modulus)
    requires Prime(p) && p % 8 == 5
    ensures Same(Power(2, (p - 1) / 2), -1, p)
  {
    var m := (p - 1) / 4;
    HalfOf(p, m);
    ProductOfEvens(m, p);
    EvensAreDoubled(2 * m);
    PrimeIsFermat(p);
    FactorialNonzero(2 * m, p);
    CancelFactorial(Power(2, 2 * m), Factorial(2 * m), p);
  }

  lemma {:induction false} CancelFactorial(power: int, factorial: int, p: Modulus)
    requires Fermat(p) && !Same(factorial, 0, p) && Same(power * factorial, -factorial, p)
    ensures Same(power, -1, p)
  {
    assert power * factorial == factorial * power && factorial * (-1) == -factorial;
    Cancel(factorial, power, -1, p);
  }

  lemma {:induction false} HalfOf(p: int, m: int)
    requires p % 8 == 5 && m == (p - 1) / 4
    ensures p == 4 * m + 1 && m % 2 == 1 && 2 * m == (p - 1) / 2 && 2 * m - m == m
  {
  }
}
