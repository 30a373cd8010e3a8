/**
 Groups given by their operation, and multiples of an element.
 */
module Groups {
  datatype Group<!T> = Group(member: T -> bool, plus: (T, T) -> T, zero: T)

  predicate Three<T>(g: Group<T>, a: T, b: T, d: T) {
    g.member(a) && g.member(b) && g.member(d)
  }

  predicate Two<T>(g: Group<T>, a: T, b: T) {
    g.member(a) && g.member(b)
  }

  /** Closed and associative with a neutral element; no inverses are needed. */
  ghost predicate Laws<T(!new)>(g: Group<T>) {
    && g.member(g.zero)
    && (forall a, b {:trigger Two(g, a, b)} :: Two(g, a, b) ==> g.member(g.plus(a, b)))
    && (forall a {:trigger Two(g, g.zero, a)} :: Two(g, g.zero, a) ==> g.plus(g.zero, a) == a && g.plus(a, g.zero) == a)
    && (forall a, b, d {:trigger Three(g, a, b, d)} :: Three(g, a, b, d) ==>
          g.plus(g.plus(a, b), d) == g.plus(a, g.plus(b, d)))
  }

  lemma {:induction false} Closed<T(!new)>(g: Group<T>, a: T, b: T)
    requires Laws(g) && g.member(a) && g.member(b)
    ensures g.member(g.plus(a, b))
  {
    assert Two(g, a, b);
  }

  lemma {:induction false} Neutral<T(!new)>(g: Group<T>, a: T)
    requires Laws(g) && g.member(a)
    ensures g.plus(g.zero, a) == a && g.plus(a, g.zero) == a
  {
    assert Two(g, g.zero, a);
  }

  lemma {:induction false} Associative<T(!new)>(g: Group<T>, a: T, b: T, d: T)
    requires Laws(g) && g.member(a) && g.member(b) && g.member(d)
    ensures g.plus(g.plus(a, b), d) == g.plus(a, g.plus(b, d))
  {
    assert Three(g, a, b, d);
  }

  /** Repeated addition. */
  function Multiple<T>(g: Group<T>, n: nat, a: T): T {
    if n == 0 then g.zero else g.plus(a, Multiple(g, n - 1, a))
  }

  lemma {:induction false} MultipleMember<T(!new)>(g: Group<T>, n: nat, a: T)
    requires Laws(g) && g.member(a)
    ensures g.member(Multiple(g, n, a))
  {
    if n > 0 {
      MultipleMember(g, n - 1, a);
      Closed(g, a, Multiple(g, n - 1, a));
    }
  }

  lemma {:induction false} MultiplePlus<T(!new)>(g: Group<T>, m: nat, n: nat, a: T)
    requires Laws(g) && g.member(a)
    ensures Multiple(g, m + n, a) == g.plus(Multiple(g, m, a), Multiple(g, n, a))
  {
    MultipleMember(g, n, a);
    if m == 0 {
      Neutral(g, Multiple(g, n, a));
    } else {
      MultiplePlus(g, m - 1, n, a);
      MultipleMember(g, m - 1, a);
      Associative(g, a, Multiple(g, m - 1, a), Multiple(g, n, a));
      assert m + n - 1 == (m - 1) + n;
    }
  }

  lemma {:induction false} MultipleProduct<T(!new)>(g: Group<T>, m: nat, n: nat, a: T)
    requires Laws(g) && g.member(a)
    ensures m * n >= 0 && Multiple(g, m * n, a) == Multiple(g, m, Multiple(g, n, a))
  {
    if m > 0 {
      MultipleProduct(g, m - 1, n, a);
      MultiplePlus(g, n, (m - 1) * n, a);
      assert n + (m - 1) * n == m * n;
    }
  }

  lemma {:induction false} MultipleZero<T(!new)>(g: Group<T>, n: nat)
    requires Laws(g)
    ensures Multiple(g, n, g.zero) == g.zero
  {
    if n > 0 {
      MultipleZero(g, n - 1);
      Neutral(g, g.zero);
    }
  }

  /** Only the residue of a factor modulo the order matters. */
  lemma {:induction false} MultipleModulo<T(!new)>(g: Group<T>, n: nat, order: nat, a: T)
    requires Laws(g) && g.member(a) && order > 0 && Multiple(g, order, a) == g.zero
    ensures Multiple(g, n % order, a) == Multiple(g, n, a)
  {
    var q := n / order;
    assert n == q * order + n % order;
    MultiplePlus(g, q * order, n % order, a);
    MultipleProduct(g, q, order, a);
    MultipleZero(g, q);
    MultipleMember(g, n % order, a);
    Neutral(g, Multiple(g, n % order, a));
  }

  /** One turn of double-and-add keeps the result plus what is still to be added. */
  lemma {:induction false} DoubleAndAdd<T(!new)>(g: Group<T>, result: T, current: T, n: nat)
    requires Laws(g) && g.member(result) && g.member(current)
    ensures g.plus(result, Multiple(g, n, current)) ==
      g.plus(if n % 2 == 1 then g.plus(result, current) else result, Multiple(g, n / 2, g.plus(current, current)))
  {
    var half := n / 2;
    MultipleMember(g, half + half, current);
    DoubleMultiple(g, half, current);
    if n % 2 == 1 {
      assert n - 1 == half + half;
      Associative(g, result, current, Multiple(g, half + half, current));
    } else {
      assert n == half + half;
    }
  }

  lemma {:induction false} DoubleMultiple<T(!new)>(g: Group<T>, n: nat, a: T)
    requires Laws(g) && g.member(a)
    ensures Multiple(g, n, g.plus(a, a)) == Multiple(g, n + n, a)
  {
    MultipleProduct(g, n, 2, a);
    Neutral(g, a);
    assert Multiple(g, 1, a) == g.plus(a, Multiple(g, 0, a)) == a;
    assert Multiple(g, 2, a) == g.plus(a, Multiple(g, 1, a));
    assert n * 2 == n + n;
  }

  /** The equation behind a signature: (r + k a) B = r B + k (a B), computed modulo the order of B. */
  lemma {:induction false} ResponseEquation<T(!new)>(g: Group<T>, base: T, order: nat, r: nat, k: nat, a: nat)
    requires Laws(g) && g.member(base) && order > 0 && Multiple(g, order, base) == g.zero
    ensures k * a >= 0 && Multiple(g, (r + k * a) % order, base)
      == g.plus(Multiple(g, r, base), Multiple(g, k, Multiple(g, a, base)))
  {
    MultipleProduct(g, k, a, base);
    MultipleModulo(g, r + k * a, order, base);
    MultiplePlus(g, r, k * a, base);
  }
}
