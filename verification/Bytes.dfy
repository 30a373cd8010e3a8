/**
 Bytes, sequence reversal and positional notation in an arbitrary base.
 Digits are listed least significant first. Without a leading zero the digits of a
 number are unique, which is what makes texts and byte strings for it comparable;
 the remaining lemmas rearrange concatenations.
 */
module Bytes {
  type byte = x: int | 0 <= x < 256

  function Zeros(n: nat): (r: seq<byte>)
    ensures |r| == n && forall i :: 0 <= i < n ==> r[i] == 0
  {
    seq(n, _ => 0)
  }

  function Reverse<T>(s: seq<T>): (r: seq<T>)
    ensures |r| == |s|
    ensures forall i :: 0 <= i < |s| ==> r[i] == s[|s| - 1 - i]
  {
    seq(|s|, i requires 0 <= i < |s| => s[|s| - 1 - i])
  }

  /** The two bases in use. Arithmetic by cases keeps every obligation linear. */
  type Radix = b: int | b == 58 || b == 256 witness 256

  function Times(b: Radix, x: int): int {
    if b == 58 then 58 * x else 256 * x
  }

  function Quotient(n: nat, b: Radix): nat {
    if b == 58 then n / 58 else n / 256
  }

  function Remainder(n: nat, b: Radix): nat {
    if b == 58 then n % 58 else n % 256
  }

  ghost predicate Digits(ds: seq<int>, base: Radix) {
    forall i :: 0 <= i < |ds| ==> 0 <= ds[i] < base
  }

  /** The number a digit list denotes, least significant digit first. */
  function Value(ds: seq<int>, base: Radix): int {
    if ds == [] then 0 else ds[0] + Times(base, Value(ds[1..], base))
  }

  /** The number a digit list denotes, most significant digit first. */
  function Fold(xs: seq<int>, base: Radix): int {
    if xs == [] then 0 else Times(base, Fold(xs[..|xs| - 1], base)) + xs[|xs| - 1]
  }

  /** A digit list whose most significant digit is not zero. */
  predicate Normal(ds: seq<int>) {
    |ds| > 0 ==> ds[|ds| - 1] != 0
  }

  /** The normal digit list of a number, least significant digit first. */
  function DigitsOf(n: nat, base: Radix): (ds: seq<int>)
    ensures Digits(ds, base) && Normal(ds)
    ensures ds == [] <==> n == 0
  {
    if n == 0 then [] else [Remainder(n, base)] + DigitsOf(Quotient(n, base), base)
  }

  lemma {:induction false} ValueNonNegative(ds: seq<int>, base: Radix)
    requires Digits(ds, base)
    ensures Value(ds, base) >= 0
  {
    if ds != [] {
      ValueNonNegative(ds[1..], base);
    }
  }

  lemma {:induction false} ValuePrepend(d: int, ds: seq<int>, base: Radix)
    ensures Value([d] + ds, base) == d + Times(base, Value(ds, base))
  {
    assert ([d] + ds)[1..] == ds;
  }

  lemma {:induction false} ValueDigitsOf(n: nat, base: Radix)
    ensures Value(DigitsOf(n, base), base) == n
  {
    if n != 0 {
      ValueDigitsOf(Quotient(n, base), base);
      ValuePrepend(Remainder(n, base), DigitsOf(Quotient(n, base), base), base);
    }
  }

  lemma {:induction false} DivideDigit(d: nat, v: nat, base: Radix)
    requires d < base
    ensures Quotient(d + Times(base, v), base) == v && Remainder(d + Times(base, v), base) == d
  {
  }

  lemma {:induction false} DigitsOfNext(d: nat, v: nat, base: Radix, n: nat)
    requires d < base && (d > 0 || v > 0) && n == d + Times(base, v)
    ensures DigitsOf(n, base) == [d] + DigitsOf(v, base)
  {
    DivideDigit(d, v, base);
  }

  lemma {:induction false} NormalTail(ds: seq<int>, base: Radix)
    requires ds != [] && Digits(ds, base) && Normal(ds)
    ensures Digits(ds[1..], base) && Normal(ds[1..]) && (ds[1..] == [] ==> ds[0] > 0)
  {
  }

  lemma {:induction false} NormalPositive(ds: seq<int>, base: Radix)
    requires ds != [] && Digits(ds, base) && Normal(ds)
    ensures Value(ds, base) > 0
  {
    NormalTail(ds, base);
    if ds[1..] != [] {
      NormalPositive(ds[1..], base);
    }
  }

  lemma {:induction false} PrependDigit(d: nat, tail: seq<int>, v: nat, base: Radix, ds: seq<int>, n: nat)
    requires d < base && (d > 0 || v > 0) && n == d + Times(base, v)
    requires tail == DigitsOf(v, base) && ds == [d] + tail
    ensures ds == DigitsOf(n, base)
  {
    DigitsOfNext(d, v, base, n);
  }

  lemma {:induction false} ValueOfFirst(ds: seq<int>, base: Radix)
    requires ds != []
    ensures Value(ds, base) == ds[0] + Times(base, Value(ds[1..], base)) && ds == [ds[0]] + ds[1..]
  {
  }

  lemma {:induction false} NormalDigitsOf(ds: seq<int>, n: int, base: Radix)
    requires Digits(ds, base) && Normal(ds) && n == Value(ds, base)
    ensures n >= 0 && ds == DigitsOf(n, base)
  {
    ValueNonNegative(ds, base);
    if ds != [] {
      NormalTail(ds, base);
      NormalDigitsOf(ds[1..], Value(ds[1..], base), base);
      ValueOfFirst(ds, base);
      if ds[1..] != [] {
        NormalPositive(ds[1..], base);
      }
      PrependDigit(ds[0], ds[1..], Value(ds[1..], base), base, ds, n);
    }
  }

  /** A normal digit list is determined by its value. */
  lemma {:induction false} NormalDigitsUnique(ds: seq<int>, base: Radix)
    requires Digits(ds, base) && Normal(ds)
    ensures Value(ds, base) >= 0 && ds == DigitsOf(Value(ds, base), base)
  {
    NormalDigitsOf(ds, Value(ds, base), base);
  }

  lemma {:induction false} FoldAppend(xs: seq<int>, x: int, base: Radix)
    ensures Fold(xs + [x], base) == Times(base, Fold(xs, base)) + x
  {
    assert (xs + [x])[..|xs|] == xs;
  }

  /** Leading zero digits do not change the value. */
  lemma {:induction false} FoldLeadingZeros(xs: seq<int>, z: nat, base: Radix)
    requires z <= |xs| && forall i :: 0 <= i < z ==> xs[i] == 0
    ensures Fold(xs, base) == Fold(xs[z..], base)
  {
    if z == |xs| {
      if z > 0 {
        FoldLeadingZeros(xs[..z - 1], z - 1, base);
        assert xs[..z - 1][z - 1..] == [];
      }
      assert xs[z..] == [];
    } else {
      FoldLeadingZeros(xs[..|xs| - 1], z, base);
      assert xs[..|xs| - 1][z..] == xs[z..][..|xs| - z - 1];
    }
  }

  lemma {:induction false} FoldReverse(ds: seq<int>, base: Radix)
    ensures Fold(Reverse(ds), base) == Value(ds, base)
  {
    if ds != [] {
      var r := Reverse(ds);
      assert r[..|r| - 1] == Reverse(ds[1..]);
      FoldReverse(ds[1..], base);
    }
  }

  lemma {:induction false} FoldNonNegative(xs: seq<int>, base: Radix)
    requires Digits(xs, base)
    ensures Fold(xs, base) >= 0
  {
    if xs != [] {
      FoldNonNegative(xs[..|xs| - 1], base);
    }
  }

  /** The number of a list of digits, most significant first. */
  function Number(xs: seq<int>, base: Radix): (n: nat)
    requires Digits(xs, base)
    ensures n == Fold(xs, base)
  {
    FoldNonNegative(xs, base);
    Fold(xs, base)
  }

  //// Slices that grow by one element

  lemma {:induction false} TakeNext<T>(s: seq<T>, i: nat)
    requires i < |s|
    ensures s[..i + 1] == s[..i] + [s[i]]
  {
  }

  lemma {:induction false} TakeAll<T>(s: seq<T>)
    ensures s[..|s|] == s
  {
  }

  lemma {:induction false} AppendNext<T>(a: seq<T>, s: seq<T>, i: nat)
    requires i < |s|
    ensures a + s[..i + 1] == (a + s[..i]) + [s[i]]
  {
  }

  /** The last element of a sequence and everything before it. */
  lemma {:induction false} SplitLast<T>(s: seq<T>) returns (init: seq<T>, last: T)
    requires s != []
    ensures s == init + [last] && |init| + 1 == |s|
  {
    init, last := s[..|s| - 1], s[|s| - 1];
  }

  lemma {:induction false} Assoc<T>(a: seq<T>, b: seq<T>, c: seq<T>)
    ensures (a + b) + c == a + (b + c)
  {
  }

  lemma {:induction false} ReverseReverse<T>(s: seq<T>)
    ensures Reverse(Reverse(s)) == s
  {
  }
}
