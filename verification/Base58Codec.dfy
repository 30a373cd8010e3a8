/**
 The loops behind Base58: one encoder and three decoders, each proved to compute
 `Base58.Encode` or `Base58.Decode` (the two integration decoders also reject "").
 The array forms rewrite a little-endian digit list with a carry; the last decoder
 accumulates one big number and splits it into bytes.
 */
module Base58Codec {
  import opened Wrappers
  import opened Bytes
  import opened Base58

  //// One multiply-and-add step over a little-endian digit list

  function MultiplyAdd(ds: seq<int>, carry: nat, mul: Radix, base: Radix): (r: seq<int>)
    requires Digits(ds, base)
    ensures Digits(r, base) && |r| >= |ds|
  {
    if ds == [] then DigitsOf(carry, base)
    else
      var t := carry + Times(mul, ds[0]);
      [Remainder(t, base)] + MultiplyAdd(ds[1..], Quotient(t, base), mul, base)
  }

  lemma {:induction false} MultiplyAddNext(
      first: int, rest: seq<int>, carry: nat, mul: Radix, base: Radix, later: seq<int>)
    requires 0 <= first < base && Digits(rest, base)
    requires later == MultiplyAdd(rest, Quotient(carry + Times(mul, first), base), mul, base)
    ensures Digits([first] + rest, base)
    ensures MultiplyAdd([first] + rest, carry, mul, base) == [Remainder(carry + Times(mul, first), base)] + later
  {
    assert ([first] + rest)[1..] == rest;
  }

  /** The digit stored and the carry taken on, in numbers. */
  lemma {:induction false} StepNumbers(carry: nat, first: nat, rest: int, mul: Radix, base: Radix)
    ensures var t := carry + Times(mul, first);
      Remainder(t, base) + Times(base, Times(mul, rest) + Quotient(t, base))
        == Times(mul, first + Times(base, rest)) + carry
  {
  }

  /** The step multiplies the denoted number and adds the carry. */
  lemma {:induction false} MultiplyAddValue(ds: seq<int>, carry: nat, mul: Radix, base: Radix, m: seq<int>)
    requires Digits(ds, base) && m == MultiplyAdd(ds, carry, mul, base)
    ensures Value(m, base) == Times(mul, Value(ds, base)) + carry
  {
    if ds == [] {
      ValueDigitsOf(carry, base);
    } else {
      var first, rest := ds[0], ds[1..];
      var t := carry + Times(mul, first);
      var later := MultiplyAdd(rest, Quotient(t, base), mul, base);
      assert ds == [first] + rest;
      MultiplyAddNext(first, rest, carry, mul, base, later);
      MultiplyAddValue(rest, Quotient(t, base), mul, base, later);
      ValuePrepend(Remainder(t, base), later, base);
      ValuePrepend(first, rest, base);
      StepNumbers(carry, first, Value(rest, base), mul, base);
    }
  }

  lemma {:induction false} ConsNormal(d: int, rest: seq<int>)
    requires Normal(rest) && (rest != [] || d != 0)
    ensures Normal([d] + rest)
  {
  }

  lemma {:induction false} TailNormal(ds: seq<int>)
    requires Normal(ds) && |ds| > 1
    ensures Normal(ds[1..])
  {
  }

  lemma {:induction false} FirstStepNormal(first: int, carry: nat, mul: Radix, base: Radix)
    requires 0 <= first < base && (first > 0 || carry > 0)
    ensures var t := carry + Times(mul, first); Quotient(t, base) == 0 ==> Remainder(t, base) != 0
  {
  }

  lemma {:induction false} LoneDigitNormal(first: int, carry: nat, mul: Radix, base: Radix, m: seq<int>)
    requires 0 <= first < base && (first > 0 || carry > 0)
    requires m == [Remainder(carry + Times(mul, first), base)]
      + DigitsOf(Quotient(carry + Times(mul, first), base), base)
    ensures Normal(m)
  {
    FirstStepNormal(first, carry, mul, base);
    var t := carry + Times(mul, first);
    ConsNormal(Remainder(t, base), DigitsOf(Quotient(t, base), base));
  }

  /** The most significant digit stays nonzero; a lone zero digit is replaced by a nonzero carry. */
  lemma {:induction false} MultiplyAddNormal(ds: seq<int>, carry: nat, mul: Radix, base: Radix, m: seq<int>)
    requires Digits(ds, base) && m == MultiplyAdd(ds, carry, mul, base)
    requires Normal(ds) || (|ds| == 1 && carry > 0)
    ensures Normal(m)
  {
    if ds != [] {
      var first, rest := ds[0], ds[1..];
      var t := carry + Times(mul, first);
      var later := MultiplyAdd(rest, Quotient(t, base), mul, base);
      assert ds == [first] + rest;
      MultiplyAddNext(first, rest, carry, mul, base, later);
      if rest == [] {
        LoneDigitNormal(first, carry, mul, base, m);
      } else {
        TailNormal(ds);
        MultiplyAddNormal(rest, Quotient(t, base), mul, base, later);
        ConsNormal(Remainder(t, base), later);
      }
    }
  }

  /** One digit of the loop: stores the low part, carries the rest; the carry stays below `mul`. */
  method StepDigit(carry: nat, d: nat, mul: Radix, base: Radix, ghost rest: seq<int>) returns (digit: nat, next: nat)
    requires carry < mul && d < base && Digits(rest, base)
    ensures digit < base && next < mul
    ensures MultiplyAdd([d] + rest, carry, mul, base) == [digit] + MultiplyAdd(rest, next, mul, base)
  {
    var t := carry + Times(mul, d);
    digit, next := Remainder(t, base), Quotient(t, base);
    MultiplyAddNext(d, rest, carry, mul, base, MultiplyAdd(rest, next, mul, base));
  }

  /** Grows the list while carry remains. */
  method PushCarry(digits: seq<int>, carried: nat, base: Radix) returns (r: seq<int>)
    ensures r == digits + DigitsOf(carried, base)
  {
    r := digits;
    var carry: nat := carried;
    while carry > 0
      invariant r + DigitsOf(carry, base) == digits + DigitsOf(carried, base)
      decreases carry
    {
      ghost var q, d := Quotient(carry, base), Remainder(carry, base);
      assert r + ([d] + DigitsOf(q, base)) == (r + [d]) + DigitsOf(q, base);
      r := r + [Remainder(carry, base)];
      carry := Quotient(carry, base);
    }
  }

  lemma {:induction false} SplitAt(s: seq<int>, k: nat, digit: int)
    requires k < |s|
    ensures s[k..] == [s[k]] + s[k + 1..]
    ensures s[k := digit][..k + 1] == s[..k] + [digit]
    ensures s[k := digit][k + 1..] == s[k + 1..]
  {
  }

  lemma {:induction false} Regroup(a: seq<int>, x: int, b: seq<int>)
    ensures a + ([x] + b) == (a + [x]) + b
  {
  }

  /** What is rewritten so far, followed by the step on the rest, is the whole step. */
  ghost predicate StepSoFar(r: seq<int>, k: nat, carry: nat, mul: Radix, base: Radix, goal: seq<int>) {
    k <= |r| && carry < mul && Digits(r[k..], base) && r[..k] + MultiplyAdd(r[k..], carry, mul, base) == goal
  }

  lemma {:induction false} StepStart(digits: seq<int>, addend: nat, mul: Radix, base: Radix)
    requires addend < mul && Digits(digits, base)
    ensures StepSoFar(digits, 0, addend, mul, base, MultiplyAdd(digits, addend, mul, base))
  {
    assert digits[0..] == digits && digits[..0] == [];
  }

  lemma {:induction false} StepNext(
      r: seq<int>, k: nat, carry: nat, mul: Radix, base: Radix, goal: seq<int>, digit: int, next: nat)
    requires k < |r| && StepSoFar(r, k, carry, mul, base, goal) && next < mul
    requires Digits(r[k + 1..], base)
    requires MultiplyAdd([r[k]] + r[k + 1..], carry, mul, base) == [digit] + MultiplyAdd(r[k + 1..], next, mul, base)
    ensures StepSoFar(r[k := digit], k + 1, next, mul, base, goal)
  {
    SplitAt(r, k, digit);
    Regroup(r[..k], digit, MultiplyAdd(r[k + 1..], next, mul, base));
  }

  /** Rewrites every digit in place with a carry, then grows the list. */
  method MultiplyAddInPlace(digits: seq<int>, addend: nat, mul: Radix, base: Radix) returns (r: seq<int>)
    requires addend < mul && Digits(digits, base)
    ensures r == MultiplyAdd(digits, addend, mul, base)
  {
    r := digits;
    var carry: nat := addend;
    ghost var goal := MultiplyAdd(digits, addend, mul, base);
    StepStart(digits, addend, mul, base);
    for k := 0 to |digits|
      invariant |r| == |digits| && StepSoFar(r, k, carry, mul, base, goal)
    {
      RestDigits(r, k, base);
      var digit, next := StepDigit(carry, r[k], mul, base, r[k + 1..]);
      StepNext(r, k, carry, mul, base, goal, digit, next);
      r := r[k := digit];
      carry := next;
    }
    assert r[..|r|] == r && r[|r|..] == [];
    r := PushCarry(r, carry, base);
  }

  lemma {:induction false} RestDigits(r: seq<int>, k: nat, base: Radix)
    requires k < |r| && Digits(r[k..], base)
    ensures 0 <= r[k] < base && Digits(r[k + 1..], base)
  {
    assert r[k..][0] == r[k];
  }

  /** The list holds the normal digits, in base `base`, of the number read so far in base `mul`. */
  ghost predicate Denotes(digits: seq<int>, xs: seq<int>, mul: Radix, base: Radix) {
    Digits(xs, mul) && digits == DigitsOf(Number(xs, mul), base)
  }

  ghost predicate Fresh(digits: seq<int>, xs: seq<int>, x: int) {
    digits == [0] && xs == [] && x > 0
  }

  lemma {:induction false} DenotesByValue(ds: seq<int>, xs: seq<int>, mul: Radix, base: Radix)
    requires Digits(xs, mul) && Digits(ds, base) && Normal(ds) && Value(ds, base) == Fold(xs, mul)
    ensures Denotes(ds, xs, mul, base)
  {
    NormalDigitsUnique(ds, base);
  }

  lemma {:induction false} ValueOfDenoted(ds: seq<int>, xs: seq<int>, mul: Radix, base: Radix)
    requires Denotes(ds, xs, mul, base)
    ensures Digits(xs, mul) && Digits(ds, base) && Normal(ds) && Value(ds, base) == Fold(xs, mul)
  {
    ValueDigitsOf(Number(xs, mul), base);
  }

  lemma {:induction false} DigitsAppend(xs: seq<int>, x: int, base: Radix)
    requires Digits(xs, base) && 0 <= x < base
    ensures Digits(xs + [x], base)
  {
  }

  /** One input digit: multiply what was read by `mul` and add `x`. */
  method AppendDigit(digits: seq<int>, x: nat, mul: Radix, base: Radix, ghost xs: seq<int>) returns (r: seq<int>)
    requires x < mul
    requires Denotes(digits, xs, mul, base) || Fresh(digits, xs, x)
    ensures Denotes(r, xs + [x], mul, base)
  {
    if !Fresh(digits, xs, x) {
      ValueOfDenoted(digits, xs, mul, base);
    }
    r := MultiplyAddInPlace(digits, x, mul, base);
    MultiplyAddValue(digits, x, mul, base, r);
    MultiplyAddNormal(digits, x, mul, base, r);
    FoldAppend(xs, x, mul);
    DigitsAppend(xs, x, mul);
    DenotesByValue(r, xs + [x], mul, base);
  }

  //// The encoder

  method CountLeading<T(==)>(s: seq<T>, x: T) returns (n: nat)
    ensures n == LeadingCount(s, x)
  {
    n := 0;
    while n < |s| && s[n] == x
      invariant n <= |s| && forall i :: 0 <= i < n ==> s[i] == x
    {
      n := n + 1;
    }
    LeadingCountUnique(s, x, n);
  }

  /** Base-58 digits of nonempty bytes without a leading zero. */
  method ConvertBytes(bytes: seq<byte>) returns (digits: seq<int>)
    requires bytes != [] && bytes[0] != 0
    ensures digits == DigitsOf(Number(bytes, 256), 58)
  {
    digits := [0];
    for i := 0 to |bytes|
      invariant if i == 0 then digits == [0] else Denotes(digits, bytes[..i], 256, 58)
    {
      assert bytes[..i] + [bytes[i]] == bytes[..i + 1];
      digits := AppendDigit(digits, bytes[i], 256, 58, bytes[..i]);
    }
    assert bytes[..|bytes|] == bytes;
  }

  /** Writes the digits behind the leading '1's, most significant first. */
  method Render(leading: nat, digits: seq<int>) returns (encoded: string)
    requires Digits(digits, 58)
    ensures encoded == Ones(leading) + Characters(Reverse(digits))
  {
    encoded := Ones(leading);
    for k := |digits| downto 0
      invariant |encoded| == leading + |digits| - k
      invariant forall i :: 0 <= i < |encoded| ==>
        encoded[i] == if i < leading then '1' else DigitChar(digits[|digits| - 1 - (i - leading)])
    {
      encoded := encoded + [DigitChar(digits[k])];
    }
  }

  method EncodeBase58(bytes: seq<byte>) returns (encoded: string)
    ensures encoded == Encode(bytes)
  {
    if |bytes| == 0 {
      return "";
    }
    var leading := CountLeading(bytes, 0);
    FoldLeadingZeros(bytes, leading, 256);
    if leading == |bytes| {
      assert Number(bytes, 256) == 0;
      return Ones(leading);
    }
    var digits := ConvertBytes(bytes[leading..]);
    encoded := Render(leading, digits);
  }

  //// The three decoders

  lemma {:induction false} FirstInvalidIs(s: string, n: nat)
    requires n < |s| && CharIndex(s[n]) < 0 && forall i :: 0 <= i < n ==> CharIndex(s[i]) >= 0
    ensures Decode(s) == Err(InvalidCharacter(n))
  {
    assert FirstInvalid(s) == n;
  }

  lemma {:induction false} AllValid(s: string)
    requires Valid(s)
    ensures Decode(s) == Ok(DecodeValid(s))
  {
    assert FirstInvalid(s) == |s|;
  }

  /** Reverses little-endian bytes behind the leading zeros. */
  method Assemble(leading: nat, little: seq<int>) returns (bytes: seq<byte>)
    requires Digits(little, 256)
    ensures bytes == Zeros(leading) + Reverse(little)
  {
    bytes := Zeros(leading + |little|);
    for k := 0 to |little|
      invariant |bytes| == leading + |little|
      invariant forall i :: 0 <= i < |bytes| ==>
        bytes[i] == if i < |bytes| - k then 0 else little[|bytes| - 1 - i]
    {
      bytes := bytes[|bytes| - 1 - k := little[k]];
    }
  }

  /**
   Reads the characters from index `start` on into `initial`. Returns the index of the first
   invalid one, or the length together with the base-256 digits.
   */
  method ConvertCharacters(s: string, start: nat, initial: seq<int>) returns (stop: nat, digits: seq<int>)
    requires start < |s| && forall j :: 0 <= j < start ==> CharIndex(s[j]) >= 0
    requires initial == [] || (initial == [0] && CharIndex(s[start]) != 0)
    ensures stop <= |s| && forall j :: 0 <= j < stop ==> CharIndex(s[j]) >= 0
    ensures stop < |s| ==> CharIndex(s[stop]) < 0
    ensures stop == |s| ==> Valid(s) && Denotes(digits, Indexes(s)[start..], 58, 256)
  {
    digits := initial;
    ghost var xs := Indexes(s)[start..];
    ghost var read: seq<int> := [];
    for i := start to |s|
      invariant ValidUpTo(s, i)
      invariant read == xs[..i - start] && Reading(digits, read, initial)
    {
      var index := CharIndex(s[i]);
      if index < 0 {
        return i, digits;
      }
      OneMoreValid(s, i);
      FirstRead(s, start, i, read, initial);
      ReadingNext(digits, read, initial, index);
      digits := AppendDigit(digits, index, 58, 256, read);
      IndexAt(s, start, i);
      TakeNext(xs, i - start);
      read := read + [index];
    }
    TakeAll(xs);
    return |s|, digits;
  }

  ghost predicate ValidUpTo(s: string, i: nat) {
    i <= |s| && forall j :: 0 <= j < i ==> CharIndex(s[j]) >= 0
  }

  lemma {:induction false} OneMoreValid(s: string, i: nat)
    requires i < |s| && ValidUpTo(s, i) && CharIndex(s[i]) >= 0
    ensures ValidUpTo(s, i + 1)
  {
  }

  lemma {:induction false} IndexAt(s: string, start: nat, i: nat)
    requires start <= i < |s|
    ensures Indexes(s)[start..][i - start] == CharIndex(s[i])
  {
  }

  lemma {:induction false} FirstRead(s: string, start: nat, i: nat, read: seq<int>, initial: seq<int>)
    requires start <= i < |s| && read == Indexes(s)[start..][..i - start] && CharIndex(s[i]) >= 0
    requires initial == [] || (initial == [0] && CharIndex(s[start]) != 0)
    ensures initial == [] || (initial == [0] && (read == [] ==> CharIndex(s[i]) != 0))
  {
  }

  /** Before the first character the initial digits, then those of what was read. */
  ghost predicate Reading(digits: seq<int>, read: seq<int>, initial: seq<int>) {
    if read == [] then digits == initial else Denotes(digits, read, 58, 256)
  }

  lemma {:induction false} ReadingNext(digits: seq<int>, read: seq<int>, initial: seq<int>, index: nat)
    requires Reading(digits, read, initial)
    requires initial == [] || (initial == [0] && (read == [] ==> index != 0))
    ensures Denotes(digits, read, 58, 256) || Fresh(digits, read, index)
  {
    if read == [] && initial == [] {
      DenotesByValue([], [], 58, 256);
    }
  }

  /** The reference decoder: skips leading '1's, then starts from the digit list [0]. */
  method DecodeBase58(encoded: string) returns (r: Result<seq<byte>, Base58Error>)
    ensures r == Decode(encoded)
  {
    if |encoded| == 0 {
      AllValid(encoded);
      assert Number(Indexes(encoded), 58) == 0;
      assert DecodeValid(encoded) == [];
      return Ok([]);
    }
    var leading := CountLeading(encoded, '1');
    CharIndexOfDigit(0);
    FoldLeadingZeros(Indexes(encoded), leading, 58);
    if leading == |encoded| {
      AllValid(encoded);
      assert Number(Indexes(encoded), 58) == 0;
      assert DecodeValid(encoded) == Zeros(leading);
      return Ok(Zeros(leading));
    }
    var stop, digits := ConvertCharacters(encoded, leading, [0]);
    if stop < |encoded| {
      FirstInvalidIs(encoded, stop);
      return Err(InvalidCharacter(stop));
    }
    AllValid(encoded);
    var bytes := Assemble(leading, digits);
    return Ok(bytes);
  }

  /** The integration decoder: starts from the empty list and feeds it every character. */
  method DecodeBase58FromEmpty(value: string) returns (r: Result<seq<byte>, Base58Error>)
    ensures r == if value == "" then Err(EmptyInput) else Decode(value)
  {
    if |value| == 0 {
      return Err(EmptyInput);
    }
    var stop, little := ConvertCharacters(value, 0, []);
    if stop < |value| {
      FirstInvalidIs(value, stop);
      return Err(InvalidCharacter(stop));
    }
    AllValid(value);
    assert Indexes(value)[0..] == Indexes(value);
    var leading := CountLeading(value, '1');
    var bytes := Assemble(leading, little);
    return Ok(bytes);
  }

  //// The big-integer decoder

  function BitLength(n: nat): nat {
    if n == 0 then 0 else 1 + BitLength(n / 2)
  }

  /** The `length`-byte big-endian form of a number; the high part is lost if it does not fit. */
  function BigEndianBytes(n: nat, length: nat): (r: seq<byte>)
    ensures |r| == length
  {
    if length == 0 then [] else BigEndianBytes(n / 256, length - 1) + [n % 256]
  }

  lemma {:induction false} BitLengthByByte(n: nat)
    requires n >= 256
    ensures BitLength(n) == 8 + BitLength(n / 256)
  {
    assert n / 2 / 2 == n / 4 && n / 4 / 2 == n / 8 && n / 8 / 2 == n / 16 && n / 16 / 2 == n / 32;
    assert n / 32 / 2 == n / 64 && n / 64 / 2 == n / 128 && n / 128 / 2 == n / 256;
    assert BitLength(n) == 1 + BitLength(n / 2);
    assert BitLength(n / 2) == 1 + BitLength(n / 4);
    assert BitLength(n / 4) == 1 + BitLength(n / 8);
    assert BitLength(n / 8) == 1 + BitLength(n / 16);
    assert BitLength(n / 16) == 1 + BitLength(n / 32);
    assert BitLength(n / 32) == 1 + BitLength(n / 64);
    assert BitLength(n / 64) == 1 + BitLength(n / 128);
  }

  lemma {:induction false} BitLengthOfByte(n: nat)
    requires 0 < n < 256
    ensures 1 <= BitLength(n) <= 8
  {
    assert n / 2 / 2 == n / 4 && n / 4 / 2 == n / 8 && n / 8 / 2 == n / 16 && n / 16 / 2 == n / 32;
    assert n / 32 / 2 == n / 64 && n / 64 / 2 == n / 128 && n / 128 / 2 == 0;
    assert BitLength(n / 16) <= 4 by {
      assert BitLength(n / 64) <= 2 by {
        assert BitLength(n / 128) <= 1;
      }
      assert BitLength(n / 32) <= 3;
    }
    assert BitLength(n / 4) <= 6 by {
      assert BitLength(n / 8) <= 5;
    }
    assert BitLength(n / 2) <= 7;
  }

  /** Rounding the bit length up to bytes gives exactly the normal base-256 digits, reversed. */
  lemma {:induction false} MinimalBytes(n: nat)
    ensures BigEndianBytes(n, (BitLength(n) + 7) / 8) == Reverse(DigitsOf(n, 256))
  {
    if n == 0 {
      NoByte();
    } else if n < 256 {
      BitLengthOfByte(n);
      assert (BitLength(n) + 7) / 8 == 1;
      OneByte(n);
    } else {
      BitLengthByByte(n);
      MinimalBytes(n / 256);
      NextByte(n, (BitLength(n / 256) + 7) / 8);
    }
  }

  lemma {:induction false} NoByte()
    ensures BigEndianBytes(0, (BitLength(0) + 7) / 8) == Reverse(DigitsOf(0, 256))
  {
  }

  lemma {:induction false} OneByte(n: nat)
    requires 0 < n < 256
    ensures BigEndianBytes(n, 1) == Reverse(DigitsOf(n, 256))
  {
    assert n / 256 == 0 && n % 256 == n;
    assert DigitsOf(n, 256) == [n] + DigitsOf(0, 256);
    assert BigEndianBytes(n, 1) == [n];
  }

  lemma {:induction false} NextByte(n: nat, k: nat)
    requires n > 0 && BigEndianBytes(n / 256, k) == Reverse(DigitsOf(n / 256, 256))
    ensures BigEndianBytes(n, k + 1) == Reverse(DigitsOf(n, 256))
  {
    var rest := DigitsOf(n / 256, 256);
    assert DigitsOf(n, 256) == [n % 256] + rest;
    assert Reverse([n % 256] + rest) == Reverse(rest) + [n % 256];
  }

  function MinimalBigEndian(n: nat): (r: seq<byte>)
    ensures r == Reverse(DigitsOf(n, 256))
  {
    MinimalBytes(n);
    if n == 0 then [] else BigEndianBytes(n, (BitLength(n) + 7) / 8)
  }

  /** The simple form: one big integer, then its minimal big-endian bytes. */
  method DecodeBase58BigInteger(value: string) returns (r: Result<seq<byte>, Base58Error>)
    ensures r == if value == "" then Err(EmptyInput) else Decode(value)
  {
    if |value| == 0 {
      return Err(EmptyInput);
    }
    var number: nat := 0;
    ghost var read: seq<int> := [];
    for i := 0 to |value|
      invariant ValidUpTo(value, i) && read == Indexes(value)[..i] && number == Fold(read, 58)
    {
      var digit := CharIndex(value[i]);
      if digit < 0 {
        FirstInvalidIs(value, i);
        return Err(InvalidCharacter(i));
      }
      OneMoreValid(value, i);
      FoldAppend(read, digit, 58);
      TakeNext(Indexes(value), i);
      number := number * 58 + digit;
      read := read + [digit];
    }
    AllValid(value);
    TakeAll(Indexes(value));
    var encoded := MinimalBigEndian(number);
    var leading := CountLeading(value, '1');
    return Ok(Zeros(leading) + encoded);
  }
}
