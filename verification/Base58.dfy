/**
 Base58 text for byte strings, as a bijection between all byte strings and the accepted texts.
 */
module Base58 {
  import opened Wrappers
  import opened Bytes

  const ALPHABET: string :=
    "123456789" + "ABCDEFGH" + "JKLMN" + "PQRSTUVWXYZ" + "abcdefghijk" + "mnopqrstuvwxyz"

  datatype Base58Error = EmptyInput | InvalidCharacter(index: nat) | WrongLength(length: nat)

  //// The alphabet

  function Find(s: string, c: char): (r: int)
    ensures -1 <= r < |s|
    ensures r >= 0 ==> s[r] == c
    ensures r == -1 ==> c !in s
  {
    if s == [] then -1
    else if s[|s| - 1] == c then |s| - 1
    else Find(s[..|s| - 1], c)
  }

  function DigitChar(d: int): char
    requires 0 <= d < 58
  {
    ALPHABET[d]
  }

  /** The digit a character stands for, or -1. */
  function CharIndex(c: char): (r: int)
    ensures -1 <= r < 58
    ensures r >= 0 ==> DigitChar(r) == c
  {
    Find(ALPHABET, c)
  }

  lemma {:induction false} LowerHalfAscends(i: nat)
    requires i < 28
    ensures DigitChar(i) < DigitChar(i + 1)
  {
  }

  lemma {:induction false} UpperHalfAscends(i: nat)
    requires 28 <= i < 57
    ensures DigitChar(i) < DigitChar(i + 1)
  {
  }

  lemma {:induction false} AlphabetAscends(i: nat)
    requires i < 57
    ensures DigitChar(i) < DigitChar(i + 1)
  {
    if i < 28 {
      LowerHalfAscends(i);
    } else {
      UpperHalfAscends(i);
    }
  }

  lemma {:induction false} Ascending(s: string, i: nat, j: nat)
    requires forall k :: 0 < k < |s| ==> s[k - 1] < s[k]
    requires i < j < |s|
    ensures s[i] < s[j]
  {
    if i + 1 < j {
      Ascending(s, i, j - 1);
    }
  }

  lemma {:induction false} AlphabetOrdered(i: nat, j: nat)
    requires i < j < 58
    ensures DigitChar(i) < DigitChar(j)
  {
    forall k | 0 < k < |ALPHABET|
      ensures ALPHABET[k - 1] < ALPHABET[k]
    {
      AlphabetAscends(k - 1);
    }
    Ascending(ALPHABET, i, j);
  }

  /** Characters and digits are in one-to-one correspondence. */
  lemma {:induction false} CharIndexOfDigit(d: nat)
    requires d < 58
    ensures CharIndex(DigitChar(d)) == d
  {
    var k := CharIndex(DigitChar(d));
    assert DigitChar(d) in ALPHABET;
    if k < d {
      AlphabetOrdered(k, d);
    } else if k > d {
      AlphabetOrdered(d, k);
    }
  }

  //// Specification

  /** How many elements at the front equal `x`. */
  function LeadingCount<T(==)>(s: seq<T>, x: T): (n: nat)
    ensures n <= |s|
    ensures forall i :: 0 <= i < n ==> s[i] == x
    ensures n < |s| ==> s[n] != x
  {
    if s == [] || s[0] != x then 0 else 1 + LeadingCount(s[1..], x)
  }

  lemma {:induction false} LeadingCountUnique<T>(s: seq<T>, x: T, n: nat)
    requires n <= |s|
    requires forall i :: 0 <= i < n ==> s[i] == x
    requires n < |s| ==> s[n] != x
    ensures LeadingCount(s, x) == n
  {
    if n > 0 {
      LeadingCountUnique(s[1..], x, n - 1);
    }
  }

  function Ones(n: nat): (r: string)
    ensures |r| == n && forall i :: 0 <= i < n ==> r[i] == '1'
  {
    seq(n, _ => '1')
  }

  function Characters(ds: seq<int>): (r: string)
    requires Digits(ds, 58)
    ensures |r| == |ds| && forall i :: 0 <= i < |ds| ==> r[i] == DigitChar(ds[i])
  {
    seq(|ds|, i requires 0 <= i < |ds| => DigitChar(ds[i]))
  }

  ghost predicate Valid(s: string) {
    forall i :: 0 <= i < |s| ==> CharIndex(s[i]) >= 0
  }

  function Indexes(s: string): (r: seq<int>)
    ensures |r| == |s| && forall i :: 0 <= i < |s| ==> r[i] == CharIndex(s[i])
    ensures Valid(s) ==> Digits(r, 58)
  {
    seq(|s|, i requires 0 <= i < |s| => CharIndex(s[i]))
  }

  /** The index of the first character outside the alphabet, or the length. */
  function FirstInvalid(s: string): (n: nat)
    ensures n <= |s|
    ensures forall i :: 0 <= i < n ==> CharIndex(s[i]) >= 0
    ensures n < |s| ==> CharIndex(s[n]) < 0
  {
    if s == [] || CharIndex(s[0]) < 0 then 0 else 1 + FirstInvalid(s[1..])
  }

  /** `z` leading '1's, then `n` in base 58. */
  function Text(z: nat, n: nat): string {
    Ones(z) + Characters(Reverse(DigitsOf(n, 58)))
  }

  /** `z` leading zero bytes, then `n` in base 256. */
  function Raw(z: nat, n: nat): seq<byte> {
    Zeros(z) + Reverse(DigitsOf(n, 256))
  }

  /** One '1' for each leading zero byte, then the number of the bytes in base 58. */
  function Encode(bytes: seq<byte>): string {
    Text(LeadingCount(bytes, 0), Number(bytes, 256))
  }

  /** One zero byte for each leading '1', then the number of the characters in base 256. */
  function DecodeValid(s: string): (bytes: seq<byte>)
    requires Valid(s)
  {
    Raw(LeadingCount(s, '1'), Number(Indexes(s), 58))
  }

  function Decode(s: string): Result<seq<byte>, Base58Error> {
    if FirstInvalid(s) < |s| then Err(InvalidCharacter(FirstInvalid(s))) else Ok(DecodeValid(s))
  }

  //// Encode and Decode are inverse

  /** A digit string without a leading zero is the reversal of its number's normal digits. */
  lemma {:induction false} StrippedDigits(rest: seq<int>, base: Radix)
    requires Digits(rest, base)
    requires rest != [] ==> rest[0] != 0
    ensures rest == Reverse(DigitsOf(Number(rest, base), base))
  {
    var ds := Reverse(rest);
    ReverseReverse(rest);
    FoldReverse(ds, base);
    NormalDigitsUnique(ds, base);
  }

  /** Every digit string is its leading zeros followed by the normal digits of its number. */
  lemma {:induction false} NormalRemainder(xs: seq<int>, base: Radix)
    requires Digits(xs, base)
    ensures xs == Zeros(LeadingCount(xs, 0)) + Reverse(DigitsOf(Number(xs, base), base))
  {
    var z := LeadingCount(xs, 0);
    FoldLeadingZeros(xs, z, base);
    StrippedDigits(xs[z..], base);
    SplitZeros(xs, z);
  }

  lemma {:induction false} SplitZeros(xs: seq<int>, z: nat)
    requires z <= |xs| && forall i :: 0 <= i < z ==> xs[i] == 0
    ensures xs == Zeros(z) + xs[z..]
  {
  }

  /** Zeros in front of normal digits count exactly as leading zeros and do not change the number. */
  lemma {:induction false} PaddedNumber(z: nat, n: nat, base: Radix)
    ensures var xs := Zeros(z) + Reverse(DigitsOf(n, base));
            Digits(xs, base) && LeadingCount(xs, 0) == z && Number(xs, base) == n
  {
    var rest := Reverse(DigitsOf(n, base));
    var xs := Zeros(z) + rest;
    LeadingCountUnique(xs, 0, z);
    FoldLeadingZeros(xs, z, base);
    assert xs[z..] == rest;
    FoldReverse(DigitsOf(n, base), base);
    ValueDigitsOf(n, base);
  }

  /** The characters '1' and the other characters map to the digit 0 and the other digits. */
  lemma {:induction false} LeadingCharacters(s: string)
    requires Valid(s)
    ensures LeadingCount(s, '1') == LeadingCount(Indexes(s), 0)
  {
    var n := LeadingCount(Indexes(s), 0);
    CharIndexOfDigit(0);
    forall i | 0 <= i < |s|
      ensures Indexes(s)[i] == 0 <==> s[i] == '1'
    {
      assert DigitChar(CharIndex(s[i])) == s[i];
    }
    LeadingCountUnique(s, '1', n);
  }

  /** The text of a digit string is read back as the same digits. */
  lemma {:induction false} IndexesOfText(z: nat, ds: seq<int>)
    requires Digits(ds, 58)
    ensures var s := Ones(z) + Characters(ds); Valid(s) && Indexes(s) == Zeros(z) + ds
  {
    var s, xs := Ones(z) + Characters(ds), Zeros(z) + ds;
    forall i | 0 <= i < |s|
      ensures CharIndex(s[i]) == xs[i]
    {
      CharIndexOfDigit(xs[i]);
      assert s[i] == DigitChar(xs[i]);
    }
  }

  /** Text is determined by its digits. */
  lemma {:induction false} TextOfIndexes(s: string, z: nat, ds: seq<int>)
    requires Valid(s) && Digits(ds, 58) && Indexes(s) == Zeros(z) + ds
    ensures s == Ones(z) + Characters(ds)
  {
    var xs, t := Indexes(s), Ones(z) + Characters(ds);
    assert |xs| == |s| == z + |ds| == |t|;
    forall i | 0 <= i < |s|
      ensures s[i] == t[i]
    {
      assert s[i] == DigitChar(xs[i]);
      if i < z {
        assert xs[i] == 0 && t[i] == '1';
      } else {
        assert xs[i] == ds[i - z];
      }
    }
  }

  lemma {:induction false} ReadText(z: nat, n: nat)
    ensures var s := Text(z, n);
            Valid(s) && LeadingCount(s, '1') == z && Number(Indexes(s), 58) == n
  {
    IndexesOfText(z, Reverse(DigitsOf(n, 58)));
    PaddedNumber(z, n, 58);
    LeadingCharacters(Text(z, n));
  }

  lemma {:induction false} WriteText(s: string)
    requires Valid(s)
    ensures s == Text(LeadingCount(s, '1'), Number(Indexes(s), 58))
  {
    LeadingCharacters(s);
    NormalRemainder(Indexes(s), 58);
    TextOfIndexes(s, LeadingCount(s, '1'), Reverse(DigitsOf(Number(Indexes(s), 58), 58)));
  }

  /** Counting zero bytes is counting zeros among the same numbers. */
  lemma {:induction false} LeadingZeroBytes(bytes: seq<byte>)
    ensures LeadingCount<byte>(bytes, 0) == LeadingCount<int>(bytes, 0)
  {
    LeadingCountUnique<int>(bytes, 0, LeadingCount<byte>(bytes, 0));
  }

  /** The text of a number with leading zeros decodes to its bytes, */
  lemma {:induction false} DecodeText(z: nat, n: nat)
    ensures Decode(Text(z, n)) == Ok(Raw(z, n))
  {
    ReadText(z, n);
  }

  /** and its bytes encode to the text. */
  lemma {:induction false} EncodeRaw(z: nat, n: nat)
    ensures Encode(Raw(z, n)) == Text(z, n)
  {
    PaddedNumber(z, n, 256);
    LeadingZeroBytes(Raw(z, n));
  }

  /** Every byte string is that of its number with its leading zeros. */
  lemma {:induction false} RawOf(bytes: seq<byte>)
    ensures Raw(LeadingCount(bytes, 0), Number(bytes, 256)) == bytes
  {
    NormalRemainder(bytes, 256);
    LeadingZeroBytes(bytes);
  }

  /** Decoding undoes encoding, for every byte string. */
  lemma {:induction false} DecodeEncode(bytes: seq<byte>)
    ensures Decode(Encode(bytes)) == Ok(bytes)
  {
    DecodeText(LeadingCount(bytes, 0), Number(bytes, 256));
    RawOf(bytes);
  }

  /** Encoding undoes decoding, for every string over the alphabet. */
  lemma {:induction false} EncodeDecode(s: string)
    requires Decode(s).Ok?
    ensures Encode(Decode(s).value) == s
  {
    EncodeRaw(LeadingCount(s, '1'), Number(Indexes(s), 58));
    WriteText(s);
  }

  //// Public keys

  function DecodePublicKey(s: string): (r: Result<seq<byte>, Base58Error>)
    ensures r.Ok? ==> |r.value| == 32
  {
    match Decode(s)
    case Err(e) => Err(e)
    case Ok(bytes) => if |bytes| != 32 then Err(WrongLength(|bytes|)) else Ok(bytes)
  }

  function NormalizePublicKey(s: string): Result<string, Base58Error> {
    match DecodePublicKey(s)
    case Err(e) => Err(e)
    case Ok(bytes) => Ok(Encode(bytes))
  }

  /** Normalizing is the identity on every string it accepts. */
  lemma {:induction false} NormalizeIsIdentity(s: string)
    ensures NormalizePublicKey(s).Ok? <==> DecodePublicKey(s).Ok?
    ensures NormalizePublicKey(s).Ok? ==> NormalizePublicKey(s).value == s
  {
    if DecodePublicKey(s).Ok? {
      EncodeDecode(s);
    }
  }

  /** Comparing two accepted addresses as strings is comparing their 32 bytes. */
  lemma {:induction false} AddressEqualityIsByteEquality(s: string, t: string)
    requires DecodePublicKey(s).Ok? && DecodePublicKey(t).Ok?
    ensures s == t <==> DecodePublicKey(s).value == DecodePublicKey(t).value
  {
    EncodeDecode(s);
    EncodeDecode(t);
  }

  lemma {:induction false} EncodeIsKey(bytes: seq<byte>)
    requires |bytes| == 32
    ensures DecodePublicKey(Encode(bytes)) == Ok(bytes)
  {
    DecodeEncode(bytes);
  }
}
