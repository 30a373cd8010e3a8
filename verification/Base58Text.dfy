/** Base58 without reference to how it is computed: which characters count, for how much, and what a text denotes. */
module Base58Text {
  import opened Wrappers
  import opened Bytes
  import opened Base58

  //// The characters

  /** Digits and letters, without zero, capital I and O, and small l. */
  predicate IsDigit(c: char) {
    || '1' <= c <= '9'
    || ('A' <= c <= 'Z' && c != 'I' && c != 'O')
    || ('a' <= c <= 'z' && c != 'l')
  }

  /** How much a character counts: the position among these characters. */
  function Worth(c: char): nat
    requires IsDigit(c)
  {
    if c <= '9' then c as int - '1' as int
    else if c <= 'H' then 9 + (c as int - 'A' as int)
    else if c <= 'N' then 17 + (c as int - 'J' as int)
    else if c <= 'Z' then 22 + (c as int - 'P' as int)
    else if c <= 'k' then 33 + (c as int - 'a' as int)
    else 44 + (c as int - 'm' as int)
  }

  lemma {:induction false} LowDigits(d: nat)
    requires d < 22
    ensures IsDigit(DigitChar(d)) && Worth(DigitChar(d)) == d
  {
  }

  lemma {:induction false} MiddleDigits(d: nat)
    requires 22 <= d < 40
    ensures IsDigit(DigitChar(d)) && Worth(DigitChar(d)) == d
  {
  }

  lemma {:induction false} HighDigits(d: nat)
    requires 40 <= d < 58
    ensures IsDigit(DigitChar(d)) && Worth(DigitChar(d)) == d
  {
  }

  lemma {:induction false} DigitIs(d: nat)
    requires d < 58
    ensures IsDigit(DigitChar(d)) && Worth(DigitChar(d)) == d
  {
    if d < 22 {
      LowDigits(d);
    } else if d < 40 {
      MiddleDigits(d);
    } else {
      HighDigits(d);
    }
  }

  lemma {:induction false} WorthTells(a: char, b: char)
    requires IsDigit(a) && IsDigit(b)
    ensures Worth(a) < 58 && (Worth(a) == Worth(b) ==> a == b)
  {
  }

  /** A character stands for its worth, and any other for nothing. */
  lemma {:induction false} CharIndexIs(c: char)
    ensures CharIndex(c) == if IsDigit(c) then Worth(c) else -1
  {
    if CharIndex(c) >= 0 {
      DigitIs(CharIndex(c));
    }
    if IsDigit(c) {
      WorthTells(c, c);
      DigitIs(Worth(c));
      WorthTells(c, DigitChar(Worth(c)));
      CharIndexOfDigit(Worth(c));
    }
  }

  //// The number of a text

  ghost predicate AllDigits(s: string) {
    forall i :: 0 <= i < |s| ==> IsDigit(s[i])
  }

  /** The number a text denotes to base 58. */
  function TextNumber(s: string): nat
    requires forall i :: 0 <= i < |s| ==> IsDigit(s[i])
  {
    if s == "" then 0 else 58 * TextNumber(s[..|s| - 1]) + Worth(s[|s| - 1])
  }

  /** The number bytes denote to base 256, the most significant first. */
  function ByteNumber(bytes: seq<byte>): nat {
    if bytes == [] then 0 else 256 * ByteNumber(bytes[..|bytes| - 1]) + bytes[|bytes| - 1]
  }

  lemma {:induction false} ValidExactly(s: string)
    ensures Valid(s) <==> AllDigits(s)
  {
    forall i | 0 <= i < |s|
      ensures CharIndex(s[i]) >= 0 <==> IsDigit(s[i])
    {
      CharIndexIs(s[i]);
    }
  }

  lemma {:induction false} TextNumberIs(s: string)
    requires AllDigits(s)
    ensures Fold(Indexes(s), 58) == TextNumber(s)
  {
    if s != "" {
      var init := s[..|s| - 1];
      CharIndexIs(s[|s| - 1]);
      TextNumberIs(init);
      assert Indexes(s)[..|s| - 1] == Indexes(init);
    }
  }

  lemma {:induction false} ByteNumberIs(bytes: seq<byte>)
    ensures Fold(bytes, 256) == ByteNumber(bytes)
  {
    if bytes != [] {
      ByteNumberIs(bytes[..|bytes| - 1]);
    }
  }

  /** As many '1's in front of a text as zero bytes in front of a byte string. */
  ghost predicate SameZeros(s: string, bytes: seq<byte>) {
    exists z: nat ::
      z <= |s| && z <= |bytes|
      && (forall i :: 0 <= i < z ==> s[i] == '1' && bytes[i] == 0)
      && (z < |s| ==> s[z] != '1') && (z < |bytes| ==> bytes[z] != 0)
  }

  /** A text of digits that denotes the number of the bytes, with a '1' for each leading zero byte. */
  ghost predicate Denotes(s: string, bytes: seq<byte>) {
    AllDigits(s) && TextNumber(s) == ByteNumber(bytes) && SameZeros(s, bytes)
  }

  lemma {:induction false} SameZerosIs(s: string, bytes: seq<byte>)
    ensures SameZeros(s, bytes) <==> LeadingCount(s, '1') == LeadingCount(bytes, 0)
  {
    if SameZeros(s, bytes) {
      var z: nat :| z <= |s| && z <= |bytes|
        && (forall i :: 0 <= i < z ==> s[i] == '1' && bytes[i] == 0)
        && (z < |s| ==> s[z] != '1') && (z < |bytes| ==> bytes[z] != 0);
      LeadingCountUnique(s, '1', z);
      LeadingCountUnique(bytes, 0, z);
    }
  }

  lemma {:induction false} DenotesParts(s: string, bytes: seq<byte>)
    ensures Denotes(s, bytes) <==>
      Valid(s) && LeadingCount(s, '1') == LeadingCount(bytes, 0) && Number(Indexes(s), 58) == Number(bytes, 256)
  {
    ValidExactly(s);
    ByteNumberIs(bytes);
    SameZerosIs(s, bytes);
    if AllDigits(s) {
      TextNumberIs(s);
    }
  }

  /** Each byte string is encoded as the one text that denotes it, and each text is decoded to what it denotes. */
  lemma {:induction false} EncodesWhatDenotes(bytes: seq<byte>, s: string)
    ensures Encode(bytes) == s <==> Denotes(s, bytes)
    ensures Decode(s) == Ok(bytes) <==> Denotes(s, bytes)
  {
    DenotesParts(s, bytes);
    RawOf(bytes);
    DecodeEncode(bytes);
    if Decode(s) == Ok(bytes) {
      EncodeDecode(s);
    }
    if Encode(bytes) == s {
      ReadText(LeadingCount(bytes, 0), Number(bytes, 256));
    }
  }

  /** A text is refused exactly at its first character that is no digit; a key also unless it has 32 bytes. */
  lemma {:induction false} RefusedExactly(s: string, i: nat)
    ensures Decode(s) == Err(InvalidCharacter(i)) <==>
      i < |s| && !IsDigit(s[i]) && forall j :: 0 <= j < i ==> IsDigit(s[j])
    ensures Decode(s).Ok? <==> AllDigits(s)
    ensures DecodePublicKey(s) ==
      match Decode(s)
      case Err(e) => Err(e)
      case Ok(bytes) => if |bytes| == 32 then Ok(bytes) else Err(WrongLength(|bytes|))
  {
    forall j | 0 <= j < |s|
      ensures CharIndex(s[j]) >= 0 <==> IsDigit(s[j])
    {
      CharIndexIs(s[j]);
    }
  }
}
