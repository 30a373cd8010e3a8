/**
 Short-vector lengths: seven bits a byte, least significant first, top bit set while more follow.
 */
module ShortVector {
  import opened Wrappers
  import opened Bytes

  function Encode(n: nat): (r: seq<byte>)
    ensures |r| >= 1
  {
    if n < 128 then [n] else [n % 128 + 128] + Encode(n / 128)
  }

  /** Reads one length and returns the bytes behind it; a length with a redundant last byte is rejected. */
  function Decode(bs: seq<byte>): (r: Option<(nat, seq<byte>)>)
    ensures r.Some? ==> |r.value.1| < |bs|
  {
    if bs == [] then None
    else if bs[0] < 128 then Some((bs[0], bs[1..]))
    else
      match Decode(bs[1..])
      case None => None
      case Some((high, rest)) => if high == 0 then None else Some((bs[0] - 128 + 128 * high, rest))
  }

  /** Every length is read back, whatever follows: the encodings form a prefix code. */
  lemma {:induction false} DecodeEncode(n: nat, rest: seq<byte>)
    ensures Decode(Encode(n) + rest) == Some((n, rest))
  {
    var bs := Encode(n) + rest;
    if n < 128 {
      assert bs[1..] == rest;
    } else {
      DecodeEncode(n / 128, rest);
      assert bs[1..] == Encode(n / 128) + rest;
    }
  }

  /** Whatever is accepted begins with the one encoding of the length that was read. */
  lemma {:induction false} EncodeDecode(bs: seq<byte>)
    requires Decode(bs).Some?
    ensures var (n, rest) := Decode(bs).value; bs == Encode(n) + rest
  {
    if bs[0] >= 128 {
      var (high, rest) := Decode(bs[1..]).value;
      EncodeDecode(bs[1..]);
      var n := bs[0] - 128 + 128 * high;
      assert n % 128 == bs[0] - 128 && n / 128 == high;
      assert bs == [bs[0]] + bs[1..];
    }
  }

  function Power128(k: nat): nat {
    if k == 0 then 1 else 128 * Power128(k - 1)
  }

  /** No shorter encoding is possible: `k` bytes suffice exactly for the numbers below 128^k. */
  lemma {:induction false} EncodeIsMinimal(n: nat, k: nat)
    requires k >= 1
    ensures |Encode(n)| <= k <==> n < Power128(k)
  {
    if k == 1 {
      assert Power128(1) == 128 * Power128(0);
    } else {
      EncodeIsMinimal(n / 128, k - 1);
      assert n < 128 * Power128(k - 1) <==> n / 128 < Power128(k - 1);
      assert Power128(k) >= 128 by {
        PowerPositive(k - 1);
      }
    }
  }

  lemma {:induction false} PowerPositive(k: nat)
    ensures Power128(k) >= 1
  {
    if k > 0 {
      PowerPositive(k - 1);
    }
  }

  /** The number whose seven-bit digits the bytes hold, least significant first. */
  function Septets(bs: seq<byte>): nat {
    if bs == [] then 0 else bs[0] % 128 + 128 * Septets(bs[1..])
  }

  /** The bytes hold the number's digits, and all but the last have the top bit set. */
  lemma {:induction false} EncodedBytes(n: nat)
    ensures Septets(Encode(n)) == n
    ensures forall i :: 0 <= i < |Encode(n)| ==> (Encode(n)[i] < 128 <==> i == |Encode(n)| - 1)
  {
    if n < 128 {
      assert Encode(n)[1..] == [];
    } else {
      EncodedBytes(n / 128);
      assert Encode(n)[1..] == Encode(n / 128);
    }
  }

  /** The do-while loop. */
  method EncodeShortVectorLength(value: nat) returns (bytes: seq<byte>)
    ensures bytes == Encode(value)
  {
    bytes := [];
    var remaining: nat := value;
    while true
      invariant bytes + Encode(remaining) == Encode(value)
      decreases remaining
    {
      ghost var before := remaining;
      var byteValue := remaining % 128;
      remaining := remaining / 128;
      if remaining > 0 {
        byteValue := byteValue + 128;
        assert bytes + ([byteValue] + Encode(remaining)) == (bytes + [byteValue]) + Encode(remaining);
      }
      bytes := bytes + [byteValue];
      if remaining == 0 {
        assert Encode(before) == [byteValue];
        break;
      }
    }
  }
}
