/**
 Little-endian integers of a fixed number of bytes.
 */
module LittleEndianIntegers {
  import opened Bytes

  function Power256(k: nat): nat {
    if k == 0 then 1 else 256 * Power256(k - 1)
  }

  lemma {:induction false} Powers()
    ensures Power256(1) == 0x100 && Power256(2) == 0x1_0000 && Power256(4) == 0x1_0000_0000
    ensures Power256(8) == 0x1_0000_0000_0000_0000
    ensures Power256(16) == 0x1_0000_0000_0000_0000_0000_0000_0000_0000
  {
    assert Power256(4) == 0x1_0000_0000;
    assert Power256(8) == 0x1_0000_0000_0000_0000;
  }

  lemma {:induction false} Bits248(k: nat)
    requires k == 31
    ensures Power256(k) == 0x100_0000_0000_0000_0000_0000_0000_0000_0000_0000_0000_0000_0000_0000_0000_0000
  {
    assert Power256(8) == 0x1_0000_0000_0000_0000;
    PowerPlus256(8, 8);
    PowerPlus256(16, 8);
    PowerPlus256(24, 7);
  }

  lemma {:induction false} PowerPlus256(a: nat, b: nat)
    ensures Power256(a + b) == Power256(a) * Power256(b)
  {
    if a > 0 {
      PowerPlus256(a - 1, b);
      assert 256 * (Power256(a - 1) * Power256(b)) == 256 * Power256(a - 1) * Power256(b);
    }
  }

  function LittleEndian(n: nat, k: nat): (bs: seq<byte>)
    ensures |bs| == k
  {
    if k == 0 then [] else [n % 256] + LittleEndian(n / 256, k - 1)
  }

  lemma {:induction false} ValueLittleEndian(n: nat, k: nat)
    requires n < Power256(k)
    ensures Value(LittleEndian(n, k), 256) == n
  {
    if k > 0 {
      ValueLittleEndian(n / 256, k - 1);
      ValuePrepend(n % 256, LittleEndian(n / 256, k - 1), 256);
    }
  }

  lemma {:induction false} LittleEndianNext(first: byte, rest: nat, k: nat)
    ensures LittleEndian(first + 256 * rest, k + 1) == [first] + LittleEndian(rest, k)
  {
    var n := first + 256 * rest;
    assert n % 256 == first && n / 256 == rest;
  }

  lemma {:induction false} LittleEndianValue(bs: seq<byte>)
    ensures 0 <= Value(bs, 256) < Power256(|bs|)
    ensures LittleEndian(Value(bs, 256), |bs|) == bs
  {
    if bs != [] {
      var first, rest := bs[0], bs[1..];
      LittleEndianValue(rest);
      LittleEndianNext(first, Value(rest, 256), |rest|);
      assert bs == [first] + rest;
    }
  }

  lemma {:induction false} ValueAppend(low: seq<byte>, top: byte)
    ensures Value(low + [top], 256) == Value(low, 256) + top * Power256(|low|)
  {
    if low == [] {
      assert low + [top] == [top] && [top][1..] == [];
    } else {
      var first, rest := low[0], low[1..];
      ValueAppend(rest, top);
      assert low + [top] == [first] + (rest + [top]);
      ValuePrepend(first, rest + [top], 256);
      assert top * (256 * Power256(|rest|)) == 256 * (top * Power256(|rest|));
    }
  }

  function Unsigned(bs: seq<byte>): (n: nat)
    ensures n < Power256(|bs|) && n == Value(bs, 256)
  {
    LittleEndianValue(bs);
    Value(bs, 256)
  }

  /** Shifts the bytes in from the most significant one down. */
  method DecodeUnsignedInteger(bytes: seq<byte>) returns (value: nat)
    ensures value == Unsigned(bytes)
  {
    value := 0;
    for index := |bytes| downto 0
      invariant value == Unsigned(bytes[index..])
    {
      assert bytes[index..] == [bytes[index]] + bytes[index + 1..];
      ValuePrepend(bytes[index], bytes[index + 1..], 256);
      value := value * 256 + bytes[index];
    }
    assert bytes[0..] == bytes;
  }
}
