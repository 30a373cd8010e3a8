/**
 The codec's loops: integer bytes, the reader with its offset, and the struct encoder.
 */
module BinaryReading {
  import opened Wrappers
  import opened Bytes
  import opened LittleEndianIntegers
  import opened BinaryCodec

  //// Integers, a byte at a time

  method DecodeSignedInteger(bytes: seq<byte>) returns (value: int)
    ensures value == Signed(bytes)
  {
    var unsigned := DecodeUnsignedInteger(bytes);
    value := if 2 * unsigned < Power256(|bytes|) then unsigned else unsigned - Power256(|bytes|);
  }

  lemma {:induction false} LittleEndianStep(done: seq<byte>, n: nat, k: nat)
    requires k > 0
    ensures done + LittleEndian(n, k) == (done + [n % 256]) + LittleEndian(n / 256, k - 1)
  {
    assert LittleEndian(n, k) == [n % 256] + LittleEndian(n / 256, k - 1);
  }

  /** Fills a buffer from the least significant byte up. */
  method EncodeUnsignedInteger(value: int, byteLength: nat) returns (r: Result<seq<byte>, CodecError>)
    ensures r == EncodeUnsigned(value, byteLength)
  {
    if value < 0 || value >= Power256(byteLength) {
      return Err(OutOfRange);
    }
    var bytes := new byte[byteLength](_ => 0);
    var remaining: nat := value;
    for index := 0 to byteLength
      invariant bytes[..index] + LittleEndian(remaining, byteLength - index) == LittleEndian(value, byteLength)
    {
      ghost var done, k := bytes[..index], byteLength - index;
      LittleEndianStep(done, remaining, k);
      bytes[index] := remaining % 256;
      assert bytes[..index + 1] == done + [remaining % 256];
      remaining := remaining / 256;
    }
    assert bytes[..byteLength] + LittleEndian(remaining, 0) == bytes[..];
    return Ok(bytes[..]);
  }

  //// The reader

  lemma {:induction false} SliceOfRest(data: seq<byte>, offset: nat, n: nat)
    requires offset + n <= |data|
    ensures data[offset..][..n] == data[offset..offset + n]
    ensures data[offset..][n..] == data[offset + n..]
  {
  }

  class BinaryReader {
    const data: seq<byte>
    var offset: nat

    ghost predicate Valid()
      reads this
    {
      offset <= |data|
    }

    ghost function Remaining(): seq<byte>
      requires Valid()
      reads this
    {
      data[offset..]
    }

    constructor (data: seq<byte>, offset: nat)
      requires offset <= |data|
      ensures Valid() && this.data == data && Remaining() == data[offset..]
    {
      this.data := data;
      this.offset := offset;
    }

    /** Reading past the end fails and leaves the offset alone. */
    method ReadBytes(byteLength: nat) returns (r: Result<seq<byte>, CodecError>)
      requires Valid()
      modifies this
      ensures Valid()
      ensures match Take(old(Remaining()), byteLength)
        case Ok((head, rest)) => r == Ok(head) && Remaining() == rest && offset == old(offset) + byteLength
        case Err(e) => r == Err(e) && offset == old(offset)
    {
      if offset + byteLength > |data| {
        return Err(Truncated);
      }
      var bytes := data[offset..offset + byteLength];
      SliceOfRest(data, offset, byteLength);
      offset := offset + byteLength;
      return Ok(bytes);
    }
  }

  /** A reader outside the input is refused. */
  method OpenReader(data: seq<byte>, offset: int) returns (r: Option<BinaryReader>)
    ensures r.Some? <==> 0 <= offset <= |data|
    ensures r.Some? ==> fresh(r.value) && r.value.Valid() && r.value.data == data
    ensures r.Some? ==> r.value.Remaining() == data[offset..]
  {
    if offset < 0 || offset > |data| {
      return None;
    }
    var reader := new BinaryReader(data, offset);
    return Some(reader);
  }

  /** The reader did what the decoding function says: same result, and on success the same rest. */
  ghost predicate Agrees<T(!new)>(
      expected: Result<(T, seq<byte>), CodecError>, actual: Result<T, CodecError>, rest: seq<byte>)
  {
    match expected
    case Ok((v, r)) => actual == Ok(v) && rest == r
    case Err(e) => actual == Err(e)
  }

  method ReadPrimitive(p: Primitive, reader: BinaryReader) returns (r: Result<Value, CodecError>)
    requires reader.Valid()
    modifies reader
    ensures reader.Valid() && Agrees(DecodePrimitive(p, old(reader.Remaining())), r, reader.Remaining())
  {
    var bytes := reader.ReadBytes(Width(p));
    if bytes.Err? {
      return Err(bytes.error);
    }
    match p {
      case Bool =>
        var tag := bytes.value[0];
        if tag != 0 && tag != 1 {
          return Err(BadTag(tag));
        }
        return Ok(VBool(tag == 1));
      case Pubkey => return PrimitiveValue(p, bytes.value);
      case I64 =>
        var signed := DecodeSignedInteger(bytes.value);
        return Ok(VInt(signed));
      case I128 =>
        var signed := DecodeSignedInteger(bytes.value);
        return Ok(VInt(signed));
      case _ =>
        var unsigned := DecodeUnsignedInteger(bytes.value);
        return Ok(VInt(unsigned));
    }
  }

  method ReadType(schema: Schema, t: TypeSchema, reader: BinaryReader) returns (r: Result<Value, CodecError>)
    requires Acyclic(schema) && reader.Valid()
    modifies reader
    ensures reader.Valid() && Agrees(DecodeType(schema, t, old(reader.Remaining())), r, reader.Remaining())
    decreases Level(schema, t), Size(t), 0
  {
    match t {
      case Prim(p) =>
        r := ReadPrimitive(p, reader);
      case OptionOf(item) =>
        var tag := reader.ReadBytes(1);
        if tag.Err? {
          return Err(tag.error);
        }
        if tag.value[0] == 0 {
          return Ok(VNone);
        }
        if tag.value[0] != 1 {
          return Err(BadTag(tag.value[0]));
        }
        r := ReadType(schema, item, reader);
      case ArrayOf(item, length) =>
        r := ReadMany(schema, item, length, reader);
      case VectorOf(item) =>
        var head := reader.ReadBytes(4);
        if head.Err? {
          return Err(head.error);
        }
        var length := DecodeUnsignedInteger(head.value);
        r := ReadMany(schema, item, length, reader);
      case Defined(name) =>
        if name !in schema.types {
          return Err(UnknownType(name));
        }
        var values := ReadStruct(schema, schema.types[name], reader);
        if values.Err? {
          return Err(values.error);
        }
        return Ok(VRecord(values.value));
    }
  }

  method ReadMany(schema: Schema, item: TypeSchema, n: nat, reader: BinaryReader) returns (r: Result<Value, CodecError>)
    requires Acyclic(schema) && reader.Valid()
    modifies reader
    ensures reader.Valid() && Agrees(DecodeMany(schema, item, n, old(reader.Remaining())), r, reader.Remaining())
    decreases Level(schema, item), Size(item), 2
  {
    if item == Prim(U8) {
      var bytes := reader.ReadBytes(n);
      if bytes.Err? {
        return Err(bytes.error);
      }
      return Ok(VBytes(bytes.value));
    }
    var items := ReadItems(schema, item, n, reader);
    if items.Err? {
      return Err(items.error);
    }
    return Ok(VList(items.value));
  }

  /** What is still to come, behind the items already read. */
  ghost function Behind(done: seq<Value>, later: Result<(seq<Value>, seq<byte>), CodecError>)
    : Result<(seq<Value>, seq<byte>), CodecError>
  {
    match later
    case Ok((vs, rest)) => Ok((done + vs, rest))
    case Err(e) => Err(e)
  }

  lemma {:induction false} BehindNext(done: seq<Value>, v: Value, later: Result<(seq<Value>, seq<byte>), CodecError>)
    ensures Behind(done + [v], later) == Behind(done, Behind([v], later))
  {
    if later.Ok? {
      assert (done + [v]) + later.value.0 == done + ([v] + later.value.0);
    }
  }

  method ReadItems(schema: Schema, item: TypeSchema, n: nat, reader: BinaryReader)
      returns (r: Result<seq<Value>, CodecError>)
    requires Acyclic(schema) && reader.Valid()
    modifies reader
    ensures reader.Valid() && Agrees(DecodeItems(schema, item, n, old(reader.Remaining())), r, reader.Remaining())
    decreases Level(schema, item), Size(item), 1
  {
    var items: seq<Value> := [];
    ghost var expected := DecodeItems(schema, item, n, reader.Remaining());
    assert Behind([], expected) == expected by {
      if expected.Ok? {
        assert [] + expected.value.0 == expected.value.0;
      }
    }
    for i := 0 to n
      invariant reader.Valid()
      invariant Behind(items, DecodeItems(schema, item, n - i, reader.Remaining())) == expected
    {
      ghost var here := reader.Remaining();
      var v := ReadType(schema, item, reader);
      if v.Err? {
        return Err(v.error);
      }
      BehindNext(items, v.value, DecodeItems(schema, item, n - i - 1, reader.Remaining()));
      items := items + [v.value];
    }
    assert items + [] == items;
    return Ok(items);
  }

  ghost function Over(done: map<string, Value>, later: Result<(map<string, Value>, seq<byte>), CodecError>)
    : Result<(map<string, Value>, seq<byte>), CodecError>
  {
    match later
    case Ok((values, rest)) => Ok((done + values, rest))
    case Err(e) => Err(e)
  }

  lemma {:induction false} OverNext(
      done: map<string, Value>, name: string, v: Value, later: Result<(map<string, Value>, seq<byte>), CodecError>)
    ensures Over(done[name := v], later) == Over(done, Over(map[name := v], later))
  {
    if later.Ok? {
      assert done[name := v] + later.value.0 == done + (map[name := v] + later.value.0);
    }
  }

  method ReadStruct(schema: Schema, fields: seq<Field>, reader: BinaryReader)
      returns (r: Result<map<string, Value>, CodecError>)
    requires Acyclic(schema) && reader.Valid()
    modifies reader
    ensures reader.Valid() && Agrees(DecodeFields(schema, fields, old(reader.Remaining())), r, reader.Remaining())
    decreases FieldsLevel(schema, fields), FieldsSize(fields), 0
  {
    var values: map<string, Value> := map[];
    ghost var expected := DecodeFields(schema, fields, reader.Remaining());
    assert Over(map[], expected) == expected by {
      if expected.Ok? {
        assert map[] + expected.value.0 == expected.value.0;
      }
    }
    assert fields[0..] == fields;
    for i := 0 to |fields|
      invariant reader.Valid()
      invariant Over(values, DecodeFields(schema, fields[i..], reader.Remaining())) == expected
    {
      FieldSmaller(schema, fields, i);
      DropFirst(fields, i);
      var v := ReadType(schema, fields[i].type_, reader);
      if v.Err? {
        return Err(v.error);
      }
      OverNext(values, fields[i].name, v.value, DecodeFields(schema, fields[i + 1..], reader.Remaining()));
      values := values[fields[i].name := v.value];
    }
    assert values + map[] == values;
    return Ok(values);
  }

  lemma {:induction false} FieldSmaller(schema: Schema, fields: seq<Field>, i: nat)
    requires i < |fields|
    ensures Level(schema, fields[i].type_) <= FieldsLevel(schema, fields)
    ensures Size(fields[i].type_) < FieldsSize(fields)
  {
    assert fields[i] in fields;
    if i > 0 {
      FieldSmaller(schema, fields[1..], i - 1);
    }
  }

  //// The struct encoder

  lemma {:induction false} AppendThrough(a: seq<byte>, b: seq<byte>, later: Result<seq<byte>, CodecError>)
    ensures Append(Ok(a + b), later) == Append(Ok(a), Append(Ok(b), later))
  {
    if later.Ok? {
      assert (a + b) + later.value == a + (b + later.value);
    }
  }

  lemma {:induction false} DropFirst(fields: seq<Field>, i: nat)
    requires i < |fields|
    ensures fields[i..][0] == fields[i] && fields[i..][1..] == fields[i + 1..]
  {
  }

  method EncodeStruct(schema: Schema, fields: seq<Field>, values: map<string, Value>, padding: bool)
      returns (r: Result<seq<byte>, CodecError>)
    requires Acyclic(schema)
    ensures r == EncodeFields(schema, fields, values, padding)
  {
    var encoded: seq<byte> := [];
    ghost var expected := EncodeFields(schema, fields, values, padding);
    assert Append(Ok([]), expected) == expected by {
      if expected.Ok? {
        assert [] + expected.value == expected.value;
      }
    }
    assert fields[0..] == fields;
    for i := 0 to |fields|
      invariant Append(Ok(encoded), EncodeFields(schema, fields[i..], values, padding)) == expected
    {
      DropFirst(fields, i);
      var v := FieldValue(schema, fields[i], values, padding);
      if v.Err? {
        return Err(v.error);
      }
      var bytes := EncodeType(schema, fields[i].type_, v.value);
      if bytes.Err? {
        return Err(bytes.error);
      }
      AppendThrough(encoded, bytes.value, EncodeFields(schema, fields[i + 1..], values, padding));
      encoded := encoded + bytes.value;
    }
    assert encoded + [] == encoded;
    return Ok(encoded);
  }
}
