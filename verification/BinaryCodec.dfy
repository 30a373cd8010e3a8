/**
 The schema-driven binary codec as functions: values, types, the encoder and the decoder.
 */
module BinaryCodec {
  import opened Wrappers
  import opened Bytes
  import opened LittleEndianIntegers
  import Base58

  datatype Primitive = U8 | U16 | U32 | U64 | U128 | I64 | I128 | Bool | Pubkey

  datatype TypeSchema =
    | Prim(p: Primitive)
    | OptionOf(item: TypeSchema)
    | ArrayOf(item: TypeSchema, length: nat)
    | VectorOf(item: TypeSchema)
    | Defined(name: string)

  datatype Field = Field(name: string, type_: TypeSchema)

  /** Defined types by name, and how deeply each one nests, so that recursion through names ends. */
  datatype Schema = Schema(types: map<string, seq<Field>>, depth: map<string, nat>)

  /** None stands for an absent option at every nesting depth; records are keyed by field name. */
  datatype Value =
    | VInt(i: int)
    | VBool(b: bool)
    | VText(s: string)
    | VNone
    | VBytes(bs: seq<byte>)
    | VList(items: seq<Value>)
    | VRecord(fields: map<string, Value>)

  datatype CodecError =
    | WrongKind | OutOfRange | WrongLength | MissingField(name: string) | UnknownType(name: string)
    | BadText | Truncated | BadTag(tag: byte)

  //// Acyclic schemas

  function Level(schema: Schema, t: TypeSchema): nat {
    match t
    case Prim(_) => 0
    case OptionOf(item) => Level(schema, item)
    case ArrayOf(item, _) => Level(schema, item)
    case VectorOf(item) => Level(schema, item)
    case Defined(name) => if name in schema.types && name in schema.depth then schema.depth[name] + 1 else 0
  }

  function FieldsLevel(schema: Schema, fields: seq<Field>): (n: nat)
    ensures forall f :: f in fields ==> Level(schema, f.type_) <= n
  {
    if fields == [] then 0
    else
      var rest := FieldsLevel(schema, fields[1..]);
      var first := Level(schema, fields[0].type_);
      assert fields == [fields[0]] + fields[1..];
      if first > rest then first else rest
  }

  function Size(t: TypeSchema): nat {
    match t
    case Prim(_) => 0
    case OptionOf(item) => 1 + Size(item)
    case ArrayOf(item, _) => 1 + Size(item)
    case VectorOf(item) => 1 + Size(item)
    case Defined(_) => 0
  }

  function FieldsSize(fields: seq<Field>): nat {
    if fields == [] then 1 else 1 + Size(fields[0].type_) + FieldsSize(fields[1..])
  }

  /** No defined type contains itself. */
  ghost predicate Acyclic(schema: Schema) {
    forall name :: name in schema.types ==>
      name in schema.depth && FieldsLevel(schema, schema.types[name]) <= schema.depth[name]
  }

  //// Integers

  /** Two's complement. */
  function Signed(bs: seq<byte>): int {
    var n := Unsigned(bs);
    if 2 * n < Power256(|bs|) then n else n - Power256(|bs|)
  }

  predicate SignedInRange(i: int, k: nat) {
    0 <= 2 * i + Power256(k) < 2 * Power256(k)
  }

  function EncodeUnsigned(i: int, k: nat): Result<seq<byte>, CodecError> {
    if 0 <= i < Power256(k) then Ok(LittleEndian(i, k)) else Err(OutOfRange)
  }

  function EncodeSigned(i: int, k: nat): Result<seq<byte>, CodecError> {
    if SignedInRange(i, k) then Ok(LittleEndian(if i < 0 then i + Power256(k) else i, k)) else Err(OutOfRange)
  }

  lemma {:induction false} SignedRoundTrip(i: int, k: nat)
    requires k > 0 && SignedInRange(i, k)
    ensures EncodeSigned(i, k).Ok? && Signed(EncodeSigned(i, k).value) == i
  {
    ValueLittleEndian(if i < 0 then i + Power256(k) else i, k);
  }

  lemma {:induction false} SignedExact(bs: seq<byte>)
    requires |bs| > 0
    ensures SignedInRange(Signed(bs), |bs|) && EncodeSigned(Signed(bs), |bs|) == Ok(bs)
  {
    LittleEndianValue(bs);
  }

  //// Primitives

  function Width(p: Primitive): nat {
    match p
    case U8 => 1
    case U16 => 2
    case U32 => 4
    case U64 => 8
    case U128 => 16
    case I64 => 8
    case I128 => 16
    case Bool => 1
    case Pubkey => 32
  }

  function EncodePrimitive(p: Primitive, v: Value): Result<seq<byte>, CodecError> {
    match p
    case Bool => if v.VBool? then Ok([if v.b then 1 else 0]) else Err(WrongKind)
    case Pubkey =>
      if v.VText? then
        (match Base58.Decode(v.s)
         case Err(_) => Err(BadText)
         case Ok(bs) => if |bs| == 32 then Ok(bs) else Err(WrongLength))
      else if v.VBytes? then
        if |v.bs| == 32 then Ok(v.bs) else Err(WrongLength)
      else Err(WrongKind)
    case I64 => if v.VInt? then EncodeSigned(v.i, 8) else Err(WrongKind)
    case I128 => if v.VInt? then EncodeSigned(v.i, 16) else Err(WrongKind)
    case _ => if v.VInt? then EncodeUnsigned(v.i, Width(p)) else Err(WrongKind)
  }

  function Take(bs: seq<byte>, n: nat): Result<(seq<byte>, seq<byte>), CodecError> {
    if n <= |bs| then Ok((bs[..n], bs[n..])) else Err(Truncated)
  }

  /** The value of the bytes of one primitive. */
  function PrimitiveValue(p: Primitive, bs: seq<byte>): Result<Value, CodecError>
    requires |bs| == Width(p)
  {
    match p
    case Bool => if bs[0] == 0 then Ok(VBool(false)) else if bs[0] == 1 then Ok(VBool(true)) else Err(BadTag(bs[0]))
    case Pubkey => Ok(VText(Base58.Encode(bs)))
    case I64 => Ok(VInt(Signed(bs)))
    case I128 => Ok(VInt(Signed(bs)))
    case _ => Ok(VInt(Unsigned(bs)))
  }

  type Decoded = Result<(Value, seq<byte>), CodecError>

  function DecodePrimitive(p: Primitive, bs: seq<byte>): Decoded {
    match Take(bs, Width(p))
    case Err(e) => Err(e)
    case Ok((head, rest)) =>
      match PrimitiveValue(p, head)
      case Err(e) => Err(e)
      case Ok(v) => Ok((v, rest))
  }

  //// The encoder

  function Append(a: Result<seq<byte>, CodecError>, b: Result<seq<byte>, CodecError>): Result<seq<byte>, CodecError> {
    match a
    case Err(e) => Err(e)
    case Ok(x) =>
      match b
      case Err(e) => Err(e)
      case Ok(y) => Ok(x + y)
  }

  /** Bytes for byte items, lists for all others. */
  predicate IsMany(item: TypeSchema, v: Value) {
    if item == Prim(U8) then v.VBytes? else v.VList?
  }

  function LengthOf(v: Value): nat {
    if v.VBytes? then |v.bs| else if v.VList? then |v.items| else 0
  }

  function EncodeType(schema: Schema, t: TypeSchema, v: Value): Result<seq<byte>, CodecError>
    requires Acyclic(schema)
    decreases Level(schema, t), Size(t), 0
  {
    match t
    case Prim(p) => EncodePrimitive(p, v)
    case OptionOf(item) => if v == VNone then Ok([0]) else Append(Ok([1]), EncodeType(schema, item, v))
    case ArrayOf(item, length) =>
      if !IsMany(item, v) then Err(WrongKind)
      else if LengthOf(v) != length then Err(WrongLength)
      else EncodeMany(schema, item, v)
    case VectorOf(item) =>
      if !IsMany(item, v) then Err(WrongKind)
      else Append(EncodeUnsigned(LengthOf(v), 4), EncodeMany(schema, item, v))
    case Defined(name) =>
      if !v.VRecord? then Err(WrongKind)
      else if name !in schema.types then Err(UnknownType(name))
      else EncodeFields(schema, schema.types[name], v.fields, false)
  }

  /** Bytes are written at once, other items one by one. */
  function EncodeMany(schema: Schema, item: TypeSchema, v: Value): Result<seq<byte>, CodecError>
    requires Acyclic(schema) && IsMany(item, v)
    decreases Level(schema, item), Size(item), LengthOf(v) + 2
  {
    if item == Prim(U8) then Ok(v.bs) else EncodeItems(schema, item, v.items)
  }

  function EncodeItems(schema: Schema, item: TypeSchema, vs: seq<Value>): Result<seq<byte>, CodecError>
    requires Acyclic(schema)
    decreases Level(schema, item), Size(item), 1 + |vs|
  {
    if vs == [] then Ok([])
    else Append(EncodeType(schema, item, vs[0]), EncodeItems(schema, item, vs[1..]))
  }

  /** Fields the program reserves may be filled with zeros. */
  predicate IsPadding(name: string) {
    "_pad" <= name || "_reserved" <= name
  }

  function FieldValue(schema: Schema, f: Field, values: map<string, Value>, padding: bool): Result<Value, CodecError>
    requires Acyclic(schema)
  {
    if f.name in values then Ok(values[f.name])
    else if padding && IsPadding(f.name) then ZeroValue(schema, f.type_)
    else if f.type_.OptionOf? then Ok(VNone)
    else Err(MissingField(f.name))
  }

  function EncodeFields(schema: Schema, fields: seq<Field>, values: map<string, Value>, padding: bool)
    : Result<seq<byte>, CodecError>
    requires Acyclic(schema)
    decreases FieldsLevel(schema, fields), FieldsSize(fields), 0
  {
    if fields == [] then Ok([])
    else
      match FieldValue(schema, fields[0], values, padding)
      case Err(e) => Err(e)
      case Ok(v) =>
        Append(EncodeType(schema, fields[0].type_, v), EncodeFields(schema, fields[1..], values, padding))
  }

  function Repeat(v: Value, n: nat): (r: seq<Value>)
    ensures |r| == n && forall i :: 0 <= i < n ==> r[i] == v
  {
    seq(n, _ => v)
  }

  function ZeroValue(schema: Schema, t: TypeSchema): Result<Value, CodecError>
    requires Acyclic(schema)
    decreases Level(schema, t), Size(t), 0
  {
    match t
    case Prim(p) => Ok(match p case Bool => VBool(false) case Pubkey => VBytes(Zeros(32)) case _ => VInt(0))
    case OptionOf(_) => Ok(VNone)
    case VectorOf(item) => Ok(if item == Prim(U8) then VBytes([]) else VList([]))
    case ArrayOf(item, length) =>
      if item == Prim(U8) then Ok(VBytes(Zeros(length)))
      else if length == 0 then Ok(VList([]))
      else
        (match ZeroValue(schema, item)
         case Err(e) => Err(e)
         case Ok(v) => Ok(VList(Repeat(v, length))))
    case Defined(name) =>
      if name !in schema.types then Err(UnknownType(name))
      else
        match ZeroFields(schema, schema.types[name])
        case Err(e) => Err(e)
        case Ok(values) => Ok(VRecord(values))
  }

  function ZeroFields(schema: Schema, fields: seq<Field>): Result<map<string, Value>, CodecError>
    requires Acyclic(schema)
    decreases FieldsLevel(schema, fields), FieldsSize(fields), 0
  {
    if fields == [] then Ok(map[])
    else
      match ZeroValue(schema, fields[0].type_)
      case Err(e) => Err(e)
      case Ok(v) =>
        match ZeroFields(schema, fields[1..])
        case Err(e) => Err(e)
        case Ok(values) => Ok(map[fields[0].name := v] + values)
  }

  //// The decoder

  function DecodeType(schema: Schema, t: TypeSchema, bs: seq<byte>): Decoded
    requires Acyclic(schema)
    decreases Level(schema, t), Size(t), 0
  {
    match t
    case Prim(p) => DecodePrimitive(p, bs)
    case OptionOf(item) =>
      if bs == [] then Err(Truncated)
      else if bs[0] == 0 then Ok((VNone, bs[1..]))
      else if bs[0] != 1 then Err(BadTag(bs[0]))
      else DecodeType(schema, item, bs[1..])
    case ArrayOf(item, length) => DecodeMany(schema, item, length, bs)
    case VectorOf(item) =>
      (match Take(bs, 4)
       case Err(e) => Err(e)
       case Ok((head, rest)) => DecodeMany(schema, item, Unsigned(head), rest))
    case Defined(name) =>
      if name !in schema.types then Err(UnknownType(name))
      else
        match DecodeFields(schema, schema.types[name], bs)
        case Err(e) => Err(e)
        case Ok((values, rest)) => Ok((VRecord(values), rest))
  }

  /** Bytes are read at once, other items one by one. */
  function DecodeMany(schema: Schema, item: TypeSchema, n: nat, bs: seq<byte>): Decoded
    requires Acyclic(schema)
    decreases Level(schema, item), Size(item), n + 2
  {
    if item == Prim(U8) then
      match Take(bs, n)
      case Err(e) => Err(e)
      case Ok((head, rest)) => Ok((VBytes(head), rest))
    else
      match DecodeItems(schema, item, n, bs)
      case Err(e) => Err(e)
      case Ok((vs, rest)) => Ok((VList(vs), rest))
  }

  function DecodeItems(schema: Schema, item: TypeSchema, n: nat, bs: seq<byte>)
    : (r: Result<(seq<Value>, seq<byte>), CodecError>)
    requires Acyclic(schema)
    decreases Level(schema, item), Size(item), n + 1
  {
    if n == 0 then Ok(([], bs))
    else
      match DecodeType(schema, item, bs)
      case Err(e) => Err(e)
      case Ok((v, rest)) =>
        match DecodeItems(schema, item, n - 1, rest)
        case Err(e) => Err(e)
        case Ok((vs, rest')) => Ok(([v] + vs, rest'))
  }

  /** A later field of the same name replaces an earlier one. */
  function DecodeFields(schema: Schema, fields: seq<Field>, bs: seq<byte>)
    : Result<(map<string, Value>, seq<byte>), CodecError>
    requires Acyclic(schema)
    decreases FieldsLevel(schema, fields), FieldsSize(fields), 0
  {
    if fields == [] then Ok((map[], bs))
    else
      match DecodeType(schema, fields[0].type_, bs)
      case Err(e) => Err(e)
      case Ok((v, rest)) =>
        match DecodeFields(schema, fields[1..], rest)
        case Err(e) => Err(e)
        case Ok((values, rest')) => Ok((map[fields[0].name := v] + values, rest'))
  }
}
