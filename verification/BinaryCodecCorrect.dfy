/** Every value of a type is read back from its encoding, whatever follows it: encodings are prefix-free. */
module BinaryCodecCorrect {
  import opened Wrappers
  import opened Bytes
  import opened LittleEndianIntegers
  import opened BinaryCodec
  import Base58

  //// In-range values

  ghost predicate PrimitiveHas(p: Primitive, v: Value) {
    match p
    case Bool => v.VBool?
    case Pubkey => v.VText? && Base58.DecodePublicKey(v.s).Ok?
    case U8 => v.VInt? && 0 <= v.i < 0x100
    case U16 => v.VInt? && 0 <= v.i < 0x1_0000
    case U32 => v.VInt? && 0 <= v.i < 0x1_0000_0000
    case U64 => v.VInt? && 0 <= v.i < 0x1_0000_0000_0000_0000
    case U128 => v.VInt? && 0 <= v.i < 0x1_0000_0000_0000_0000_0000_0000_0000_0000
    case I64 => v.VInt? && -0x8000_0000_0000_0000 <= v.i < 0x8000_0000_0000_0000
    case I128 =>
      v.VInt? && -0x8000_0000_0000_0000_0000_0000_0000_0000 <= v.i < 0x8000_0000_0000_0000_0000_0000_0000_0000
  }

  function Names(fields: seq<Field>): set<string> {
    set f | f in fields :: f.name
  }

  /** The values a type describes, in the one form the decoder produces. */
  ghost predicate HasType(schema: Schema, t: TypeSchema, v: Value)
    requires Acyclic(schema)
    decreases Level(schema, t), Size(t), 0
  {
    match t
    case Prim(p) => PrimitiveHas(p, v)
    case OptionOf(item) => v == VNone || HasType(schema, item, v)
    case ArrayOf(item, length) => LengthOf(v) == length && AllHaveType(schema, item, v)
    case VectorOf(item) => LengthOf(v) < 0x1_0000_0000 && AllHaveType(schema, item, v)
    case Defined(name) =>
      v.VRecord? && name in schema.types
      && v.fields.Keys == Names(schema.types[name]) && FieldsHaveType(schema, schema.types[name], v.fields)
  }

  ghost predicate AllHaveType(schema: Schema, item: TypeSchema, v: Value)
    requires Acyclic(schema)
    decreases Level(schema, item), Size(item), 2
  {
    IsMany(item, v) && (item == Prim(U8) || ItemsHaveType(schema, item, v.items))
  }

  ghost predicate ItemsHaveType(schema: Schema, item: TypeSchema, vs: seq<Value>)
    requires Acyclic(schema)
    decreases Level(schema, item), Size(item), 1
  {
    forall i :: 0 <= i < |vs| ==> HasType(schema, item, vs[i])
  }

  ghost predicate FieldsHaveType(schema: Schema, fields: seq<Field>, values: map<string, Value>)
    requires Acyclic(schema)
    decreases FieldsLevel(schema, fields), FieldsSize(fields), 0
  {
    fields == [] ||
    (fields[0].name in values && HasType(schema, fields[0].type_, values[fields[0].name])
     && FieldsHaveType(schema, fields[1..], values))
  }

  //// Decoding undoes encoding

  lemma {:induction false} TakeAppend(a: seq<byte>, b: seq<byte>)
    ensures Take(a + b, |a|) == Ok((a, b))
  {
  }

  lemma {:induction false} PrimitiveRoundTrip(p: Primitive, v: Value, rest: seq<byte>)
    requires PrimitiveHas(p, v)
    ensures EncodePrimitive(p, v).Ok?
    ensures DecodePrimitive(p, EncodePrimitive(p, v).value + rest) == Ok((v, rest))
  {
    Powers();
    var bs := EncodePrimitive(p, v).value;
    match p {
      case Bool =>
      case Pubkey => Base58.EncodeDecode(v.s);
      case I64 => SignedRoundTrip(v.i, 8);
      case I128 => SignedRoundTrip(v.i, 16);
      case _ => ValueLittleEndian(v.i, Width(p));
    }
    assert |bs| == Width(p);
    TakeAppend(bs, rest);
  }

  /** A result that reads back as `v`, whatever follows. */
  ghost predicate Reads(schema: Schema, t: TypeSchema, r: Result<seq<byte>, CodecError>, v: Value)
    requires Acyclic(schema)
  {
    r.Ok? && forall rest {:trigger r.value + rest} :: DecodeType(schema, t, r.value + rest) == Ok((v, rest))
  }

  lemma {:induction false} OptionReads(
      schema: Schema, item: TypeSchema, v: Value, bs: seq<byte>, rest: seq<byte>)
    requires Acyclic(schema) && DecodeType(schema, item, bs + rest) == Ok((v, rest))
    ensures DecodeType(schema, OptionOf(item), ([1] + bs) + rest) == Ok((v, rest))
  {
    var whole := ([1] + bs) + rest;
    assert whole[0] == 1 && whole[1..] == bs + rest;
    assert whole[..1] == [1];
  }

  lemma {:induction false} OptionWrites(schema: Schema, item: TypeSchema, v: Value)
    requires Acyclic(schema) && v != VNone && EncodeType(schema, item, v).Ok?
    ensures EncodeType(schema, OptionOf(item), v) == Ok([1] + EncodeType(schema, item, v).value)
  {
  }

  lemma {:induction false} OptionRoundTrip(schema: Schema, item: TypeSchema, v: Value)
    requires Acyclic(schema) && v != VNone && Reads(schema, item, EncodeType(schema, item, v), v)
    ensures Reads(schema, OptionOf(item), EncodeType(schema, OptionOf(item), v), v)
  {
    var bs := EncodeType(schema, item, v).value;
    OptionWrites(schema, item, v);
    forall rest: seq<byte>
      ensures DecodeType(schema, OptionOf(item), ([1] + bs) + rest) == Ok((v, rest))
    {
      OptionReads(schema, item, v, bs, rest);
    }
  }

  ghost predicate ReadsMany(schema: Schema, item: TypeSchema, r: Result<seq<byte>, CodecError>, v: Value)
    requires Acyclic(schema)
  {
    r.Ok? && forall rest {:trigger r.value + rest} ::
      DecodeMany(schema, item, LengthOf(v), r.value + rest) == Ok((v, rest))
  }

  lemma {:induction false} ManyRoundTrip(schema: Schema, item: TypeSchema, v: Value)
    requires Acyclic(schema) && AllHaveType(schema, item, v)
    ensures ReadsMany(schema, item, EncodeMany(schema, item, v), v)
    decreases Level(schema, item), Size(item), LengthOf(v) + 2
  {
    if item == Prim(U8) {
      forall rest: seq<byte>
        ensures Take(v.bs + rest, |v.bs|) == Ok((v.bs, rest))
      {
        TakeAppend(v.bs, rest);
      }
    } else {
      ItemsRoundTrip(schema, item, v.items);
    }
  }

  lemma {:induction false} VectorRoundTrip(schema: Schema, item: TypeSchema, v: Value)
    requires Acyclic(schema) && IsMany(item, v) && LengthOf(v) < 0x1_0000_0000
    requires ReadsMany(schema, item, EncodeMany(schema, item, v), v)
    ensures Reads(schema, VectorOf(item), EncodeType(schema, VectorOf(item), v), v)
  {
    var head, body := LittleEndian(LengthOf(v), 4), EncodeMany(schema, item, v).value;
    Powers();
    ValueLittleEndian(LengthOf(v), 4);
    forall rest: seq<byte>
      ensures DecodeType(schema, VectorOf(item), (head + body) + rest) == Ok((v, rest))
    {
      Assoc(head, body, rest);
      TakeAppend(head, body + rest);
    }
  }

  ghost predicate ReadsItems(schema: Schema, item: TypeSchema, r: Result<seq<byte>, CodecError>, vs: seq<Value>)
    requires Acyclic(schema)
  {
    r.Ok? && forall rest {:trigger r.value + rest} ::
      DecodeItems(schema, item, |vs|, r.value + rest) == Ok((vs, rest))
  }

  lemma {:induction false} ConsItems(schema: Schema, item: TypeSchema, vs: seq<Value>)
    requires Acyclic(schema) && vs != []
    requires Reads(schema, item, EncodeType(schema, item, vs[0]), vs[0])
    requires ReadsItems(schema, item, EncodeItems(schema, item, vs[1..]), vs[1..])
    ensures ReadsItems(schema, item, EncodeItems(schema, item, vs), vs)
  {
    var a, b := EncodeType(schema, item, vs[0]).value, EncodeItems(schema, item, vs[1..]).value;
    forall rest: seq<byte>
      ensures DecodeItems(schema, item, |vs|, (a + b) + rest) == Ok((vs, rest))
    {
      Assoc(a, b, rest);
      assert DecodeType(schema, item, a + (b + rest)) == Ok((vs[0], b + rest));
      assert vs == [vs[0]] + vs[1..];
    }
  }

  lemma {:induction false} ItemsRoundTrip(schema: Schema, item: TypeSchema, vs: seq<Value>)
    requires Acyclic(schema) && ItemsHaveType(schema, item, vs)
    ensures ReadsItems(schema, item, EncodeItems(schema, item, vs), vs)
    decreases Level(schema, item), Size(item), 1 + |vs|
  {
    if vs == [] {
      forall rest: seq<byte>
        ensures DecodeItems(schema, item, 0, [] + rest) == Ok(([], rest))
      {
        assert [] + rest == rest;
      }
    } else {
      TypeRoundTrip(schema, item, vs[0]);
      ItemsRoundTrip(schema, item, vs[1..]);
      ConsItems(schema, item, vs);
    }
  }

  /** The part of a record that belongs to some fields. */
  function Restrict(values: map<string, Value>, names: set<string>): map<string, Value> {
    map name | name in values && name in names :: values[name]
  }

  ghost predicate ReadsFields(
      schema: Schema, fields: seq<Field>, r: Result<seq<byte>, CodecError>, values: map<string, Value>)
    requires Acyclic(schema)
  {
    r.Ok? && forall rest {:trigger r.value + rest} ::
      DecodeFields(schema, fields, r.value + rest) == Ok((Restrict(values, Names(fields)), rest))
  }

  lemma {:induction false} ConsNames(fields: seq<Field>, values: map<string, Value>)
    requires fields != [] && fields[0].name in values
    ensures map[fields[0].name := values[fields[0].name]] + Restrict(values, Names(fields[1..]))
         == Restrict(values, Names(fields))
  {
    assert fields == [fields[0]] + fields[1..];
    assert Names(fields) == {fields[0].name} + Names(fields[1..]);
  }

  lemma {:induction false} ConsFields(schema: Schema, fields: seq<Field>, values: map<string, Value>, padding: bool)
    requires Acyclic(schema) && fields != [] && fields[0].name in values
    requires var f := fields[0]; var v := values[f.name]; Reads(schema, f.type_, EncodeType(schema, f.type_, v), v)
    requires ReadsFields(schema, fields[1..], EncodeFields(schema, fields[1..], values, padding), values)
    ensures ReadsFields(schema, fields, EncodeFields(schema, fields, values, padding), values)
  {
    var f := fields[0];
    var v := values[f.name];
    var a, b := EncodeType(schema, f.type_, v).value, EncodeFields(schema, fields[1..], values, padding).value;
    ConsNames(fields, values);
    forall rest: seq<byte>
      ensures DecodeFields(schema, fields, (a + b) + rest) == Ok((Restrict(values, Names(fields)), rest))
    {
      Assoc(a, b, rest);
      assert DecodeType(schema, f.type_, a + (b + rest)) == Ok((v, b + rest));
    }
  }

  lemma {:induction false} FieldsRoundTrip(
      schema: Schema, fields: seq<Field>, values: map<string, Value>, padding: bool)
    requires Acyclic(schema) && FieldsHaveType(schema, fields, values)
    ensures ReadsFields(schema, fields, EncodeFields(schema, fields, values, padding), values)
    decreases FieldsLevel(schema, fields), FieldsSize(fields), 0
  {
    if fields == [] {
      forall rest: seq<byte>
        ensures DecodeFields(schema, fields, [] + rest) == Ok((Restrict(values, Names(fields)), rest))
      {
        assert [] + rest == rest;
      }
    } else {
      TypeRoundTrip(schema, fields[0].type_, values[fields[0].name]);
      FieldsRoundTrip(schema, fields[1..], values, padding);
      ConsFields(schema, fields, values, padding);
    }
  }

  lemma {:induction false} NoneRoundTrip(schema: Schema, item: TypeSchema)
    requires Acyclic(schema)
    ensures Reads(schema, OptionOf(item), EncodeType(schema, OptionOf(item), VNone), VNone)
  {
    forall rest: seq<byte>
      ensures DecodeType(schema, OptionOf(item), [0] + rest) == Ok((VNone, rest))
    {
      assert ([0] + rest)[1..] == rest;
    }
  }

  /** Every in-range value is encoded, and decoding the encoding followed by anything returns it. */
  lemma {:induction false} TypeRoundTrip(schema: Schema, t: TypeSchema, v: Value)
    requires Acyclic(schema) && HasType(schema, t, v)
    ensures Reads(schema, t, EncodeType(schema, t, v), v)
    decreases Level(schema, t), Size(t), 0
  {
    match t {
      case Prim(p) =>
        PrimitiveRoundTrip(p, v, []);
        forall rest: seq<byte>
          ensures DecodePrimitive(p, EncodePrimitive(p, v).value + rest) == Ok((v, rest))
        {
          PrimitiveRoundTrip(p, v, rest);
        }
      case OptionOf(item) =>
        if v == VNone {
          NoneRoundTrip(schema, item);
        } else {
          TypeRoundTrip(schema, item, v);
          OptionRoundTrip(schema, item, v);
        }
      case ArrayOf(item, length) =>
        ManyRoundTrip(schema, item, v);
      case VectorOf(item) =>
        ManyRoundTrip(schema, item, v);
        VectorRoundTrip(schema, item, v);
      case Defined(name) =>
        FieldsRoundTrip(schema, schema.types[name], v.fields, false);
        assert Restrict(v.fields, Names(schema.types[name])) == v.fields;
    }
  }

  /** No encoding is a prefix of another, and different values have different encodings. */
  lemma {:induction false} PrefixFree(schema: Schema, t: TypeSchema, v: Value, w: Value, a: seq<byte>, b: seq<byte>)
    requires Acyclic(schema) && HasType(schema, t, v) && HasType(schema, t, w)
    ensures EncodeType(schema, t, v).Ok? && EncodeType(schema, t, w).Ok?
    ensures EncodeType(schema, t, v).value + a == EncodeType(schema, t, w).value + b ==> v == w && a == b
  {
    TypeRoundTrip(schema, t, v);
    TypeRoundTrip(schema, t, w);
    assert DecodeType(schema, t, EncodeType(schema, t, v).value + a) == Ok((v, a));
    assert DecodeType(schema, t, EncodeType(schema, t, w).value + b) == Ok((w, b));
  }
}
