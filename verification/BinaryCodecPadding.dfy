/**
 Reserved and padding fields left out of a record are written as zero bytes.
 */
module BinaryCodecPadding {
  import opened Wrappers
  import opened Bytes
  import opened LittleEndianIntegers
  import opened BinaryCodec
  import opened BinaryCodecCorrect
  import opened BinaryCodecCanonical

  ghost predicate ZeroBytes(r: Result<seq<byte>, CodecError>) {
    r.Ok? && forall i :: 0 <= i < |r.value| ==> r.value[i] == 0
  }

  lemma {:induction false} ZeroAppend(a: Result<seq<byte>, CodecError>, b: Result<seq<byte>, CodecError>)
    requires ZeroBytes(a) && ZeroBytes(b)
    ensures ZeroBytes(Append(a, b))
  {
  }

  lemma {:induction false} ZeroLittleEndian(k: nat)
    ensures LittleEndian(0, k) == Zeros(k)
  {
    if k > 0 {
      ZeroLittleEndian(k - 1);
    }
  }

  lemma {:induction false} ZeroPrimitive(p: Primitive, v: Value)
    requires v == match p case Bool => VBool(false) case Pubkey => VBytes(Zeros(32)) case _ => VInt(0)
    ensures ZeroBytes(EncodePrimitive(p, v))
  {
    ZeroLittleEndian(8);
    ZeroLittleEndian(16);
    ZeroLittleEndian(Width(p));
  }

  lemma {:induction false} ZeroItems(schema: Schema, item: TypeSchema, v: Value, n: nat)
    requires Acyclic(schema) && ZeroBytes(EncodeType(schema, item, v))
    ensures ZeroBytes(EncodeItems(schema, item, Repeat(v, n)))
  {
    if n > 0 {
      ZeroItems(schema, item, v, n - 1);
      assert Repeat(v, n)[1..] == Repeat(v, n - 1);
      ZeroAppend(EncodeType(schema, item, v), EncodeItems(schema, item, Repeat(v, n - 1)));
    }
  }

  lemma {:induction false} ZeroVector(schema: Schema, item: TypeSchema)
    requires Acyclic(schema)
    ensures ZeroBytes(EncodeType(schema, VectorOf(item), ZeroValue(schema, VectorOf(item)).value))
  {
    var v := ZeroValue(schema, VectorOf(item)).value;
    assert LengthOf(v) == 0 && EncodeMany(schema, item, v) == Ok([]);
    assert Power256(4) > 0;
    ZeroLittleEndian(4);
    ZeroAppend(EncodeUnsigned(0, 4), Ok([]));
  }

  /** A zero value exists for every complete type, and its encoding is all zero bytes. */
  lemma {:induction false} ZeroValueEncodesToZeros(schema: Schema, t: TypeSchema)
    requires Complete(schema) && Closed(schema, t)
    ensures ZeroValue(schema, t).Ok? && ZeroBytes(EncodeType(schema, t, ZeroValue(schema, t).value))
    decreases Level(schema, t), Size(t), 0
  {
    match t {
      case Prim(p) => ZeroPrimitive(p, ZeroValue(schema, t).value);
      case OptionOf(_) =>
      case VectorOf(item) => ZeroVector(schema, item);
      case ArrayOf(item, length) =>
        if item != Prim(U8) {
          ZeroValueEncodesToZeros(schema, item);
          var v := ZeroValue(schema, item).value;
          ZeroItems(schema, item, v, length);
          assert length == 0 ==> Repeat(v, length) == [];
        }
      case Defined(name) =>
        var fields := schema.types[name];
        ZeroFieldsAre(schema, fields);
        ZeroFieldsEncode(schema, fields, ZeroFields(schema, fields).value);
    }
  }

  ghost predicate ZeroAt(schema: Schema, fields: seq<Field>, values: map<string, Value>)
    requires Acyclic(schema)
  {
    forall f :: f in fields ==> f.name in values && ZeroValue(schema, f.type_) == Ok(values[f.name])
  }

  lemma {:induction false} ZeroFieldsAre(schema: Schema, fields: seq<Field>)
    requires Complete(schema) && FieldsClosed(schema, fields) && DistinctNames(fields)
    ensures ZeroFields(schema, fields).Ok? && ZeroAt(schema, fields, ZeroFields(schema, fields).value)
    ensures ZeroFields(schema, fields).value.Keys == Names(fields)
    decreases FieldsLevel(schema, fields), FieldsSize(fields), 0
  {
    if fields != [] {
      ZeroValueEncodesToZeros(schema, fields[0].type_);
      ZeroFieldsAre(schema, fields[1..]);
      ConsZero(schema, fields, ZeroValue(schema, fields[0].type_).value, ZeroFields(schema, fields[1..]).value);
    }
  }

  lemma {:induction false} ConsZero(schema: Schema, fields: seq<Field>, v: Value, values: map<string, Value>)
    requires Acyclic(schema) && fields != [] && DistinctNames(fields)
    requires ZeroValue(schema, fields[0].type_) == Ok(v)
    requires ZeroAt(schema, fields[1..], values) && values.Keys == Names(fields[1..])
    ensures var all := map[fields[0].name := v] + values;
      ZeroAt(schema, fields, all) && all.Keys == Names(fields)
  {
    ConsMap(fields, v, values);
    assert fields == [fields[0]] + fields[1..];
  }

  lemma {:induction false} ZeroFieldsEncode(schema: Schema, fields: seq<Field>, values: map<string, Value>)
    requires Complete(schema) && FieldsClosed(schema, fields) && ZeroAt(schema, fields, values)
    ensures ZeroBytes(EncodeFields(schema, fields, values, false))
    decreases FieldsLevel(schema, fields), FieldsSize(fields), 0
  {
    if fields != [] {
      var f, tail := fields[0], fields[1..];
      assert f in fields;
      ZeroValueEncodesToZeros(schema, f.type_);
      ZeroFieldsEncode(schema, tail, values);
      ZeroAppend(EncodeType(schema, f.type_, values[f.name]), EncodeFields(schema, tail, values, false));
    }
  }

  /**
   A padding field the caller leaves out encodes to the zero bytes of its type when defaults are on;
   without defaults only options may be left out.
   */
  lemma {:induction false} PaddingDefaults(schema: Schema, f: Field, values: map<string, Value>)
    requires Complete(schema) && Closed(schema, f.type_) && f.name !in values
    ensures "_pad" <= f.name || "_reserved" <= f.name ==>
      FieldValue(schema, f, values, true).Ok?
      && ZeroBytes(EncodeFields(schema, [f], values, true))
    ensures EncodeFields(schema, [f], values, false).Ok? <==> f.type_.OptionOf?
    ensures EncodeFields(schema, [f], values, false)
      == if f.type_.OptionOf? then Ok([0]) else Err(MissingField(f.name))
  {
    ZeroValueEncodesToZeros(schema, f.type_);
    assert [f][1..] == [];
    assert [0] + [] == [0];
    if IsPadding(f.name) {
      ZeroAppend(EncodeType(schema, f.type_, ZeroValue(schema, f.type_).value), Ok([]));
    }
  }

  //// Padding of whole structs

  predicate LeftOut(f: Field, values: map<string, Value>) {
    f.name !in values && ("_pad" <= f.name || "_reserved" <= f.name)
  }

  /** The record with the zero values of the reserved fields it leaves out. */
  function Padded(schema: Schema, fields: seq<Field>, values: map<string, Value>): map<string, Value>
    requires Acyclic(schema)
  {
    if fields == [] then values
    else PadOne(schema, fields[0], values, Padded(schema, fields[1..], values))
  }

  /** What the padded record holds at a field, and nowhere else does it differ. */
  ghost predicate PaddedAt(schema: Schema, f: Field, values: map<string, Value>, padded: map<string, Value>)
    requires Acyclic(schema)
  {
    if LeftOut(f, values) then f.name in padded && ZeroValue(schema, f.type_) == Ok(padded[f.name])
    else (f.name in padded <==> f.name in values) && (f.name in values ==> padded[f.name] == values[f.name])
  }

  /** Outside the names of the fields, and where it has a value, a padded record is the record itself. */
  ghost predicate SameElsewhere(names: set<string>, values: map<string, Value>, padded: map<string, Value>) {
    forall name :: name !in names || name in values ==>
      ((name in padded <==> name in values) && (name in values ==> padded[name] == values[name]))
  }

  function PadOne(schema: Schema, f: Field, values: map<string, Value>, rest: map<string, Value>): map<string, Value>
    requires Acyclic(schema)
  {
    if LeftOut(f, values) && ZeroValue(schema, f.type_).Ok? then rest[f.name := ZeroValue(schema, f.type_).value]
    else rest
  }

  lemma {:induction false} PadOneKeeps(
      schema: Schema, f: Field, other: Field, values: map<string, Value>, rest: map<string, Value>)
    requires Acyclic(schema) && f.name != other.name && PaddedAt(schema, other, values, rest)
    ensures PaddedAt(schema, other, values, PadOne(schema, f, values, rest))
  {
  }

  lemma {:induction false} PadOneSets(
      schema: Schema, f: Field, names: set<string>, values: map<string, Value>, rest: map<string, Value>)
    requires Acyclic(schema) && f.name !in names && SameElsewhere(names, values, rest)
    requires ZeroValue(schema, f.type_).Ok?
    ensures PaddedAt(schema, f, values, PadOne(schema, f, values, rest))
    ensures SameElsewhere({f.name} + names, values, PadOne(schema, f, values, rest))
  {
  }

  lemma {:induction false} PaddedAre(schema: Schema, fields: seq<Field>, values: map<string, Value>)
    requires Complete(schema) && FieldsClosed(schema, fields) && DistinctNames(fields)
    ensures forall f :: f in fields ==> PaddedAt(schema, f, values, Padded(schema, fields, values))
    ensures SameElsewhere(Names(fields), values, Padded(schema, fields, values))
  {
    if fields != [] {
      var first, tail := fields[0], fields[1..];
      var rest := Padded(schema, tail, values);
      assert fields == [first] + tail && first in fields;
      assert Names(fields) == {first.name} + Names(tail);
      FirstNotLater(first, tail);
      ZeroValueEncodesToZeros(schema, first.type_);
      PaddedAre(schema, tail, values);
      PadOneSets(schema, first, Names(tail), values, rest);
      forall f | f in fields
        ensures PaddedAt(schema, f, values, Padded(schema, fields, values))
      {
        if f in tail {
          assert f.name in Names(tail);
          PadOneKeeps(schema, first, f, values, rest);
        }
      }
    }
  }

  lemma {:induction false} FirstNotLater(first: Field, tail: seq<Field>)
    requires DistinctNames([first] + tail)
    ensures DistinctNames(tail) && first.name !in Names(tail)
  {
    var all := [first] + tail;
    assert forall i :: 0 <= i < |tail| ==> all[i + 1] == tail[i];
    assert all[0] == first;
  }

  /** The encoder looks at a record only through the values of the fields. */
  lemma {:induction false} SameFieldValues(
      schema: Schema, fields: seq<Field>, values: map<string, Value>, padding: bool, others: map<string, Value>,
      otherPadding: bool)
    requires Acyclic(schema)
    requires forall f :: f in fields ==>
      FieldValue(schema, f, values, padding) == FieldValue(schema, f, others, otherPadding)
    ensures EncodeFields(schema, fields, values, padding) == EncodeFields(schema, fields, others, otherPadding)
    decreases |fields|
  {
    if fields != [] {
      assert fields[0] in fields;
      SameFieldValues(schema, fields[1..], values, padding, others, otherPadding);
    }
  }

  /**
   For every struct, encoding with padding is encoding without it of the record to which the zero
   values of the missing reserved fields were added; it succeeds exactly when that one does.
   */
  lemma {:induction false} PaddingIsZeroFields(schema: Schema, fields: seq<Field>, values: map<string, Value>)
    requires Complete(schema) && FieldsClosed(schema, fields) && DistinctNames(fields)
    ensures EncodeFields(schema, fields, values, true)
      == EncodeFields(schema, fields, Padded(schema, fields, values), false)
    ensures forall f :: f in fields ==> PaddedAt(schema, f, values, Padded(schema, fields, values))
    ensures SameElsewhere(Names(fields), values, Padded(schema, fields, values))
    ensures forall f :: f in fields && LeftOut(f, values) ==>
      f.name in Padded(schema, fields, values)
      && ZeroBytes(EncodeType(schema, f.type_, Padded(schema, fields, values)[f.name]))
  {
    var padded := Padded(schema, fields, values);
    PaddedAre(schema, fields, values);
    forall f | f in fields
      ensures FieldValue(schema, f, values, true) == FieldValue(schema, f, padded, false)
      ensures LeftOut(f, values) ==>
        f.name in padded && ZeroBytes(EncodeType(schema, f.type_, padded[f.name]))
    {
      assert PaddedAt(schema, f, values, padded);
      ZeroValueEncodesToZeros(schema, f.type_);
    }
    SameFieldValues(schema, fields, values, true, padded, false);
  }
}
