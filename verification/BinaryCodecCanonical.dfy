/** Canonicality: one encoding for each value exactly when no option directly holds an option. */
module BinaryCodecCanonical {
  import opened Wrappers
  import opened Bytes
  import opened LittleEndianIntegers
  import opened BinaryCodec
  import opened BinaryCodecCorrect
  import Base58

  ghost predicate DistinctNames(fields: seq<Field>) {
    forall i, j :: 0 <= i < j < |fields| ==> fields[i].name != fields[j].name
  }

  ghost predicate Tidy(schema: Schema) {
    Acyclic(schema) && forall name :: name in schema.types ==> DistinctNames(schema.types[name])
  }

  /** No option directly inside an option, wherever decoding can get to. */
  predicate Canonical(schema: Schema, t: TypeSchema)
    requires Acyclic(schema)
    decreases Level(schema, t), Size(t), 0
  {
    match t
    case Prim(_) => true
    case OptionOf(item) => !item.OptionOf? && Canonical(schema, item)
    case ArrayOf(item, length) => length == 0 || Canonical(schema, item)
    case VectorOf(item) => Canonical(schema, item)
    case Defined(name) => name in schema.types ==> FieldsCanonical(schema, schema.types[name])
  }

  predicate FieldsCanonical(schema: Schema, fields: seq<Field>)
    requires Acyclic(schema)
    decreases FieldsLevel(schema, fields), FieldsSize(fields), 0
  {
    fields == [] || (Canonical(schema, fields[0].type_) && FieldsCanonical(schema, fields[1..]))
  }

  //// Encoding undoes decoding

  lemma {:induction false} UnsignedExact(p: Primitive, bytes: seq<byte>)
    requires |bytes| == Width(p) && (p == U8 || p == U16 || p == U32 || p == U64 || p == U128)
    ensures PrimitiveHas(p, VInt(Unsigned(bytes))) && EncodePrimitive(p, VInt(Unsigned(bytes))) == Ok(bytes)
  {
    Powers();
    LittleEndianValue(bytes);
  }

  lemma {:induction false} SignedPrimitiveExact(p: Primitive, bytes: seq<byte>)
    requires |bytes| == Width(p) && (p == I64 || p == I128)
    ensures PrimitiveHas(p, VInt(Signed(bytes))) && EncodePrimitive(p, VInt(Signed(bytes))) == Ok(bytes)
  {
    Powers();
    SignedExact(bytes);
  }

  lemma {:induction false} HeadExact(p: Primitive, head: seq<byte>)
    requires |head| == Width(p) && PrimitiveValue(p, head).Ok?
    ensures PrimitiveHas(p, PrimitiveValue(p, head).value)
    ensures EncodePrimitive(p, PrimitiveValue(p, head).value) == Ok(head)
  {
    match p {
      case Bool => assert head == [head[0]];
      case Pubkey => Base58.DecodeEncode(head);
      case I64 => SignedPrimitiveExact(p, head);
      case I128 => SignedPrimitiveExact(p, head);
      case _ => UnsignedExact(p, head);
    }
  }

  lemma {:induction false} PrimitiveExact(p: Primitive, bs: seq<byte>)
    requires DecodePrimitive(p, bs).Ok?
    ensures var (v, rest) := DecodePrimitive(p, bs).value;
            PrimitiveHas(p, v) && EncodePrimitive(p, v).Ok? && bs == EncodePrimitive(p, v).value + rest
  {
    SplitHead(bs, Width(p));
    HeadExact(p, bs[..Width(p)]);
  }

  lemma {:induction false} SplitHead(bs: seq<byte>, n: nat)
    requires n <= |bs|
    ensures bs == bs[..n] + bs[n..]
  {
  }

  /** Decoded values are in range; without nested options the bytes are their encoding. */
  ghost predicate ExactType(schema: Schema, t: TypeSchema, bs: seq<byte>, v: Value, rest: seq<byte>)
    requires Acyclic(schema)
  {
    HasType(schema, t, v)
    && (Canonical(schema, t) ==> EncodeType(schema, t, v).Ok? && bs == EncodeType(schema, t, v).value + rest)
  }

  ghost predicate ExactItems(
      schema: Schema, item: TypeSchema, n: nat, bs: seq<byte>, vs: seq<Value>, rest: seq<byte>)
    requires Acyclic(schema)
  {
    |vs| == n && ItemsHaveType(schema, item, vs)
    && (n == 0 || Canonical(schema, item) ==>
        EncodeItems(schema, item, vs).Ok? && bs == EncodeItems(schema, item, vs).value + rest)
  }

  ghost predicate ExactMany(
      schema: Schema, item: TypeSchema, n: nat, bs: seq<byte>, v: Value, rest: seq<byte>)
    requires Acyclic(schema)
  {
    LengthOf(v) == n && AllHaveType(schema, item, v)
    && (n == 0 || Canonical(schema, item) ==>
        EncodeMany(schema, item, v).Ok? && bs == EncodeMany(schema, item, v).value + rest)
  }

  ghost predicate ExactFields(
      schema: Schema, fields: seq<Field>, bs: seq<byte>, values: map<string, Value>, rest: seq<byte>)
    requires Acyclic(schema)
  {
    values.Keys == Names(fields) && FieldsHaveType(schema, fields, values)
    && (FieldsCanonical(schema, fields) ==>
        EncodeFields(schema, fields, values, false).Ok?
        && bs == EncodeFields(schema, fields, values, false).value + rest)
  }

  /** Fields only look at the entries of their own names. */
  lemma {:induction false} FieldsFrame(
      schema: Schema, fields: seq<Field>, values: map<string, Value>, others: map<string, Value>)
    requires Acyclic(schema)
    requires forall f :: f in fields ==> f.name in values && f.name in others && values[f.name] == others[f.name]
    ensures FieldsHaveType(schema, fields, values) <==> FieldsHaveType(schema, fields, others)
    ensures EncodeFields(schema, fields, values, false) == EncodeFields(schema, fields, others, false)
  {
    if fields != [] {
      FieldsFrame(schema, fields[1..], values, others);
    }
  }

  lemma {:induction false} ConsMap(fields: seq<Field>, v: Value, values: map<string, Value>)
    requires fields != [] && DistinctNames(fields) && values.Keys == Names(fields[1..])
    ensures var all := map[fields[0].name := v] + values;
      && all.Keys == Names(fields) && all[fields[0].name] == v
      && forall f :: f in fields[1..] ==> f.name in all && f.name in values && all[f.name] == values[f.name]
  {
    var tail := fields[1..];
    assert fields == [fields[0]] + tail;
    assert fields[0].name !in Names(tail);
    assert forall f :: f in tail ==> f.name in Names(tail);
  }

  lemma {:induction false} RestrictAll(values: map<string, Value>, names: set<string>)
    requires values.Keys == names
    ensures Restrict(values, names) == values
  {
  }

  /** A record built field by field, in front of the fields already built. */
  lemma {:induction false} ConsRecord(schema: Schema, fields: seq<Field>, v: Value, values: map<string, Value>)
    requires Acyclic(schema) && fields != [] && DistinctNames(fields)
    requires HasType(schema, fields[0].type_, v)
    requires values.Keys == Names(fields[1..]) && FieldsHaveType(schema, fields[1..], values)
    ensures var all := map[fields[0].name := v] + values;
      && all.Keys == Names(fields) && FieldsHaveType(schema, fields, all)
      && EncodeFields(schema, fields, all, false)
      == Append(EncodeType(schema, fields[0].type_, v), EncodeFields(schema, fields[1..], values, false))
  {
    ConsMap(fields, v, values);
    FieldsFrame(schema, fields[1..], map[fields[0].name := v] + values, values);
  }

  lemma {:induction false} ConsExact(
      schema: Schema, fields: seq<Field>, bs: seq<byte>, v: Value, mid: seq<byte>,
      values: map<string, Value>, rest: seq<byte>)
    requires Acyclic(schema) && fields != [] && DistinctNames(fields)
    requires ExactType(schema, fields[0].type_, bs, v, mid)
    requires ExactFields(schema, fields[1..], mid, values, rest)
    ensures ExactFields(schema, fields, bs, map[fields[0].name := v] + values, rest)
  {
    var tail := fields[1..];
    ConsRecord(schema, fields, v, values);
    if FieldsCanonical(schema, fields) {
      Assoc(EncodeType(schema, fields[0].type_, v).value,
        EncodeFields(schema, tail, values, false).value, rest);
    }
  }

  lemma {:induction false} FieldsExact(schema: Schema, fields: seq<Field>, bs: seq<byte>)
    requires Tidy(schema) && DistinctNames(fields) && DecodeFields(schema, fields, bs).Ok?
    ensures var (values, rest) := DecodeFields(schema, fields, bs).value; ExactFields(schema, fields, bs, values, rest)
    decreases FieldsLevel(schema, fields), FieldsSize(fields), 0
  {
    if fields == [] {
      assert [] + bs == bs;
    } else {
      TypeExact(schema, fields[0].type_, bs);
      var (v, mid) := DecodeType(schema, fields[0].type_, bs).value;
      FieldsExact(schema, fields[1..], mid);
      var (values, rest) := DecodeFields(schema, fields[1..], mid).value;
      ConsExact(schema, fields, bs, v, mid, values, rest);
    }
  }

  lemma {:induction false} ConsExactItems(
      schema: Schema, item: TypeSchema, n: nat, bs: seq<byte>, v: Value, mid: seq<byte>,
      vs: seq<Value>, rest: seq<byte>)
    requires Acyclic(schema) && n > 0
    requires ExactType(schema, item, bs, v, mid) && ExactItems(schema, item, n - 1, mid, vs, rest)
    ensures ExactItems(schema, item, n, bs, [v] + vs, rest)
  {
    ConsHaveType(schema, item, v, vs);
    assert ([v] + vs)[1..] == vs;
    if Canonical(schema, item) {
      Assoc(EncodeType(schema, item, v).value, EncodeItems(schema, item, vs).value, rest);
    }
  }

  lemma {:induction false} DecodeItemsStep(schema: Schema, item: TypeSchema, n: nat, bs: seq<byte>)
      returns (v: Value, mid: seq<byte>, vs: seq<Value>, rest: seq<byte>)
    requires Acyclic(schema) && n > 0 && DecodeItems(schema, item, n, bs).Ok?
    ensures DecodeType(schema, item, bs) == Ok((v, mid)) && DecodeItems(schema, item, n - 1, mid) == Ok((vs, rest))
    ensures DecodeItems(schema, item, n, bs) == Ok(([v] + vs, rest))
  {
    v, mid := DecodeType(schema, item, bs).value.0, DecodeType(schema, item, bs).value.1;
    vs, rest := DecodeItems(schema, item, n - 1, mid).value.0, DecodeItems(schema, item, n - 1, mid).value.1;
  }

  lemma {:induction false} NoItemsExact(schema: Schema, item: TypeSchema, bs: seq<byte>)
    requires Acyclic(schema)
    ensures ExactItems(schema, item, 0, bs, [], bs)
  {
    assert [] + bs == bs;
  }

  lemma {:induction false} ItemsExact(schema: Schema, item: TypeSchema, n: nat, bs: seq<byte>)
    requires Tidy(schema) && DecodeItems(schema, item, n, bs).Ok?
    ensures var (vs, rest) := DecodeItems(schema, item, n, bs).value; ExactItems(schema, item, n, bs, vs, rest)
    decreases Level(schema, item), Size(item), n + 1
  {
    if n == 0 {
      NoItemsExact(schema, item, bs);
    } else {
      var v, mid, vs, rest := DecodeItemsStep(schema, item, n, bs);
      TypeExact(schema, item, bs);
      ItemsExact(schema, item, n - 1, mid);
      ConsExactItems(schema, item, n, bs, v, mid, vs, rest);
    }
  }

  lemma {:induction false} ManyExact(schema: Schema, item: TypeSchema, n: nat, bs: seq<byte>)
    requires Tidy(schema) && DecodeMany(schema, item, n, bs).Ok?
    ensures var (v, rest) := DecodeMany(schema, item, n, bs).value; ExactMany(schema, item, n, bs, v, rest)
    decreases Level(schema, item), Size(item), n + 2
  {
    if item == Prim(U8) {
      SplitHead(bs, n);
    } else {
      ItemsExact(schema, item, n, bs);
    }
  }

  lemma {:induction false} VectorExact(schema: Schema, item: TypeSchema, bs: seq<byte>)
    requires Acyclic(schema) && DecodeType(schema, VectorOf(item), bs).Ok?
    requires |bs| >= 4
    requires var (v, rest) := DecodeType(schema, VectorOf(item), bs).value;
             ExactMany(schema, item, Unsigned(bs[..4]), bs[4..], v, rest)
    ensures var (v, rest) := DecodeType(schema, VectorOf(item), bs).value;
            ExactType(schema, VectorOf(item), bs, v, rest)
  {
    var (v, rest) := DecodeType(schema, VectorOf(item), bs).value;
    LittleEndianValue(bs[..4]);
    SplitHead(bs, 4);
    if Canonical(schema, VectorOf(item)) {
      Assoc(bs[..4], EncodeMany(schema, item, v).value, rest);
    }
  }

  /** A type that is not an option never decodes to None. */
  lemma {:induction false} NotNone(schema: Schema, t: TypeSchema, v: Value)
    requires Acyclic(schema) && HasType(schema, t, v) && !t.OptionOf?
    ensures v != VNone
  {
  }

  lemma {:induction false} OptionExact(schema: Schema, item: TypeSchema, bs: seq<byte>, v: Value, rest: seq<byte>)
    requires Acyclic(schema) && bs != [] && bs[0] == 1 && ExactType(schema, item, bs[1..], v, rest)
    ensures ExactType(schema, OptionOf(item), bs, v, rest)
  {
    if Canonical(schema, OptionOf(item)) {
      NotNone(schema, item, v);
      SplitHead(bs, 1);
      assert bs[..1] == [1];
      Assoc([1], EncodeType(schema, item, v).value, rest);
    }
  }

  lemma {:induction false} TypeExact(schema: Schema, t: TypeSchema, bs: seq<byte>)
    requires Tidy(schema) && DecodeType(schema, t, bs).Ok?
    ensures var (v, rest) := DecodeType(schema, t, bs).value; ExactType(schema, t, bs, v, rest)
    decreases Level(schema, t), Size(t), 0
  {
    var (v, rest) := DecodeType(schema, t, bs).value;
    match t {
      case Prim(p) => PrimitiveExact(p, bs);
      case OptionOf(item) =>
        if bs[0] == 0 {
          SplitHead(bs, 1);
          assert bs[..1] == [0];
        } else {
          TypeExact(schema, item, bs[1..]);
          OptionExact(schema, item, bs, v, rest);
        }
      case ArrayOf(item, length) => ManyExact(schema, item, length, bs);
      case VectorOf(item) =>
        ManyExact(schema, item, Unsigned(bs[..4]), bs[4..]);
        VectorExact(schema, item, bs);
      case Defined(name) => FieldsExact(schema, schema.types[name], bs);
    }
  }

  /** Accepted bytes with nothing left over are the encoding of the value they decode to. */
  lemma {:induction false} DecodeThenEncode(schema: Schema, t: TypeSchema, bs: seq<byte>)
    requires Tidy(schema) && Canonical(schema, t)
    requires DecodeType(schema, t, bs).Ok? && DecodeType(schema, t, bs).value.1 == []
    ensures EncodeType(schema, t, DecodeType(schema, t, bs).value.0) == Ok(bs)
  {
    TypeExact(schema, t, bs);
    var enc := EncodeType(schema, t, DecodeType(schema, t, bs).value.0).value;
    assert enc + [] == enc;
  }

  //// The condition is exact

  /** Every name a type mentions is defined. */
  predicate Closed(schema: Schema, t: TypeSchema) {
    match t
    case Prim(_) => true
    case OptionOf(item) => Closed(schema, item)
    case ArrayOf(item, _) => Closed(schema, item)
    case VectorOf(item) => Closed(schema, item)
    case Defined(name) => name in schema.types
  }

  ghost predicate FieldsClosed(schema: Schema, fields: seq<Field>) {
    forall f :: f in fields ==> Closed(schema, f.type_)
  }

  ghost predicate Complete(schema: Schema) {
    Tidy(schema) && forall name :: name in schema.types ==> FieldsClosed(schema, schema.types[name])
  }

  /** Bytes that read as `v`, whose encoding is no longer, and shorter if `strict`. */
  ghost predicate Piece(schema: Schema, t: TypeSchema, bs: seq<byte>, v: Value, strict: bool)
    requires Acyclic(schema)
  {
    HasType(schema, t, v) && Reads(schema, t, Ok(bs), v) && EncodeType(schema, t, v).Ok?
    && |EncodeType(schema, t, v).value| + (if strict then 1 else 0) <= |bs|
  }

  ghost predicate PieceItems(schema: Schema, item: TypeSchema, bs: seq<byte>, vs: seq<Value>, strict: bool)
    requires Acyclic(schema)
  {
    ItemsHaveType(schema, item, vs) && ReadsItems(schema, item, Ok(bs), vs) && EncodeItems(schema, item, vs).Ok?
    && |EncodeItems(schema, item, vs).value| + (if strict then 1 else 0) <= |bs|
  }

  ghost predicate PieceFields(
      schema: Schema, fields: seq<Field>, bs: seq<byte>, values: map<string, Value>, strict: bool)
    requires Acyclic(schema)
  {
    values.Keys == Names(fields) && FieldsHaveType(schema, fields, values)
    && ReadsFields(schema, fields, Ok(bs), values) && EncodeFields(schema, fields, values, false).Ok?
    && |EncodeFields(schema, fields, values, false).value| + (if strict then 1 else 0) <= |bs|
  }

  lemma {:induction false} PieceOf(schema: Schema, t: TypeSchema, v: Value) returns (a: seq<byte>)
    requires Acyclic(schema) && HasType(schema, t, v)
    ensures Piece(schema, t, a, v, false)
  {
    TypeRoundTrip(schema, t, v);
    a := EncodeType(schema, t, v).value;
  }

  lemma {:induction false} DecodeCons(
      schema: Schema, item: TypeSchema, bs: seq<byte>, v: Value, mid: seq<byte>, vs: seq<Value>, rest: seq<byte>)
    requires Acyclic(schema) && DecodeType(schema, item, bs) == Ok((v, mid))
    requires DecodeItems(schema, item, |vs|, mid) == Ok((vs, rest))
    ensures DecodeItems(schema, item, |[v] + vs|, bs) == Ok(([v] + vs, rest))
  {
  }

  lemma {:induction false} ConsHaveType(schema: Schema, item: TypeSchema, v: Value, vs: seq<Value>)
    requires Acyclic(schema) && HasType(schema, item, v) && ItemsHaveType(schema, item, vs)
    ensures ItemsHaveType(schema, item, [v] + vs)
  {
  }

  lemma {:induction false} ConsItemsRead(
      schema: Schema, item: TypeSchema, a: seq<byte>, v: Value, b: seq<byte>, vs: seq<Value>)
    requires Acyclic(schema) && Reads(schema, item, Ok(a), v) && ReadsItems(schema, item, Ok(b), vs)
    ensures ReadsItems(schema, item, Ok(a + b), [v] + vs)
  {
    forall rest: seq<byte>
      ensures DecodeItems(schema, item, |[v] + vs|, (a + b) + rest) == Ok(([v] + vs, rest))
    {
      Assoc(a, b, rest);
      DecodeCons(schema, item, a + (b + rest), v, b + rest, vs, rest);
    }
  }

  lemma {:induction false} ConsItemsWritten(schema: Schema, item: TypeSchema, v: Value, vs: seq<Value>)
    requires Acyclic(schema)
    ensures EncodeItems(schema, item, [v] + vs) == Append(EncodeType(schema, item, v), EncodeItems(schema, item, vs))
  {
    assert ([v] + vs)[1..] == vs;
  }

  lemma {:induction false} ConsPieceItems(
      schema: Schema, item: TypeSchema, a: seq<byte>, v: Value, b: seq<byte>, vs: seq<Value>, strict: bool)
    requires Acyclic(schema) && Piece(schema, item, a, v, strict) && PieceItems(schema, item, b, vs, false)
    ensures PieceItems(schema, item, a + b, [v] + vs, strict)
  {
    ConsHaveType(schema, item, v, vs);
    ConsItemsRead(schema, item, a, v, b, vs);
    ConsItemsWritten(schema, item, v, vs);
  }

  lemma {:induction false} ConsFieldsRead(
      schema: Schema, fields: seq<Field>, a: seq<byte>, v: Value, b: seq<byte>, values: map<string, Value>,
      all: map<string, Value>)
    requires Acyclic(schema) && fields != [] && Reads(schema, fields[0].type_, Ok(a), v)
    requires ReadsFields(schema, fields[1..], Ok(b), values) && values.Keys == Names(fields[1..])
    requires all == map[fields[0].name := v] + values && all.Keys == Names(fields)
    ensures ReadsFields(schema, fields, Ok(a + b), all)
  {
    RestrictAll(all, Names(fields));
    RestrictAll(values, Names(fields[1..]));
    forall rest: seq<byte>
      ensures DecodeFields(schema, fields, (a + b) + rest) == Ok((all, rest))
    {
      Assoc(a, b, rest);
      assert DecodeType(schema, fields[0].type_, a + (b + rest)) == Ok((v, b + rest));
    }
  }

  lemma {:induction false} ConsPieceFields(
      schema: Schema, fields: seq<Field>, a: seq<byte>, v: Value, first: bool,
      b: seq<byte>, values: map<string, Value>, later: bool)
    requires Acyclic(schema) && fields != [] && DistinctNames(fields)
    requires Piece(schema, fields[0].type_, a, v, first)
    requires PieceFields(schema, fields[1..], b, values, later)
    ensures PieceFields(schema, fields, a + b, map[fields[0].name := v] + values, first || later)
  {
    var all := map[fields[0].name := v] + values;
    ConsRecord(schema, fields, v, values);
    ConsFieldsRead(schema, fields, a, v, b, values, all);
  }

  //// Some value of every type

  ghost function Default(schema: Schema, t: TypeSchema): Value
    requires Complete(schema) && Closed(schema, t)
    decreases Level(schema, t), Size(t), 0
  {
    match t
    case Prim(p) =>
      (match p case Bool => VBool(false) case Pubkey => VText(Base58.Encode(Zeros(32))) case _ => VInt(0))
    case OptionOf(_) => VNone
    case VectorOf(item) => if item == Prim(U8) then VBytes([]) else VList([])
    case ArrayOf(item, length) =>
      if item == Prim(U8) then VBytes(Zeros(length)) else VList(Repeat(Default(schema, item), length))
    case Defined(name) => VRecord(DefaultFields(schema, schema.types[name]))
  }

  ghost function DefaultFields(schema: Schema, fields: seq<Field>): (values: map<string, Value>)
    requires Complete(schema) && FieldsClosed(schema, fields)
    ensures values.Keys == Names(fields)
    decreases FieldsLevel(schema, fields), FieldsSize(fields), 0
  {
    if fields == [] then map[]
    else
      assert fields == [fields[0]] + fields[1..];
      map[fields[0].name := Default(schema, fields[0].type_)] + DefaultFields(schema, fields[1..])
  }

  lemma {:induction false} DefaultHasType(schema: Schema, t: TypeSchema)
    requires Complete(schema) && Closed(schema, t)
    ensures HasType(schema, t, Default(schema, t))
    decreases Level(schema, t), Size(t), 0
  {
    match t {
      case Prim(p) => if p == Pubkey {
        Base58.EncodeIsKey(Zeros(32));
      }
      case OptionOf(_) =>
      case VectorOf(_) =>
      case ArrayOf(item, length) => if item != Prim(U8) {
        DefaultHasType(schema, item);
        RepeatHasType(schema, item, length, Default(schema, item));
      }
      case Defined(name) => DefaultFieldsHaveType(schema, schema.types[name]);
    }
  }

  lemma {:induction false} RepeatHasType(schema: Schema, item: TypeSchema, length: nat, v: Value)
    requires Acyclic(schema) && item != Prim(U8) && HasType(schema, item, v)
    ensures HasType(schema, ArrayOf(item, length), VList(Repeat(v, length)))
  {
    assert ItemsHaveType(schema, item, Repeat(v, length));
  }

  lemma {:induction false} DefaultFieldsHaveType(schema: Schema, fields: seq<Field>)
    requires Complete(schema) && FieldsClosed(schema, fields) && DistinctNames(fields)
    ensures FieldsHaveType(schema, fields, DefaultFields(schema, fields))
    decreases FieldsLevel(schema, fields), FieldsSize(fields), 0
  {
    if fields != [] {
      DefaultHasType(schema, fields[0].type_);
      DefaultFieldsHaveType(schema, fields[1..]);
      ConsRecord(schema, fields, Default(schema, fields[0].type_), DefaultFields(schema, fields[1..]));
    }
  }

  lemma {:induction false} DefaultItems(schema: Schema, item: TypeSchema, n: nat) returns (b: seq<byte>)
    requires Complete(schema) && Closed(schema, item)
    ensures PieceItems(schema, item, b, Repeat(Default(schema, item), n), false)
  {
    var vs := Repeat(Default(schema, item), n);
    DefaultHasType(schema, item);
    ItemsRoundTrip(schema, item, vs);
    b := EncodeItems(schema, item, vs).value;
  }

  //// Bytes that re-encode shorter

  lemma {:induction false} NestedNone(schema: Schema, item: TypeSchema)
    requires Acyclic(schema) && item.OptionOf?
    ensures Piece(schema, OptionOf(item), [1, 0], VNone, true)
  {
    forall rest: seq<byte>
      ensures DecodeType(schema, OptionOf(item), [1, 0] + rest) == Ok((VNone, rest))
    {
      assert ([1, 0] + rest)[1..] == [0] + rest && ([0] + rest)[1..] == rest;
    }
  }

  lemma {:induction false} OptionPiece(schema: Schema, item: TypeSchema, a: seq<byte>, v: Value)
    requires Acyclic(schema) && !item.OptionOf? && Piece(schema, item, a, v, true)
    ensures Piece(schema, OptionOf(item), [1] + a, v, true)
  {
    NotNone(schema, item, v);
    OptionWrites(schema, item, v);
    forall rest: seq<byte>
      ensures DecodeType(schema, OptionOf(item), ([1] + a) + rest) == Ok((v, rest))
    {
      OptionReads(schema, item, v, a, rest);
    }
  }

  lemma {:induction false} ArrayPiece(schema: Schema, item: TypeSchema, length: nat, bs: seq<byte>, vs: seq<Value>)
    requires Acyclic(schema) && item != Prim(U8) && |vs| == length && PieceItems(schema, item, bs, vs, true)
    ensures Piece(schema, ArrayOf(item, length), bs, VList(vs), true)
  {
    assert EncodeMany(schema, item, VList(vs)) == EncodeItems(schema, item, vs);
    forall rest: seq<byte>
      ensures DecodeType(schema, ArrayOf(item, length), bs + rest) == Ok((VList(vs), rest))
    {
      assert DecodeItems(schema, item, |vs|, bs + rest) == Ok((vs, rest));
    }
  }

  lemma {:induction false} VectorPiece(schema: Schema, item: TypeSchema, bs: seq<byte>, v: Value)
    requires Acyclic(schema) && item != Prim(U8) && PieceItems(schema, item, bs, [v], true)
    ensures Piece(schema, VectorOf(item), LittleEndian(1, 4) + bs, VList([v]), true)
  {
    var head := LittleEndian(1, 4);
    assert Power256(4) > 1;
    ValueLittleEndian(1, 4);
    forall rest: seq<byte>
      ensures DecodeType(schema, VectorOf(item), (head + bs) + rest) == Ok((VList([v]), rest))
    {
      Assoc(head, bs, rest);
      TakeAppend(head, bs + rest);
      assert DecodeItems(schema, item, |[v]|, bs + rest) == Ok(([v], rest));
    }
  }

  lemma {:induction false} RecordReads(schema: Schema, name: string, bs: seq<byte>, values: map<string, Value>)
    requires Acyclic(schema) && name in schema.types && ReadsFields(schema, schema.types[name], Ok(bs), values)
    requires Restrict(values, Names(schema.types[name])) == values
    ensures Reads(schema, Defined(name), Ok(bs), VRecord(values))
  {
    forall rest: seq<byte>
      ensures DecodeType(schema, Defined(name), bs + rest) == Ok((VRecord(values), rest))
    {
      assert DecodeFields(schema, schema.types[name], bs + rest) == Ok((values, rest));
    }
  }

  lemma {:induction false} RecordPiece(schema: Schema, name: string, bs: seq<byte>, values: map<string, Value>)
    requires Acyclic(schema) && name in schema.types && PieceFields(schema, schema.types[name], bs, values, true)
    ensures Piece(schema, Defined(name), bs, VRecord(values), true)
  {
    RestrictAll(values, Names(schema.types[name]));
    RecordReads(schema, name, bs, values);
  }

  lemma {:induction false} Shrinks(schema: Schema, t: TypeSchema) returns (bs: seq<byte>, v: Value)
    requires Complete(schema) && Closed(schema, t) && !Canonical(schema, t)
    ensures Piece(schema, t, bs, v, true)
    decreases Level(schema, t), Size(t), 0
  {
    match t {
      case OptionOf(item) =>
        if item.OptionOf? {
          NestedNone(schema, item);
          bs, v := [1, 0], VNone;
        } else {
          var a, w := Shrinks(schema, item);
          OptionPiece(schema, item, a, w);
          bs, v := [1] + a, w;
        }
      case ArrayOf(item, length) =>
        var a, w := Shrinks(schema, item);
        var b := DefaultItems(schema, item, length - 1);
        var vs := Repeat(Default(schema, item), length - 1);
        ConsPieceItems(schema, item, a, w, b, vs, true);
        ArrayPiece(schema, item, length, a + b, [w] + vs);
        bs, v := a + b, VList([w] + vs);
      case VectorOf(item) =>
        var a, w := Shrinks(schema, item);
        var b := DefaultItems(schema, item, 0);
        assert [w] + Repeat(Default(schema, item), 0) == [w];
        ConsPieceItems(schema, item, a, w, b, Repeat(Default(schema, item), 0), true);
        VectorPiece(schema, item, a + b, w);
        bs, v := LittleEndian(1, 4) + (a + b), VList([w]);
      case Defined(name) =>
        var a, values := FieldsShrink(schema, schema.types[name]);
        RecordPiece(schema, name, a, values);
        bs, v := a, VRecord(values);
    }
  }

  lemma {:induction false} FieldsShrink(schema: Schema, fields: seq<Field>)
      returns (bs: seq<byte>, values: map<string, Value>)
    requires Complete(schema) && FieldsClosed(schema, fields) && DistinctNames(fields)
    requires !FieldsCanonical(schema, fields)
    ensures PieceFields(schema, fields, bs, values, true)
    decreases FieldsLevel(schema, fields), FieldsSize(fields), 0
  {
    var first, tail := fields[0], fields[1..];
    assert Closed(schema, first.type_) && FieldsClosed(schema, tail);
    if Canonical(schema, first.type_) {
      var v := Default(schema, first.type_);
      DefaultHasType(schema, first.type_);
      var a := PieceOf(schema, first.type_, v);
      var b, later := FieldsShrink(schema, tail);
      ConsPieceFields(schema, fields, a, v, false, b, later, true);
      bs, values := a + b, map[first.name := v] + later;
    } else {
      var a, v := Shrinks(schema, first.type_);
      var later := DefaultFields(schema, tail);
      DefaultFieldsHaveType(schema, tail);
      FieldsRoundTrip(schema, tail, later, false);
      var b := EncodeFields(schema, tail, later, false).value;
      ConsPieceFields(schema, fields, a, v, true, b, later, false);
      bs, values := a + b, map[first.name := v] + later;
    }
  }

  /** Re-encoding gives back all accepted bytes. */
  ghost predicate OneEncoding(schema: Schema, t: TypeSchema)
    requires Acyclic(schema)
  {
    forall bs :: DecodeType(schema, t, bs).Ok? && DecodeType(schema, t, bs).value.1 == [] ==>
      EncodeType(schema, t, DecodeType(schema, t, bs).value.0) == Ok(bs)
  }

  /** Exactly the schemas without an option directly inside an option have one encoding for each value. */
  lemma {:induction false} CanonicalExactly(schema: Schema, t: TypeSchema)
    requires Complete(schema) && Closed(schema, t)
    ensures OneEncoding(schema, t) <==> Canonical(schema, t)
  {
    if Canonical(schema, t) {
      forall bs | DecodeType(schema, t, bs).Ok? && DecodeType(schema, t, bs).value.1 == []
        ensures EncodeType(schema, t, DecodeType(schema, t, bs).value.0) == Ok(bs)
      {
        DecodeThenEncode(schema, t, bs);
      }
    } else {
      var bs, v := Shrinks(schema, t);
      assert bs + [] == bs;
      assert DecodeType(schema, t, bs) == Ok((v, []));
      assert EncodeType(schema, t, v) != Ok(bs);
    }
  }

  /** The smallest schema that is not canonical: a present inner None is written as an absent option. */
  lemma {:induction false} NestedOptionLosesItsTag()
    ensures var schema := Schema(map[], map[]);
      var t := OptionOf(OptionOf(Prim(U8)));
      DecodeType(schema, t, [1, 0]) == Ok((VNone, [])) && EncodeType(schema, t, VNone) == Ok([0])
  {
    assert [1, 0][1..] == [0] && [0][1..] == [];
  }
}
