/** The bytes of every type, spelled out: widths, ranges, tags, lengths, order of parts, and each error. */
module BinaryFormats {
  import opened Wrappers
  import opened Bytes
  import opened LittleEndianIntegers
  import opened BinaryCodec
  import Base58

  //// Integers

  /** The low byte of a number that was shifted down by `j` bytes. */
  function ByteAt(n: nat, j: nat): byte {
    if j == 0 then n % 256 else ByteAt(n / 256, j - 1)
  }

  /** Exactly the bytes of a number, the least significant first. */
  ghost predicate BytesOf(bs: seq<byte>, n: nat, width: nat) {
    |bs| == width && forall j :: 0 <= j < width ==> bs[j] == ByteAt(n, j)
  }

  lemma {:induction false} BytesAre(bs: seq<byte>, n: nat, width: nat)
    ensures BytesOf(bs, n, width) <==> bs == LittleEndian(n, width)
  {
    LittleEndianBytes(n, width);
  }

  lemma {:induction false} LittleEndianBytes(n: nat, k: nat)
    ensures BytesOf(LittleEndian(n, k), n, k)
  {
    if k > 0 {
      LittleEndianBytes(n / 256, k - 1);
      var bs, tail := LittleEndian(n, k), LittleEndian(n / 256, k - 1);
      assert bs == [n % 256] + tail;
      forall j | 0 <= j < k
        ensures bs[j] == ByteAt(n, j)
      {
        assert j > 0 ==> bs[j] == tail[j - 1];
      }
    }
  }

  lemma {:induction false} UnsignedBytes(bs: seq<byte>)
    ensures BytesOf(bs, Unsigned(bs), |bs|)
  {
    LittleEndianValue(bs);
    LittleEndianBytes(Unsigned(bs), |bs|);
  }

  /** Width and range of each unsigned integer. */
  predicate UnsignedKind(p: Primitive, width: nat, bound: nat) {
    || (p == U8 && width == 1 && bound == 0x100)
    || (p == U16 && width == 2 && bound == 0x1_0000)
    || (p == U32 && width == 4 && bound == 0x1_0000_0000)
    || (p == U64 && width == 8 && bound == 0x1_0000_0000_0000_0000)
    || (p == U128 && width == 16 && bound == 0x1_0000_0000_0000_0000_0000_0000_0000_0000)
  }

  /** Width and half the range of each signed integer. */
  predicate SignedKind(p: Primitive, width: nat, half: int) {
    || (p == I64 && width == 8 && half == 0x8000_0000_0000_0000)
    || (p == I128 && width == 16 && half == 0x8000_0000_0000_0000_0000_0000_0000_0000)
  }

  /** An unsigned integer is written exactly when it is in range, and what is read is the number of the bytes. */
  lemma {:induction false} UnsignedFormat(
      schema: Schema, p: Primitive, width: nat, bound: nat, v: Value, bs: seq<byte>)
    requires Acyclic(schema) && UnsignedKind(p, width, bound)
    ensures EncodeType(schema, Prim(p), v) == Ok(bs) <==> v.VInt? && 0 <= v.i < bound && BytesOf(bs, v.i, width)
    ensures EncodeType(schema, Prim(p), v) == Err(OutOfRange) <==> v.VInt? && !(0 <= v.i < bound)
    ensures EncodeType(schema, Prim(p), v) == Err(WrongKind) <==> !v.VInt?
    ensures DecodeType(schema, Prim(p), bs) == Err(Truncated) <==> |bs| < width
    ensures |bs| >= width ==> exists n: nat ::
      n < bound && BytesOf(bs[..width], n, width) && DecodeType(schema, Prim(p), bs) == Ok((VInt(n), bs[width..]))
  {
    Powers();
    assert Width(p) == width && Power256(width) == bound;
    if v.VInt? && 0 <= v.i < bound {
      BytesAre(bs, v.i, width);
    }
    if |bs| >= width {
      UnsignedBytes(bs[..width]);
      assert DecodeType(schema, Prim(p), bs) == Ok((VInt(Unsigned(bs[..width])), bs[width..]));
    }
  }

  lemma {:induction false} SignedBytes(bs: seq<byte>, half: int)
    requires Power256(|bs|) == 2 * half
    ensures -half <= Signed(bs) < half
    ensures BytesOf(bs, if Signed(bs) < 0 then Signed(bs) + 2 * half else Signed(bs), |bs|)
  {
    UnsignedBytes(bs);
  }

  /** A signed integer is written in two's complement. */
  lemma {:induction false} SignedFormat(
      schema: Schema, p: Primitive, width: nat, half: int, v: Value, bs: seq<byte>)
    requires Acyclic(schema) && SignedKind(p, width, half)
    ensures EncodeType(schema, Prim(p), v) == Ok(bs)
      <==> v.VInt? && -half <= v.i < half && BytesOf(bs, if v.i < 0 then v.i + 2 * half else v.i, width)
    ensures EncodeType(schema, Prim(p), v) == Err(OutOfRange) <==> v.VInt? && !(-half <= v.i < half)
    ensures EncodeType(schema, Prim(p), v) == Err(WrongKind) <==> !v.VInt?
    ensures DecodeType(schema, Prim(p), bs) == Err(Truncated) <==> |bs| < width
    ensures |bs| >= width ==> exists i: int ::
      -half <= i < half && BytesOf(bs[..width], if i < 0 then i + 2 * half else i, width)
      && DecodeType(schema, Prim(p), bs) == Ok((VInt(i), bs[width..]))
  {
    Powers();
    assert Width(p) == width && Power256(width) == 2 * half;
    if v.VInt? && -half <= v.i < half {
      BytesAre(bs, if v.i < 0 then v.i + 2 * half else v.i, width);
    }
    if |bs| >= width {
      SignedBytes(bs[..width], half);
      assert DecodeType(schema, Prim(p), bs) == Ok((VInt(Signed(bs[..width])), bs[width..]));
    }
  }

  //// Booleans and keys

  lemma {:induction false} BooleanFormat(schema: Schema, v: Value, bs: seq<byte>)
    requires Acyclic(schema)
    ensures EncodeType(schema, Prim(Bool), v) == Ok(bs) <==> v.VBool? && bs == [if v.b then 1 else 0]
    ensures EncodeType(schema, Prim(Bool), v) == Err(WrongKind) <==> !v.VBool?
    ensures DecodeType(schema, Prim(Bool), bs) ==
      if bs == [] then Err(Truncated)
      else if bs[0] <= 1 then Ok((VBool(bs[0] == 1), bs[1..]))
      else Err(BadTag(bs[0]))
  {
  }

  /** A key is given as text or as bytes, is written as its 32 bytes, and is read as text. */
  lemma {:induction false} KeyFormat(schema: Schema, v: Value, bs: seq<byte>)
    requires Acyclic(schema)
    ensures EncodeType(schema, Prim(Pubkey), v) == Ok(bs)
      <==> |bs| == 32 && (v == VBytes(bs) || (v.VText? && Base58.Decode(v.s) == Ok(bs)))
    ensures DecodeType(schema, Prim(Pubkey), bs) ==
      if |bs| < 32 then Err(Truncated) else Ok((VText(Base58.Encode(bs[..32])), bs[32..]))
  {
  }

  //// Parts in order

  function Joined(parts: seq<seq<byte>>): seq<byte> {
    if parts == [] then [] else parts[0] + Joined(parts[1..])
  }

  /** The parts that the items are written as, one for each. */
  ghost predicate ItemParts(schema: Schema, item: TypeSchema, vs: seq<Value>, parts: seq<seq<byte>>)
    requires Acyclic(schema)
  {
    |parts| == |vs| && forall i :: 0 <= i < |vs| ==> EncodeType(schema, item, vs[i]) == Ok(parts[i])
  }

  /** The first item that cannot be written, and why. */
  ghost predicate ItemFails(schema: Schema, item: TypeSchema, vs: seq<Value>, e: CodecError)
    requires Acyclic(schema)
  {
    exists i: nat :: i < |vs| && EncodeType(schema, item, vs[i]) == Err(e)
      && forall j :: 0 <= j < i ==> EncodeType(schema, item, vs[j]).Ok?
  }

  lemma {:induction false} ItemsFormat(schema: Schema, item: TypeSchema, vs: seq<Value>)
    returns (parts: seq<seq<byte>>)
    requires Acyclic(schema)
    ensures match EncodeItems(schema, item, vs)
            case Ok(bs) => ItemParts(schema, item, vs, parts) && bs == Joined(parts)
            case Err(e) => ItemFails(schema, item, vs, e)
    decreases |vs|
  {
    parts := [];
    if vs != [] {
      var first, rest := EncodeType(schema, item, vs[0]), EncodeItems(schema, item, vs[1..]);
      var later := ItemsFormat(schema, item, vs[1..]);
      if first.Ok? && rest.Ok? {
        parts := [first.value] + later;
        assert parts[1..] == later;
      } else if first.Ok? {
        var i: nat :| i < |vs[1..]| && EncodeType(schema, item, vs[1..][i]) == Err(rest.error)
          && forall j :: 0 <= j < i ==> EncodeType(schema, item, vs[1..][j]).Ok?;
        forall j | 0 <= j < i + 1
          ensures EncodeType(schema, item, vs[j]).Ok?
        {
          assert j > 0 ==> vs[j] == vs[1..][j - 1];
        }
        assert vs[i + 1] == vs[1..][i];
      } else {
        assert EncodeType(schema, item, vs[0]) == Err(first.error);
      }
    }
  }

  /** Lists: an array is its items, a vector counts them first, in four bytes. */
  lemma {:induction false} ListFormat(schema: Schema, item: TypeSchema, length: nat, vs: seq<Value>)
    requires Acyclic(schema) && item != Prim(U8)
    ensures EncodeType(schema, ArrayOf(item, length), VList(vs)) ==
      if |vs| != length then Err(WrongLength) else EncodeItems(schema, item, vs)
    ensures |vs| >= 0x1_0000_0000 ==> EncodeType(schema, VectorOf(item), VList(vs)) == Err(OutOfRange)
    ensures |vs| < 0x1_0000_0000 ==> match EncodeItems(schema, item, vs)
      case Err(e) => EncodeType(schema, VectorOf(item), VList(vs)) == Err(e)
      case Ok(body) => exists count ::
        BytesOf(count, |vs|, 4) && EncodeType(schema, VectorOf(item), VList(vs)) == Ok(count + body)
  {
    Powers();
    LittleEndianBytes(|vs|, 4);
    var items, v := EncodeItems(schema, item, vs), VList(vs);
    assert EncodeMany(schema, item, v) == items;
    if |vs| < 0x1_0000_0000 && items.Ok? {
      assert EncodeType(schema, VectorOf(item), v) == Ok(LittleEndian(|vs|, 4) + items.value);
    }
  }

  /** Byte items are given and written as bytes. */
  lemma {:induction false} ByteListFormat(schema: Schema, length: nat, bs: seq<byte>)
    requires Acyclic(schema)
    ensures EncodeType(schema, ArrayOf(Prim(U8), length), VBytes(bs)) ==
      if |bs| != length then Err(WrongLength) else Ok(bs)
    ensures |bs| >= 0x1_0000_0000 ==> EncodeType(schema, VectorOf(Prim(U8)), VBytes(bs)) == Err(OutOfRange)
    ensures |bs| < 0x1_0000_0000 ==> exists count ::
      BytesOf(count, |bs|, 4) && EncodeType(schema, VectorOf(Prim(U8)), VBytes(bs)) == Ok(count + bs)
  {
    Powers();
    LittleEndianBytes(|bs|, 4);
    if |bs| < 0x1_0000_0000 {
      assert EncodeType(schema, VectorOf(Prim(U8)), VBytes(bs)) == Ok(LittleEndian(|bs|, 4) + bs);
    }
  }

  /** What one field is written as. */
  ghost predicate FieldPart(
      schema: Schema, f: Field, values: map<string, Value>, padding: bool, part: seq<byte>)
    requires Acyclic(schema)
  {
    if f.name in values then EncodeType(schema, f.type_, values[f.name]) == Ok(part)
    else if padding && ("_pad" <= f.name || "_reserved" <= f.name) then
      ZeroValue(schema, f.type_).Ok? && EncodeType(schema, f.type_, ZeroValue(schema, f.type_).value) == Ok(part)
    else f.type_.OptionOf? && part == [0]
  }

  /** Why one field cannot be written. */
  ghost predicate FieldFails(
      schema: Schema, f: Field, values: map<string, Value>, padding: bool, e: CodecError)
    requires Acyclic(schema)
  {
    if f.name in values then EncodeType(schema, f.type_, values[f.name]) == Err(e)
    else if padding && ("_pad" <= f.name || "_reserved" <= f.name) then
      ZeroValue(schema, f.type_) == Err(e)
      || (ZeroValue(schema, f.type_).Ok? && EncodeType(schema, f.type_, ZeroValue(schema, f.type_).value) == Err(e))
    else !f.type_.OptionOf? && e == MissingField(f.name)
  }

  ghost predicate FieldParts(
      schema: Schema, fields: seq<Field>, values: map<string, Value>, padding: bool, parts: seq<seq<byte>>)
    requires Acyclic(schema)
  {
    |parts| == |fields| && forall i :: 0 <= i < |fields| ==> FieldPart(schema, fields[i], values, padding, parts[i])
  }

  ghost predicate CanWrite(schema: Schema, f: Field, values: map<string, Value>, padding: bool)
    requires Acyclic(schema)
  {
    exists part :: FieldPart(schema, f, values, padding, part)
  }

  /** The first field that cannot be written, and why; the ones before it can. */
  ghost predicate FirstFieldFails(
      schema: Schema, fields: seq<Field>, values: map<string, Value>, padding: bool, e: CodecError)
    requires Acyclic(schema)
  {
    exists i: nat :: i < |fields| && FieldFails(schema, fields[i], values, padding, e)
      && forall j :: 0 <= j < i ==> CanWrite(schema, fields[j], values, padding)
  }

  lemma {:induction false} FieldFormat(schema: Schema, f: Field, values: map<string, Value>, padding: bool)
    requires Acyclic(schema)
    ensures match FieldValue(schema, f, values, padding)
      case Err(e) => FieldFails(schema, f, values, padding, e)
      case Ok(v) =>
        match EncodeType(schema, f.type_, v)
        case Err(e) => FieldFails(schema, f, values, padding, e)
        case Ok(part) => FieldPart(schema, f, values, padding, part)
  {
  }

  lemma {:induction false} FailsLater(
      schema: Schema, first: Field, rest: seq<Field>, values: map<string, Value>, padding: bool, part: seq<byte>,
      e: CodecError)
    requires Acyclic(schema) && FieldPart(schema, first, values, padding, part)
    requires FirstFieldFails(schema, rest, values, padding, e)
    ensures FirstFieldFails(schema, [first] + rest, values, padding, e)
  {
    var fields := [first] + rest;
    var i: nat :| i < |rest| && FieldFails(schema, rest[i], values, padding, e)
      && forall j :: 0 <= j < i ==> CanWrite(schema, rest[j], values, padding);
    forall j | 0 <= j < i + 1
      ensures CanWrite(schema, fields[j], values, padding)
    {
      assert j > 0 ==> fields[j] == rest[j - 1];
    }
    assert fields[i + 1] == rest[i];
  }

  /** A record is its fields' parts in the order of the schema, or the first field's error. */
  lemma {:induction false} FieldsFormat(
      schema: Schema, fields: seq<Field>, values: map<string, Value>, padding: bool) returns (parts: seq<seq<byte>>)
    requires Acyclic(schema)
    ensures match EncodeFields(schema, fields, values, padding)
            case Ok(bs) => FieldParts(schema, fields, values, padding, parts) && bs == Joined(parts)
            case Err(e) => FirstFieldFails(schema, fields, values, padding, e)
    decreases |fields|
  {
    parts := [];
    if fields != [] {
      var f, rest := fields[0], fields[1..];
      assert fields == [f] + rest;
      FieldFormat(schema, f, values, padding);
      var later := FieldsFormat(schema, rest, values, padding);
      var v := FieldValue(schema, f, values, padding);
      if v.Ok? && EncodeType(schema, f.type_, v.value).Ok? {
        var first := EncodeType(schema, f.type_, v.value).value;
        parts := [first] + later;
        assert parts[1..] == later;
        if EncodeFields(schema, rest, values, padding).Err? {
          FailsLater(schema, f, rest, values, padding, first, EncodeFields(schema, rest, values, padding).error);
        }
      }
    }
  }

  //// Reading

  /** An option is read by its tag, byte items at once behind their count. */
  lemma {:induction false} OptionRead(schema: Schema, item: TypeSchema, bs: seq<byte>)
    requires Acyclic(schema)
    ensures DecodeType(schema, OptionOf(item), bs) ==
      if bs == [] then Err(Truncated)
      else if bs[0] == 1 then DecodeType(schema, item, bs[1..])
      else if bs[0] > 1 then Err(BadTag(bs[0]))
      else Ok((VNone, bs[1..]))
  {
  }

  lemma {:induction false} ByteListRead(schema: Schema, bs: seq<byte>, n: nat)
    requires Acyclic(schema) && |bs| >= 4 && n < 0x1_0000_0000 && BytesOf(bs[..4], n, 4)
    ensures DecodeType(schema, VectorOf(Prim(U8)), bs) ==
      if |bs| < 4 + n then Err(Truncated) else Ok((VBytes(bs[4..4 + n]), bs[4 + n..]))
  {
    CountRead(bs[..4], n);
    if |bs| >= 4 + n {
      assert bs[4..][..n] == bs[4..4 + n];
      assert bs[4..][n..] == bs[4 + n..];
    }
  }

  lemma {:induction false} CountRead(head: seq<byte>, n: nat)
    requires n < 0x1_0000_0000 && BytesOf(head, n, 4)
    ensures Unsigned(head) == n
  {
    Powers();
    BytesAre(head, n, 4);
    ValueLittleEndian(n, 4);
  }

  /** Reading `k` items, one behind the other: what is left in front of each, and behind the last. */
  ghost predicate ItemTrail(
      schema: Schema, item: TypeSchema, bs: seq<byte>, vs: seq<Value>, left: seq<seq<byte>>)
    requires Acyclic(schema)
  {
    && |left| == |vs| + 1 && left[0] == bs
    && forall i :: 0 <= i < |vs| ==> DecodeType(schema, item, left[i]) == Ok((vs[i], left[i + 1]))
  }

  lemma {:induction false} ConsAt<T>(x: T, s: seq<T>, i: nat)
    requires i <= |s|
    ensures ([x] + s)[i] == if i == 0 then x else s[i - 1]
  {
  }

  lemma {:induction false} ItemTrailNext(
      schema: Schema, item: TypeSchema, bs: seq<byte>, v: Value, after: seq<byte>,
      vs: seq<Value>, left: seq<seq<byte>>)
    requires Acyclic(schema) && DecodeType(schema, item, bs) == Ok((v, after))
    requires ItemTrail(schema, item, after, vs, left)
    ensures ItemTrail(schema, item, bs, [v] + vs, [bs] + left)
  {
    forall i | 0 <= i < |[v] + vs|
      ensures DecodeType(schema, item, ([bs] + left)[i]) == Ok((([v] + vs)[i], ([bs] + left)[i + 1]))
    {
      ConsAt(v, vs, i);
      ConsAt(bs, left, i);
      ConsAt(bs, left, i + 1);
    }
  }

  /** Items are read in order; the first one that cannot be read decides the error. */
  lemma {:induction false} ItemsRead(schema: Schema, item: TypeSchema, n: nat, bs: seq<byte>)
      returns (vs: seq<Value>, left: seq<seq<byte>>)
    requires Acyclic(schema)
    ensures ItemTrail(schema, item, bs, vs, left)
    ensures match DecodeItems(schema, item, n, bs)
            case Ok((items, rest)) => items == vs && |vs| == n && rest == left[n]
            case Err(e) => |vs| < n && DecodeType(schema, item, left[|vs|]) == Err(e)
    decreases n
  {
    vs, left := [], [bs];
    if n > 0 {
      var first := DecodeType(schema, item, bs);
      if first.Ok? {
        var (v, after) := first.value;
        var later, lefts := ItemsRead(schema, item, n - 1, after);
        ItemTrailNext(schema, item, bs, v, after, later, lefts);
        vs, left := [v] + later, [bs] + lefts;
      }
    }
  }

  /** Reading the fields of a record, one behind the other. */
  ghost predicate FieldTrail(
      schema: Schema, fields: seq<Field>, bs: seq<byte>, vs: seq<Value>, left: seq<seq<byte>>)
    requires Acyclic(schema)
  {
    && |vs| <= |fields| && |left| == |vs| + 1 && left[0] == bs
    && forall i :: 0 <= i < |vs| ==> DecodeType(schema, fields[i].type_, left[i]) == Ok((vs[i], left[i + 1]))
  }

  /** No later field has the name of this one. */
  ghost predicate LastOfName(fields: seq<Field>, i: nat) {
    i < |fields| && forall j :: i < j < |fields| ==> fields[j].name != fields[i].name
  }

  ghost function FieldNames(fields: seq<Field>): set<string> {
    set f | f in fields :: f.name
  }

  /** The record of the values read: the last field of a name decides. */
  ghost predicate RecordOf(fields: seq<Field>, vs: seq<Value>, values: map<string, Value>) {
    && |vs| == |fields| && values.Keys == FieldNames(fields)
    && forall i: nat :: LastOfName(fields, i) ==>
      fields[i].name in values && values[fields[i].name] == vs[i]
  }

  lemma {:induction false} LastNext(f: Field, fields: seq<Field>, i: nat)
    requires LastOfName([f] + fields, i)
    ensures if i == 0 then f.name !in FieldNames(fields) else LastOfName(fields, i - 1)
  {
    forall j | 0 <= j < |fields|
      ensures ([f] + fields)[j + 1] == fields[j]
    {
      ConsAt(f, fields, j + 1);
    }
  }

  /** What a record says of a name it does not get from one more field, and of one it does. */
  lemma {:induction false} UnionAt(name: string, v: Value, values: map<string, Value>, other: string)
    ensures other in values ==> other in map[name := v] + values && (map[name := v] + values)[other] == values[other]
    ensures name !in values ==> name in map[name := v] + values && (map[name := v] + values)[name] == v
  {
  }

  lemma {:induction false} ValueNext(
      f: Field, fields: seq<Field>, v: Value, vs: seq<Value>, values: map<string, Value>, i: nat)
    requires RecordOf(fields, vs, values) && LastOfName([f] + fields, i)
    ensures var name := ([f] + fields)[i].name;
      name in map[f.name := v] + values && (map[f.name := v] + values)[name] == ([v] + vs)[i]
  {
    LastNext(f, fields, i);
    ConsAt(f, fields, i);
    ConsAt(v, vs, i);
    UnionAt(f.name, v, values, ([f] + fields)[i].name);
  }

  lemma {:induction false} RecordNext(
      f: Field, fields: seq<Field>, v: Value, vs: seq<Value>, values: map<string, Value>)
    requires RecordOf(fields, vs, values)
    ensures RecordOf([f] + fields, [v] + vs, map[f.name := v] + values)
  {
    var all, record := [f] + fields, map[f.name := v] + values;
    assert FieldNames(all) == {f.name} + FieldNames(fields) by {
      assert forall g :: g in all <==> g == f || g in fields;
    }
    forall i: nat | LastOfName(all, i)
      ensures all[i].name in record && record[all[i].name] == ([v] + vs)[i]
    {
      ValueNext(f, fields, v, vs, values, i);
    }
  }

  lemma {:induction false} TrailNext(
      schema: Schema, f: Field, fields: seq<Field>, bs: seq<byte>, v: Value, after: seq<byte>,
      vs: seq<Value>, left: seq<seq<byte>>)
    requires Acyclic(schema) && DecodeType(schema, f.type_, bs) == Ok((v, after))
    requires FieldTrail(schema, fields, after, vs, left)
    ensures FieldTrail(schema, [f] + fields, bs, [v] + vs, [bs] + left)
  {
    forall i | 0 <= i < |[v] + vs|
      ensures DecodeType(schema, ([f] + fields)[i].type_, ([bs] + left)[i])
        == Ok((([v] + vs)[i], ([bs] + left)[i + 1]))
    {
      ConsAt(f, fields, i);
      ConsAt(v, vs, i);
      ConsAt(bs, left, i);
      ConsAt(bs, left, i + 1);
    }
  }

  /** What reading says of the values read so far and of what is left. */
  ghost predicate FieldsResult(
      schema: Schema, fields: seq<Field>, vs: seq<Value>, left: seq<seq<byte>>,
      r: Result<(map<string, Value>, seq<byte>), CodecError>)
    requires Acyclic(schema) && |left| == |vs| + 1
  {
    match r
    case Ok((values, rest)) => RecordOf(fields, vs, values) && rest == left[|vs|]
    case Err(e) => |vs| < |fields| && DecodeType(schema, fields[|vs|].type_, left[|vs|]) == Err(e)
  }

  /** Fields are read in the order of the schema; the first one that cannot be read decides the error. */
  lemma {:induction false} FieldsRead(schema: Schema, fields: seq<Field>, bs: seq<byte>)
      returns (vs: seq<Value>, left: seq<seq<byte>>)
    requires Acyclic(schema)
    ensures FieldTrail(schema, fields, bs, vs, left)
    ensures FieldsResult(schema, fields, vs, left, DecodeFields(schema, fields, bs))
    decreases |fields|
  {
    vs, left := [], [bs];
    if fields != [] {
      var f, rest := fields[0], fields[1..];
      assert fields == [f] + rest;
      var first := DecodeType(schema, f.type_, bs);
      if first.Ok? {
        var (v, after) := first.value;
        var later, lefts := FieldsRead(schema, rest, after);
        TrailNext(schema, f, rest, bs, v, after, later, lefts);
        vs, left := [v] + later, [bs] + lefts;
        ResultNext(schema, f, rest, bs, v, after, later, lefts);
      }
    }
  }

  lemma {:induction false} ResultNext(
      schema: Schema, f: Field, fields: seq<Field>, bs: seq<byte>, v: Value, after: seq<byte>,
      vs: seq<Value>, left: seq<seq<byte>>)
    requires Acyclic(schema) && DecodeType(schema, f.type_, bs) == Ok((v, after)) && |left| == |vs| + 1
    requires FieldsResult(schema, fields, vs, left, DecodeFields(schema, fields, after))
    ensures FieldsResult(schema, [f] + fields, [v] + vs, [bs] + left, DecodeFields(schema, [f] + fields, bs))
  {
    var r := DecodeFields(schema, fields, after);
    DecodeNext(schema, f, fields, bs, v, after);
    if r.Ok? {
      ReadNext(schema, f, fields, bs, v, vs, left, r.value.0, r.value.1);
    } else {
      ErrorNext(schema, f, fields, bs, v, vs, left, r.error);
    }
  }

  lemma {:induction false} ReadNext(
      schema: Schema, f: Field, fields: seq<Field>, bs: seq<byte>, v: Value, vs: seq<Value>, left: seq<seq<byte>>,
      values: map<string, Value>, rest: seq<byte>)
    requires Acyclic(schema) && |left| == |vs| + 1 && FieldsResult(schema, fields, vs, left, Ok((values, rest)))
    ensures FieldsResult(schema, [f] + fields, [v] + vs, [bs] + left, Ok((map[f.name := v] + values, rest)))
  {
    ConsAt(bs, left, |vs| + 1);
    RecordNext(f, fields, v, vs, values);
  }

  lemma {:induction false} ErrorNext(
      schema: Schema, f: Field, fields: seq<Field>, bs: seq<byte>, v: Value, vs: seq<Value>, left: seq<seq<byte>>,
      e: CodecError)
    requires Acyclic(schema) && |left| == |vs| + 1 && FieldsResult(schema, fields, vs, left, Err(e))
    ensures FieldsResult(schema, [f] + fields, [v] + vs, [bs] + left, Err(e))
  {
    ConsAt(bs, left, |vs| + 1);
    ConsAt(f, fields, |vs| + 1);
  }

  lemma {:induction false} DecodeNext(
      schema: Schema, f: Field, fields: seq<Field>, bs: seq<byte>, v: Value, after: seq<byte>)
    requires Acyclic(schema) && DecodeType(schema, f.type_, bs) == Ok((v, after))
    ensures DecodeFields(schema, [f] + fields, bs) ==
      match DecodeFields(schema, fields, after)
      case Err(e) => Err(e)
      case Ok((values, rest)) => Ok((map[f.name := v] + values, rest))
  {
    assert ([f] + fields)[0] == f && ([f] + fields)[1..] == fields;
  }
}
