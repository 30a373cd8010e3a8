/**
 The message wire format: an abstract message, its serialisation, and a decoder
 written from the format alone. `Parse` accepts exactly the serialisations.
 */
module Message {
  import opened Wrappers
  import opened Bytes
  import SV = ShortVector

  type Key = k: seq<byte> | |k| == 32 witness Zeros(32)

  datatype Version = Unversioned | VersionZero

  /** Counts of required signatures, readonly signers and readonly non-signers. */
  datatype Header = Header(signatures: byte, readonlySigned: byte, readonlyUnsigned: byte)

  datatype CompiledInstruction = CompiledInstruction(program: byte, accounts: seq<byte>, data: seq<byte>)

  datatype TableLookup = TableLookup(table: Key, writable: seq<byte>, readonly: seq<byte>)

  datatype Message = Message(
    version: Version,
    header: Header,
    keys: seq<Key>,
    blockhash: Key,
    instructions: seq<CompiledInstruction>,
    lookups: seq<TableLookup>)

  //// Serialisation

  function WriteMany<T>(xs: seq<T>, write: T -> seq<byte>): seq<byte> {
    if xs == [] then [] else write(xs[0]) + WriteMany(xs[1..], write)
  }

  /** A length followed by that many bytes. */
  function Block(bs: seq<byte>): seq<byte> {
    SV.Encode(|bs|) + bs
  }

  /** A length followed by that many items. */
  function Vector<T>(xs: seq<T>, write: T -> seq<byte>): seq<byte> {
    SV.Encode(|xs|) + WriteMany(xs, write)
  }

  function WriteKey(key: Key): seq<byte> {
    key
  }

  function WriteInstruction(i: CompiledInstruction): seq<byte> {
    [i.program] + (Block(i.accounts) + Block(i.data))
  }

  function WriteLookup(l: TableLookup): seq<byte> {
    l.table + (Block(l.writable) + Block(l.readonly))
  }

  function VersionBytes(v: Version): seq<byte> {
    if v.VersionZero? then [0x80] else []
  }

  function HeaderBytes(h: Header): seq<byte> {
    [h.signatures, h.readonlySigned, h.readonlyUnsigned]
  }

  function TailBytes(m: Message): seq<byte> {
    if m.version.VersionZero? then Vector(m.lookups, WriteLookup) else []
  }

  /** Everything behind the header. */
  function ContentBytes(m: Message): seq<byte> {
    Vector(m.keys, WriteKey) + (m.blockhash + (Vector(m.instructions, WriteInstruction) + TailBytes(m)))
  }

  /** Everything behind the version prefix. */
  function BodyBytes(m: Message): seq<byte> {
    HeaderBytes(m.header) + ContentBytes(m)
  }

  function Serialize(m: Message): seq<byte> {
    VersionBytes(m.version) + BodyBytes(m)
  }

  //// Decoder

  function Take(bs: seq<byte>, n: nat): (r: Option<(seq<byte>, seq<byte>)>)
    ensures r.Some? ==> |r.value.0| == n && bs == r.value.0 + r.value.1
  {
    if n <= |bs| then Some((bs[..n], bs[n..])) else None
  }

  function ParseMany<T>(n: nat, bs: seq<byte>, item: seq<byte> -> Option<(T, seq<byte>)>)
    : (r: Option<(seq<T>, seq<byte>)>)
    ensures r.Some? ==> |r.value.0| == n
  {
    if n == 0 then Some(([], bs))
    else
      match item(bs)
      case None => None
      case Some((x, rest)) =>
        match ParseMany(n - 1, rest, item)
        case None => None
        case Some((xs, rest')) => Some(([x] + xs, rest'))
  }

  function ParseBlock(bs: seq<byte>): Option<(seq<byte>, seq<byte>)> {
    match SV.Decode(bs)
    case None => None
    case Some((n, rest)) => Take(rest, n)
  }

  function ParseVector<T>(bs: seq<byte>, item: seq<byte> -> Option<(T, seq<byte>)>)
    : Option<(seq<T>, seq<byte>)>
  {
    match SV.Decode(bs)
    case None => None
    case Some((n, rest)) => ParseMany(n, rest, item)
  }

  function ParseKey(bs: seq<byte>): Option<(Key, seq<byte>)> {
    match Take(bs, 32)
    case None => None
    case Some((key, rest)) => Some((key, rest))
  }

  function ParseInstruction(bs: seq<byte>): Option<(CompiledInstruction, seq<byte>)> {
    if bs == [] then None
    else
      match ParseBlock(bs[1..])
      case None => None
      case Some((accounts, rest)) =>
        match ParseBlock(rest)
        case None => None
        case Some((data, rest')) => Some((CompiledInstruction(bs[0], accounts, data), rest'))
  }

  function ParseLookup(bs: seq<byte>): Option<(TableLookup, seq<byte>)> {
    match ParseKey(bs)
    case None => None
    case Some((table, rest)) =>
      match ParseBlock(rest)
      case None => None
      case Some((writable, rest')) =>
        match ParseBlock(rest')
        case None => None
        case Some((readonly, rest'')) => Some((TableLookup(table, writable, readonly), rest''))
  }

  function ParseTail(version: Version, bs: seq<byte>): Option<(seq<TableLookup>, seq<byte>)> {
    if version.Unversioned? then Some(([], bs)) else ParseVector(bs, ParseLookup)
  }

  /** The parts of a message in order; no byte may be left over. */
  function ParseContent(version: Version, header: Header, bs: seq<byte>): Option<Message> {
    match ParseVector(bs, ParseKey)
    case None => None
    case Some((keys, afterKeys)) =>
      match ParseKey(afterKeys)
      case None => None
      case Some((blockhash, afterHash)) =>
        match ParseVector(afterHash, ParseInstruction)
        case None => None
        case Some((instructions, afterInstructions)) =>
          match ParseTail(version, afterInstructions)
          case None => None
          case Some((lookups, rest)) =>
            if rest != [] then None
            else Some(Message(version, header, keys, blockhash, instructions, lookups))
  }

  function ParseBody(version: Version, bs: seq<byte>): Option<Message> {
    if |bs| < 3 then None else ParseContent(version, Header(bs[0], bs[1], bs[2]), bs[3..])
  }

  /** A first byte with the top bit set is a version prefix; zero is the one supported version. */
  function Parse(bs: seq<byte>): Option<Message> {
    if bs == [] then None
    else if bs[0] < 0x80 then ParseBody(Unversioned, bs)
    else if bs[0] == 0x80 then ParseBody(VersionZero, bs[1..])
    else None
  }

  //// Each reader and its writer are inverse

  /** Reading what was written, in front of anything, gives the value and the rest. */
  ghost predicate Reads<T(!new)>(item: seq<byte> -> Option<(T, seq<byte>)>, write: T -> seq<byte>) {
    forall x, rest {:trigger write(x) + rest} :: item(write(x) + rest) == Some((x, rest))
  }

  /** What is accepted is exactly what would be written, followed by the rest. */
  ghost predicate Exact<T(!new)>(item: seq<byte> -> Option<(T, seq<byte>)>, write: T -> seq<byte>) {
    forall bs :: item(bs).Some? ==> bs == write(item(bs).value.0) + item(bs).value.1
  }

  lemma {:induction false} TakePrefix(a: seq<byte>, rest: seq<byte>)
    ensures Take(a + rest, |a|) == Some((a, rest))
  {
  }

  lemma {:induction false} ManyRoundTrip<T(!new)>(
      xs: seq<T>, rest: seq<byte>, item: seq<byte> -> Option<(T, seq<byte>)>, write: T -> seq<byte>)
    requires Reads(item, write)
    ensures ParseMany(|xs|, WriteMany(xs, write) + rest, item) == Some((xs, rest))
  {
    if xs == [] {
      assert WriteMany(xs, write) + rest == rest;
    } else {
      var tail := WriteMany(xs[1..], write);
      ManyRoundTrip(xs[1..], rest, item, write);
      Assoc(write(xs[0]), tail, rest);
      assert item(write(xs[0]) + (tail + rest)) == Some((xs[0], tail + rest));
      assert xs == [xs[0]] + xs[1..];
    }
  }

  lemma {:induction false} ManyExact<T(!new)>(
      n: nat, bs: seq<byte>, item: seq<byte> -> Option<(T, seq<byte>)>, write: T -> seq<byte>)
    requires Exact(item, write) && ParseMany(n, bs, item).Some?
    ensures var (xs, rest) := ParseMany(n, bs, item).value; bs == WriteMany(xs, write) + rest
  {
    if n == 0 {
      assert [] + bs == bs;
    } else {
      var (x, tail) := item(bs).value;
      ManyExact(n - 1, tail, item, write);
      var (xs, rest) := ParseMany(n - 1, tail, item).value;
      assert ([x] + xs)[1..] == xs;
      Assoc(write(x), WriteMany(xs, write), rest);
    }
  }

  lemma {:induction false} WriteAppend<T>(xs: seq<T>, x: T, write: T -> seq<byte>)
    ensures WriteMany(xs + [x], write) == WriteMany(xs, write) + write(x)
  {
    if xs == [] {
      assert WriteMany([x], write) == write(x) + WriteMany([], write);
    } else {
      assert (xs + [x])[1..] == xs[1..] + [x];
      WriteAppend(xs[1..], x, write);
    }
  }

  lemma {:induction false} VectorRoundTrip<T(!new)>(
      xs: seq<T>, rest: seq<byte>, item: seq<byte> -> Option<(T, seq<byte>)>, write: T -> seq<byte>)
    requires Reads(item, write)
    ensures ParseVector(Vector(xs, write) + rest, item) == Some((xs, rest))
  {
    Assoc(SV.Encode(|xs|), WriteMany(xs, write), rest);
    SV.DecodeEncode(|xs|, WriteMany(xs, write) + rest);
    ManyRoundTrip(xs, rest, item, write);
  }

  lemma {:induction false} VectorExact<T(!new)>(
      bs: seq<byte>, item: seq<byte> -> Option<(T, seq<byte>)>, write: T -> seq<byte>)
    requires Exact(item, write) && ParseVector(bs, item).Some?
    ensures var (xs, rest) := ParseVector(bs, item).value; bs == Vector(xs, write) + rest
  {
    SV.EncodeDecode(bs);
    var (n, tail) := SV.Decode(bs).value;
    ManyExact(n, tail, item, write);
    var (xs, rest) := ParseMany(n, tail, item).value;
    Assoc(SV.Encode(n), WriteMany(xs, write), rest);
  }

  lemma {:induction false} BlockRoundTrip(bs: seq<byte>, rest: seq<byte>)
    ensures ParseBlock(Block(bs) + rest) == Some((bs, rest))
  {
    Assoc(SV.Encode(|bs|), bs, rest);
    SV.DecodeEncode(|bs|, bs + rest);
    TakePrefix(bs, rest);
  }

  lemma {:induction false} BlockExact(bs: seq<byte>)
    requires ParseBlock(bs).Some?
    ensures var (a, rest) := ParseBlock(bs).value; bs == Block(a) + rest
  {
    SV.EncodeDecode(bs);
    var (n, tail) := SV.Decode(bs).value;
    var (a, rest) := ParseBlock(bs).value;
    Assoc(SV.Encode(n), a, rest);
  }

  lemma {:induction false} KeyInverse()
    ensures Reads(ParseKey, WriteKey) && Exact(ParseKey, WriteKey)
  {
    forall key: Key, rest: seq<byte>
      ensures ParseKey(WriteKey(key) + rest) == Some((key, rest))
    {
      TakePrefix(key, rest);
    }
  }

  lemma {:induction false} TwoBlocks(first: seq<byte>, a: seq<byte>, b: seq<byte>, rest: seq<byte>)
    ensures (first + (Block(a) + Block(b))) + rest == first + (Block(a) + (Block(b) + rest))
  {
    Assoc(first, Block(a) + Block(b), rest);
    Assoc(Block(a), Block(b), rest);
  }

  lemma {:induction false} InstructionInverse()
    ensures Reads(ParseInstruction, WriteInstruction) && Exact(ParseInstruction, WriteInstruction)
  {
    forall i: CompiledInstruction, rest: seq<byte>
      ensures ParseInstruction(WriteInstruction(i) + rest) == Some((i, rest))
    {
      InstructionRoundTrip(i, rest);
    }
    forall bs | ParseInstruction(bs).Some?
      ensures bs == WriteInstruction(ParseInstruction(bs).value.0) + ParseInstruction(bs).value.1
    {
      InstructionExact(bs);
    }
  }

  lemma {:induction false} InstructionRoundTrip(i: CompiledInstruction, rest: seq<byte>)
    ensures ParseInstruction(WriteInstruction(i) + rest) == Some((i, rest))
  {
    TwoBlocks([i.program], i.accounts, i.data, rest);
    var tail := Block(i.accounts) + (Block(i.data) + rest);
    assert ([i.program] + tail)[1..] == tail;
    BlockRoundTrip(i.accounts, Block(i.data) + rest);
    BlockRoundTrip(i.data, rest);
  }

  lemma {:induction false} InstructionExact(bs: seq<byte>)
    requires ParseInstruction(bs).Some?
    ensures bs == WriteInstruction(ParseInstruction(bs).value.0) + ParseInstruction(bs).value.1
  {
    var (accounts, tail) := ParseBlock(bs[1..]).value;
    var (data, rest) := ParseBlock(tail).value;
    BlockExact(bs[1..]);
    BlockExact(tail);
    TwoBlocks([bs[0]], accounts, data, rest);
    assert bs == [bs[0]] + bs[1..];
  }

  lemma {:induction false} LookupInverse()
    ensures Reads(ParseLookup, WriteLookup) && Exact(ParseLookup, WriteLookup)
  {
    forall l: TableLookup, rest: seq<byte>
      ensures ParseLookup(WriteLookup(l) + rest) == Some((l, rest))
    {
      LookupRoundTrip(l, rest);
    }
    forall bs | ParseLookup(bs).Some?
      ensures bs == WriteLookup(ParseLookup(bs).value.0) + ParseLookup(bs).value.1
    {
      LookupExact(bs);
    }
  }

  lemma {:induction false} LookupRoundTrip(l: TableLookup, rest: seq<byte>)
    ensures ParseLookup(WriteLookup(l) + rest) == Some((l, rest))
  {
    TwoBlocks(l.table, l.writable, l.readonly, rest);
    TakePrefix(l.table, Block(l.writable) + (Block(l.readonly) + rest));
    BlockRoundTrip(l.writable, Block(l.readonly) + rest);
    BlockRoundTrip(l.readonly, rest);
  }

  lemma {:induction false} LookupExact(bs: seq<byte>)
    requires ParseLookup(bs).Some?
    ensures bs == WriteLookup(ParseLookup(bs).value.0) + ParseLookup(bs).value.1
  {
    var (table, tail) := ParseKey(bs).value;
    var (writable, tail') := ParseBlock(tail).value;
    var (readonly, rest) := ParseBlock(tail').value;
    BlockExact(tail);
    BlockExact(tail');
    TwoBlocks(table, writable, readonly, rest);
  }

  //// The decoder and the serialiser are inverse

  lemma {:induction false} TailRoundTrip(m: Message)
    requires m.version.Unversioned? ==> m.lookups == []
    ensures ParseTail(m.version, TailBytes(m)) == Some((m.lookups, []))
  {
    if m.version.VersionZero? {
      LookupInverse();
      VectorRoundTrip(m.lookups, [], ParseLookup, WriteLookup);
      assert TailBytes(m) + [] == TailBytes(m);
    }
  }

  lemma {:induction false} ContentRoundTrip(m: Message)
    requires m.version.Unversioned? ==> m.lookups == []
    ensures ParseContent(m.version, m.header, ContentBytes(m)) == Some(m)
  {
    var afterHash := Vector(m.instructions, WriteInstruction) + TailBytes(m);
    KeyInverse();
    InstructionInverse();
    VectorRoundTrip(m.keys, m.blockhash + afterHash, ParseKey, WriteKey);
    assert ParseKey(WriteKey(m.blockhash) + afterHash) == Some((m.blockhash, afterHash));
    VectorRoundTrip(m.instructions, TailBytes(m), ParseInstruction, WriteInstruction);
    TailRoundTrip(m);
  }

  /**
   A version-zero message is always read back. An unversioned one is read back exactly when it
   asks for fewer than 128 signatures: from 128 on its first byte reads as a version prefix.
   */
  lemma {:induction false} ParseSerialize(m: Message)
    requires m.version.Unversioned? ==> m.lookups == []
    ensures Parse(Serialize(m)) == Some(m) <==> m.version.VersionZero? || m.header.signatures < 128
  {
    ContentRoundTrip(m);
    assert BodyBytes(m)[3..] == ContentBytes(m);
    var bs := Serialize(m);
    if m.version.VersionZero? {
      assert bs[1..] == BodyBytes(m);
    } else {
      assert bs == BodyBytes(m);
      assert bs[0] == m.header.signatures;
    }
  }

  lemma {:induction false} TailExact(version: Version, bs: seq<byte>)
    requires ParseTail(version, bs).Some? && ParseTail(version, bs).value.1 == []
    ensures var lookups := ParseTail(version, bs).value.0;
            bs == if version.VersionZero? then Vector(lookups, WriteLookup) else []
  {
    if version.VersionZero? {
      LookupInverse();
      VectorExact(bs, ParseLookup, WriteLookup);
      var lookups := ParseTail(version, bs).value.0;
      assert Vector(lookups, WriteLookup) + [] == Vector(lookups, WriteLookup);
    }
  }

  lemma {:induction false} AfterHashExact(bs: seq<byte>, version: Version)
    requires ParseVector(bs, ParseInstruction).Some?
    requires var tail := ParseVector(bs, ParseInstruction).value.1;
             ParseTail(version, tail).Some? && ParseTail(version, tail).value.1 == []
    ensures var (instructions, tail) := ParseVector(bs, ParseInstruction).value;
            var lookups := ParseTail(version, tail).value.0;
            bs == Vector(instructions, WriteInstruction)
              + if version.VersionZero? then Vector(lookups, WriteLookup) else []
  {
    InstructionInverse();
    VectorExact(bs, ParseInstruction, WriteInstruction);
    TailExact(version, ParseVector(bs, ParseInstruction).value.1);
  }

  lemma {:induction false} ContentExact(version: Version, header: Header, bs: seq<byte>)
    requires ParseContent(version, header, bs).Some?
    ensures var m := ParseContent(version, header, bs).value;
            m.version == version && m.header == header && bs == ContentBytes(m)
  {
    KeyInverse();
    VectorExact(bs, ParseKey, WriteKey);
    var (keys, afterKeys) := ParseVector(bs, ParseKey).value;
    var (blockhash, afterHash) := ParseKey(afterKeys).value;
    assert afterKeys == blockhash + afterHash;
    AfterHashExact(afterHash, version);
  }

  lemma {:induction false} BodyExact(version: Version, bs: seq<byte>, m: Message)
    requires ParseBody(version, bs) == Some(m)
    ensures m.version == version && bs == BodyBytes(m)
  {
    var content := bs[3..];
    ContentExact(version, Header(bs[0], bs[1], bs[2]), content);
    assert content == ContentBytes(m);
    HeaderSplit(bs);
  }

  lemma {:induction false} HeaderSplit(bs: seq<byte>)
    requires |bs| >= 3
    ensures bs == HeaderBytes(Header(bs[0], bs[1], bs[2])) + bs[3..]
  {
  }

  lemma {:induction false} UnversionedIs(bs: seq<byte>, m: Message)
    requires ParseBody(Unversioned, bs) == Some(m)
    ensures Serialize(m) == bs
  {
    BodyExact(Unversioned, bs, m);
    assert [] + bs == bs;
  }

  lemma {:induction false} VersionZeroIs(body: seq<byte>, m: Message)
    requires ParseBody(VersionZero, body) == Some(m)
    ensures Serialize(m) == [0x80] + body
  {
    BodyExact(VersionZero, body, m);
  }

  lemma {:induction false} FirstAndRest(bs: seq<byte>)
    requires bs != []
    ensures bs == [bs[0]] + bs[1..]
  {
  }

  lemma {:induction false} ParsedIs(bs: seq<byte>, m: Message)
    requires Parse(bs) == Some(m)
    ensures Serialize(m) == bs
  {
    if bs[0] < 0x80 {
      UnversionedIs(bs, m);
    } else {
      VersionZeroIs(bs[1..], m);
      FirstAndRest(bs);
    }
  }

  /** Every accepted byte string is the serialisation of the message read: one message, one encoding. */
  lemma {:induction false} SerializeParse(bs: seq<byte>)
    requires Parse(bs).Some?
    ensures Serialize(Parse(bs).value) == bs
  {
    ParsedIs(bs, Parse(bs).value);
  }

  //// Where the parts are

  /** The widths of keys and of signatures. */
  type Stride = w: nat | w == 32 || w == 64 witness 32

  /** Where item `i` starts. */
  function Offset(width: Stride, i: nat): (n: nat) {
    if width == 32 then 32 * i else 64 * i
  }

  lemma {:induction false} SkipFirst(a: seq<byte>, b: seq<byte>, n: nat, m: nat)
    requires n <= m <= |b|
    ensures (a + b)[|a| + n..|a| + m] == b[n..m]
  {
  }

  lemma {:induction false} ItemsLength<T>(xs: seq<T>, write: T -> seq<byte>, width: Stride)
    requires forall x :: |write(x)| == width
    ensures |WriteMany(xs, write)| == Offset(width, |xs|)
  {
    if xs != [] {
      ItemsLength(xs[1..], write, width);
    }
  }

  /** Items of the same width stand one after the other. */
  lemma {:induction false} ItemAt<T>(xs: seq<T>, write: T -> seq<byte>, width: Stride, i: nat)
    requires (forall x :: |write(x)| == width) && i < |xs|
    ensures Offset(width, i + 1) <= |WriteMany(xs, write)|
    ensures WriteMany(xs, write)[Offset(width, i)..Offset(width, i + 1)] == write(xs[i])
  {
    var first, tail := write(xs[0]), WriteMany(xs[1..], write);
    ItemsLength(xs, write, width);
    if i > 0 {
      ItemAt(xs[1..], write, width, i - 1);
      SkipFirst(first, tail, Offset(width, i - 1), Offset(width, i));
    } else {
      assert (first + tail)[..width] == first;
    }
  }

  /** An item within a longer string. */
  lemma {:induction false} ItemWithin<T>(
      front: seq<byte>, xs: seq<T>, write: T -> seq<byte>, width: Stride, behind: seq<byte>, i: nat)
    requires (forall x :: |write(x)| == width) && i < |xs|
    ensures |front| + Offset(width, i + 1) <= |front + (WriteMany(xs, write) + behind)|
    ensures (front + (WriteMany(xs, write) + behind))[|front| + Offset(width, i)..|front| + Offset(width, i + 1)]
      == write(xs[i])
  {
    var items := WriteMany(xs, write);
    ItemAt(xs, write, width, i);
    SkipFirst(front, items + behind, Offset(width, i), Offset(width, i + 1));
    assert (items + behind)[Offset(width, i)..Offset(width, i + 1)] == items[Offset(width, i)..Offset(width, i + 1)];
  }

  /** Everything in front of the keys, and everything behind them. */
  ghost function BeforeKeys(m: Message): seq<byte> {
    VersionBytes(m.version) + HeaderBytes(m.header) + SV.Encode(|m.keys|)
  }

  ghost function AfterKeys(m: Message): seq<byte> {
    m.blockhash + (Vector(m.instructions, WriteInstruction) + TailBytes(m))
  }

  lemma {:induction false} AroundKeys(m: Message)
    ensures Serialize(m) == BeforeKeys(m) + (WriteMany(m.keys, WriteKey) + AfterKeys(m))
  {
    var a, b, c, d := VersionBytes(m.version), HeaderBytes(m.header), SV.Encode(|m.keys|), WriteMany(m.keys, WriteKey);
    Assoc(c, d, AfterKeys(m));
    Assoc(a, b, c + (d + AfterKeys(m)));
    Assoc(a + b, c, d + AfterKeys(m));
  }

  /** The prefix if there is one, the three counts, the number of keys, and behind the keys the blockhash. */
  lemma {:induction false} LayoutOfMessage(m: Message, bs: seq<byte>, start: nat)
    requires bs == Serialize(m) && start == |SV.Encode(|m.keys|)| + if m.version.VersionZero? then 4 else 3
    ensures start + 32 * |m.keys| + 32 <= |bs|
    ensures bs[..start] == (if m.version.VersionZero? then [128] else [])
      + [m.header.signatures, m.header.readonlySigned, m.header.readonlyUnsigned] + SV.Encode(|m.keys|)
    ensures bs[start + 32 * |m.keys|..start + 32 * |m.keys| + 32] == m.blockhash
  {
    ItemsLength(m.keys, WriteKey, 32);
    AroundKeys(m);
    FrontAndBehind(BeforeKeys(m), WriteMany(m.keys, WriteKey), m.blockhash,
      Vector(m.instructions, WriteInstruction) + TailBytes(m));
  }

  lemma {:induction false} FrontAndBehind(a: seq<byte>, b: seq<byte>, c: seq<byte>, d: seq<byte>)
    ensures var bs := a + (b + (c + d)); bs[..|a|] == a && bs[|a| + |b|..|a| + |b| + |c|] == c
  {
  }

  /** The keys stand behind that, in order, at 32 bytes each. */
  lemma {:induction false} KeysInMessage(m: Message, bs: seq<byte>, start: nat, i: nat)
    requires bs == Serialize(m) && start == |SV.Encode(|m.keys|)| + if m.version.VersionZero? then 4 else 3
    requires i < |m.keys|
    ensures start + 32 * (i + 1) <= |bs| && bs[start + 32 * i..start + 32 * (i + 1)] == m.keys[i]
  {
    AroundKeys(m);
    KeyWithin(m.keys, BeforeKeys(m), AfterKeys(m), bs, start, i);
  }

  lemma {:induction false} KeyWithin(
      keys: seq<Key>, front: seq<byte>, behind: seq<byte>, bs: seq<byte>, start: nat, i: nat)
    requires bs == front + (WriteMany(keys, WriteKey) + behind) && start == |front| && i < |keys|
    ensures start + 32 * (i + 1) <= |bs| && bs[start + 32 * i..start + 32 * (i + 1)] == keys[i]
  {
    ItemWithin(front, keys, WriteKey, 32, behind, i);
  }
}
