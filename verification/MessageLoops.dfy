/**
 Header counts, key indexes and message parts, loop by loop, and the two compiler entry points.
 */
module MessageLoops {
  import opened Wrappers
  import opened Bytes
  import opened Message
  import opened AccountMetas
  import opened KeyTable
  import opened HeaderOrder
  import opened Denotation
  import opened Compiler
  import opened CompilerCorrect
  import opened CompiledMessages
  import opened CompilerLoops
  import opened PlacementLoops
  import SV = ShortVector

  method CountMatching(ms: seq<Meta>, c: HeaderCount) returns (count: nat)
    ensures count == Count(ms, c)
  {
    count := 0;
    ghost var seen: seq<Meta> := [];
    for i := 0 to |ms|
      invariant seen == ms[..i] && count == Count(seen, c)
    {
      CountConcat(seen, [ms[i]], c);
      TakeNext(ms, i);
      seen := seen + [ms[i]];
      if Matches(ms[i], c) {
        count := count + 1;
      }
    }
    TakeAll(ms);
  }

  //// The index of every key

  ghost predicate IndexesKeys(m: map<Key, nat>, keys: seq<Key>) {
    (forall i :: 0 <= i < |keys| ==> keys[i] in m && m[keys[i]] == i) && forall key :: key in m ==> key in keys
  }

  ghost predicate NoDuplicates(keys: seq<Key>) {
    forall i, j :: 0 <= i < j < |keys| ==> keys[i] != keys[j]
  }

  /** Numbers `more` on from the keys already numbered. */
  method NumberKeys(indexed: map<Key, nat>, start: nat, more: seq<Key>, ghost keys: seq<Key>)
      returns (m: map<Key, nat>, next: nat)
    requires IndexesKeys(indexed, keys) && start == |keys| && NoDuplicates(keys + more)
    ensures IndexesKeys(m, keys + more) && next == |keys| + |more|
  {
    m, next := indexed, start;
    ghost var done := keys;
    assert keys + more[..0] == keys;
    for i := 0 to |more|
      invariant IndexesKeys(m, done) && next == |done| && done == keys + more[..i]
    {
      NextIsNew(keys, more, i);
      m := m[more[i] := next];
      next := next + 1;
      AppendNext(keys, more, i);
      done := done + [more[i]];
    }
    TakeAll(more);
  }

  lemma {:induction false} NextIsNew(keys: seq<Key>, more: seq<Key>, i: nat)
    requires i < |more| && NoDuplicates(keys + more)
    ensures more[i] !in keys + more[..i]
  {
    var all, done := keys + more, keys + more[..i];
    forall j | 0 <= j < |done|
      ensures done[j] != more[i]
    {
      assert done[j] == all[j] && more[i] == all[|keys| + i];
    }
  }

  lemma {:induction false} IndexIsPosition(m: map<Key, nat>, keys: seq<Key>, key: Key)
    requires IndexesKeys(m, keys) && NoDuplicates(keys) && key in keys
    ensures key in m && m[key] == Find(keys, key) && m[key] < |keys|
  {
    FindUnique(keys, key, m[key]);
  }

  //// Message parts

  method AppendKeys(bytes: seq<byte>, keys: seq<Key>) returns (r: seq<byte>)
    ensures r == bytes + Vector(keys, WriteKey)
  {
    var length := SV.EncodeShortVectorLength(|keys|);
    r := bytes + length;
    ghost var start, seen := r, [];
    for i := 0 to |keys|
      invariant seen == keys[..i] && r == start + WriteMany(seen, WriteKey)
    {
      WriteAppend(seen, keys[i], WriteKey);
      Assoc(start, WriteMany(seen, WriteKey), keys[i]);
      r := r + keys[i];
      TakeNext(keys, i);
      seen := seen + [keys[i]];
    }
    TakeAll(keys);
    Assoc(bytes, length, WriteMany(keys, WriteKey));
  }

  /** Length-prefixed bytes. */
  method AppendBlock(bytes: seq<byte>, block: seq<byte>) returns (r: seq<byte>)
    ensures r == bytes + Block(block)
  {
    var length := SV.EncodeShortVectorLength(|block|);
    r := bytes + length + block;
  }

  /** One account index after the other; every account of a covered instruction has one. */
  method AccountIndexes(m: map<Key, nat>, keys: seq<Key>, instruction: Instruction) returns (indexes: seq<byte>)
    requires IndexesKeys(m, keys) && NoDuplicates(keys) && |keys| <= 256 && Covered(instruction, keys)
    ensures indexes == CompileInstruction(instruction, keys).accounts
  {
    var accounts := instruction.accounts;
    indexes := [];
    for j := 0 to |accounts|
      invariant |indexes| == j
      invariant forall k :: 0 <= k < j ==> indexes[k] == Find(keys, accounts[k].key)
    {
      assert accounts[j] in accounts;
      IndexIsPosition(m, keys, accounts[j].key);
      indexes := indexes + [m[accounts[j].key]];
    }
  }

  method AppendInstruction(bytes: seq<byte>, m: map<Key, nat>, keys: seq<Key>, instruction: Instruction)
      returns (r: seq<byte>)
    requires IndexesKeys(m, keys) && NoDuplicates(keys) && |keys| <= 256 && Covered(instruction, keys)
    ensures r == bytes + WriteInstruction(CompileInstruction(instruction, keys))
  {
    IndexIsPosition(m, keys, instruction.program);
    var indexes := AccountIndexes(m, keys, instruction);
    r := bytes + [m[instruction.program]];
    r := AppendBlock(r, indexes);
    r := AppendBlock(r, instruction.data);
    ghost var program := [IndexOf(keys, instruction.program)];
    Assoc(bytes + program, Block(indexes), Block(instruction.data));
    Assoc(bytes, program, Block(indexes) + Block(instruction.data));
  }

  method AppendInstructions(bytes: seq<byte>, m: map<Key, nat>, keys: seq<Key>, instructions: seq<Instruction>)
      returns (r: seq<byte>)
    requires IndexesKeys(m, keys) && NoDuplicates(keys) && |keys| <= 256
    requires forall i :: i in instructions ==> Covered(i, keys)
    ensures r == bytes + Vector(CompileInstructions(instructions, keys), WriteInstruction)
  {
    var length := SV.EncodeShortVectorLength(|instructions|);
    r := bytes + length;
    ghost var compiled := CompileInstructions(instructions, keys);
    ghost var start, seen := r, [];
    for i := 0 to |instructions|
      invariant seen == compiled[..i] && r == start + WriteMany(seen, WriteInstruction)
    {
      ghost var next := compiled[i];
      WriteAppend(seen, next, WriteInstruction);
      Assoc(start, WriteMany(seen, WriteInstruction), WriteInstruction(next));
      assert instructions[i] in instructions;
      r := AppendInstruction(r, m, keys, instructions[i]);
      TakeNext(compiled, i);
      seen := seen + [next];
    }
    TakeAll(compiled);
    Assoc(bytes, length, WriteMany(compiled, WriteInstruction));
  }

  method AppendLookups(bytes: seq<byte>, lookups: seq<TableLookup>) returns (r: seq<byte>)
    ensures r == bytes + Vector(lookups, WriteLookup)
  {
    var length := SV.EncodeShortVectorLength(|lookups|);
    r := bytes + length;
    ghost var start, seen := r, [];
    for i := 0 to |lookups|
      invariant seen == lookups[..i] && r == start + WriteMany(seen, WriteLookup)
    {
      WriteAppend(seen, lookups[i], WriteLookup);
      ghost var before := r;
      r := r + lookups[i].table;
      r := AppendBlock(r, lookups[i].writable);
      r := AppendBlock(r, lookups[i].readonly);
      Assoc(before + lookups[i].table, Block(lookups[i].writable), Block(lookups[i].readonly));
      Assoc(before, lookups[i].table, Block(lookups[i].writable) + Block(lookups[i].readonly));
      Assoc(start, WriteMany(seen, WriteLookup), WriteLookup(lookups[i]));
      TakeNext(lookups, i);
      seen := seen + [lookups[i]];
    }
    TakeAll(lookups);
    Assoc(bytes, length, WriteMany(lookups, WriteLookup));
  }

  /** The parts of the message `m`, in order. */
  method AppendMessage(
      version: Version, header: Header, staticKeys: seq<Key>, blockhash: Key, lookups: seq<TableLookup>,
      indexes: map<Key, nat>, instructions: seq<Instruction>, keys: seq<Key>, ghost m: Message)
      returns (bytes: seq<byte>)
    requires IndexesKeys(indexes, keys) && NoDuplicates(keys) && |keys| <= 256
    requires forall i :: i in instructions ==> Covered(i, keys)
    requires m == Message(version, header, staticKeys, blockhash, CompileInstructions(instructions, keys), lookups)
    ensures bytes == Serialize(m)
  {
    var prefix: seq<byte> := if version.VersionZero? then [0x80] else [];
    bytes := prefix + [header.signatures, header.readonlySigned, header.readonlyUnsigned];
    bytes := AppendKeys(bytes, staticKeys);
    bytes := bytes + blockhash;
    bytes := AppendInstructions(bytes, indexes, keys, instructions);
    ghost var before := bytes;
    if version.VersionZero? {
      bytes := AppendLookups(bytes, lookups);
    }
    assert bytes == before + TailBytes(m);
    RegroupParts(prefix, HeaderBytes(header), Vector(staticKeys, WriteKey), blockhash,
      Vector(m.instructions, WriteInstruction), TailBytes(m));
  }

  lemma {:induction false} RegroupParts(
      a: seq<byte>, b: seq<byte>, c: seq<byte>, d: seq<byte>, e: seq<byte>, f: seq<byte>)
    ensures a + b + c + d + e + f == a + (b + (c + (d + (e + f))))
  {
  }

  //// The compiler

  method KeysInOrder(ms: seq<Meta>) returns (keys: seq<Key>)
    ensures keys == Keys(ms)
  {
    keys := [];
    for i := 0 to |ms|
      invariant |keys| == i && forall j :: 0 <= j < i ==> keys[j] == ms[j].key
    {
      keys := keys + [ms[i].key];
    }
  }

  /** The key table of the inputs, split as the compiler receives it. */
  ghost predicate KeyTableOf(
      staticKeys: seq<Key>, writable: seq<Key>, readonly: seq<Key>,
      feePayer: Key, instructions: seq<Instruction>, tables: seq<LookupTable>)
  {
    var ms := Metas(feePayer, instructions);
    staticKeys == Keys(StaticPart(ms, tables))
    && writable == Keys(LoadedPart(ms, tables, true)) && readonly == Keys(LoadedPart(ms, tables, false))
  }

  lemma {:induction false} KeyTableParts(
      staticKeys: seq<Key>, writable: seq<Key>, readonly: seq<Key>,
      feePayer: Key, instructions: seq<Instruction>, tables: seq<LookupTable>)
    requires KeyTableOf(staticKeys, writable, readonly, feePayer, instructions, tables)
    ensures staticKeys + writable + readonly == Keys(Entries(Metas(feePayer, instructions), tables))
    ensures NoDuplicates(staticKeys) && NoDuplicates(staticKeys + writable)
    ensures NoDuplicates(staticKeys + writable + readonly)
  {
    var ms := Metas(feePayer, instructions);
    var s, w, r := StaticPart(ms, tables), LoadedPart(ms, tables, true), LoadedPart(ms, tables, false);
    KeysConcat(s, w);
    KeysConcat(s + w, r);
    EntriesDistinctKeys(feePayer, instructions, tables);
    var all := staticKeys + writable + readonly;
    PrefixNoDuplicates(all, staticKeys + writable, readonly);
    PrefixNoDuplicates(staticKeys + writable, staticKeys, writable);
  }

  lemma {:induction false} PrefixNoDuplicates(all: seq<Key>, a: seq<Key>, b: seq<Key>)
    requires NoDuplicates(all) && all == a + b
    ensures NoDuplicates(a)
  {
    assert forall i :: 0 <= i < |a| ==> a[i] == all[i];
  }

  /** Numbers static, loaded writable and loaded readonly keys, in that order. */
  method NumberAllKeys(
      staticKeys: seq<Key>, writable: seq<Key>, readonly: seq<Key>,
      ghost feePayer: Key, ghost instructions: seq<Instruction>, ghost tables: seq<LookupTable>)
      returns (indexes: map<Key, nat>, next: nat)
    requires KeyTableOf(staticKeys, writable, readonly, feePayer, instructions, tables)
    ensures IndexesKeys(indexes, Keys(Entries(Metas(feePayer, instructions), tables)))
    ensures next == |Entries(Metas(feePayer, instructions), tables)|
  {
    KeyTableParts(staticKeys, writable, readonly, feePayer, instructions, tables);
    assert [] + staticKeys == staticKeys;
    indexes, next := NumberKeys(map[], 0, staticKeys, []);
    indexes, next := NumberKeys(indexes, next, writable, staticKeys);
    indexes, next := NumberKeys(indexes, next, readonly, staticKeys + writable);
  }

  /** The sorted static entries, the loaded keys and the lookups that placing the accounts gives. */
  ghost predicate Prepared(
      staticMetas: seq<Meta>, writableLoaded: seq<Key>, readonlyLoaded: seq<Key>, lookups: seq<TableLookup>,
      feePayer: Key, instructions: seq<Instruction>, tables: seq<LookupTable>)
  {
    && SmallTables(tables)
    && staticMetas == StaticPart(Metas(feePayer, instructions), tables)
    && KeyTableOf(Keys(staticMetas), writableLoaded, readonlyLoaded, feePayer, instructions, tables)
    && lookups == LookupsUpTo(Metas(feePayer, instructions), tables, |tables|)
  }

  method CompileMessageBytes(
      version: Version, instructions: seq<Instruction>, staticMetas: seq<Meta>,
      writableLoaded: seq<Key>, readonlyLoaded: seq<Key>, lookups: seq<TableLookup>, blockhash: Key,
      ghost feePayer: Key, ghost tables: seq<LookupTable>)
      returns (r: Result<CompiledMessage, CompileError>)
    requires Prepared(staticMetas, writableLoaded, readonlyLoaded, lookups, feePayer, instructions, tables)
    ensures r == CompileWith(version, feePayer, instructions, blockhash, tables)
    ensures r.Ok? ==> HeaderIs(r.value, feePayer, instructions, tables)
  {
    if |staticMetas| > 256 {
      return Err(TooManyStaticKeys);
    }
    var signatures := CountMatching(staticMetas, Signatures);
    var readonlySigned := CountMatching(staticMetas, ReadonlySigned);
    var readonlyUnsigned := CountMatching(staticMetas, ReadonlyUnsigned);
    if signatures > 255 || readonlySigned > 255 || readonlyUnsigned > 255 {
      return Err(HeaderOverflow);
    }
    var staticKeys := KeysInOrder(staticMetas);
    var indexes, next := NumberAllKeys(staticKeys, writableLoaded, readonlyLoaded, feePayer, instructions, tables);
    if next > 256 {
      return Err(TooManyKeys);
    }
    KeyTableParts(staticKeys, writableLoaded, readonlyLoaded, feePayer, instructions, tables);
    AllCovered(feePayer, instructions, tables);
    var accountKeys := staticKeys + writableLoaded + readonlyLoaded;
    var header := Header(signatures, readonlySigned, readonlyUnsigned);
    var bytes := AppendMessage(version, header, staticKeys, blockhash, lookups, indexes, instructions, accountKeys,
      MessageOf(version, feePayer, instructions, blockhash, tables));
    r := Ok(CompiledMessage(version, bytes, accountKeys, staticKeys[..signatures], header, lookups));
    HeaderExactly(version, feePayer, instructions, blockhash, tables, r.value);
  }

  lemma {:induction false} NoTables(ms: seq<Meta>, writable: bool)
    ensures LoadedPart(ms, [], writable) == [] && Keys(LoadedPart(ms, [], writable)) == []
  {
  }

  /** Aggregate, sort, serialise. */
  method CompileUnversionedMessage(feePayer: Key, instructions: seq<Instruction>, blockhash: Key)
      returns (r: Result<CompiledMessage, CompileError>)
    ensures r == CompileUnversioned(feePayer, instructions, blockhash)
    ensures r.Ok? ==> HeaderIs(r.value, feePayer, instructions, [])
  {
    var aggregated := AggregateAccountMetas(feePayer, instructions);
    var ordered := OrderStatic(aggregated);
    NoTables(aggregated, true);
    NoTables(aggregated, false);
    r := CompileMessageBytes(Unversioned, instructions, ordered, [], [], [], blockhash, feePayer, []);
  }

  /** Aggregate, place, sort what stays static, serialise. */
  method CompileVersionZeroMessage(
      feePayer: Key, instructions: seq<Instruction>, blockhash: Key, tables: seq<LookupTable>)
      returns (r: Result<CompiledMessage, CompileError>)
    ensures r == CompileVersionZero(feePayer, instructions, blockhash, tables)
    ensures r.Ok? ==> HeaderIs(r.value, feePayer, instructions, tables)
  {
    if |tables| == 0 {
      return Err(NoLookupTables);
    }
    var aggregated := AggregateAccountMetas(feePayer, instructions);
    FeePayerLeads(feePayer, instructions);
    var placed := PlaceAccountsInLookupTables(aggregated, tables);
    if placed.Err? {
      return Err(placed.error);
    }
    var c := placed.value;
    var orderedStatic := OrderStatic(c.staticMetas);
    OrderOfStatic(aggregated, tables);
    r := CompileMessageBytes(VersionZero, instructions, orderedStatic, c.writableLoaded, c.readonlyLoaded,
      c.lookups, blockhash, feePayer, tables);
  }

  lemma {:induction false} FirstIsLeast(ms: seq<Meta>, k: nat)
    requires InFirstUseOrder(ms) && k < |ms|
    ensures ms[0].firstSeen <= ms[k].firstSeen
    ensures ms[0].firstSeen == ms[k].firstSeen ==> ms[0] == ms[k]
  {
  }

  /** The fee payer is the first entry the table returns, and it is a signer. */
  lemma {:induction false} FeePayerLeads(feePayer: Key, instructions: seq<Instruction>)
    ensures var ms := Metas(feePayer, instructions); ms != [] && ms[0].isSigner
  {
    var us, ms := Uses(feePayer, instructions), Metas(feePayer, instructions);
    AggregateCorrect(us);
    FeePayerEntry(feePayer, instructions);
    var m :| m in ms && m.key == feePayer && m.firstSeen == 0 && m.isSigner && m.isWritable;
    var k :| 0 <= k < |ms| && ms[k] == m;
    FirstIsLeast(ms, k);
  }
}
