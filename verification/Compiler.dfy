/**
 The message compiler as a function: aggregation, key table and serialiser, with or without lookup tables.
 */
module Compiler {
  import opened Wrappers
  import opened Bytes
  import opened Message
  import opened AccountMetas
  import opened KeyTable
  import opened HeaderOrder
  import opened Denotation

  datatype CompileError = NoLookupTables | TableTooLarge | TooManyStaticKeys | HeaderOverflow | TooManyKeys

  datatype CompiledMessage = CompiledMessage(
    version: Version,
    bytes: seq<byte>,
    accountKeys: seq<Key>,
    signerAddresses: seq<Key>,
    header: Header,
    lookups: seq<TableLookup>)

  predicate SmallTables(tables: seq<LookupTable>) {
    forall t :: 0 <= t < |tables| ==> |tables[t].addresses| <= 256
  }

  //// Lookups

  function TableIndex(tables: seq<LookupTable>, key: Key): byte
    requires SmallTables(tables)
  {
    match Locate(tables, 0, key)
    case None => 0
    case Some(p) => p.index
  }

  function IndexesOf(ms: seq<Meta>, tables: seq<LookupTable>): (r: seq<byte>)
    requires SmallTables(tables)
    ensures |r| == |ms| && forall i :: 0 <= i < |ms| ==> r[i] == TableIndex(tables, ms[i].key)
  {
    seq(|ms|, i requires 0 <= i < |ms| => TableIndex(tables, ms[i].key))
  }

  function LookupOf(ms: seq<Meta>, tables: seq<LookupTable>, t: nat): TableLookup
    requires SmallTables(tables) && t < |tables|
  {
    TableLookup(tables[t].address,
      IndexesOf(Pick(ms, tables, Loaded(t, true)), tables),
      IndexesOf(Pick(ms, tables, Loaded(t, false)), tables))
  }

  /** One lookup for each table that is used. */
  function LookupsUpTo(ms: seq<Meta>, tables: seq<LookupTable>, n: nat): seq<TableLookup>
    requires SmallTables(tables) && n <= |tables|
  {
    if n == 0 then []
    else
      var l := LookupOf(ms, tables, n - 1);
      LookupsUpTo(ms, tables, n - 1) + if l.writable == [] && l.readonly == [] then [] else [l]
  }

  //// Instructions

  ghost predicate Covered(i: Instruction, keys: seq<Key>) {
    i.program in keys && forall a :: a in i.accounts ==> a.key in keys
  }

  function IndexOf(keys: seq<Key>, key: Key): byte
    requires |keys| <= 256 && key in keys
  {
    Find(keys, key)
  }

  function CompileInstruction(i: Instruction, keys: seq<Key>): CompiledInstruction
    requires |keys| <= 256 && Covered(i, keys)
  {
    CompiledInstruction(
      IndexOf(keys, i.program),
      seq(|i.accounts|, j requires 0 <= j < |i.accounts| =>
        assert i.accounts[j] in i.accounts;
        IndexOf(keys, i.accounts[j].key)),
      i.data)
  }

  function CompileInstructions(instructions: seq<Instruction>, keys: seq<Key>): (r: seq<CompiledInstruction>)
    requires |keys| <= 256 && forall i :: i in instructions ==> Covered(i, keys)
    ensures |r| == |instructions|
    ensures forall i :: 0 <= i < |instructions| ==> r[i] == CompileInstruction(instructions[i], keys)
  {
    seq(|instructions|, i requires 0 <= i < |instructions| => CompileInstruction(instructions[i], keys))
  }

  //// The whole compiler

  function Metas(feePayer: Key, instructions: seq<Instruction>): seq<Meta> {
    Aggregate(Uses(feePayer, instructions))
  }

  lemma {:induction false} UseIn(feePayer: Key, instructions: seq<Instruction>, i: nat, u: Use)
    requires i < |instructions| && u in InstructionUses(instructions[i])
    ensures u in Uses(feePayer, instructions)
  {
    UsesCover(instructions, i);
  }

  lemma {:induction false} KeyInEntries(feePayer: Key, instructions: seq<Instruction>, tables: seq<LookupTable>, u: Use)
    requires u in Uses(feePayer, instructions)
    ensures u.key in Keys(Entries(Metas(feePayer, instructions), tables))
  {
    var us := Uses(feePayer, instructions);
    var ms := Aggregate(us);
    AggregateCorrect(us);
    var m := ms[Position(ms, u.key)];
    EntriesIn(ms, tables, m);
    var es := Entries(ms, tables);
    var k :| 0 <= k < |es| && es[k] == m;
    assert Keys(es)[k] == u.key;
  }

  lemma {:induction false} InstructionCovered(
      feePayer: Key, instructions: seq<Instruction>, tables: seq<LookupTable>, i: nat)
    requires i < |instructions|
    ensures Covered(instructions[i], Keys(Entries(Metas(feePayer, instructions), tables)))
  {
    var instruction := instructions[i];
    var us := InstructionUses(instruction);
    UseIn(feePayer, instructions, i, us[|us| - 1]);
    KeyInEntries(feePayer, instructions, tables, us[|us| - 1]);
    forall a | a in instruction.accounts
      ensures a.key in Keys(Entries(Metas(feePayer, instructions), tables))
    {
      var j :| 0 <= j < |instruction.accounts| && instruction.accounts[j] == a;
      assert us[j] in us;
      UseIn(feePayer, instructions, i, us[j]);
      KeyInEntries(feePayer, instructions, tables, us[j]);
    }
  }

  lemma {:induction false} AllCovered(feePayer: Key, instructions: seq<Instruction>, tables: seq<LookupTable>)
    ensures forall i :: i in instructions ==>
      Covered(i, Keys(Entries(Metas(feePayer, instructions), tables)))
  {
    forall i | i in instructions
      ensures Covered(i, Keys(Entries(Metas(feePayer, instructions), tables)))
    {
      var k :| 0 <= k < |instructions| && instructions[k] == i;
      InstructionCovered(feePayer, instructions, tables, k);
    }
  }

  predicate HeaderFits(s: seq<Meta>) {
    Count(s, Signatures) <= 255 && Count(s, ReadonlySigned) <= 255 && Count(s, ReadonlyUnsigned) <= 255
  }

  function HeaderOf(s: seq<Meta>): Header
    requires HeaderFits(s)
  {
    Header(Count(s, Signatures), Count(s, ReadonlySigned), Count(s, ReadonlyUnsigned))
  }

  /** The message for a key table that passed the size checks. */
  function MessageOf(
      version: Version, feePayer: Key, instructions: seq<Instruction>, blockhash: Key, tables: seq<LookupTable>)
    : Message
    requires SmallTables(tables)
    requires |Entries(Metas(feePayer, instructions), tables)| <= 256
    requires HeaderFits(StaticPart(Metas(feePayer, instructions), tables))
  {
    var ms := Metas(feePayer, instructions);
    var s := StaticPart(ms, tables);
    AllCovered(feePayer, instructions, tables);
    Message(version, HeaderOf(s), Keys(s), blockhash,
      CompileInstructions(instructions, Keys(Entries(ms, tables))),
      LookupsUpTo(ms, tables, |tables|))
  }

  function CompileWith(
      version: Version, feePayer: Key, instructions: seq<Instruction>, blockhash: Key, tables: seq<LookupTable>)
    : Result<CompiledMessage, CompileError>
    requires SmallTables(tables)
  {
    var ms := Metas(feePayer, instructions);
    var s, es := StaticPart(ms, tables), Entries(ms, tables);
    if |s| > 256 then Err(TooManyStaticKeys)
    else if !HeaderFits(s) then Err(HeaderOverflow)
    else if |es| > 256 then Err(TooManyKeys)
    else
      var m := MessageOf(version, feePayer, instructions, blockhash, tables);
      Ok(CompiledMessage(version, Serialize(m), Keys(es), Keys(s)[..m.header.signatures], m.header, m.lookups))
  }

  function CompileUnversioned(feePayer: Key, instructions: seq<Instruction>, blockhash: Key)
    : Result<CompiledMessage, CompileError>
  {
    CompileWith(Unversioned, feePayer, instructions, blockhash, [])
  }

  function CompileVersionZero(
      feePayer: Key, instructions: seq<Instruction>, blockhash: Key, tables: seq<LookupTable>)
    : Result<CompiledMessage, CompileError>
  {
    if tables == [] then Err(NoLookupTables)
    else if !SmallTables(tables) then Err(TableTooLarge)
    else CompileWith(VersionZero, feePayer, instructions, blockhash, tables)
  }
}
