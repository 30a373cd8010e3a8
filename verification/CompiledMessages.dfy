/** Every field of a compiled message, and every error, from the instructions and the tables alone. */
module CompiledMessages {
  import opened Wrappers
  import opened Bytes
  import opened Message
  import opened AccountMetas
  import opened KeyTable
  import opened HeaderOrder
  import opened Denotation
  import opened Compiler
  import opened CompilerCorrect

  //// What the instructions say about a key

  ghost predicate MustSign(feePayer: Key, instructions: seq<Instruction>, key: Key) {
    key == feePayer || exists i, a ::
      0 <= i < |instructions| && a in instructions[i].accounts && a.key == key && a.isSigner
  }

  ghost predicate MustWrite(feePayer: Key, instructions: seq<Instruction>, key: Key) {
    key == feePayer || exists i, a ::
      0 <= i < |instructions| && a in instructions[i].accounts && a.key == key && a.isWritable
  }

  ghost predicate Runs(instructions: seq<Instruction>, key: Key) {
    exists i :: 0 <= i < |instructions| && instructions[i].program == key
  }

  ghost predicate Occurs(feePayer: Key, instructions: seq<Instruction>, key: Key) {
    key == feePayer || Runs(instructions, key) || exists i, a ::
      0 <= i < |instructions| && a in instructions[i].accounts && a.key == key
  }

  lemma {:induction false} UseOfInstruction(i: Instruction, u: Use)
    ensures u in InstructionUses(i) <==>
      u == Use(i.program, false, false, true)
      || exists a :: a in i.accounts && u == Use(a.key, a.isSigner, a.isWritable, false)
  {
    var us := InstructionUses(i);
    assert us[|i.accounts|] == Use(i.program, false, false, true);
    if a :| a in i.accounts && u == Use(a.key, a.isSigner, a.isWritable, false) {
      var j :| 0 <= j < |i.accounts| && i.accounts[j] == a;
      assert us[j] == u;
    }
    if u in us {
      var j :| 0 <= j < |us| && us[j] == u;
      assert j < |i.accounts| ==> i.accounts[j] in i.accounts;
    }
  }

  ghost predicate UsedBySome(instructions: seq<Instruction>, u: Use) {
    exists i :: 0 <= i < |instructions| && u in InstructionUses(instructions[i])
  }

  lemma {:induction false} UsedByOneMore(init: seq<Instruction>, last: Instruction, u: Use)
    ensures UsedBySome(init + [last], u) <==> UsedBySome(init, u) || u in InstructionUses(last)
  {
    var all := init + [last];
    assert all[|init|] == last && forall i :: 0 <= i < |init| ==> all[i] == init[i];
  }

  lemma {:induction false} UseOfSome(instructions: seq<Instruction>, u: Use)
    ensures u in AllInstructionUses(instructions) <==> UsedBySome(instructions, u)
  {
    if instructions != [] {
      var init, last := instructions[..|instructions| - 1], instructions[|instructions| - 1];
      assert instructions == init + [last];
      UseOfSome(init, u);
      UsedByOneMore(init, last, u);
    }
  }

  /** Each use is the fee payer's, an account's or a program's. */
  lemma {:induction false} UsesAre(feePayer: Key, instructions: seq<Instruction>, u: Use)
    ensures u in Uses(feePayer, instructions) <==>
      u == Use(feePayer, true, true, false)
      || (exists i :: 0 <= i < |instructions| && u == Use(instructions[i].program, false, false, true))
      || (exists i, a :: 0 <= i < |instructions| && a in instructions[i].accounts
                         && u == Use(a.key, a.isSigner, a.isWritable, false))
  {
    UseOfSome(instructions, u);
    forall i | 0 <= i < |instructions|
      ensures u in InstructionUses(instructions[i]) <==>
        u == Use(instructions[i].program, false, false, true)
        || exists a :: a in instructions[i].accounts && u == Use(a.key, a.isSigner, a.isWritable, false)
    {
      UseOfInstruction(instructions[i], u);
    }
  }

  /** What the uses of a key amount to. */
  lemma {:induction false} UsesMean(feePayer: Key, instructions: seq<Instruction>, key: Key)
    ensures var us := Uses(feePayer, instructions);
      && (Signs(us, key) <==> MustSign(feePayer, instructions, key))
      && (Writes(us, key) <==> MustWrite(feePayer, instructions, key))
      && (Invoked(us, key) <==> Runs(instructions, key))
      && (key in KeysOf(us) <==> Occurs(feePayer, instructions, key))
  {
    var us := Uses(feePayer, instructions);
    forall u
      ensures u in us <==>
        u == Use(feePayer, true, true, false)
        || (exists i :: 0 <= i < |instructions| && u == Use(instructions[i].program, false, false, true))
        || (exists i, a :: 0 <= i < |instructions| && a in instructions[i].accounts
                           && u == Use(a.key, a.isSigner, a.isWritable, false))
    {
      UsesAre(feePayer, instructions, u);
    }
    assert Use(feePayer, true, true, false) in us;
    forall i | 0 <= i < |instructions|
      ensures Use(instructions[i].program, false, false, true) in us
    {
    }
    forall i, a | 0 <= i < |instructions| && a in instructions[i].accounts
      ensures Use(a.key, a.isSigner, a.isWritable, false) in us
    {
    }
  }

  ghost predicate Listed(tables: seq<LookupTable>, key: Key) {
    exists t :: 0 <= t < |tables| && key in tables[t].addresses
  }

  /** Signers, programs and keys that no table lists are written out in the message. */
  ghost predicate WrittenOut(feePayer: Key, instructions: seq<Instruction>, tables: seq<LookupTable>, key: Key) {
    MustSign(feePayer, instructions, key) || Runs(instructions, key) || !Listed(tables, key)
  }

  //// Header counts

  /** The distinct keys of an input. */
  ghost function Occurring(feePayer: Key, instructions: seq<Instruction>): (keys: set<Key>)
    ensures forall key :: key in keys <==> Occurs(feePayer, instructions, key)
  {
    forall key
      ensures key in KeysOf(Uses(feePayer, instructions)) <==> Occurs(feePayer, instructions, key)
    {
      UsesMean(feePayer, instructions, key);
    }
    KeysOf(Uses(feePayer, instructions))
  }

  ghost function Signing(feePayer: Key, instructions: seq<Instruction>): set<Key> {
    set key | key in Occurring(feePayer, instructions) && MustSign(feePayer, instructions, key)
  }

  ghost function SigningReadonly(feePayer: Key, instructions: seq<Instruction>): set<Key> {
    set key | key in Occurring(feePayer, instructions)
      && MustSign(feePayer, instructions, key) && !MustWrite(feePayer, instructions, key)
  }

  ghost function ReadonlyWrittenOut(feePayer: Key, instructions: seq<Instruction>, tables: seq<LookupTable>): set<Key> {
    set key | key in Occurring(feePayer, instructions)
      && WrittenOut(feePayer, instructions, tables, key)
      && !MustSign(feePayer, instructions, key) && !MustWrite(feePayer, instructions, key)
  }

  ghost function AllWrittenOut(feePayer: Key, instructions: seq<Instruction>, tables: seq<LookupTable>): set<Key> {
    set key | key in Occurring(feePayer, instructions) && WrittenOut(feePayer, instructions, tables, key)
  }

  /** An entry of the static part carries the flags its key's uses amount to, and such a key has one. */
  lemma {:induction false} StaticEntry(
      feePayer: Key, instructions: seq<Instruction>, tables: seq<LookupTable>, m: Meta)
    requires m in StaticPart(Metas(feePayer, instructions), tables)
    ensures Occurs(feePayer, instructions, m.key) && WrittenOut(feePayer, instructions, tables, m.key)
    ensures m.isSigner <==> MustSign(feePayer, instructions, m.key)
    ensures m.isWritable <==> MustWrite(feePayer, instructions, m.key)
  {
    var us, ms := Uses(feePayer, instructions), Metas(feePayer, instructions);
    AggregateCorrect(us);
    StaticIn(ms, tables, m);
    StaticSlot(m, tables);
    var k :| 0 <= k < |ms| && ms[k] == m;
    assert Summarises(ms[k], us) && us[m.firstSeen] in us;
    UsesMean(feePayer, instructions, m.key);
  }

  lemma {:induction false} EntryOfWrittenOut(
      feePayer: Key, instructions: seq<Instruction>, tables: seq<LookupTable>, key: Key) returns (m: Meta)
    requires Occurs(feePayer, instructions, key) && WrittenOut(feePayer, instructions, tables, key)
    ensures m in StaticPart(Metas(feePayer, instructions), tables) && m.key == key
    ensures m.isSigner <==> MustSign(feePayer, instructions, key)
    ensures m.isWritable <==> MustWrite(feePayer, instructions, key)
  {
    UsesMean(feePayer, instructions, key);
    m := EntryFor(feePayer, instructions, key);
    StaticSlot(m, tables);
    StaticIn(Metas(feePayer, instructions), tables, m);
  }

  lemma {:induction false} MatchingAre(
      feePayer: Key, instructions: seq<Instruction>, tables: seq<LookupTable>, c: HeaderCount, key: Key)
    ensures key in MatchingKeys(StaticPart(Metas(feePayer, instructions), tables), c) <==>
      Occurs(feePayer, instructions, key) && WrittenOut(feePayer, instructions, tables, key)
      && match c
         case Signatures => MustSign(feePayer, instructions, key)
         case ReadonlySigned => MustSign(feePayer, instructions, key) && !MustWrite(feePayer, instructions, key)
         case ReadonlyUnsigned => !MustSign(feePayer, instructions, key) && !MustWrite(feePayer, instructions, key)
  {
    var s := StaticPart(Metas(feePayer, instructions), tables);
    MatchingIn(s, c, key);
    if m :| m in s && Matches(m, c) && m.key == key {
      StaticEntry(feePayer, instructions, tables, m);
    }
    if Occurs(feePayer, instructions, key) && WrittenOut(feePayer, instructions, tables, key) {
      var m := EntryOfWrittenOut(feePayer, instructions, tables, key);
    }
  }

  /** The distinct keys of one kind among those that are written out. */
  ghost function KeysOfKind(
      feePayer: Key, instructions: seq<Instruction>, tables: seq<LookupTable>, c: HeaderCount): set<Key>
  {
    match c
    case Signatures => Signing(feePayer, instructions)
    case ReadonlySigned => SigningReadonly(feePayer, instructions)
    case ReadonlyUnsigned => ReadonlyWrittenOut(feePayer, instructions, tables)
  }

  lemma {:induction false} CountIs(
      feePayer: Key, instructions: seq<Instruction>, tables: seq<LookupTable>, c: HeaderCount, s: seq<Meta>)
    requires s == StaticPart(Metas(feePayer, instructions), tables)
    ensures Count(s, c) == |KeysOfKind(feePayer, instructions, tables, c)|
  {
    EntriesDistinctKeys(feePayer, instructions, tables);
    StaticDistinct(Metas(feePayer, instructions), tables);
    CountKeys(s, c);
    SameKeys(feePayer, instructions, tables, c, MatchingKeys(s, c), KeysOfKind(feePayer, instructions, tables, c));
  }

  lemma {:induction false} SameKeys(
      feePayer: Key, instructions: seq<Instruction>, tables: seq<LookupTable>, c: HeaderCount,
      matching: set<Key>, keys: set<Key>)
    requires matching == MatchingKeys(StaticPart(Metas(feePayer, instructions), tables), c)
    requires keys == KeysOfKind(feePayer, instructions, tables, c)
    ensures matching == keys
  {
    forall key
      ensures key in matching <==> key in keys
    {
      MatchingAre(feePayer, instructions, tables, c, key);
    }
  }

  /** The three counts over the static part are the numbers of keys of each kind. */
  lemma {:induction false} CountsAre(feePayer: Key, instructions: seq<Instruction>, tables: seq<LookupTable>)
    ensures var s := StaticPart(Metas(feePayer, instructions), tables);
      && Count(s, Signatures) == |Signing(feePayer, instructions)|
      && Count(s, ReadonlySigned) == |SigningReadonly(feePayer, instructions)|
      && Count(s, ReadonlyUnsigned) == |ReadonlyWrittenOut(feePayer, instructions, tables)|
  {
    var s := StaticPart(Metas(feePayer, instructions), tables);
    CountIs(feePayer, instructions, tables, Signatures, s);
    CountIs(feePayer, instructions, tables, ReadonlySigned, s);
    CountIs(feePayer, instructions, tables, ReadonlyUnsigned, s);
  }

  /** The static part has one entry for each key that is written out. */
  lemma {:induction false} StaticCount(feePayer: Key, instructions: seq<Instruction>, tables: seq<LookupTable>)
    ensures |StaticPart(Metas(feePayer, instructions), tables)| == |AllWrittenOut(feePayer, instructions, tables)|
  {
    var ms := Metas(feePayer, instructions);
    var s := StaticPart(ms, tables);
    EntriesDistinctKeys(feePayer, instructions, tables);
    StaticDistinct(ms, tables);
    DistinctCount(s);
    forall key
      ensures key in (set m | m in s :: m.key) <==> key in AllWrittenOut(feePayer, instructions, tables)
    {
      if m :| m in s && m.key == key {
        StaticEntry(feePayer, instructions, tables, m);
      }
      if key in AllWrittenOut(feePayer, instructions, tables) {
        var m := EntryOfWrittenOut(feePayer, instructions, tables, key);
      }
    }
    assert (set m | m in s :: m.key) == AllWrittenOut(feePayer, instructions, tables);
  }

  lemma {:induction false} CompiledHeader(
      version: Version, feePayer: Key, instructions: seq<Instruction>, blockhash: Key, tables: seq<LookupTable>,
      c: CompiledMessage, s: seq<Meta>)
    requires SmallTables(tables) && CompileWith(version, feePayer, instructions, blockhash, tables) == Ok(c)
    requires s == StaticPart(Metas(feePayer, instructions), tables)
    ensures c.version == version
    ensures c.header.signatures == Count(s, Signatures) && c.header.readonlySigned == Count(s, ReadonlySigned)
    ensures c.header.readonlyUnsigned == Count(s, ReadonlyUnsigned)
    ensures Count(s, Signatures) <= |Keys(s)| && c.signerAddresses == Keys(s)[..Count(s, Signatures)]
    ensures c.accountKeys == Keys(Entries(Metas(feePayer, instructions), tables))
  {
  }

  /** Counts and signers of a compiled message, by the instructions and tables alone. */
  ghost predicate HeaderIs(
      c: CompiledMessage, feePayer: Key, instructions: seq<Instruction>, tables: seq<LookupTable>)
  {
    && c.header.signatures == |c.signerAddresses| == |Signing(feePayer, instructions)|
    && c.header.readonlySigned == |SigningReadonly(feePayer, instructions)|
    && c.header.readonlyUnsigned == |ReadonlyWrittenOut(feePayer, instructions, tables)|
    && c.signerAddresses <= c.accountKeys
  }

  /** The counts a compiled message carries, and its signers, from the instructions and tables alone. */
  lemma {:induction false} HeaderExactly(
      version: Version, feePayer: Key, instructions: seq<Instruction>, blockhash: Key, tables: seq<LookupTable>,
      c: CompiledMessage)
    requires SmallTables(tables) && CompileWith(version, feePayer, instructions, blockhash, tables) == Ok(c)
    ensures HeaderIs(c, feePayer, instructions, tables)
  {
    var ms := Metas(feePayer, instructions);
    var s := StaticPart(ms, tables);
    CountsAre(feePayer, instructions, tables);
    CompiledHeader(version, feePayer, instructions, blockhash, tables, c, s);
    StaticKeysLead(ms, tables);
  }

  /** Exactly which error stops the compiler: the checks in order, over the numbers of distinct keys. */
  lemma {:induction false} FailsExactly(
      version: Version, feePayer: Key, instructions: seq<Instruction>, blockhash: Key, tables: seq<LookupTable>)
    requires SmallTables(tables)
    ensures var r := CompileWith(version, feePayer, instructions, blockhash, tables);
      var crowded := |AllWrittenOut(feePayer, instructions, tables)| > 256;
      var overflow := |Signing(feePayer, instructions)| > 255 || |SigningReadonly(feePayer, instructions)| > 255
        || |ReadonlyWrittenOut(feePayer, instructions, tables)| > 255;
      && (r == Err(TooManyStaticKeys) <==> crowded)
      && (r == Err(HeaderOverflow) <==> !crowded && overflow)
      && (r == Err(TooManyKeys) <==> !crowded && !overflow && |Occurring(feePayer, instructions)| > 256)
      && r != Err(NoLookupTables) && r != Err(TableTooLarge)
  {
    CountsAre(feePayer, instructions, tables);
    StaticCount(feePayer, instructions, tables);
    KeyCount(feePayer, instructions);
    EntriesDistinctKeys(feePayer, instructions, tables);
    OccurringIs(feePayer, instructions);
  }

  lemma {:induction false} OccurringIs(feePayer: Key, instructions: seq<Instruction>)
    ensures Occurring(feePayer, instructions) == KeysOf(Uses(feePayer, instructions))
  {
  }

  //// The bytes carry the same fields

  /** A message with the version, the counts and the lookups a compiled message reports, and its first keys. */
  ghost predicate Carries(c: CompiledMessage, m: Message) {
    m.version == c.version && m.header == c.header && m.lookups == c.lookups && m.keys <= c.accountKeys
  }

  lemma {:induction false} CompiledParts(
      version: Version, feePayer: Key, instructions: seq<Instruction>, blockhash: Key, tables: seq<LookupTable>,
      c: CompiledMessage)
    requires SmallTables(tables) && CompileWith(version, feePayer, instructions, blockhash, tables) == Ok(c)
    ensures Compilable(feePayer, instructions, tables)
    ensures var m := MessageOf(version, feePayer, instructions, blockhash, tables);
      c.bytes == Serialize(m) && c.header == m.header && c.lookups == m.lookups && c.version == m.version
  {
  }

  /** The bytes are those of a message with the reported fields, and read back as it if anything does. */
  lemma {:induction false} MessageExactly(
      version: Version, feePayer: Key, instructions: seq<Instruction>, blockhash: Key, tables: seq<LookupTable>,
      c: CompiledMessage) returns (m: Message)
    requires SmallTables(tables) && CompileWith(version, feePayer, instructions, blockhash, tables) == Ok(c)
    requires version.Unversioned? ==> tables == []
    ensures c.version == version && c.bytes == Serialize(m) && Carries(c, m) && m.blockhash == blockhash
    ensures |m.keys| == |AllWrittenOut(feePayer, instructions, tables)|
    ensures Parse(c.bytes) == Some(m) <==> version.VersionZero? || |Signing(feePayer, instructions)| < 128
  {
    m := MessageOf(version, feePayer, instructions, blockhash, tables);
    var ms := Metas(feePayer, instructions);
    CompiledParts(version, feePayer, instructions, blockhash, tables, c);
    CompiledHeader(version, feePayer, instructions, blockhash, tables, c, StaticPart(ms, tables));
    HeaderExactly(version, feePayer, instructions, blockhash, tables, c);
    StaticKeysLead(ms, tables);
    StaticCount(feePayer, instructions, tables);
    ParseSerialize(m);
  }

  /** Behind the keys written out, the reported keys are those the lookups load: writable, then readonly. */
  lemma {:induction false} LoadedKeysExactly(
      version: Version, feePayer: Key, instructions: seq<Instruction>, blockhash: Key, tables: seq<LookupTable>,
      c: CompiledMessage, chain: Chain)
    requires SmallTables(tables) && CompileWith(version, feePayer, instructions, blockhash, tables) == Ok(c)
    requires Agree(tables, chain)
    ensures LoadKeys(c.lookups, chain, true).Some? && LoadKeys(c.lookups, chain, false).Some?
    ensures var n := |AllWrittenOut(feePayer, instructions, tables)|;
      n <= |c.accountKeys| && c.accountKeys[n..]
        == LoadKeys(c.lookups, chain, true).value + LoadKeys(c.lookups, chain, false).value
  {
    var ms := Metas(feePayer, instructions);
    var s, w, r := StaticPart(ms, tables), LoadedPart(ms, tables, true), LoadedPart(ms, tables, false);
    CompiledParts(version, feePayer, instructions, blockhash, tables, c);
    CompiledHeader(version, feePayer, instructions, blockhash, tables, c, s);
    LoadLookups(ms, tables, |tables|, true, chain);
    LoadLookups(ms, tables, |tables|, false, chain);
    StaticCount(feePayer, instructions, tables);
    KeysConcat(s, w);
    KeysConcat(s + w, r);
    DropFirstPart(Keys(s), Keys(w), Keys(r));
  }

  lemma {:induction false} DropFirstPart<T>(a: seq<T>, b: seq<T>, c: seq<T>)
    ensures ((a + b) + c)[|a|..] == b + c
  {
  }

  //// What the bytes are decoded to

  /** An instruction as asked for, every account with the privileges it has anywhere. */
  ghost predicate AsAsked(feePayer: Key, instructions: seq<Instruction>, asked: Instruction, read: Instruction) {
    && read.program == asked.program && read.data == asked.data && |read.accounts| == |asked.accounts|
    && forall j :: 0 <= j < |asked.accounts| ==>
      && read.accounts[j].key == asked.accounts[j].key
      && (read.accounts[j].isSigner <==> MustSign(feePayer, instructions, asked.accounts[j].key))
      && (read.accounts[j].isWritable <==> MustWrite(feePayer, instructions, asked.accounts[j].key))
  }

  lemma {:induction false} MeaningAsAsked(feePayer: Key, instructions: seq<Instruction>, asked: Instruction)
    ensures AsAsked(feePayer, instructions, asked, MeaningOf(Uses(feePayer, instructions), asked))
  {
    forall j | 0 <= j < |asked.accounts|
      ensures var a := MergedAccount(Uses(feePayer, instructions), asked.accounts[j].key);
        && (a.isSigner <==> MustSign(feePayer, instructions, asked.accounts[j].key))
        && (a.isWritable <==> MustWrite(feePayer, instructions, asked.accounts[j].key))
    {
      UsesMean(feePayer, instructions, asked.accounts[j].key);
    }
  }

  ghost predicate AllAsAsked(feePayer: Key, instructions: seq<Instruction>, read: seq<Instruction>) {
    |read| == |instructions|
    && forall i :: 0 <= i < |instructions| ==> AsAsked(feePayer, instructions, instructions[i], read[i])
  }

  lemma {:induction false} AllMeaningAsAsked(feePayer: Key, instructions: seq<Instruction>)
    ensures AllAsAsked(feePayer, instructions, Meaning(Uses(feePayer, instructions), instructions))
  {
    forall i | 0 <= i < |instructions|
      ensures AsAsked(feePayer, instructions, instructions[i], MeaningOf(Uses(feePayer, instructions), instructions[i]))
    {
      MeaningAsAsked(feePayer, instructions, instructions[i]);
    }
  }

  /** The bytes of a compiled message, decoded with the tables on chain, say exactly what was asked for. */
  lemma {:induction false} DecodesAsAsked(
      version: Version, feePayer: Key, instructions: seq<Instruction>, blockhash: Key, tables: seq<LookupTable>,
      c: CompiledMessage, chain: Chain)
    requires SmallTables(tables) && CompileWith(version, feePayer, instructions, blockhash, tables) == Ok(c)
    requires (version.Unversioned? ==> tables == [] && |Signing(feePayer, instructions)| < 128) && Agree(tables, chain)
    ensures DecodeMessage(c.bytes, chain).Some?
    ensures var d := DecodeMessage(c.bytes, chain).value;
      && d.feePayer == feePayer && d.blockhash == blockhash && AllAsAsked(feePayer, instructions, d.instructions)
  {
    CompiledParts(version, feePayer, instructions, blockhash, tables, c);
    CompiledHeader(version, feePayer, instructions, blockhash, tables, c,
      StaticPart(Metas(feePayer, instructions), tables));
    CountsAre(feePayer, instructions, tables);
    ParseSerialize(MessageOf(version, feePayer, instructions, blockhash, tables));
    MessageDenotes(version, feePayer, instructions, blockhash, tables, chain);
    AllMeaningAsAsked(feePayer, instructions);
  }
}
