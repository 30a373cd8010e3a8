/** What compiled messages mean: decoding recovers the input, and compiling fails only beyond the size limits. */
module CompilerCorrect {
  import opened Wrappers
  import opened Bytes
  import opened Message
  import opened AccountMetas
  import opened KeyTable
  import opened HeaderOrder
  import opened Denotation
  import opened Compiler

  //// The meaning of the input, from its uses alone

  /** An account as every instruction sees it: its privileges are the OR over all uses of its key. */
  ghost function MergedAccount(us: seq<Use>, key: Key): AccountMeta {
    AccountMeta(key, Signs(us, key), Writes(us, key))
  }

  ghost function MeaningOf(us: seq<Use>, i: Instruction): Instruction {
    Instruction(i.program,
      seq(|i.accounts|, j requires 0 <= j < |i.accounts| => MergedAccount(us, i.accounts[j].key)),
      i.data)
  }

  ghost function Meaning(us: seq<Use>, instructions: seq<Instruction>): (r: seq<Instruction>)
    ensures |r| == |instructions|
    ensures forall i :: 0 <= i < |instructions| ==> r[i] == MeaningOf(us, instructions[i])
  {
    seq(|instructions|, i requires 0 <= i < |instructions| => MeaningOf(us, instructions[i]))
  }

  /** Each table the caller passes is a prefix of the table on chain: tables only ever grow. */
  ghost predicate Agree(tables: seq<LookupTable>, chain: Chain) {
    forall t :: 0 <= t < |tables| ==>
      tables[t].address in chain && tables[t].addresses <= chain[tables[t].address]
  }

  //// Every table index points at the key it replaces

  lemma {:induction false} LoadPick(ms: seq<Meta>, tables: seq<LookupTable>, t: nat, writable: bool, chain: Chain)
    requires SmallTables(tables) && Agree(tables, chain) && t < |tables|
    ensures var p := Pick(ms, tables, Loaded(t, writable));
            LoadIndexes(chain[tables[t].address], IndexesOf(p, tables)) == Some(Keys(p))
  {
    var p, addresses := Pick(ms, tables, Loaded(t, writable)), chain[tables[t].address];
    forall i | 0 <= i < |p|
      ensures IndexesOf(p, tables)[i] < |addresses| && addresses[IndexesOf(p, tables)[i]] == p[i].key
    {
      PickIn(ms, tables, Loaded(t, writable), p[i]);
    }
    var r := LoadIndexes(addresses, IndexesOf(p, tables));
    assert r.value == Keys(p);
  }

  lemma {:induction false} LoadKeysAppend(
      ls: seq<TableLookup>, l: TableLookup, chain: Chain, writable: bool, a: seq<Key>, b: seq<Key>)
    requires LoadKeys(ls, chain, writable) == Some(a) && LoadOne(l, chain, writable) == Some(b)
    ensures LoadKeys(ls + [l], chain, writable) == Some(a + b)
  {
    assert (ls + [l])[..|ls|] == ls;
  }

  /** A table no key is taken from is skipped; any other adds its keys. */
  lemma {:induction false} LoadNext(
      ls: seq<TableLookup>, l: TableLookup, chain: Chain, writable: bool, s: seq<Meta>, p: seq<Meta>)
    requires LoadKeys(ls, chain, writable) == Some(Keys(s)) && LoadOne(l, chain, writable) == Some(Keys(p))
    requires l.writable == [] && l.readonly == [] ==> p == []
    ensures LoadKeys(ls + if l.writable == [] && l.readonly == [] then [] else [l], chain, writable)
         == Some(Keys(s + p))
  {
    KeysConcat(s, p);
    if l.writable == [] && l.readonly == [] {
      assert s + p == s && ls + [] == ls;
    } else {
      LoadKeysAppend(ls, l, chain, writable, Keys(s), Keys(p));
    }
  }

  lemma {:induction false} LookupsNext(ms: seq<Meta>, tables: seq<LookupTable>, n: nat)
    requires SmallTables(tables) && n < |tables|
    ensures var l := LookupOf(ms, tables, n);
      LookupsUpTo(ms, tables, n + 1)
        == LookupsUpTo(ms, tables, n) + if l.writable == [] && l.readonly == [] then [] else [l]
  {
  }

  lemma {:induction false} LoadedNext(ms: seq<Meta>, tables: seq<LookupTable>, writable: bool, n: nat)
    ensures LoadedUpTo(ms, tables, writable, n + 1)
      == LoadedUpTo(ms, tables, writable, n) + Pick(ms, tables, Loaded(n, writable))
  {
  }

  /** What one more lookup loads is what one more table gives. */
  lemma {:induction false} LoadTableNext(
      ms: seq<Meta>, tables: seq<LookupTable>, n: nat, writable: bool, chain: Chain, ls: seq<TableLookup>, s: seq<Meta>)
    requires SmallTables(tables) && Agree(tables, chain) && n < |tables|
    requires LoadKeys(ls, chain, writable) == Some(Keys(s))
    ensures var l := LookupOf(ms, tables, n);
      LoadKeys(ls + if l.writable == [] && l.readonly == [] then [] else [l], chain, writable)
        == Some(Keys(s + Pick(ms, tables, Loaded(n, writable))))
  {
    LoadPick(ms, tables, n, writable, chain);
    LoadNext(ls, LookupOf(ms, tables, n), chain, writable, s, Pick(ms, tables, Loaded(n, writable)));
  }

  lemma {:induction false} LoadLookupsInto(
      ms: seq<Meta>, tables: seq<LookupTable>, n: nat, writable: bool, chain: Chain,
      ls: seq<TableLookup>, loaded: seq<Meta>)
    requires SmallTables(tables) && Agree(tables, chain) && n <= |tables|
    requires ls == LookupsUpTo(ms, tables, n) && loaded == LoadedUpTo(ms, tables, writable, n)
    ensures LoadKeys(ls, chain, writable) == Some(Keys(loaded))
  {
    if n > 0 {
      var before, keys := LookupsUpTo(ms, tables, n - 1), LoadedUpTo(ms, tables, writable, n - 1);
      LoadLookupsInto(ms, tables, n - 1, writable, chain, before, keys);
      LoadTableNext(ms, tables, n - 1, writable, chain, before, keys);
      LookupsNext(ms, tables, n - 1);
      LoadedNext(ms, tables, writable, n - 1);
    }
  }

  lemma {:induction false} LoadLookups(ms: seq<Meta>, tables: seq<LookupTable>, n: nat, writable: bool, chain: Chain)
    requires SmallTables(tables) && Agree(tables, chain) && n <= |tables|
    ensures LoadKeys(LookupsUpTo(ms, tables, n), chain, writable)
         == Some(Keys(LoadedUpTo(ms, tables, writable, n)))
  {
    LoadLookupsInto(ms, tables, n, writable, chain,
      LookupsUpTo(ms, tables, n), LoadedUpTo(ms, tables, writable, n));
  }

  //// The account table of a compiled message

  function Account(m: Meta): AccountMeta {
    AccountMeta(m.key, m.isSigner, m.isWritable)
  }

  function Accounts(ms: seq<Meta>): (r: seq<AccountMeta>)
    ensures |r| == |ms| && forall i :: 0 <= i < |ms| ==> r[i] == Account(ms[i])
  {
    seq(|ms|, i requires 0 <= i < |ms| => Account(ms[i]))
  }

  lemma {:induction false} StaticAccountsAre(ms: seq<Meta>, tables: seq<LookupTable>)
    requires HeaderFits(StaticPart(ms, tables))
    ensures var s := StaticPart(ms, tables); StaticAccounts(HeaderOf(s), Keys(s)) == Accounts(s)
  {
    var s := StaticPart(ms, tables);
    forall i | 0 <= i < |s|
      ensures StaticAccounts(HeaderOf(s), Keys(s))[i] == Account(s[i])
    {
      StaticPrivileges(ms, tables, i);
    }
  }

  lemma {:induction false} LoadedAccountsAre(ms: seq<Meta>, tables: seq<LookupTable>, writable: bool)
    ensures var l := LoadedPart(ms, tables, writable); LoadedAccounts(Keys(l), writable) == Accounts(l)
  {
    var l := LoadedPart(ms, tables, writable);
    forall i | 0 <= i < |l|
      ensures LoadedAccounts(Keys(l), writable)[i] == Account(l[i])
    {
      LoadedPrivileges(ms, tables, writable, i);
    }
  }

  lemma {:induction false} AccountsConcat(s: seq<Meta>, t: seq<Meta>)
    ensures Accounts(s + t) == Accounts(s) + Accounts(t)
  {
  }

  ghost predicate Compilable(feePayer: Key, instructions: seq<Instruction>, tables: seq<LookupTable>) {
    var ms := Metas(feePayer, instructions);
    SmallTables(tables) && |Entries(ms, tables)| <= 256 && HeaderFits(StaticPart(ms, tables))
  }

  lemma {:induction false} TableIsEntries(
      version: Version, feePayer: Key, instructions: seq<Instruction>, blockhash: Key,
      tables: seq<LookupTable>, chain: Chain)
    requires Compilable(feePayer, instructions, tables) && Agree(tables, chain)
    ensures AccountTable(MessageOf(version, feePayer, instructions, blockhash, tables), chain)
         == Some(Accounts(Entries(Metas(feePayer, instructions), tables)))
  {
    var ms := Metas(feePayer, instructions);
    LoadLookups(ms, tables, |tables|, true, chain);
    LoadLookups(ms, tables, |tables|, false, chain);
    StaticAccountsAre(ms, tables);
    LoadedAccountsAre(ms, tables, true);
    LoadedAccountsAre(ms, tables, false);
    AccountsConcat(StaticPart(ms, tables), LoadedPart(ms, tables, true));
    AccountsConcat(StaticPart(ms, tables) + LoadedPart(ms, tables, true), LoadedPart(ms, tables, false));
  }

  //// Aggregated entries carry the merged privileges

  lemma {:induction false} EntryOfUse(feePayer: Key, instructions: seq<Instruction>, tables: seq<LookupTable>, i: nat)
    requires i < |Entries(Metas(feePayer, instructions), tables)|
    ensures var us := Uses(feePayer, instructions);
            var m := Entries(Metas(feePayer, instructions), tables)[i];
            m in Metas(feePayer, instructions) && Summarises(m, us) && Account(m) == MergedAccount(us, m.key)
  {
    var us := Uses(feePayer, instructions);
    var ms := Metas(feePayer, instructions);
    var m := Entries(ms, tables)[i];
    AggregateCorrect(us);
    EntriesIn(ms, tables, m);
    var k :| 0 <= k < |ms| && ms[k] == m;
    assert Summarises(ms[k], us);
  }

  lemma {:induction false} EntriesDistinctKeys(feePayer: Key, instructions: seq<Instruction>, tables: seq<LookupTable>)
    ensures var ms := Metas(feePayer, instructions);
            DistinctKeys(ms) && DistinctKeys(Entries(ms, tables)) && |Entries(ms, tables)| == |ms|
  {
    var us := Uses(feePayer, instructions);
    AggregateCorrect(us);
    AggregatesDistinct(Aggregate(us), us);
    EntriesWellFormed(Aggregate(us), tables);
  }

  lemma {:induction false} PrefixPosition(es: seq<Meta>, n: nat, key: Key, k: nat)
    requires n <= |es| && DistinctKeys(es) && k < n && es[k].key == key
    ensures Find(Keys(es), key) == k
  {
    FindUnique(Keys(es), key, k);
  }

  /** Every program is a static key. */
  lemma {:induction false} ProgramStatic(
      feePayer: Key, instructions: seq<Instruction>, tables: seq<LookupTable>, i: nat)
    requires i < |instructions|
    ensures var ms := Metas(feePayer, instructions);
            Find(Keys(Entries(ms, tables)), instructions[i].program) < |StaticPart(ms, tables)|
  {
    var ms := Metas(feePayer, instructions);
    var s := StaticPart(ms, tables);
    var m := ProgramEntry(feePayer, instructions, i);
    StaticIn(ms, tables, m);
    var k :| 0 <= k < |s| && s[k] == m;
    EntriesDistinctKeys(feePayer, instructions, tables);
    assert Entries(ms, tables)[k] == m;
    PrefixPosition(Entries(ms, tables), |s|, m.key, k);
  }

  lemma {:induction false} ProgramEntry(feePayer: Key, instructions: seq<Instruction>, i: nat) returns (m: Meta)
    requires i < |instructions|
    ensures m in Metas(feePayer, instructions) && m.key == instructions[i].program && m.isProgram
  {
    var us, ms := Uses(feePayer, instructions), Metas(feePayer, instructions);
    var u := Use(instructions[i].program, false, false, true);
    var ius := InstructionUses(instructions[i]);
    assert ius[|ius| - 1] == u;
    UseIn(feePayer, instructions, i, u);
    AggregateCorrect(us);
    m := ms[Position(ms, u.key)];
    assert Summarises(m, us) && Invoked(us, m.key);
  }

  lemma {:induction false} FeePayerEntry(feePayer: Key, instructions: seq<Instruction>)
    ensures var ms := Metas(feePayer, instructions);
            exists m :: m in ms && m.key == feePayer && m.firstSeen == 0 && m.isSigner && m.isWritable
  {
    var us, ms := Uses(feePayer, instructions), Metas(feePayer, instructions);
    var u := us[0];
    AggregateCorrect(us);
    var m := ms[Position(ms, u.key)];
    assert u in us && Summarises(m, us);
    assert Signs(us, m.key) && Writes(us, m.key);
    assert m in ms;
  }

  /** The fee payer is key zero, and it signs and is writable. */
  lemma {:induction false} FeePayerFirst(feePayer: Key, instructions: seq<Instruction>, tables: seq<LookupTable>)
    ensures var s := StaticPart(Metas(feePayer, instructions), tables);
            s != [] && s[0].key == feePayer && s[0].isSigner && s[0].isWritable
  {
    var us, ms := Uses(feePayer, instructions), Metas(feePayer, instructions);
    var s := StaticPart(ms, tables);
    AggregateCorrect(us);
    FeePayerEntry(feePayer, instructions);
    var m :| m in ms && m.key == feePayer && m.firstSeen == 0 && m.isSigner && m.isWritable;
    StaticIn(ms, tables, m);
    var k :| 0 <= k < |s| && s[k] == m;
    StaticSorted(ms, tables);
    assert k == 0 || Before(s[0], s[k]);
  }

  //// Compilation preserves meaning

  lemma {:induction false} SaneCounts(ms: seq<Meta>, tables: seq<LookupTable>)
    requires HeaderFits(StaticPart(ms, tables))
    requires var s := StaticPart(ms, tables); s != [] && s[0].isSigner && s[0].isWritable
    ensures SaneHeader(HeaderOf(StaticPart(ms, tables)), |StaticPart(ms, tables)|)
  {
    HeaderCounts(ms, tables);
    StaticPrivileges(ms, tables, 0);
  }

  /** The header counts fit the static keys and leave a writable signer, the fee payer, in front. */
  lemma {:induction false} HeaderIsSane(feePayer: Key, instructions: seq<Instruction>, tables: seq<LookupTable>)
    requires HeaderFits(StaticPart(Metas(feePayer, instructions), tables))
    ensures var s := StaticPart(Metas(feePayer, instructions), tables); SaneHeader(HeaderOf(s), |s|)
  {
    FeePayerFirst(feePayer, instructions, tables);
    SaneCounts(Metas(feePayer, instructions), tables);
  }

  lemma {:induction false} AccountAt(feePayer: Key, instructions: seq<Instruction>, tables: seq<LookupTable>, key: Key)
    requires key in Keys(Entries(Metas(feePayer, instructions), tables))
    ensures var es := Entries(Metas(feePayer, instructions), tables);
            var k := Find(Keys(es), key);
            k < |es| && Accounts(es)[k] == MergedAccount(Uses(feePayer, instructions), key)
  {
    var es := Entries(Metas(feePayer, instructions), tables);
    var k := Find(Keys(es), key);
    EntryOfUse(feePayer, instructions, tables, k);
  }

  lemma {:induction false} ResolveInstruction(
      feePayer: Key, instructions: seq<Instruction>, tables: seq<LookupTable>, i: nat)
    requires i < |instructions| && Compilable(feePayer, instructions, tables)
    requires Covered(instructions[i], Keys(Entries(Metas(feePayer, instructions), tables)))
    ensures var ms := Metas(feePayer, instructions);
            var es, n := Entries(ms, tables), |StaticPart(ms, tables)|;
            var ci := CompileInstruction(instructions[i], Keys(es));
            SaneInstruction(ci, n, |es|)
            && Resolve(ci, Accounts(es), n) == MeaningOf(Uses(feePayer, instructions), instructions[i])
  {
    var ms := Metas(feePayer, instructions);
    var es, n, keys := Entries(ms, tables), |StaticPart(ms, tables)|, Keys(Entries(ms, tables));
    var ci := CompileInstruction(instructions[i], keys);
    var accounts := instructions[i].accounts;
    ProgramStatic(feePayer, instructions, tables, i);
    forall j | 0 <= j < |accounts|
      ensures ci.accounts[j] < |es|
      ensures Accounts(es)[ci.accounts[j]] == MergedAccount(Uses(feePayer, instructions), accounts[j].key)
    {
      assert accounts[j] in accounts;
      AccountAt(feePayer, instructions, tables, accounts[j].key);
    }
    assert Resolve(ci, Accounts(es), n).accounts == MeaningOf(Uses(feePayer, instructions), instructions[i]).accounts;
  }

  ghost function Intended(feePayer: Key, instructions: seq<Instruction>, blockhash: Key, tables: seq<LookupTable>)
    : Denotation
  {
    Denotation(feePayer, blockhash, Accounts(Entries(Metas(feePayer, instructions), tables)),
      Meaning(Uses(feePayer, instructions), instructions))
  }

  /** The steps of Denote, from a known account table and the meaning of each instruction. */
  lemma {:induction false} DenotesTable(m: Message, chain: Chain, table: seq<AccountMeta>, meaning: seq<Instruction>)
    requires SaneHeader(m.header, |m.keys|) && |m.keys| <= |table|
    requires AccountTable(m, chain) == Some(table)
    requires |meaning| == |m.instructions|
    requires forall i :: 0 <= i < |m.instructions| ==>
               SaneInstruction(m.instructions[i], |m.keys|, |table|)
               && Resolve(m.instructions[i], table, |m.keys|) == meaning[i]
    ensures Denote(m, chain) == Some(Denotation(m.keys[0], m.blockhash, table, meaning))
  {
    assert Denote(m, chain).value.instructions == meaning;
  }

  lemma {:induction false} MessageDenotes(
      version: Version, feePayer: Key, instructions: seq<Instruction>, blockhash: Key,
      tables: seq<LookupTable>, chain: Chain)
    requires Compilable(feePayer, instructions, tables) && Agree(tables, chain)
    ensures Denote(MessageOf(version, feePayer, instructions, blockhash, tables), chain)
         == Some(Intended(feePayer, instructions, blockhash, tables))
  {
    var ms := Metas(feePayer, instructions);
    var es, n := Entries(ms, tables), |StaticPart(ms, tables)|;
    var m := MessageOf(version, feePayer, instructions, blockhash, tables);
    var meaning := Meaning(Uses(feePayer, instructions), instructions);
    TableIsEntries(version, feePayer, instructions, blockhash, tables, chain);
    FeePayerFirst(feePayer, instructions, tables);
    SaneCounts(ms, tables);
    AllCovered(feePayer, instructions, tables);
    forall i | 0 <= i < |instructions|
      ensures SaneInstruction(m.instructions[i], n, |es|)
      ensures Resolve(m.instructions[i], Accounts(es), n) == meaning[i]
    {
      assert instructions[i] in instructions;
      ResolveInstruction(feePayer, instructions, tables, i);
    }
    DenotesTable(m, chain, Accounts(es), meaning);
  }

  /**
   The accounts a message denotes, decided by the uses alone: each key once, with the OR of its
   privileges over all uses, and no other.
   */
  lemma {:induction false} AccountsAreMerged(
      feePayer: Key, instructions: seq<Instruction>, blockhash: Key, tables: seq<LookupTable>)
    ensures var us := Uses(feePayer, instructions);
      var accounts := Intended(feePayer, instructions, blockhash, tables).accounts;
      && (forall i :: 0 <= i < |accounts| ==> accounts[i] == MergedAccount(us, accounts[i].key))
      && (forall i, j :: 0 <= i < j < |accounts| ==> accounts[i].key != accounts[j].key)
      && (forall key :: key in KeysOf(us) <==> MergedAccount(us, key) in accounts)
  {
    var us, es := Uses(feePayer, instructions), Entries(Metas(feePayer, instructions), tables);
    forall i | 0 <= i < |es|
      ensures Accounts(es)[i] == MergedAccount(us, es[i].key)
    {
      EntryOfUse(feePayer, instructions, tables, i);
    }
    EntriesDistinctKeys(feePayer, instructions, tables);
    TableKeys(feePayer, instructions, tables);
    forall key
      ensures key in KeysOf(us) <==> MergedAccount(us, key) in Accounts(es)
    {
      KeyInAccounts(us, es, key);
    }
  }

  lemma {:induction false} KeyInAccounts(us: seq<Use>, es: seq<Meta>, key: Key)
    requires forall i :: 0 <= i < |es| ==> Accounts(es)[i] == MergedAccount(us, es[i].key)
    ensures key in Keys(es) <==> MergedAccount(us, key) in Accounts(es)
  {
    if key in Keys(es) {
      var i :| 0 <= i < |es| && Keys(es)[i] == key;
      assert Accounts(es)[i] == MergedAccount(us, key);
    }
    if MergedAccount(us, key) in Accounts(es) {
      var i :| 0 <= i < |es| && Accounts(es)[i] == MergedAccount(us, key);
      assert Keys(es)[i] == key;
    }
  }

  /** Whenever the version-zero compiler returns, its bytes decode to exactly what was asked for. */
  lemma {:induction false} VersionZeroPreservesMeaning(
      feePayer: Key, instructions: seq<Instruction>, blockhash: Key, tables: seq<LookupTable>, chain: Chain)
    requires CompileVersionZero(feePayer, instructions, blockhash, tables).Ok? && Agree(tables, chain)
    ensures DecodeMessage(CompileVersionZero(feePayer, instructions, blockhash, tables).value.bytes, chain)
         == Some(Intended(feePayer, instructions, blockhash, tables))
  {
    ParseSerialize(MessageOf(VersionZero, feePayer, instructions, blockhash, tables));
    MessageDenotes(VersionZero, feePayer, instructions, blockhash, tables, chain);
  }

  /** The distinct keys that must sign: the fee payer and every key some instruction marks as signer. */
  function SignerKeys(us: seq<Use>): set<Key> {
    set u | u in us && u.isSigner :: u.key
  }

  function MatchingKeys(ms: seq<Meta>, c: HeaderCount): set<Key> {
    if ms == [] then {}
    else
      var last := ms[|ms| - 1];
      MatchingKeys(ms[..|ms| - 1], c) + if Matches(last, c) then {last.key} else {}
  }

  lemma {:induction false} MatchingIn(ms: seq<Meta>, c: HeaderCount, key: Key)
    ensures key in MatchingKeys(ms, c) <==> exists m :: m in ms && Matches(m, c) && m.key == key
  {
    if ms != [] {
      var init, last := ms[..|ms| - 1], ms[|ms| - 1];
      MatchingIn(init, c, key);
      assert ms == init + [last];
      assert forall m :: m in ms <==> m in init || m == last;
    }
  }

  lemma {:induction false} CountKeys(ms: seq<Meta>, c: HeaderCount)
    requires DistinctKeys(ms)
    ensures Count(ms, c) == |MatchingKeys(ms, c)|
  {
    if ms != [] {
      var init, last := ms[..|ms| - 1], ms[|ms| - 1];
      CountKeys(init, c);
      MatchingIn(init, c, last.key);
    }
  }

  /** The signature count of the header is the number of distinct signer keys. */
  lemma {:induction false} SignatureCount(feePayer: Key, instructions: seq<Instruction>, tables: seq<LookupTable>)
    ensures Count(StaticPart(Metas(feePayer, instructions), tables), Signatures)
         == |SignerKeys(Uses(feePayer, instructions))|
  {
    var us, ms := Uses(feePayer, instructions), Metas(feePayer, instructions);
    var s := StaticPart(ms, tables);
    EntriesDistinctKeys(feePayer, instructions, tables);
    StaticDistinct(ms, tables);
    CountKeys(s, Signatures);
    AggregateCorrect(us);
    SameSigners(ms, us, tables, SignerKeys(us), MatchingKeys(s, Signatures));
  }

  lemma {:induction false} SameSigners(
      ms: seq<Meta>, us: seq<Use>, tables: seq<LookupTable>, signers: set<Key>, matching: set<Key>)
    requires Aggregates(ms, us)
    requires signers == SignerKeys(us) && matching == MatchingKeys(StaticPart(ms, tables), Signatures)
    ensures signers == matching
  {
    forall key
      ensures key in signers <==> key in matching
    {
      SignerEntry(ms, us, tables, key);
      MatchingIn(StaticPart(ms, tables), Signatures, key);
    }
  }

  lemma {:induction false} SignerEntry(ms: seq<Meta>, us: seq<Use>, tables: seq<LookupTable>, key: Key)
    requires Aggregates(ms, us)
    ensures key in SignerKeys(us) <==> exists m :: m in StaticPart(ms, tables) && Matches(m, Signatures) && m.key == key
  {
    if key in SignerKeys(us) {
      var u :| u in us && u.isSigner && u.key == key;
      var m := ms[Position(ms, u.key)];
      assert Summarises(m, us) && Signs(us, m.key);
      StaticIn(ms, tables, m);
    }
    forall m | m in StaticPart(ms, tables) && m.isSigner
      ensures m.key in SignerKeys(us)
    {
      StaticIn(ms, tables, m);
      var k :| 0 <= k < |ms| && ms[k] == m;
      assert Summarises(ms[k], us) && Signs(us, m.key);
    }
  }

  //// The unversioned form

  /** Taken for a version prefix, the signature count makes the next count the number of signers. */
  lemma {:induction false} MisreadHeader(m: Message)
    requires m.version.Unversioned? && m.header.signatures >= 128 && Parse(Serialize(m)).Some?
    ensures Parse(Serialize(m)).value.version == VersionZero
    ensures Parse(Serialize(m)).value.header.signatures == m.header.readonlySigned
  {
    var bs := Serialize(m);
    assert bs[0] == m.header.signatures && bs[1..][0] == m.header.readonlySigned;
    HeaderFromBody(VersionZero, bs[1..]);
  }

  lemma {:induction false} HeaderFromBody(version: Version, bs: seq<byte>)
    requires ParseBody(version, bs).Some?
    ensures |bs| >= 3 && ParseBody(version, bs).value.version == version
    ensures ParseBody(version, bs).value.header == Header(bs[0], bs[1], bs[2])
  {
  }

  lemma {:induction false} DecodedSigners(m: Message, chain: Chain, i: nat)
    requires Denote(m, chain).Some? && i < |Denote(m, chain).value.accounts|
    ensures Denote(m, chain).value.accounts[i].isSigner ==> i < m.header.signatures
  {
  }

  /** More keys sign than are readonly signers, so the key at that position must sign. */
  lemma {:induction false} SignerBehindReadonly(feePayer: Key, instructions: seq<Instruction>, blockhash: Key)
    requires Compilable(feePayer, instructions, [])
    ensures var k := Count(StaticPart(Metas(feePayer, instructions), []), ReadonlySigned);
      var accounts := Intended(feePayer, instructions, blockhash, []).accounts;
      k < |accounts| && accounts[k].isSigner
  {
    var ms := Metas(feePayer, instructions);
    var s := StaticPart(ms, []);
    FeePayerFirst(feePayer, instructions, []);
    SaneCounts(ms, []);
    StaticPrivileges(ms, [], Count(s, ReadonlySigned));
    assert Entries(ms, [])[Count(s, ReadonlySigned)] == s[Count(s, ReadonlySigned)];
  }

  /** With 128 signers and more, whatever is read is not what was asked for. */
  lemma {:induction false} CrowdedNeverDecodes(
      feePayer: Key, instructions: seq<Instruction>, blockhash: Key, chain: Chain)
    requires Compilable(feePayer, instructions, [])
    requires MessageOf(Unversioned, feePayer, instructions, blockhash, []).header.signatures >= 128
    ensures DecodeMessage(Serialize(MessageOf(Unversioned, feePayer, instructions, blockhash, [])), chain)
         != Some(Intended(feePayer, instructions, blockhash, []))
  {
    var m := MessageOf(Unversioned, feePayer, instructions, blockhash, []);
    var read := Parse(Serialize(m));
    if read.Some? && Denote(read.value, chain).Some? {
      var k := Count(StaticPart(Metas(feePayer, instructions), []), ReadonlySigned);
      MisreadHeader(m);
      SignerBehindReadonly(feePayer, instructions, blockhash);
      if k < |Denote(read.value, chain).value.accounts| {
        DecodedSigners(read.value, chain, k);
      }
    }
  }

  /**
   Whenever the unversioned compiler returns, its bytes decode to exactly what was asked for if and
   only if fewer than 128 keys sign; from 128 on the signature count reads as a version prefix.
   */
  lemma {:induction false} UnversionedPreservesMeaning(
      feePayer: Key, instructions: seq<Instruction>, blockhash: Key, chain: Chain)
    requires CompileUnversioned(feePayer, instructions, blockhash).Ok?
    ensures DecodeMessage(CompileUnversioned(feePayer, instructions, blockhash).value.bytes, chain)
         == Some(Intended(feePayer, instructions, blockhash, []))
      <==> |SignerKeys(Uses(feePayer, instructions))| < 128
  {
    var m := MessageOf(Unversioned, feePayer, instructions, blockhash, []);
    SignatureCount(feePayer, instructions, []);
    if m.header.signatures < 128 {
      ParseSerialize(m);
      MessageDenotes(Unversioned, feePayer, instructions, blockhash, [], chain);
    } else {
      CrowdedNeverDecodes(feePayer, instructions, blockhash, chain);
    }
  }

  //// When compilation succeeds

  lemma {:induction false} KeyCount(feePayer: Key, instructions: seq<Instruction>)
    ensures |Metas(feePayer, instructions)| == |KeysOf(Uses(feePayer, instructions))|
  {
    var us, ms := Uses(feePayer, instructions), Metas(feePayer, instructions);
    EntriesDistinctKeys(feePayer, instructions, []);
    DistinctCount(ms);
    AggregateCorrect(us);
    forall key
      ensures key in KeysOf(us) <==> exists m :: m in ms && m.key == key
    {
      KeyEntry(ms, us, key);
    }
    assert (set m | m in ms :: m.key) == KeysOf(us);
  }

  lemma {:induction false} KeyEntry(ms: seq<Meta>, us: seq<Use>, key: Key)
    requires Aggregates(ms, us)
    ensures key in KeysOf(us) <==> exists m :: m in ms && m.key == key
  {
    if key in KeysOf(us) {
      var u :| u in us && u.key == key;
      assert ms[Position(ms, u.key)] in ms;
    }
    forall m | m in ms
      ensures m.key in KeysOf(us)
    {
      var k :| 0 <= k < |ms| && ms[k] == m;
      assert Summarises(ms[k], us) && us[m.firstSeen] in us;
    }
  }

  /** At most 256 distinct keys and 255 distinct signers: nothing else can stop the compiler. */
  ghost predicate WithinLimits(feePayer: Key, instructions: seq<Instruction>) {
    |KeysOf(Uses(feePayer, instructions))| <= 256 && |SignerKeys(Uses(feePayer, instructions))| <= 255
  }

  lemma {:induction false} CompileWithSucceeds(
      version: Version, feePayer: Key, instructions: seq<Instruction>, blockhash: Key, tables: seq<LookupTable>)
    requires SmallTables(tables)
    ensures CompileWith(version, feePayer, instructions, blockhash, tables).Ok?
      <==> WithinLimits(feePayer, instructions)
  {
    var ms := Metas(feePayer, instructions);
    KeyCount(feePayer, instructions);
    SignatureCount(feePayer, instructions, tables);
    EntriesDistinctKeys(feePayer, instructions, tables);
    FeePayerFirst(feePayer, instructions, tables);
    HeaderCounts(ms, tables);
    StaticPrivileges(ms, tables, 0);
  }

  /** Exactly the inputs each form compiles. */
  lemma {:induction false} CompilesExactlyWithinLimits(
      feePayer: Key, instructions: seq<Instruction>, blockhash: Key, tables: seq<LookupTable>)
    ensures CompileUnversioned(feePayer, instructions, blockhash).Ok? <==> WithinLimits(feePayer, instructions)
    ensures CompileVersionZero(feePayer, instructions, blockhash, tables).Ok?
      <==> tables != [] && SmallTables(tables) && WithinLimits(feePayer, instructions)
  {
    CompileWithSucceeds(Unversioned, feePayer, instructions, blockhash, []);
    if tables != [] && SmallTables(tables) {
      CompileWithSucceeds(VersionZero, feePayer, instructions, blockhash, tables);
    }
  }

  //// Lookup tables are transparent

  /**
   With usable tables the version-zero form compiles exactly when the unversioned one does; both
   decode to the same instructions, and to the same accounts up to order. A key leaves the static
   list exactly when it neither signs nor is invoked and some table lists it.
   */
  lemma {:induction false} LookupTablesAreTransparent(
      feePayer: Key, instructions: seq<Instruction>, blockhash: Key, tables: seq<LookupTable>, chain: Chain)
    requires tables != [] && SmallTables(tables) && Agree(tables, chain)
    ensures CompileUnversioned(feePayer, instructions, blockhash).Ok?
      <==> CompileVersionZero(feePayer, instructions, blockhash, tables).Ok?
    ensures (CompileUnversioned(feePayer, instructions, blockhash).Ok?
      && |SignerKeys(Uses(feePayer, instructions))| < 128) ==>
      var plain := DecodeMessage(CompileUnversioned(feePayer, instructions, blockhash).value.bytes, chain);
      var zero := DecodeMessage(CompileVersionZero(feePayer, instructions, blockhash, tables).value.bytes, chain);
      && plain.Some? && zero.Some?
      && plain.value.feePayer == zero.value.feePayer && plain.value.blockhash == zero.value.blockhash
      && plain.value.instructions == zero.value.instructions
      && forall a :: a in plain.value.accounts <==> a in zero.value.accounts
  {
    CompilesExactlyWithinLimits(feePayer, instructions, blockhash, tables);
    if CompileUnversioned(feePayer, instructions, blockhash).Ok? && |SignerKeys(Uses(feePayer, instructions))| < 128 {
      UnversionedPreservesMeaning(feePayer, instructions, blockhash, chain);
      VersionZeroPreservesMeaning(feePayer, instructions, blockhash, tables, chain);
      SameAccounts(Metas(feePayer, instructions), [], tables);
    }
  }

  lemma {:induction false} SameAccounts(ms: seq<Meta>, tables: seq<LookupTable>, others: seq<LookupTable>)
    ensures forall a :: a in Accounts(Entries(ms, tables)) <==> a in Accounts(Entries(ms, others))
  {
    forall a
      ensures a in Accounts(Entries(ms, tables)) <==> exists m :: m in ms && Account(m) == a
      ensures a in Accounts(Entries(ms, others)) <==> exists m :: m in ms && Account(m) == a
    {
      AccountIn(ms, tables, a);
      AccountIn(ms, others, a);
    }
  }

  lemma {:induction false} AccountIn(ms: seq<Meta>, tables: seq<LookupTable>, a: AccountMeta)
    ensures a in Accounts(Entries(ms, tables)) <==> exists m :: m in ms && Account(m) == a
  {
    var es := Entries(ms, tables);
    if a in Accounts(es) {
      var i :| 0 <= i < |es| && Accounts(es)[i] == a;
      EntriesIn(ms, tables, es[i]);
    }
    if m :| m in ms && Account(m) == a {
      EntriesIn(ms, tables, m);
      var i :| 0 <= i < |es| && es[i] == m;
      assert Accounts(es)[i] == a;
    }
  }

  lemma {:induction false} StaticSlot(m: Meta, tables: seq<LookupTable>)
    ensures SlotOf(m, tables).Static?
      <==> m.isSigner || m.isProgram || forall t :: 0 <= t < |tables| ==> m.key !in tables[t].addresses
  {
  }

  lemma {:induction false} EntryFor(feePayer: Key, instructions: seq<Instruction>, key: Key) returns (m: Meta)
    requires key in KeysOf(Uses(feePayer, instructions))
    ensures m in Metas(feePayer, instructions) && m.key == key && Summarises(m, Uses(feePayer, instructions))
  {
    var us, ms := Uses(feePayer, instructions), Metas(feePayer, instructions);
    AggregateCorrect(us);
    KeyEntry(ms, us, key);
    m :| m in ms && m.key == key;
    var k :| 0 <= k < |ms| && ms[k] == m;
    assert Summarises(ms[k], us);
  }

  /** Which keys leave the static list. */
  lemma {:induction false} LoadedExactly(
      feePayer: Key, instructions: seq<Instruction>, tables: seq<LookupTable>, key: Key)
    requires key in KeysOf(Uses(feePayer, instructions))
    ensures var us, ms := Uses(feePayer, instructions), Metas(feePayer, instructions);
      key !in Keys(StaticPart(ms, tables))
      <==> !Signs(us, key) && !Invoked(us, key) && exists t :: 0 <= t < |tables| && key in tables[t].addresses
  {
    var us, ms := Uses(feePayer, instructions), Metas(feePayer, instructions);
    AggregateCorrect(us);
    var m := EntryFor(feePayer, instructions, key);
    StaticSlot(m, tables);
    StaticIn(ms, tables, m);
    KeyInStatic(ms, us, tables, m);
  }

  lemma {:induction false} KeyInStatic(ms: seq<Meta>, us: seq<Use>, tables: seq<LookupTable>, m: Meta)
    requires Aggregates(ms, us) && m in ms
    ensures m.key in Keys(StaticPart(ms, tables)) <==> m in StaticPart(ms, tables)
  {
    var s := StaticPart(ms, tables);
    AggregatesDistinct(ms, us);
    if m.key in Keys(s) {
      var k :| 0 <= k < |s| && Keys(s)[k] == m.key;
      StaticIn(ms, tables, s[k]);
      SameKeySameEntry(ms, s[k], m);
    }
    if m in s {
      var k :| 0 <= k < |s| && s[k] == m;
      assert Keys(s)[k] == m.key;
    }
  }

  //// The key table of every compiled message

  lemma {:induction false} TableKeys(feePayer: Key, instructions: seq<Instruction>, tables: seq<LookupTable>)
    ensures var us, keys := Uses(feePayer, instructions), Keys(Entries(Metas(feePayer, instructions), tables));
      && (forall i, j :: 0 <= i < j < |keys| ==> keys[i] != keys[j])
      && (forall key :: key in keys <==> key in KeysOf(us))
      && |keys| > 0 && keys[0] == feePayer
  {
    var us, ms := Uses(feePayer, instructions), Metas(feePayer, instructions);
    EntriesDistinctKeys(feePayer, instructions, tables);
    FeePayerFirst(feePayer, instructions, tables);
    AggregateCorrect(us);
    forall key
      ensures key in Keys(Entries(ms, tables)) <==> key in KeysOf(us)
    {
      KeyEntry(ms, us, key);
      KeyInTable(ms, tables, key);
    }
  }

  lemma {:induction false} TableSigners(feePayer: Key, instructions: seq<Instruction>, tables: seq<LookupTable>)
    ensures var us, s := Uses(feePayer, instructions), StaticPart(Metas(feePayer, instructions), tables);
      forall key :: key in Keys(s)[..Count(s, Signatures)] <==> key in SignerKeys(us)
  {
    var us, ms := Uses(feePayer, instructions), Metas(feePayer, instructions);
    var s := StaticPart(ms, tables);
    AggregateCorrect(us);
    forall key
      ensures key in Keys(s)[..Count(s, Signatures)] <==> key in SignerKeys(us)
    {
      SignerEntry(ms, us, tables, key);
      SignerPrefix(ms, tables, key);
    }
  }

  /** The two lists of addresses a compiled message carries. */
  lemma {:induction false} CompiledLists(
      version: Version, feePayer: Key, instructions: seq<Instruction>, blockhash: Key, tables: seq<LookupTable>,
      c: CompiledMessage)
    requires SmallTables(tables) && CompileWith(version, feePayer, instructions, blockhash, tables) == Ok(c)
    ensures var ms := Metas(feePayer, instructions);
      var s := StaticPart(ms, tables);
      && c.accountKeys == Keys(Entries(ms, tables)) && |c.accountKeys| <= 256
      && Count(s, Signatures) <= |Keys(s)| && c.signerAddresses == Keys(s)[..Count(s, Signatures)]
  {
  }

  lemma {:induction false} StaticKeysLead(ms: seq<Meta>, tables: seq<LookupTable>)
    ensures Keys(StaticPart(ms, tables)) <= Keys(Entries(ms, tables))
  {
  }

  lemma {:induction false} PrefixOfPrefix<T>(a: seq<T>, b: seq<T>, n: nat)
    requires n <= |a| && a <= b
    ensures a[..n] <= b
  {
  }

  /** No key twice, the fee payer first, the signers exactly the signer prefix, at most 256 keys. */
  lemma {:induction false} CompiledKeyTable(
      version: Version, feePayer: Key, instructions: seq<Instruction>, blockhash: Key, tables: seq<LookupTable>)
    requires SmallTables(tables) && CompileWith(version, feePayer, instructions, blockhash, tables).Ok?
    ensures var us := Uses(feePayer, instructions);
      var c := CompileWith(version, feePayer, instructions, blockhash, tables).value;
      && |c.accountKeys| <= 256
      && (forall i, j :: 0 <= i < j < |c.accountKeys| ==> c.accountKeys[i] != c.accountKeys[j])
      && (forall key :: key in c.accountKeys <==> key in KeysOf(us))
      && |c.accountKeys| > 0 && c.accountKeys[0] == feePayer
      && c.signerAddresses <= c.accountKeys
      && (forall key :: key in c.signerAddresses <==> key in SignerKeys(us))
  {
    var c := CompileWith(version, feePayer, instructions, blockhash, tables).value;
    KeyTableHolds(version, feePayer, instructions, blockhash, tables, c);
  }

  lemma {:induction false} KeyTableHolds(
      version: Version, feePayer: Key, instructions: seq<Instruction>, blockhash: Key, tables: seq<LookupTable>,
      c: CompiledMessage)
    requires SmallTables(tables) && CompileWith(version, feePayer, instructions, blockhash, tables) == Ok(c)
    ensures |c.accountKeys| <= 256
    ensures forall i, j :: 0 <= i < j < |c.accountKeys| ==> c.accountKeys[i] != c.accountKeys[j]
    ensures forall key :: key in c.accountKeys <==> key in KeysOf(Uses(feePayer, instructions))
    ensures |c.accountKeys| > 0 && c.accountKeys[0] == feePayer
    ensures c.signerAddresses <= c.accountKeys
    ensures forall key :: key in c.signerAddresses <==> key in SignerKeys(Uses(feePayer, instructions))
  {
    var ms := Metas(feePayer, instructions);
    CompiledLists(version, feePayer, instructions, blockhash, tables, c);
    TableKeys(feePayer, instructions, tables);
    TableSigners(feePayer, instructions, tables);
    StaticKeysLead(ms, tables);
    PrefixOfPrefix(Keys(StaticPart(ms, tables)), c.accountKeys, Count(StaticPart(ms, tables), Signatures));
  }

  lemma {:induction false} KeyInTable(ms: seq<Meta>, tables: seq<LookupTable>, key: Key)
    ensures key in Keys(Entries(ms, tables)) <==> exists m :: m in ms && m.key == key
  {
    var es := Entries(ms, tables);
    if key in Keys(es) {
      var i :| 0 <= i < |es| && Keys(es)[i] == key;
      EntriesIn(ms, tables, es[i]);
    }
    if m :| m in ms && m.key == key {
      EntriesIn(ms, tables, m);
      var i :| 0 <= i < |es| && es[i] == m;
      assert Keys(es)[i] == key;
    }
  }

  lemma {:induction false} SignerPrefix(ms: seq<Meta>, tables: seq<LookupTable>, key: Key)
    ensures var s := StaticPart(ms, tables);
      key in Keys(s)[..Count(s, Signatures)] <==> exists m :: m in s && Matches(m, Signatures) && m.key == key
  {
    var s := StaticPart(ms, tables);
    var n := Count(s, Signatures);
    if key in Keys(s)[..n] {
      var i :| 0 <= i < n && Keys(s)[i] == key;
      StaticPrivileges(ms, tables, i);
      assert s[i] in s;
    }
    if m :| m in s && Matches(m, Signatures) && m.key == key {
      var i :| 0 <= i < |s| && s[i] == m;
      StaticPrivileges(ms, tables, i);
      assert Keys(s)[..n][i] == key;
    }
  }
}
