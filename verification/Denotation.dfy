/**
 What message bytes mean, decided from the format and the on-chain lookup tables alone: the fee
 payer, every account with its privileges, and every instruction with its addresses resolved.
 */
module Denotation {
  import opened Wrappers
  import opened Bytes
  import opened Message
  import opened AccountMetas

  /** The address list of each lookup table on chain. */
  type Chain = map<Key, seq<Key>>

  datatype Denotation = Denotation(
    feePayer: Key,
    blockhash: Key,
    accounts: seq<AccountMeta>,
    instructions: seq<Instruction>)

  function LoadIndexes(addresses: seq<Key>, indexes: seq<byte>): (r: Option<seq<Key>>)
    ensures r.Some? <==> forall i :: 0 <= i < |indexes| ==> indexes[i] < |addresses|
    ensures r.Some? ==> |r.value| == |indexes|
    ensures r.Some? ==> forall i :: 0 <= i < |indexes| ==> r.value[i] == addresses[indexes[i]]
  {
    if forall i :: 0 <= i < |indexes| ==> indexes[i] < |addresses| then
      Some(seq(|indexes|, i requires 0 <= i < |indexes| => addresses[indexes[i]]))
    else None
  }

  function LoadOne(l: TableLookup, chain: Chain, writable: bool): Option<seq<Key>> {
    if l.table in chain then LoadIndexes(chain[l.table], if writable then l.writable else l.readonly) else None
  }

  /** The addresses all lookups load, table after table. */
  function LoadKeys(ls: seq<TableLookup>, chain: Chain, writable: bool): Option<seq<Key>> {
    if ls == [] then Some([])
    else
      match LoadKeys(ls[..|ls| - 1], chain, writable)
      case None => None
      case Some(keys) =>
        match LoadOne(ls[|ls| - 1], chain, writable)
        case None => None
        case Some(more) => Some(keys + more)
  }

  /** The header splits the static keys into writable and readonly signers and non-signers. */
  function StaticAccounts(h: Header, keys: seq<Key>): (r: seq<AccountMeta>)
    ensures |r| == |keys|
  {
    seq(|keys|, i requires 0 <= i < |keys| =>
      AccountMeta(keys[i], i < h.signatures,
        if i < h.signatures then i < h.signatures - h.readonlySigned else i < |keys| - h.readonlyUnsigned))
  }

  function LoadedAccounts(keys: seq<Key>, writable: bool): (r: seq<AccountMeta>)
    ensures |r| == |keys|
  {
    seq(|keys|, i requires 0 <= i < |keys| => AccountMeta(keys[i], false, writable))
  }

  function AccountTable(m: Message, chain: Chain): Option<seq<AccountMeta>> {
    match LoadKeys(m.lookups, chain, true)
    case None => None
    case Some(writable) =>
      match LoadKeys(m.lookups, chain, false)
      case None => None
      case Some(readonly) =>
        Some(StaticAccounts(m.header, m.keys) + LoadedAccounts(writable, true) + LoadedAccounts(readonly, false))
  }

  /** The counts must leave a writable signer in front and fit the static keys. */
  predicate SaneHeader(h: Header, keys: nat) {
    h.readonlySigned < h.signatures && h.signatures + h.readonlyUnsigned <= keys
  }

  /** Programs must be static keys; accounts may be any key. */
  predicate SaneInstruction(i: CompiledInstruction, staticKeys: nat, keys: nat) {
    i.program < staticKeys && forall j :: 0 <= j < |i.accounts| ==> i.accounts[j] < keys
  }

  function Resolve(i: CompiledInstruction, table: seq<AccountMeta>, staticKeys: nat): Instruction
    requires SaneInstruction(i, staticKeys, |table|) && staticKeys <= |table|
  {
    Instruction(
      table[i.program].key,
      seq(|i.accounts|, j requires 0 <= j < |i.accounts| => table[i.accounts[j]]),
      i.data)
  }

  function Denote(m: Message, chain: Chain): Option<Denotation> {
    if !SaneHeader(m.header, |m.keys|) then None
    else
      match AccountTable(m, chain)
      case None => None
      case Some(table) =>
        if forall i :: 0 <= i < |m.instructions| ==> SaneInstruction(m.instructions[i], |m.keys|, |table|) then
          Some(Denotation(m.keys[0], m.blockhash, table,
            seq(|m.instructions|, i requires 0 <= i < |m.instructions| =>
              Resolve(m.instructions[i], table, |m.keys|))))
        else None
  }

  function DecodeMessage(bs: seq<byte>, chain: Chain): Option<Denotation> {
    match Parse(bs)
    case None => None
    case Some(m) => Denote(m, chain)
  }
}
