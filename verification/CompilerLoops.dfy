/**
 The compiler as it runs: a table of account entries that is updated in place, use by use.
 */
module CompilerLoops {
  import opened Wrappers
  import opened Bytes
  import opened Message
  import opened AccountMetas
  import opened KeyTable
  import opened HeaderOrder
  import opened Compiler
  import SV = ShortVector

  //// Aggregation

  ghost predicate WellFormed(order: seq<Key>, metas: map<Key, Meta>) {
    && (forall i, j :: 0 <= i < j < |order| ==> order[i] != order[j])
    && (forall i :: 0 <= i < |order| ==> order[i] in metas)
    && (forall key :: key in metas ==> key in order && metas[key].key == key)
  }

  function InOrder(order: seq<Key>, metas: map<Key, Meta>): (ms: seq<Meta>)
    requires forall i :: 0 <= i < |order| ==> order[i] in metas
    ensures |ms| == |order| && forall i :: 0 <= i < |ms| ==> ms[i] == metas[order[i]]
  {
    seq(|order|, i requires 0 <= i < |order| => metas[order[i]])
  }

  lemma {:induction false} PositionIs(ms: seq<Meta>, key: Key, p: nat)
    requires p <= |ms| && (p < |ms| ==> ms[p].key == key) && forall i :: 0 <= i < p ==> ms[i].key != key
    ensures Position(ms, key) == p
  {
  }

  /** A new key goes to the end. */
  lemma {:induction false} InsertNew(order: seq<Key>, metas: map<Key, Meta>, u: Use, index: nat)
    requires WellFormed(order, metas) && u.key !in metas
    ensures var order', metas' := order + [u.key], metas[u.key := FromUse(u, index)];
            WellFormed(order', metas') && InOrder(order', metas') == MergeUse(InOrder(order, metas), u, index)
  {
    var ms := InOrder(order, metas);
    PositionIs(ms, u.key, |ms|);
    assert u.key !in order;
  }

  lemma {:induction false} ReplaceInOrder(order: seq<Key>, metas: map<Key, Meta>, k: nat, m: Meta)
    requires WellFormed(order, metas) && k < |order| && m.key == order[k]
    ensures WellFormed(order, metas[order[k] := m])
    ensures InOrder(order, metas[order[k] := m]) == InOrder(order, metas)[k := m]
  {
  }

  /** A known key keeps its place and absorbs the flags. */
  lemma {:induction false} UpdateKnown(order: seq<Key>, metas: map<Key, Meta>, u: Use, index: nat)
    requires WellFormed(order, metas) && u.key in metas
    ensures var metas' := metas[u.key := metas[u.key].Absorb(u)];
            WellFormed(order, metas') && InOrder(order, metas') == MergeUse(InOrder(order, metas), u, index)
  {
    var ms := InOrder(order, metas);
    var k :| 0 <= k < |order| && order[k] == u.key;
    PositionIs(ms, u.key, k);
    ReplaceInOrder(order, metas, k, metas[u.key].Absorb(u));
  }

  /** Entries by key, in insertion order; the flags of a known key are updated in place. */
  class AccountMetaTable {
    var order: seq<Key>
    var metas: map<Key, Meta>

    ghost predicate Valid()
      reads this
    {
      WellFormed(order, metas)
    }

    ghost function Values(): seq<Meta>
      requires Valid()
      reads this
    {
      InOrder(order, metas)
    }

    constructor (feePayer: Key)
      ensures Valid() && Values() == [Meta(feePayer, 0, true, true, false)]
    {
      order := [feePayer];
      metas := map[feePayer := Meta(feePayer, 0, true, true, false)];
    }

    method Merge(key: Key, isSigner: bool, isWritable: bool, isProgram: bool, firstSeenIndex: nat)
      requires Valid()
      modifies this
      ensures Valid()
      ensures Values() == MergeUse(old(Values()), Use(key, isSigner, isWritable, isProgram), firstSeenIndex)
    {
      ghost var u := Use(key, isSigner, isWritable, isProgram);
      if key !in metas {
        InsertNew(order, metas, u, firstSeenIndex);
        order := order + [key];
        metas := metas[key := Meta(key, firstSeenIndex, isSigner, isWritable, isProgram)];
      } else {
        UpdateKnown(order, metas, u, firstSeenIndex);
        var existing := metas[key];
        metas := metas[key := Meta(key, existing.firstSeen,
          existing.isSigner || isSigner, existing.isWritable || isWritable, existing.isProgram || isProgram)];
      }
    }

    method Entries() returns (ms: seq<Meta>)
      requires Valid()
      ensures ms == Values()
    {
      ms := [];
      for i := 0 to |order|
        invariant ms == Values()[..i]
      {
        ms := ms + [metas[order[i]]];
      }
    }
  }

  /** What the table must hold after the uses seen so far. */
  ghost predicate Holds(table: AccountMetaTable, us: seq<Use>, firstSeenIndex: nat)
    reads table
  {
    table.Valid() && table.Values() == Aggregate(us) && firstSeenIndex == |us|
  }

  lemma {:induction false} UsesAppend(feePayer: Key, instructions: seq<Instruction>, i: nat)
    requires i < |instructions|
    ensures Uses(feePayer, instructions[..i + 1])
         == (Uses(feePayer, instructions[..i]) + AccountUses(instructions[i].accounts))
          + [Use(instructions[i].program, false, false, true)]
  {
    assert instructions[..i + 1][..i] == instructions[..i];
  }

  method MergeAccounts(table: AccountMetaTable, accounts: seq<AccountMeta>, start: nat, ghost us: seq<Use>)
      returns (firstSeenIndex: nat)
    requires Holds(table, us, start)
    modifies table
    ensures Holds(table, us + AccountUses(accounts), firstSeenIndex)
  {
    firstSeenIndex := start;
    ghost var added := AccountUses(accounts);
    assert us + added[..0] == us;
    for j := 0 to |accounts|
      invariant Holds(table, us + added[..j], firstSeenIndex)
    {
      AppendNext(us, added, j);
      AggregateAppend(us + added[..j], added[j]);
      table.Merge(accounts[j].key, accounts[j].isSigner, accounts[j].isWritable, false, firstSeenIndex);
      firstSeenIndex := firstSeenIndex + 1;
    }
    assert added[..|accounts|] == added;
  }

  lemma {:induction false} AggregateOfFeePayer(feePayer: Key, instructions: seq<Instruction>)
    ensures Uses(feePayer, instructions[..0]) == [Use(feePayer, true, true, false)]
    ensures Aggregate([Use(feePayer, true, true, false)]) == [Meta(feePayer, 0, true, true, false)]
  {
    var u := Use(feePayer, true, true, false);
    AggregateAppend([], u);
    assert [] + [u] == [u];
  }

  method AggregateAccountMetas(feePayer: Key, instructions: seq<Instruction>) returns (ms: seq<Meta>)
    ensures ms == Metas(feePayer, instructions)
  {
    var table := new AccountMetaTable(feePayer);
    var firstSeenIndex: nat := 1;
    AggregateOfFeePayer(feePayer, instructions);
    for i := 0 to |instructions|
      invariant fresh(table) && Holds(table, Uses(feePayer, instructions[..i]), firstSeenIndex)
    {
      ghost var us := Uses(feePayer, instructions[..i]);
      UsesAppend(feePayer, instructions, i);
      firstSeenIndex := MergeAccounts(table, instructions[i].accounts, firstSeenIndex, us);
      AggregateAppend(us + AccountUses(instructions[i].accounts), Use(instructions[i].program, false, false, true));
      table.Merge(instructions[i].program, false, false, true, firstSeenIndex);
      firstSeenIndex := firstSeenIndex + 1;
    }
    assert instructions[..|instructions|] == instructions;
    ms := table.Entries();
  }
}
