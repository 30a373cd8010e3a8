/**
 Every use of an account key by a list of instructions, and the merged privileges of each key.
 */
module AccountMetas {
  import opened Wrappers
  import opened Bytes
  import opened Message

  datatype AccountMeta = AccountMeta(key: Key, isSigner: bool, isWritable: bool)

  datatype Instruction = Instruction(program: Key, accounts: seq<AccountMeta>, data: seq<byte>)

  //// Uses

  datatype Use = Use(key: Key, isSigner: bool, isWritable: bool, isProgram: bool)

  function AccountUses(accounts: seq<AccountMeta>): (us: seq<Use>)
    ensures |us| == |accounts|
    ensures forall j :: 0 <= j < |us| ==>
      us[j] == Use(accounts[j].key, accounts[j].isSigner, accounts[j].isWritable, false)
  {
    seq(|accounts|, j requires 0 <= j < |accounts| =>
      Use(accounts[j].key, accounts[j].isSigner, accounts[j].isWritable, false))
  }

  function InstructionUses(i: Instruction): seq<Use> {
    AccountUses(i.accounts) + [Use(i.program, false, false, true)]
  }

  function AllInstructionUses(instructions: seq<Instruction>): seq<Use> {
    if instructions == [] then []
    else AllInstructionUses(instructions[..|instructions| - 1]) + InstructionUses(instructions[|instructions| - 1])
  }

  /** The fee payer signs and is written; then every account and program of every instruction. */
  function Uses(feePayer: Key, instructions: seq<Instruction>): seq<Use> {
    [Use(feePayer, true, true, false)] + AllInstructionUses(instructions)
  }

  lemma {:induction false} UsesCover(instructions: seq<Instruction>, i: nat)
    requires i < |instructions|
    ensures forall u :: u in InstructionUses(instructions[i]) ==> u in AllInstructionUses(instructions)
  {
    if i < |instructions| - 1 {
      UsesCover(instructions[..|instructions| - 1], i);
    }
  }

  //// What a key is used as, over all uses

  ghost predicate Signs(us: seq<Use>, key: Key) {
    exists u :: u in us && u.key == key && u.isSigner
  }

  ghost predicate Writes(us: seq<Use>, key: Key) {
    exists u :: u in us && u.key == key && u.isWritable
  }

  ghost predicate Invoked(us: seq<Use>, key: Key) {
    exists u :: u in us && u.key == key && u.isProgram
  }

  function KeysOf(us: seq<Use>): set<Key> {
    set u | u in us :: u.key
  }

  //// Merging

  datatype Meta = Meta(key: Key, firstSeen: nat, isSigner: bool, isWritable: bool, isProgram: bool) {
    function Absorb(u: Use): Meta {
      Meta(key, firstSeen, isSigner || u.isSigner, isWritable || u.isWritable, isProgram || u.isProgram)
    }
  }

  function FromUse(u: Use, index: nat): Meta {
    Meta(u.key, index, u.isSigner, u.isWritable, u.isProgram)
  }

  /** The position of a key, or the length. */
  function Position(ms: seq<Meta>, key: Key): (p: nat)
    ensures p <= |ms|
    ensures p < |ms| ==> ms[p].key == key
    ensures forall i :: 0 <= i < p ==> ms[i].key != key
  {
    if ms == [] || ms[0].key == key then 0 else 1 + Position(ms[1..], key)
  }

  function MergeUse(ms: seq<Meta>, u: Use, index: nat): seq<Meta> {
    var p := Position(ms, u.key);
    if p < |ms| then ms[p := ms[p].Absorb(u)] else ms + [FromUse(u, index)]
  }

  function Aggregate(us: seq<Use>): seq<Meta> {
    if us == [] then [] else MergeUse(Aggregate(us[..|us| - 1]), us[|us| - 1], |us| - 1)
  }

  /** One entry summarises its key: first use and the OR of the flags over every use. */
  ghost predicate Summarises(m: Meta, us: seq<Use>) {
    && m.firstSeen < |us| && us[m.firstSeen].key == m.key
    && (forall j :: 0 <= j < m.firstSeen ==> us[j].key != m.key)
    && (m.isSigner <==> Signs(us, m.key))
    && (m.isWritable <==> Writes(us, m.key))
    && (m.isProgram <==> Invoked(us, m.key))
  }

  ghost predicate AllSummarise(ms: seq<Meta>, us: seq<Use>) {
    forall i :: 0 <= i < |ms| ==> Summarises(ms[i], us)
  }

  ghost predicate InFirstUseOrder(ms: seq<Meta>) {
    forall i, j :: 0 <= i < j < |ms| ==> ms[i].firstSeen < ms[j].firstSeen
  }

  ghost predicate Covers(ms: seq<Meta>, us: seq<Use>) {
    forall u :: u in us ==> Position(ms, u.key) < |ms|
  }

  /** Exactly one entry for each key, in order of first use. */
  ghost predicate Aggregates(ms: seq<Meta>, us: seq<Use>) {
    AllSummarise(ms, us) && InFirstUseOrder(ms) && Covers(ms, us)
  }

  ghost predicate DistinctKeys(ms: seq<Meta>) {
    forall i, j :: 0 <= i < j < |ms| ==> ms[i].key != ms[j].key
  }

  lemma {:induction false} AggregatesDistinct(ms: seq<Meta>, us: seq<Use>)
    requires AllSummarise(ms, us) && InFirstUseOrder(ms)
    ensures DistinctKeys(ms)
  {
    forall i, j | 0 <= i < j < |ms|
      ensures ms[i].key != ms[j].key
    {
      assert Summarises(ms[i], us) && Summarises(ms[j], us);
    }
  }

  //// Aggregate computes the aggregation

  lemma {:induction false} InAppend(us: seq<Use>, u: Use)
    ensures forall v :: v in us + [u] <==> v in us || v == u
  {
  }

  lemma {:induction false} SummaryKept(m: Meta, us: seq<Use>, u: Use)
    requires Summarises(m, us)
    ensures Summarises(if m.key == u.key then m.Absorb(u) else m, us + [u])
  {
    var vs := us + [u];
    InAppend(us, u);
    assert Signs(vs, m.key) <==> Signs(us, m.key) || (m.key == u.key && u.isSigner);
    assert Writes(vs, m.key) <==> Writes(us, m.key) || (m.key == u.key && u.isWritable);
    assert Invoked(vs, m.key) <==> Invoked(us, m.key) || (m.key == u.key && u.isProgram);
  }

  lemma {:induction false} SummaryStarted(us: seq<Use>, u: Use)
    requires forall v :: v in us ==> v.key != u.key
    ensures Summarises(FromUse(u, |us|), us + [u])
  {
    InAppend(us, u);
    assert forall j :: 0 <= j < |us| ==> us[j] in us;
  }

  lemma {:induction false} MergeSummarises(ms: seq<Meta>, us: seq<Use>, u: Use)
    requires AllSummarise(ms, us) && DistinctKeys(ms) && Covers(ms, us)
    ensures AllSummarise(MergeUse(ms, u, |us|), us + [u])
  {
    var ns, p := MergeUse(ms, u, |us|), Position(ms, u.key);
    forall i | 0 <= i < |ns|
      ensures Summarises(ns[i], us + [u])
    {
      if i < |ms| {
        assert ms[i].key == u.key <==> i == p;
        SummaryKept(ms[i], us, u);
      } else {
        SummaryStarted(us, u);
      }
    }
  }

  lemma {:induction false} MergeOrdered(ms: seq<Meta>, us: seq<Use>, u: Use)
    requires AllSummarise(ms, us) && InFirstUseOrder(ms)
    ensures InFirstUseOrder(MergeUse(ms, u, |us|))
  {
    assert forall i :: 0 <= i < |ms| ==> Summarises(ms[i], us);
  }

  lemma {:induction false} PositionFound(ms: seq<Meta>, i: nat)
    requires i < |ms|
    ensures Position(ms, ms[i].key) <= i
  {
  }

  lemma {:induction false} MergeCovers(ms: seq<Meta>, us: seq<Use>, u: Use)
    requires Covers(ms, us)
    ensures Covers(MergeUse(ms, u, |us|), us + [u])
  {
    var ns, p := MergeUse(ms, u, |us|), Position(ms, u.key);
    InAppend(us, u);
    PositionFound(ns, p);
    forall v | v in us
      ensures Position(ns, v.key) < |ns|
    {
      PositionFound(ns, Position(ms, v.key));
    }
  }

  lemma {:induction false} MergeAggregates(ms: seq<Meta>, us: seq<Use>, u: Use)
    requires Aggregates(ms, us)
    ensures Aggregates(MergeUse(ms, u, |us|), us + [u])
  {
    AggregatesDistinct(ms, us);
    MergeSummarises(ms, us, u);
    MergeOrdered(ms, us, u);
    MergeCovers(ms, us, u);
  }

  lemma {:induction false} AggregateAppend(us: seq<Use>, u: Use)
    ensures Aggregate(us + [u]) == MergeUse(Aggregate(us), u, |us|)
  {
    assert (us + [u])[..|us|] == us;
  }

  lemma {:induction false} OneMoreAggregates(init: seq<Use>, u: Use)
    requires Aggregates(Aggregate(init), init)
    ensures Aggregates(Aggregate(init + [u]), init + [u])
  {
    MergeAggregates(Aggregate(init), init, u);
    AggregateAppend(init, u);
  }

  lemma {:induction false} AggregateCorrect(us: seq<Use>)
    ensures Aggregates(Aggregate(us), us)
    decreases |us|
  {
    if us != [] {
      var init, u := SplitLast(us);
      AggregateCorrect(init);
      OneMoreAggregates(init, u);
    }
  }
}
