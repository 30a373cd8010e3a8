/**
 Concrete inputs whose unversioned message cannot be read back: 128 or more distinct signers.
 One instruction lists as many signing accounts as wanted, with numbered keys. They are
 distinct, so that the header count passes 127 and the first byte of the message turns
 into a version prefix.
 */
module ManySigners {
  import opened Wrappers
  import opened Bytes
  import opened Message
  import opened AccountMetas
  import opened Denotation
  import opened Compiler
  import opened CompilerCorrect

  function NumberedKey(i: byte): (key: Key)
    ensures key[0] == i
  {
    [i] + Zeros(31)
  }

  /** Readonly signers numbered 1 to `n`. */
  function Signers(n: nat): seq<AccountMeta>
    requires n < 256
  {
    if n == 0 then [] else Signers(n - 1) + [AccountMeta(NumberedKey(n), true, false)]
  }

  function SignerSet(accounts: seq<AccountMeta>): set<Key> {
    set a | a in accounts :: a.key
  }

  lemma {:induction false} SignerSetAppend(accounts: seq<AccountMeta>, a: AccountMeta)
    ensures SignerSet(accounts + [a]) == SignerSet(accounts) + {a.key}
  {
    assert forall b :: b in accounts + [a] <==> b in accounts || b == a;
  }

  /** Accounts that sign, with keys that begin with a number up to `n`. */
  ghost predicate Numbered(accounts: seq<AccountMeta>, n: nat) {
    forall a :: a in accounts ==> a.isSigner && 1 <= a.key[0] <= n
  }

  lemma {:induction false} NumberedAppend(accounts: seq<AccountMeta>, a: AccountMeta, n: nat)
    requires Numbered(accounts, n) && a.isSigner && a.key[0] == n + 1
    ensures Numbered(accounts + [a], n + 1) && a.key !in SignerSet(accounts)
  {
    assert forall b :: b in accounts + [a] <==> b in accounts || b == a;
  }

  lemma {:induction false} SignersOf(n: nat, signers: seq<AccountMeta>)
    requires n < 256 && signers == Signers(n)
    ensures |SignerSet(signers)| == n && Numbered(signers, n)
  {
    if n > 0 {
      var before, last := Signers(n - 1), AccountMeta(NumberedKey(n), true, false);
      SignersOf(n - 1, before);
      NumberedAppend(before, last, n - 1);
      SignerSetAppend(before, last);
    }
  }

  lemma {:induction false} SignerSetSize(n: nat)
    requires n < 256
    ensures |SignerSet(Signers(n))| == n
    ensures forall a :: a in Signers(n) ==> a.isSigner && 1 <= a.key[0] <= n
  {
    SignersOf(n, Signers(n));
  }

  lemma {:induction false} UsesOfOne(feePayer: Key, i: Instruction)
    ensures Uses(feePayer, [i])
         == [Use(feePayer, true, true, false)] + (AccountUses(i.accounts) + [Use(i.program, false, false, true)])
  {
    assert [i][..0] == [];
    assert AllInstructionUses([i]) == [] + InstructionUses(i);
  }

  lemma {:induction false} AccountUseIn(accounts: seq<AccountMeta>, u: Use)
    ensures u in AccountUses(accounts) <==> !u.isProgram && AccountMeta(u.key, u.isSigner, u.isWritable) in accounts
  {
    var us := AccountUses(accounts);
    if u in us {
      var j :| 0 <= j < |us| && us[j] == u;
      assert accounts[j] == AccountMeta(u.key, u.isSigner, u.isWritable);
    }
    if !u.isProgram && AccountMeta(u.key, u.isSigner, u.isWritable) in accounts {
      var j :| 0 <= j < |us| && accounts[j] == AccountMeta(u.key, u.isSigner, u.isWritable);
      assert us[j] == u;
    }
  }

  /** Among accounts that all sign, the keys used are the signers. */
  lemma {:induction false} UsedKeys(accounts: seq<AccountMeta>, key: Key)
    requires forall a :: a in accounts ==> a.isSigner
    ensures key in SignerSet(accounts) <==> exists u :: u in AccountUses(accounts) && u.key == key
    ensures key in SignerSet(accounts) <==> exists u :: u in AccountUses(accounts) && u.key == key && u.isSigner
  {
    if key in SignerSet(accounts) {
      var a :| a in accounts && a.key == key;
      AccountUseIn(accounts, Use(key, a.isSigner, a.isWritable, false));
    }
    if u :| u in AccountUses(accounts) && u.key == key {
      AccountUseIn(accounts, u);
    }
  }

  /** The uses of a single instruction: the fee payer, its accounts and its program. */
  predicate UsedIn(feePayer: Key, i: Instruction, u: Use) {
    u == Use(feePayer, true, true, false) || u in AccountUses(i.accounts) || u == Use(i.program, false, false, true)
  }

  lemma {:induction false} UseInOne(feePayer: Key, i: Instruction, u: Use)
    ensures u in Uses(feePayer, [i]) <==> UsedIn(feePayer, i, u)
  {
    UsesOfOne(feePayer, i);
  }

  lemma {:induction false} KeyInOne(feePayer: Key, i: Instruction, key: Key)
    requires forall a :: a in i.accounts ==> a.isSigner
    ensures Signs(Uses(feePayer, [i]), key) <==> key == feePayer || key in SignerSet(i.accounts)
    ensures key in KeysOf(Uses(feePayer, [i])) <==>
      key == feePayer || key == i.program || key in SignerSet(i.accounts)
  {
    UsedKeys(i.accounts, key);
    UseInOne(feePayer, i, Use(feePayer, true, true, false));
    UseInOne(feePayer, i, Use(i.program, false, false, true));
    forall u
      ensures u in Uses(feePayer, [i]) <==> UsedIn(feePayer, i, u)
    {
      UseInOne(feePayer, i, u);
    }
  }

  lemma {:induction false} KeysOfOne(feePayer: Key, i: Instruction)
    requires forall a :: a in i.accounts ==> a.isSigner
    ensures SignerKeys(Uses(feePayer, [i])) == {feePayer} + SignerSet(i.accounts)
    ensures KeysOf(Uses(feePayer, [i])) == {feePayer, i.program} + SignerSet(i.accounts)
  {
    forall key
      ensures Signs(Uses(feePayer, [i]), key) <==> key == feePayer || key in SignerSet(i.accounts)
      ensures key in KeysOf(Uses(feePayer, [i])) <==>
        key == feePayer || key == i.program || key in SignerSet(i.accounts)
    {
      KeyInOne(feePayer, i, key);
    }
    assert forall key :: key in SignerKeys(Uses(feePayer, [i])) <==> Signs(Uses(feePayer, [i]), key);
  }

  /** A fee payer and `n` more signers. */
  function Crowded(n: nat): Instruction
    requires n < 200
  {
    Instruction(NumberedKey(200), Signers(n), [])
  }

  lemma {:induction false} AddKey(keys: set<Key>, key: Key)
    requires key !in keys
    ensures |{key} + keys| == |keys| + 1
  {
  }

  lemma {:induction false} CrowdedCounts(n: nat)
    requires n < 200
    ensures |SignerKeys(Uses(NumberedKey(0), [Crowded(n)]))| == n + 1
    ensures |KeysOf(Uses(NumberedKey(0), [Crowded(n)]))| == n + 2
  {
    var signers := SignerSet(Signers(n));
    SignerSetSize(n);
    KeysOfOne(NumberedKey(0), Crowded(n));
    AddKey(signers, NumberedKey(0));
    AddKey({NumberedKey(0)} + signers, NumberedKey(200));
    assert {NumberedKey(200)} + ({NumberedKey(0)} + signers) == {NumberedKey(0), NumberedKey(200)} + signers;
  }

  /** From 128 signers on the input compiles, and the bytes do not decode to what was asked for. */
  lemma {:induction false} ManySignersMisread(n: nat, blockhash: Key, chain: Chain)
    requires 127 <= n < 200
    ensures CompileUnversioned(NumberedKey(0), [Crowded(n)], blockhash).Ok?
    ensures DecodeMessage(CompileUnversioned(NumberedKey(0), [Crowded(n)], blockhash).value.bytes, chain)
         != Some(Intended(NumberedKey(0), [Crowded(n)], blockhash, []))
  {
    CrowdedCounts(n);
    CompilesExactlyWithinLimits(NumberedKey(0), [Crowded(n)], blockhash, []);
    UnversionedPreservesMeaning(NumberedKey(0), [Crowded(n)], blockhash, chain);
  }
}
