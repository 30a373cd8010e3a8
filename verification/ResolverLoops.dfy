/**
 The account resolver as it runs: initial addresses, repeated passes, the verification pass.
 */
module ResolverLoops {
  import opened Wrappers
  import opened Bytes
  import opened AccountResolver

  datatype ResolvedAccount = ResolvedAccount(name: string, address: Key, isSigner: bool, isWritable: bool)

  method InitialAddresses(accounts: seq<AccountSchema>, inputs: Addresses) returns (known: Addresses)
    ensures known == Given(accounts, inputs)
  {
    known := map[];
    ghost var seen: seq<AccountSchema> := [];
    for i := 0 to |accounts|
      invariant seen == accounts[..i] && known == Given(seen, inputs)
    {
      var a := accounts[i];
      assert (seen + [a])[..i] == seen;
      if a.name in inputs {
        known := known[a.name := inputs[a.name]];
      } else if a.default.Some? {
        known := known[a.name := a.default.value];
      }
      assert known == Give(a, inputs, Given(seen, inputs));
      TakeNext(accounts, i);
      seen := seen + [a];
    }
    TakeAll(accounts);
  }

  //// One pass

  /** Some account, reached on the way through a pass, fails for good. */
  ghost predicate FailsDuring(c: Context, accounts: seq<AccountSchema>, known: Addresses, error: ResolveError) {
    exists now: Addresses ::
      Extends(known, now) && Extends(now, Sweep(c, accounts, known)) && FailsFor(c, accounts, now, error)
  }

  ghost predicate AllWaiting(c: Context, accounts: seq<AccountSchema>, known: Addresses) {
    forall a :: a in accounts && Open(a, known) ==> Waiting(Derive(c, a.pda.value, known))
  }

  method RunPass(c: Context, accounts: seq<AccountSchema>, start: Addresses)
      returns (r: Result<(Addresses, bool), ResolveError>)
    ensures PassResult(c, accounts, start, r)
  {
    var known: Addresses := start;
    var changed := false;
    assert accounts[0..] == accounts;
    for i := 0 to |accounts|
      invariant Sweep(c, accounts[i..], known) == Sweep(c, accounts, start)
      invariant Extends(start, known) && (changed <==> known != start)
      invariant !changed ==> forall j :: 0 <= j < i && Open(accounts[j], known) ==>
        Waiting(Derive(c, accounts[j].pda.value, known))
    {
      var a := accounts[i];
      assert accounts[i..][0] == a && accounts[i..][1..] == accounts[i + 1..];
      if a.name in known || a.pda.None? {
        continue;
      }
      var derived := Derive(c, a.pda.value, known);
      if derived.Err? {
        if !derived.error.SeedAccountMissing? {
          SweepExtends(c, accounts[i..], known);
          assert a in accounts;
          return Err(derived.error);
        }
        continue;
      }
      known := known[a.name := derived.value];
      changed := true;
    }
    if !changed {
      forall a | a in accounts && Open(a, known)
        ensures Waiting(Derive(c, a.pda.value, known))
      {
        var j :| 0 <= j < |accounts| && accounts[j] == a;
      }
    }
    return Ok((known, changed));
  }

  //// All passes

  /** What fails during some pass fails for good at the fixed point. */
  lemma {:induction false} FailureLasts(
      c: Context, accounts: seq<AccountSchema>, given: Addresses, now: Addresses, error: ResolveError)
    requires DistinctNames(accounts) && FailsFor(c, accounts, now, error) && Extends(given, now)
    requires Extends(now, Resolved(c, accounts, given))
    ensures FailsFor(c, accounts, Resolved(c, accounts, given), error)
  {
    var known := Resolved(c, accounts, given);
    var a :| a in accounts && Open(a, now) && Derive(c, a.pda.value, now) == Err(error);
    DeriveMonotone(c, a.pda.value, now, known);
    ResolvedIsLeastFixedPoint(c, accounts, given);
    if a.name in known {
      assert a.name !in given;
      DerivedNeverRejected(c, accounts, given, a);
    }
    assert Open(a, known);
  }

  lemma {:induction false} NoneOpen(accounts: seq<AccountSchema>, known: Addresses)
    requires Missing(accounts, known) == 0
    ensures forall a :: a in accounts ==> !Open(a, known)
  {
    var missing := Names(accounts) - known.Keys;
    assert missing == {};
    forall a | a in accounts
      ensures a.name in known
    {
      assert a.name in Names(accounts) && a.name !in missing;
    }
  }

  /** What the passes may report: the fixed point, with nothing failing for good, or what fails there. */
  ghost predicate PassesResult(
      c: Context, accounts: seq<AccountSchema>, goal: Addresses, r: Result<Addresses, ResolveError>)
  {
    match r
    case Ok(known) => known == goal && AllWaiting(c, accounts, known)
    case Err(error) => FailsFor(c, accounts, goal, error)
  }

  method RunPasses(c: Context, accounts: seq<AccountSchema>, given: Addresses)
      returns (r: Result<Addresses, ResolveError>)
    requires DistinctNames(accounts)
    ensures PassesResult(c, accounts, Resolved(c, accounts, given), r)
  {
    var known: Addresses := given;
    var left: nat := |accounts|;
    ghost var goal := Resolved(c, accounts, given);
    StartOnTheWay(c, accounts, given);
    while left > 0
      invariant OnTheWay(c, accounts, given, known, left, goal)
    {
      var outcome := RunPass(c, accounts, known);
      AfterPass(c, accounts, given, known, left, outcome, goal);
      if outcome.Err? {
        return Err(outcome.error);
      }
      if !outcome.value.1 {
        return Ok(known);
      }
      known := outcome.value.0;
      left := left - 1;
    }
    NoneOpen(accounts, known);
    ResolvedIsLeastFixedPoint(c, accounts, given);
    WaitingIsGoal(c, accounts, given, known, 0, goal);
    return Ok(known);
  }

  lemma {:induction false} StartOnTheWay(c: Context, accounts: seq<AccountSchema>, given: Addresses)
    requires DistinctNames(accounts)
    ensures OnTheWay(c, accounts, given, given, |accounts|, Resolved(c, accounts, given))
  {
    MissingAtMost(accounts, given);
    ResolvedIsLeastFixedPoint(c, accounts, given);
  }

  /** What one pass may report. */
  ghost predicate PassResult(
      c: Context, accounts: seq<AccountSchema>, start: Addresses, r: Result<(Addresses, bool), ResolveError>)
  {
    match r
    case Ok((known, changed)) =>
      && known == Sweep(c, accounts, start) && (changed <==> known != start)
      && (!changed ==> AllWaiting(c, accounts, start))
    case Err(error) => FailsDuring(c, accounts, start, error)
  }

  lemma {:induction false} AfterPass(
      c: Context, accounts: seq<AccountSchema>, given: Addresses, known: Addresses, left: nat,
      outcome: Result<(Addresses, bool), ResolveError>, goal: Addresses)
    requires DistinctNames(accounts) && left > 0 && goal == Resolved(c, accounts, given)
    requires OnTheWay(c, accounts, given, known, left, goal) && PassResult(c, accounts, known, outcome)
    ensures outcome.Err? ==> PassesResult(c, accounts, goal, Err(outcome.error))
    ensures outcome.Ok? && !outcome.value.1 ==> PassesResult(c, accounts, goal, Ok(known))
    ensures outcome.Ok? && outcome.value.1 ==> OnTheWay(c, accounts, given, outcome.value.0, left - 1, goal)
  {
    ResolvedIsLeastFixedPoint(c, accounts, given);
    if outcome.Err? {
      PassFailure(c, accounts, given, known, left, goal, outcome.error);
    } else if outcome.value.1 {
      FixedIsSame(c, accounts, known);
      NextPass(c, accounts, given, known, left, goal);
    } else {
      WaitingIsGoal(c, accounts, given, known, left, goal);
    }
  }

  /** Known addresses lie between the given ones and the fixed point, and enough passes are left. */
  ghost predicate OnTheWay(
      c: Context, accounts: seq<AccountSchema>, given: Addresses, known: Addresses, passes: nat, goal: Addresses)
  {
    && Extends(given, known) && Extends(known, goal) && SelfConsistent(c, accounts, given, known)
    && Missing(accounts, known) <= passes
  }

  lemma {:induction false} NextPass(
      c: Context, accounts: seq<AccountSchema>, given: Addresses, known: Addresses, passes: nat, goal: Addresses)
    requires LeastFixedPoint(c, accounts, given, goal)
    requires passes > 0 && OnTheWay(c, accounts, given, known, passes, goal) && !Fixed(c, accounts, known)
    ensures OnTheWay(c, accounts, given, Sweep(c, accounts, known), passes - 1, goal)
  {
    SweepExtends(c, accounts, known);
    SweepProgress(c, accounts, known);
    SweepBelow(c, accounts, known, accounts, given, goal);
    SweepConsistent(c, accounts, known, accounts, given);
    ExtendsTransitive(given, known, Sweep(c, accounts, known));
  }

  /** Where nothing more can be derived, the fixed point has been reached. */
  lemma {:induction false} WaitingIsGoal(
      c: Context, accounts: seq<AccountSchema>, given: Addresses, known: Addresses, passes: nat, goal: Addresses)
    requires DistinctNames(accounts) && LeastFixedPoint(c, accounts, given, goal)
    requires OnTheWay(c, accounts, given, known, passes, goal) && AllWaiting(c, accounts, known)
    ensures known == goal
  {
    StuckIsClosed(c, accounts, given, known);
    BothExtend(known, goal);
  }

  lemma {:induction false} BothExtend(known: Addresses, goal: Addresses)
    requires Extends(goal, known) && Extends(known, goal)
    ensures known == goal
  {
  }

  lemma {:induction false} PassFailure(
      c: Context, accounts: seq<AccountSchema>, given: Addresses, known: Addresses, passes: nat, goal: Addresses,
      error: ResolveError)
    requires DistinctNames(accounts) && goal == Resolved(c, accounts, given)
    requires OnTheWay(c, accounts, given, known, passes, goal)
    requires FailsDuring(c, accounts, known, error)
    ensures FailsFor(c, accounts, goal, error)
  {
    var now: Addresses :|
      Extends(known, now) && Extends(now, Sweep(c, accounts, known)) && FailsFor(c, accounts, now, error);
    ResolvedIsLeastFixedPoint(c, accounts, given);
    SweepBelow(c, accounts, known, accounts, given, goal);
    ExtendsTransitive(now, Sweep(c, accounts, known), goal);
    ExtendsTransitive(given, known, now);
    FailureLasts(c, accounts, given, now, error);
  }

  //// Verification

  function Check(c: Context, a: AccountSchema, known: Addresses, verify: bool): Result<ResolvedAccount, ResolveError> {
    if a.name !in known then Err(AccountMissing(a.name))
    else if verify && a.pda.Some? && Derive(c, a.pda.value, known).Err? then
      Err(Derive(c, a.pda.value, known).error)
    else if verify && a.pda.Some? && Derive(c, a.pda.value, known).value != known[a.name] then
      Err(AddressMismatch(a.name))
    else Ok(ResolvedAccount(a.name, known[a.name], a.signer, a.writable))
  }

  method CheckAll(c: Context, accounts: seq<AccountSchema>, known: Addresses, verify: bool)
      returns (r: Result<seq<ResolvedAccount>, ResolveError>)
    ensures r.Ok? <==> forall i :: 0 <= i < |accounts| ==> Check(c, accounts[i], known, verify).Ok?
    ensures r.Ok? ==> |r.value| == |accounts|
    ensures r.Ok? ==> forall i :: 0 <= i < |accounts| ==> Check(c, accounts[i], known, verify) == Ok(r.value[i])
    ensures r.Err? ==> exists i :: 0 <= i < |accounts| && Check(c, accounts[i], known, verify) == Err(r.error)
  {
    var metas: seq<ResolvedAccount> := [];
    for i := 0 to |accounts|
      invariant |metas| == i
      invariant forall j :: 0 <= j < i ==> Check(c, accounts[j], known, verify) == Ok(metas[j])
    {
      var checked := Check(c, accounts[i], known, verify);
      if checked.Err? {
        return Err(checked.error);
      }
      metas := metas + [checked.value];
    }
    return Ok(metas);
  }

  /** The checks all pass exactly when every account is known and every given address verifies. */
  lemma {:induction false} ChecksMeanSuccess(c: Context, accounts: seq<AccountSchema>, given: Addresses, verify: bool)
    requires DistinctNames(accounts)
    ensures var known := Resolved(c, accounts, given);
      (forall i :: 0 <= i < |accounts| ==> Check(c, accounts[i], known, verify).Ok?)
      <==> Succeeds(c, accounts, given, known, verify)
  {
    var known := Resolved(c, accounts, given);
    ResolvedIsLeastFixedPoint(c, accounts, given);
    forall a | a in accounts
      ensures Check(c, a, known, verify).Ok? <==>
        a.name in known
        && ((verify && a.pda.Some? && a.name in given) ==> Derive(c, a.pda.value, known) == Ok(given[a.name]))
    {
      if a.pda.Some? && a.name !in given && a.name in known {
        DerivedNeverRejected(c, accounts, given, a);
      }
    }
    if Succeeds(c, accounts, given, known, verify) {
      assert forall i :: 0 <= i < |accounts| ==> accounts[i] in accounts;
    }
    if forall i :: 0 <= i < |accounts| ==> Check(c, accounts[i], known, verify).Ok? {
      forall a | a in accounts
        ensures Check(c, a, known, verify).Ok?
      {
        var i :| 0 <= i < |accounts| && accounts[i] == a;
      }
    }
  }

  predicate IsResolved(a: AccountSchema, known: Addresses, r: ResolvedAccount) {
    a.name in known && r == ResolvedAccount(a.name, known[a.name], a.signer, a.writable)
  }

  /** What each error says of the least fixed point. */
  ghost predicate Explains(
      c: Context, accounts: seq<AccountSchema>, given: Addresses, known: Addresses, error: ResolveError)
  {
    match error
    case AccountMissing(name) => name !in known && exists a :: a in accounts && a.name == name
    case AddressMismatch(name) =>
      name in given && exists a ::
        (a in accounts && a.name == name && a.pda.Some?
         && Derive(c, a.pda.value, known).Ok? && Derive(c, a.pda.value, known).value != given[name])
    case _ => exists a :: a in accounts && a.pda.Some? && Derive(c, a.pda.value, known) == Err(error)
  }

  /**
   Resolves all accounts of an instruction. It returns exactly when the least fixed point names every
   account and every given address with seeds is the one it derives to.
   */
  method ResolveInstructionAccounts(c: Context, accounts: seq<AccountSchema>, inputs: Addresses, verify: bool)
      returns (r: Result<seq<ResolvedAccount>, ResolveError>)
    requires DistinctNames(accounts)
    ensures var given := Given(accounts, inputs);
      r.Ok? <==> Succeeds(c, accounts, given, Resolved(c, accounts, given), verify)
    ensures r.Ok? ==> |r.value| == |accounts|
    ensures r.Ok? ==> forall i :: 0 <= i < |accounts| ==>
      IsResolved(accounts[i], Resolved(c, accounts, Given(accounts, inputs)), r.value[i])
    ensures r.Err? && r.error.AccountMissing? ==>
      r.error.name !in Resolved(c, accounts, Given(accounts, inputs))
    ensures r.Err? && r.error.AddressMismatch? ==> verify && r.error.name in Given(accounts, inputs)
    ensures r.Err? ==> Explains(c, accounts, Given(accounts, inputs), Resolved(c, accounts, Given(accounts, inputs)),
      r.error)
  {
    var given := InitialAddresses(accounts, inputs);
    var known := RunPasses(c, accounts, given);
    ChecksMeanSuccess(c, accounts, given, verify);
    if known.Err? {
      NeverResolved(c, accounts, given, known.error, verify);
      return Err(known.error);
    }
    r := CheckAll(c, accounts, known.value, verify);
    if r.Err? {
      RejectionReason(c, accounts, given, verify, r.error);
    }
  }

  lemma {:induction false} NeverResolved(
      c: Context, accounts: seq<AccountSchema>, given: Addresses, error: ResolveError, verify: bool)
    requires FailsFor(c, accounts, Resolved(c, accounts, given), error)
    ensures !Succeeds(c, accounts, given, Resolved(c, accounts, given), verify)
    ensures !error.AccountMissing? && !error.AddressMismatch?
    ensures Explains(c, accounts, given, Resolved(c, accounts, given), error)
  {
    var known := Resolved(c, accounts, given);
    var a :| a in accounts && Open(a, known) && Derive(c, a.pda.value, known) == Err(error);
    DeriveErrors(c, a.pda.value, known);
  }

  lemma {:induction false} SeedErrors(c: Context, seeds: seq<Seed>, known: Addresses)
    requires AllSeedBytes(c, seeds, known).Err?
    ensures var e := AllSeedBytes(c, seeds, known).error; !e.AccountMissing? && !e.AddressMismatch?
  {
    if AllSeedBytes(c, seeds[..|seeds| - 1], known).Err? {
      SeedErrors(c, seeds[..|seeds| - 1], known);
    }
  }

  lemma {:induction false} DeriveErrors(c: Context, seeds: seq<Seed>, known: Addresses)
    requires Derive(c, seeds, known).Err?
    ensures var e := Derive(c, seeds, known).error; !e.AccountMissing? && !e.AddressMismatch?
  {
    if AllSeedBytes(c, seeds, known).Err? {
      SeedErrors(c, seeds, known);
    }
  }

  lemma {:induction false} RejectionReason(
      c: Context, accounts: seq<AccountSchema>, given: Addresses, verify: bool, error: ResolveError)
    requires DistinctNames(accounts)
    requires exists i ::
      0 <= i < |accounts| && Check(c, accounts[i], Resolved(c, accounts, given), verify) == Err(error)
    ensures error.AccountMissing? ==> error.name !in Resolved(c, accounts, given)
    ensures error.AddressMismatch? ==> verify && error.name in given
    ensures Explains(c, accounts, given, Resolved(c, accounts, given), error)
  {
    var known := Resolved(c, accounts, given);
    ResolvedIsLeastFixedPoint(c, accounts, given);
    var i :| 0 <= i < |accounts| && Check(c, accounts[i], known, verify) == Err(error);
    var a := accounts[i];
    if a.pda.Some? && Derive(c, a.pda.value, known).Err? {
      DeriveErrors(c, a.pda.value, known);
    }
    if error.AddressMismatch? && a.name !in given {
      DerivedNeverRejected(c, accounts, given, a);
    }
  }
}
