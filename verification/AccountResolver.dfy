/** Resolving instruction accounts: addresses are derived as soon as the accounts among their seeds are known. */
module AccountResolver {
  import opened Wrappers
  import opened Bytes

  type Key = k: seq<byte> | |k| == 32 witness Zeros(32)

  datatype Seed = ConstSeed(bytes: seq<byte>) | ArgumentSeed(name: string) | AccountSeed(name: string)

  datatype AccountSchema = AccountSchema(
    name: string, default: Option<Key>, pda: Option<seq<Seed>>, signer: bool, writable: bool)

  datatype ResolveError =
    | SeedAccountMissing(name: string)
    | SeedArgumentInvalid(name: string)
    | NoProgramAddress
    | AccountMissing(name: string)
    | AddressMismatch(name: string)

  type Addresses = map<string, Key>

  /** The encoded arguments, and the address found for a list of seeds. */
  datatype Context = Context(argument: string -> Option<seq<byte>>, find: seq<seq<byte>> -> Option<Key>)

  //// Deriving one address

  function SeedBytes(c: Context, seed: Seed, known: Addresses): Result<seq<byte>, ResolveError> {
    match seed
    case ConstSeed(bytes) => Ok(bytes)
    case ArgumentSeed(name) =>
      (match c.argument(name)
       case None => Err(SeedArgumentInvalid(name))
       case Some(bytes) => if |bytes| > 32 then Err(SeedArgumentInvalid(name)) else Ok(bytes))
    case AccountSeed(name) => if name in known then Ok(known[name]) else Err(SeedAccountMissing(name))
  }

  /** Seeds are collected in order; the first that cannot be had decides the error. */
  function AllSeedBytes(c: Context, seeds: seq<Seed>, known: Addresses): Result<seq<seq<byte>>, ResolveError> {
    if seeds == [] then Ok([])
    else
      match AllSeedBytes(c, seeds[..|seeds| - 1], known)
      case Err(e) => Err(e)
      case Ok(before) =>
        match SeedBytes(c, seeds[|seeds| - 1], known)
        case Err(e) => Err(e)
        case Ok(bytes) => Ok(before + [bytes])
  }

  function Derive(c: Context, seeds: seq<Seed>, known: Addresses): Result<Key, ResolveError> {
    match AllSeedBytes(c, seeds, known)
    case Err(e) => Err(e)
    case Ok(bytes) =>
      match c.find(bytes)
      case None => Err(NoProgramAddress)
      case Some(key) => Ok(key)
  }

  /** The bytes of one seed: the constant, the encoded argument if it is short enough, or the known address. */
  ghost predicate SeedIs(c: Context, seed: Seed, known: Addresses, part: seq<byte>) {
    match seed
    case ConstSeed(bytes) => part == bytes
    case ArgumentSeed(name) => c.argument(name) == Some(part) && |part| <= 32
    case AccountSeed(name) => name in known && known[name] == part
  }

  /** Why one seed cannot be had. */
  ghost predicate SeedFails(c: Context, seed: Seed, known: Addresses, error: ResolveError) {
    match seed
    case ConstSeed(_) => false
    case ArgumentSeed(name) =>
      error == SeedArgumentInvalid(name) && (c.argument(name).None? || |c.argument(name).value| > 32)
    case AccountSeed(name) => error == SeedAccountMissing(name) && name !in known
  }

  /** One part for each seed, in the order of the seeds. */
  ghost predicate SeedParts(c: Context, seeds: seq<Seed>, known: Addresses, parts: seq<seq<byte>>) {
    |parts| == |seeds| && forall i :: 0 <= i < |seeds| ==> SeedIs(c, seeds[i], known, parts[i])
  }

  ghost predicate CanBeHad(c: Context, seed: Seed, known: Addresses) {
    exists part :: SeedIs(c, seed, known, part)
  }

  /** The error is that of the first seed that cannot be had. */
  ghost predicate FirstSeedFails(c: Context, seeds: seq<Seed>, known: Addresses, error: ResolveError) {
    exists i: nat :: i < |seeds| && SeedFails(c, seeds[i], known, error)
      && forall j :: 0 <= j < i ==> CanBeHad(c, seeds[j], known)
  }

  lemma {:induction false} SeedExactly(c: Context, seed: Seed, known: Addresses)
    ensures forall part :: SeedBytes(c, seed, known) == Ok(part) <==> SeedIs(c, seed, known, part)
    ensures forall error :: SeedBytes(c, seed, known) == Err(error) <==> SeedFails(c, seed, known, error)
    ensures SeedBytes(c, seed, known).Ok? <==> CanBeHad(c, seed, known)
  {
    if SeedBytes(c, seed, known).Ok? {
      assert SeedIs(c, seed, known, SeedBytes(c, seed, known).value);
    }
  }

  /** The seeds give these parts exactly when each does, position by position. */
  lemma {:induction false} SeedsExactly(c: Context, seeds: seq<Seed>, known: Addresses, parts: seq<seq<byte>>)
    ensures AllSeedBytes(c, seeds, known) == Ok(parts) <==> SeedParts(c, seeds, known, parts)
  {
    if seeds != [] {
      var init, last := seeds[..|seeds| - 1], seeds[|seeds| - 1];
      SeedExactly(c, last, known);
      if parts != [] {
        SeedsExactly(c, init, known, parts[..|parts| - 1]);
        assert parts == parts[..|parts| - 1] + [parts[|parts| - 1]];
      }
    }
  }

  /** Otherwise the error is that of the first seed that cannot be had. */
  lemma {:induction false} SeedErrorExactly(c: Context, seeds: seq<Seed>, known: Addresses, error: ResolveError)
    ensures AllSeedBytes(c, seeds, known) == Err(error) <==> FirstSeedFails(c, seeds, known, error)
    ensures AllSeedBytes(c, seeds, known).Ok? <==> forall i :: 0 <= i < |seeds| ==> CanBeHad(c, seeds[i], known)
  {
    if seeds != [] {
      var init, last := seeds[..|seeds| - 1], seeds[|seeds| - 1];
      assert seeds == init + [last];
      SeedExactly(c, last, known);
      SeedErrorExactly(c, init, known, error);
      if FirstSeedFails(c, seeds, known, error) {
        FailsEarlierOrLast(c, init, last, known, error, seeds);
      } else if AllSeedBytes(c, seeds, known) == Err(error) {
        FailsInAll(c, init, last, known, error, seeds);
      }
    }
  }

  lemma {:induction false} AppendSeed(init: seq<Seed>, last: Seed)
    ensures (init + [last])[|init|] == last && forall i :: 0 <= i < |init| ==> (init + [last])[i] == init[i]
  {
  }

  lemma {:induction false} FailsEarlierOrLast(
      c: Context, init: seq<Seed>, last: Seed, known: Addresses, error: ResolveError, seeds: seq<Seed>)
    requires seeds == init + [last] && FirstSeedFails(c, seeds, known, error)
    ensures FirstSeedFails(c, init, known, error)
      || (SeedFails(c, last, known, error) && forall i :: 0 <= i < |init| ==> CanBeHad(c, init[i], known))
  {
    AppendSeed(init, last);
    var i: nat :| i < |seeds| && SeedFails(c, seeds[i], known, error)
      && forall j :: 0 <= j < i ==> CanBeHad(c, seeds[j], known);
    if i < |init| {
      assert SeedFails(c, init[i], known, error);
      assert forall j :: 0 <= j < i ==> CanBeHad(c, init[j], known);
    } else {
      assert forall j :: 0 <= j < |init| ==> CanBeHad(c, seeds[j], known);
    }
  }

  lemma {:induction false} FailsInAll(
      c: Context, init: seq<Seed>, last: Seed, known: Addresses, error: ResolveError, seeds: seq<Seed>)
    requires seeds == init + [last]
    requires FirstSeedFails(c, init, known, error)
      || (SeedFails(c, last, known, error) && forall i :: 0 <= i < |init| ==> CanBeHad(c, init[i], known))
    ensures FirstSeedFails(c, seeds, known, error)
  {
    AppendSeed(init, last);
    if FirstSeedFails(c, init, known, error) {
      var i: nat :| i < |init| && SeedFails(c, init[i], known, error)
        && forall j :: 0 <= j < i ==> CanBeHad(c, init[j], known);
      assert SeedFails(c, seeds[i], known, error);
    } else {
      assert SeedFails(c, seeds[|init|], known, error);
    }
  }

  /** An address is derived exactly from the parts of its seeds; each failure has one reason. */
  lemma {:induction false} DeriveExactly(c: Context, seeds: seq<Seed>, known: Addresses, key: Key)
    ensures Derive(c, seeds, known) == Ok(key) <==>
      exists parts :: SeedParts(c, seeds, known, parts) && c.find(parts) == Some(key)
    ensures Derive(c, seeds, known) == Err(NoProgramAddress) <==>
      exists parts :: SeedParts(c, seeds, known, parts) && c.find(parts) == None
    ensures forall error :: error != NoProgramAddress ==>
      (Derive(c, seeds, known) == Err(error) <==> FirstSeedFails(c, seeds, known, error))
  {
    forall parts
      ensures AllSeedBytes(c, seeds, known) == Ok(parts) <==> SeedParts(c, seeds, known, parts)
    {
      SeedsExactly(c, seeds, known, parts);
    }
    forall error
      ensures AllSeedBytes(c, seeds, known) == Err(error) <==> FirstSeedFails(c, seeds, known, error)
    {
      SeedErrorExactly(c, seeds, known, error);
    }
    if AllSeedBytes(c, seeds, known).Ok? {
      assert SeedParts(c, seeds, known, AllSeedBytes(c, seeds, known).value);
    }
  }

  ghost predicate Extends(known: Addresses, more: Addresses) {
    forall name :: name in known ==> name in more && more[name] == known[name]
  }

  /** Only a missing seed account can be cured by knowing more. */
  predicate Waiting<T>(r: Result<T, ResolveError>) {
    r.Err? && r.error.SeedAccountMissing?
  }

  lemma {:induction false} SeedsMonotone(c: Context, seeds: seq<Seed>, known: Addresses, more: Addresses)
    requires Extends(known, more) && !Waiting(AllSeedBytes(c, seeds, known))
    ensures AllSeedBytes(c, seeds, more) == AllSeedBytes(c, seeds, known)
  {
    if seeds != [] {
      SeedsMonotone(c, seeds[..|seeds| - 1], known, more);
    }
  }

  /** A derivation that succeeds or fails for good does the same with more accounts known. */
  lemma {:induction false} DeriveMonotone(c: Context, seeds: seq<Seed>, known: Addresses, more: Addresses)
    requires Extends(known, more) && !Waiting(Derive(c, seeds, known))
    ensures Derive(c, seeds, more) == Derive(c, seeds, known)
  {
    SeedsMonotone(c, seeds, known, more);
  }

  //// Passes

  predicate Open(a: AccountSchema, known: Addresses) {
    a.pda.Some? && a.name !in known
  }

  function Step(c: Context, a: AccountSchema, known: Addresses): Addresses {
    if Open(a, known) && Derive(c, a.pda.value, known).Ok?
    then known[a.name := Derive(c, a.pda.value, known).value] else known
  }

  function Sweep(c: Context, accounts: seq<AccountSchema>, known: Addresses): Addresses {
    if accounts == [] then known else Sweep(c, accounts[1..], Step(c, accounts[0], known))
  }

  function Saturate(c: Context, accounts: seq<AccountSchema>, known: Addresses, passes: nat): Addresses
    decreases passes
  {
    if passes == 0 then known else Saturate(c, accounts, Sweep(c, accounts, known), passes - 1)
  }

  //// The least fixed point

  /** Everything derivable has been derived, except where an address was given. */
  ghost predicate Closed(c: Context, accounts: seq<AccountSchema>, given: Addresses, known: Addresses) {
    forall a :: a in accounts && a.pda.Some? && a.name !in given && Derive(c, a.pda.value, known).Ok? ==>
      a.name in known && known[a.name] == Derive(c, a.pda.value, known).value
  }

  /** `known` holds the given addresses, is closed, and lies below everything else that is. */
  ghost predicate LeastFixedPoint(c: Context, accounts: seq<AccountSchema>, given: Addresses, known: Addresses) {
    && Extends(given, known) && Closed(c, accounts, given, known)
    && forall other :: Extends(given, other) && Closed(c, accounts, given, other) ==> Extends(known, other)
  }

  lemma {:induction false} LeastFixedPointUnique(
      c: Context, accounts: seq<AccountSchema>, given: Addresses, known: Addresses, other: Addresses)
    requires LeastFixedPoint(c, accounts, given, known) && LeastFixedPoint(c, accounts, given, other)
    ensures known == other
  {
    assert Extends(known, other) && Extends(other, known);
  }

  lemma {:induction false} ExtendsTransitive(a: Addresses, b: Addresses, d: Addresses)
    requires Extends(a, b) && Extends(b, d)
    ensures Extends(a, d)
  {
  }

  lemma {:induction false} SweepExtends(c: Context, accounts: seq<AccountSchema>, known: Addresses)
    ensures Extends(known, Sweep(c, accounts, known))
  {
    if accounts != [] {
      var next := Step(c, accounts[0], known);
      SweepExtends(c, accounts[1..], next);
      ExtendsTransitive(known, next, Sweep(c, accounts, known));
    }
  }

  lemma {:induction false} SaturateExtends(c: Context, accounts: seq<AccountSchema>, known: Addresses, passes: nat)
    ensures Extends(known, Saturate(c, accounts, known, passes))
    decreases passes
  {
    if passes > 0 {
      var next := Sweep(c, accounts, known);
      SweepExtends(c, accounts, known);
      SaturateExtends(c, accounts, next, passes - 1);
      ExtendsTransitive(known, next, Saturate(c, accounts, known, passes));
    }
  }

  /** Steps stay below every closed set of addresses. */
  lemma {:induction false} StepBelow(c: Context, a: AccountSchema, known: Addresses,
      accounts: seq<AccountSchema>, given: Addresses, other: Addresses)
    requires a in accounts && Extends(given, known) && Extends(known, other) && Closed(c, accounts, given, other)
    ensures Extends(Step(c, a, known), other)
  {
    if Open(a, known) && Derive(c, a.pda.value, known).Ok? {
      DeriveMonotone(c, a.pda.value, known, other);
    }
  }

  lemma {:induction false} SweepBelow(c: Context, part: seq<AccountSchema>, known: Addresses,
      accounts: seq<AccountSchema>, given: Addresses, other: Addresses)
    requires forall a :: a in part ==> a in accounts
    requires Extends(given, known) && Extends(known, other) && Closed(c, accounts, given, other)
    ensures Extends(Sweep(c, part, known), other)
  {
    if part != [] {
      StepBelow(c, part[0], known, accounts, given, other);
      SweepBelow(c, part[1..], Step(c, part[0], known), accounts, given, other);
    }
  }

  lemma {:induction false} SaturateBelow(
      c: Context, accounts: seq<AccountSchema>, known: Addresses, passes: nat, given: Addresses, other: Addresses)
    requires Extends(given, known) && Extends(known, other) && Closed(c, accounts, given, other)
    ensures Extends(Saturate(c, accounts, known, passes), other)
    decreases passes
  {
    if passes > 0 {
      SweepExtends(c, accounts, known);
      SweepBelow(c, accounts, known, accounts, given, other);
      SaturateBelow(c, accounts, Sweep(c, accounts, known), passes - 1, given, other);
    }
  }

  //// n passes suffice for n accounts

  function Names(accounts: seq<AccountSchema>): set<string> {
    set a | a in accounts :: a.name
  }

  lemma {:induction false} NamesCount(accounts: seq<AccountSchema>)
    ensures |Names(accounts)| <= |accounts|
  {
    if accounts != [] {
      assert accounts == [accounts[0]] + accounts[1..];
      assert Names(accounts) == {accounts[0].name} + Names(accounts[1..]);
      NamesCount(accounts[1..]);
    }
  }

  lemma {:induction false} SweepNames(c: Context, accounts: seq<AccountSchema>, known: Addresses)
    ensures Sweep(c, accounts, known).Keys <= known.Keys + Names(accounts)
  {
    if accounts != [] {
      assert accounts == [accounts[0]] + accounts[1..];
      SweepNames(c, accounts[1..], Step(c, accounts[0], known));
    }
  }

  lemma {:induction false} SameKeysSameMap(known: Addresses, more: Addresses)
    requires Extends(known, more) && more.Keys <= known.Keys
    ensures known == more
  {
  }

  /** How many accounts are still without an address. */
  function Missing(accounts: seq<AccountSchema>, known: Addresses): nat {
    |Names(accounts) - known.Keys|
  }

  /** A pass that changes something names one more account. */
  lemma {:induction false} SweepProgress(c: Context, accounts: seq<AccountSchema>, known: Addresses)
    requires !Fixed(c, accounts, known)
    ensures Missing(accounts, Sweep(c, accounts, known)) < Missing(accounts, known)
  {
    var next := Sweep(c, accounts, known);
    FixedIsSame(c, accounts, known);
    SweepExtends(c, accounts, known);
    SweepNames(c, accounts, known);
    if next.Keys <= known.Keys {
      SameKeysSameMap(known, next);
    }
    var name :| name in next.Keys && name !in known.Keys;
    assert Names(accounts) - next.Keys <= (Names(accounts) - known.Keys) - {name};
    Smaller(Names(accounts) - next.Keys, Names(accounts) - known.Keys, name);
  }

  lemma {:induction false} Smaller(a: set<string>, b: set<string>, name: string)
    requires name in b && a <= b - {name}
    ensures |a| < |b|
  {
    assert b == a + (b - a);
    assert name in b - a;
  }

  ghost predicate Fixed(c: Context, accounts: seq<AccountSchema>, known: Addresses) {
    Extends(Sweep(c, accounts, known), known)
  }

  lemma {:induction false} FixedIsSame(c: Context, accounts: seq<AccountSchema>, known: Addresses)
    ensures Fixed(c, accounts, known) <==> Sweep(c, accounts, known) == known
  {
    SweepExtends(c, accounts, known);
    if Fixed(c, accounts, known) {
      SameKeysSameMap(known, Sweep(c, accounts, known));
    }
  }

  /** Repeating any function of addresses. */
  function Iterate(f: Addresses -> Addresses, known: Addresses, passes: nat): Addresses
    decreases passes
  {
    if passes == 0 then known else Iterate(f, f(known), passes - 1)
  }

  lemma {:induction false} IterateStays(f: Addresses -> Addresses, known: Addresses, passes: nat)
    requires f(known) == known
    ensures Iterate(f, known, passes) == known
    decreases passes
  {
    if passes > 0 {
      IterateStays(f, known, passes - 1);
    }
  }

  /** A function that changes nothing once a measure is used up is fixed after as many repetitions. */
  lemma {:induction false} IterateFixed(
      f: Addresses -> Addresses, measure: Addresses -> nat, known: Addresses, passes: nat)
    requires forall k :: f(k) != k ==> measure(f(k)) < measure(k)
    requires measure(known) <= passes
    ensures var last := Iterate(f, known, passes); f(last) == last
    decreases passes
  {
    if f(known) == known {
      IterateStays(f, known, passes);
    } else {
      IterateFixed(f, measure, f(known), passes - 1);
    }
  }

  function Pass(c: Context, accounts: seq<AccountSchema>): (f: Addresses -> Addresses)
    ensures forall k :: f(k) == Sweep(c, accounts, k)
  {
    k => Sweep(c, accounts, k)
  }

  function MissingOf(accounts: seq<AccountSchema>): (measure: Addresses -> nat)
    ensures forall k :: measure(k) == Missing(accounts, k)
  {
    k => Missing(accounts, k)
  }

  lemma {:induction false} SaturateIterates(
      c: Context, accounts: seq<AccountSchema>, known: Addresses, passes: nat, f: Addresses -> Addresses)
    requires f == Pass(c, accounts)
    ensures Saturate(c, accounts, known, passes) == Iterate(f, known, passes)
    decreases passes
  {
    if passes > 0 {
      SaturateIterates(c, accounts, f(known), passes - 1, f);
    }
  }

  /** As many passes as accounts are missing leave nothing for another pass to change. */
  lemma {:induction false} SaturateFixed(c: Context, accounts: seq<AccountSchema>, known: Addresses, passes: nat)
    requires Missing(accounts, known) <= passes
    ensures var last := Saturate(c, accounts, known, passes); Sweep(c, accounts, last) == last
  {
    var f, measure := Pass(c, accounts), MissingOf(accounts);
    forall k | f(k) != k
      ensures measure(f(k)) < measure(k)
    {
      FixedIsSame(c, accounts, k);
      SweepProgress(c, accounts, k);
    }
    IterateFixed(f, measure, known, passes);
    SaturateIterates(c, accounts, known, passes, f);
  }

  //// A fixed point is closed

  /** Every address that was not given is what its own account derives to. */
  ghost predicate SelfConsistent(c: Context, accounts: seq<AccountSchema>, given: Addresses, known: Addresses) {
    forall name :: name in known && name !in given ==>
      exists a :: a in accounts && a.name == name && a.pda.Some? && Derive(c, a.pda.value, known) == Ok(known[name])
  }

  lemma {:induction false} StepConsistent(
      c: Context, a: AccountSchema, known: Addresses, accounts: seq<AccountSchema>, given: Addresses)
    requires a in accounts && SelfConsistent(c, accounts, given, known)
    ensures SelfConsistent(c, accounts, given, Step(c, a, known))
  {
    var next := Step(c, a, known);
    forall name | name in next && name !in given
      ensures exists b ::
        b in accounts && b.name == name && b.pda.Some? && Derive(c, b.pda.value, next) == Ok(next[name])
    {
      if name in known {
        var b :| b in accounts && b.name == name && b.pda.Some? && Derive(c, b.pda.value, known) == Ok(known[name]);
        DeriveMonotone(c, b.pda.value, known, next);
      } else {
        DeriveMonotone(c, a.pda.value, known, next);
      }
    }
  }

  lemma {:induction false} SweepConsistent(
      c: Context, part: seq<AccountSchema>, known: Addresses, accounts: seq<AccountSchema>, given: Addresses)
    requires (forall a :: a in part ==> a in accounts) && SelfConsistent(c, accounts, given, known)
    ensures SelfConsistent(c, accounts, given, Sweep(c, part, known))
  {
    if part != [] {
      StepConsistent(c, part[0], known, accounts, given);
      SweepConsistent(c, part[1..], Step(c, part[0], known), accounts, given);
    }
  }

  lemma {:induction false} SaturateConsistent(
      c: Context, accounts: seq<AccountSchema>, known: Addresses, passes: nat, given: Addresses)
    requires SelfConsistent(c, accounts, given, known)
    ensures SelfConsistent(c, accounts, given, Saturate(c, accounts, known, passes))
    decreases passes
  {
    if passes > 0 {
      SweepConsistent(c, accounts, known, accounts, given);
      SaturateConsistent(c, accounts, Sweep(c, accounts, known), passes - 1, given);
    }
  }

  /** Nothing is left to derive. */
  ghost predicate Stuck(c: Context, accounts: seq<AccountSchema>, known: Addresses) {
    forall a :: a in accounts && Open(a, known) ==> Derive(c, a.pda.value, known).Err?
  }

  lemma {:induction false} FixedIsStuck(c: Context, accounts: seq<AccountSchema>, known: Addresses)
    requires Sweep(c, accounts, known) == known
    ensures Stuck(c, accounts, known)
  {
    if accounts != [] {
      var next := Step(c, accounts[0], known);
      SweepExtends(c, accounts[1..], next);
      assert next == known by {
        assert Extends(next, known);
      }
      FixedIsStuck(c, accounts[1..], known);
    }
  }

  ghost predicate DistinctNames(accounts: seq<AccountSchema>) {
    forall i, j :: 0 <= i < j < |accounts| ==> accounts[i].name != accounts[j].name
  }

  lemma {:induction false} SameName(accounts: seq<AccountSchema>, a: AccountSchema, b: AccountSchema)
    requires DistinctNames(accounts) && a in accounts && b in accounts && a.name == b.name
    ensures a == b
  {
  }

  lemma {:induction false} StuckIsClosed(c: Context, accounts: seq<AccountSchema>, given: Addresses, known: Addresses)
    requires DistinctNames(accounts) && Stuck(c, accounts, known) && SelfConsistent(c, accounts, given, known)
    ensures Closed(c, accounts, given, known)
  {
    forall a | a in accounts && a.pda.Some? && a.name !in given && Derive(c, a.pda.value, known).Ok?
      ensures a.name in known && known[a.name] == Derive(c, a.pda.value, known).value
    {
      assert !Open(a, known);
      var b :| b in accounts && b.name == a.name && b.pda.Some? && Derive(c, b.pda.value, known) == Ok(known[a.name]);
      SameName(accounts, a, b);
    }
  }

  /** The addresses after as many passes as there are accounts. */
  function Resolved(c: Context, accounts: seq<AccountSchema>, given: Addresses): Addresses {
    Saturate(c, accounts, given, |accounts|)
  }

  /** As many passes as there are accounts reach the least fixed point. */
  lemma {:induction false} ResolvedIsLeastFixedPoint(c: Context, accounts: seq<AccountSchema>, given: Addresses)
    requires DistinctNames(accounts)
    ensures LeastFixedPoint(c, accounts, given, Resolved(c, accounts, given))
    ensures Stuck(c, accounts, Resolved(c, accounts, given))
    ensures SelfConsistent(c, accounts, given, Resolved(c, accounts, given))
  {
    var known := Resolved(c, accounts, given);
    SaturateExtends(c, accounts, given, |accounts|);
    MissingAtMost(accounts, given);
    SaturateFixed(c, accounts, given, |accounts|);
    FixedIsStuck(c, accounts, known);
    SaturateConsistent(c, accounts, given, |accounts|, given);
    StuckIsClosed(c, accounts, given, known);
    forall other | Extends(given, other) && Closed(c, accounts, given, other)
      ensures Extends(known, other)
    {
      SaturateBelow(c, accounts, given, |accounts|, given, other);
    }
  }

  lemma {:induction false} MissingAtMost(accounts: seq<AccountSchema>, known: Addresses)
    ensures Missing(accounts, known) <= |accounts|
  {
    NamesCount(accounts);
    assert Names(accounts) == (Names(accounts) - known.Keys) + (Names(accounts) * known.Keys);
  }

  ghost predicate SameAccounts(accounts: seq<AccountSchema>, others: seq<AccountSchema>) {
    forall a :: a in accounts <==> a in others
  }

  /** The order of the accounts in the schema does not matter. */
  lemma {:induction false} OrderIndependent(
      c: Context, accounts: seq<AccountSchema>, others: seq<AccountSchema>, given: Addresses)
    requires DistinctNames(accounts) && DistinctNames(others) && SameAccounts(accounts, others)
    ensures Resolved(c, accounts, given) == Resolved(c, others, given)
  {
    ResolvedIsLeastFixedPoint(c, accounts, given);
    ResolvedIsLeastFixedPoint(c, others, given);
    LeastFixedPointUnique(c, accounts, given, Resolved(c, accounts, given), Resolved(c, others, given));
  }

  //// Given addresses

  /** An input goes before a default. */
  function Give(a: AccountSchema, inputs: Addresses, before: Addresses): Addresses {
    if a.name in inputs then before[a.name := inputs[a.name]]
    else if a.default.Some? then before[a.name := a.default.value]
    else before
  }

  function Given(accounts: seq<AccountSchema>, inputs: Addresses): Addresses {
    if accounts == [] then map[]
    else Give(accounts[|accounts| - 1], inputs, Given(accounts[..|accounts| - 1], inputs))
  }

  ghost predicate GivenTo(a: AccountSchema, inputs: Addresses, known: Addresses) {
    if a.name in inputs then a.name in known && known[a.name] == inputs[a.name]
    else if a.default.Some? then a.name in known && known[a.name] == a.default.value
    else a.name !in known
  }

  lemma {:induction false} GiveKeeps(a: AccountSchema, b: AccountSchema, inputs: Addresses, before: Addresses)
    requires a.name != b.name && GivenTo(a, inputs, before)
    ensures GivenTo(a, inputs, Give(b, inputs, before))
  {
  }

  lemma {:induction false} GiveSets(a: AccountSchema, inputs: Addresses, before: Addresses)
    requires a.name !in before
    ensures GivenTo(a, inputs, Give(a, inputs, before))
    ensures Give(a, inputs, before).Keys <= before.Keys + {a.name}
  {
  }

  lemma {:induction false} DistinctSplit(init: seq<AccountSchema>, last: AccountSchema)
    requires DistinctNames(init + [last])
    ensures DistinctNames(init) && last.name !in Names(init) && Names(init + [last]) == Names(init) + {last.name}
  {
    var all := init + [last];
    assert forall i :: 0 <= i < |init| ==> all[i] == init[i];
    assert all[|init|] == last;
  }

  lemma {:induction false} GivenAre(accounts: seq<AccountSchema>, inputs: Addresses)
    requires DistinctNames(accounts)
    ensures forall a :: a in accounts ==> GivenTo(a, inputs, Given(accounts, inputs))
    ensures Given(accounts, inputs).Keys <= Names(accounts)
  {
    if accounts != [] {
      var init, last := accounts[..|accounts| - 1], accounts[|accounts| - 1];
      assert accounts == init + [last];
      DistinctSplit(init, last);
      GivenAre(init, inputs);
      GiveSets(last, inputs, Given(init, inputs));
      forall a | a in accounts
        ensures GivenTo(a, inputs, Given(accounts, inputs))
      {
        if a in init {
          assert a.name in Names(init);
          GiveKeeps(a, last, inputs, Given(init, inputs));
        }
      }
    }
  }

  lemma {:induction false} GivenOrderIndependent(
      accounts: seq<AccountSchema>, others: seq<AccountSchema>, inputs: Addresses)
    requires DistinctNames(accounts) && DistinctNames(others) && SameAccounts(accounts, others)
    ensures Given(accounts, inputs) == Given(others, inputs)
  {
    GivenAre(accounts, inputs);
    GivenAre(others, inputs);
    var g, h := Given(accounts, inputs), Given(others, inputs);
    forall name
      ensures name in g <==> name in h
      ensures name in g ==> g[name] == h[name]
    {
      if a :| a in accounts && a.name == name {
        assert GivenTo(a, inputs, g) && GivenTo(a, inputs, h);
      }
    }
  }

  //// When resolution succeeds

  /** Every account has an address, and every given one that has seeds is what it derives to. */
  ghost predicate Succeeds(c: Context, accounts: seq<AccountSchema>, given: Addresses, known: Addresses, verify: bool) {
    && (forall a :: a in accounts ==> a.name in known)
    && (verify ==> forall a :: a in accounts && a.pda.Some? && a.name in given ==>
          Derive(c, a.pda.value, known) == Ok(given[a.name]))
  }

  /** A derivation that fails for good at an account that is still without an address. */
  ghost predicate FailsFor(c: Context, accounts: seq<AccountSchema>, known: Addresses, error: ResolveError) {
    !error.SeedAccountMissing? &&
    exists a :: a in accounts && Open(a, known) && Derive(c, a.pda.value, known) == Err(error)
  }

  /** An address the passes derived themselves is never rejected by the verification. */
  lemma {:induction false} DerivedNeverRejected(
      c: Context, accounts: seq<AccountSchema>, given: Addresses, a: AccountSchema)
    requires DistinctNames(accounts) && a in accounts && a.pda.Some?
    requires a.name !in given && a.name in Resolved(c, accounts, given)
    ensures Derive(c, a.pda.value, Resolved(c, accounts, given)) == Ok(Resolved(c, accounts, given)[a.name])
  {
    var known := Resolved(c, accounts, given);
    ResolvedIsLeastFixedPoint(c, accounts, given);
    var b :| b in accounts && b.name == a.name && b.pda.Some? && Derive(c, b.pda.value, known) == Ok(known[a.name]);
    SameName(accounts, a, b);
  }

  /** Reordering the schema changes neither the outcome nor any address. */
  lemma {:induction false} ResolutionOrderIndependent(
      c: Context, accounts: seq<AccountSchema>, others: seq<AccountSchema>, inputs: Addresses, verify: bool)
    requires DistinctNames(accounts) && DistinctNames(others) && SameAccounts(accounts, others)
    ensures var given := Given(accounts, inputs);
      && given == Given(others, inputs)
      && Resolved(c, accounts, given) == Resolved(c, others, given)
      && (Succeeds(c, accounts, given, Resolved(c, accounts, given), verify)
          <==> Succeeds(c, others, given, Resolved(c, others, given), verify))
  {
    GivenOrderIndependent(accounts, others, inputs);
    OrderIndependent(c, accounts, others, Given(accounts, inputs));
  }
}
