/** The account resolver with its real parts: what it derives is found by the bump search, off the curve. */
module InstructionAddresses {
  import opened Wrappers
  import opened Bytes
  import opened AccountResolver
  import PA = ProgramAddress
  import BC = BinaryCodec
  import EdwardsCurve
  import opened ResolverLoops

  /** The first field of a name. */
  function FieldOf(fields: seq<BC.Field>, name: string): Option<BC.Field> {
    if fields == [] then None
    else if fields[0].name == name then Some(fields[0])
    else FieldOf(fields[1..], name)
  }

  /** A seed argument as the schema codec writes it; the resolver itself refuses more than 32 bytes. */
  function Argument(schema: BC.Schema, fields: seq<BC.Field>, values: map<string, BC.Value>, name: string)
    : Option<seq<byte>>
    requires BC.Acyclic(schema)
  {
    match FieldOf(fields, name)
    case None => None
    case Some(field) =>
      if name !in values then None
      else
        match BC.EncodeType(schema, field.type_, values[name])
        case Err(_) => None
        case Ok(bytes) => Some(bytes)
  }

  function AddressOf(ctx: PA.Context, program: seq<byte>, seeds: seq<seq<byte>>): Option<Key> {
    match PA.FindBump(ctx, seeds, program)
    case None => None
    case Some(bump) => Some(PA.Bumped(ctx, seeds, bump, program))
  }

  /** The context of one instruction of a program. */
  function InstructionContext(ctx: PA.Context, program: seq<byte>, schema: BC.Schema, fields: seq<BC.Field>,
      values: map<string, BC.Value>): (c: Context)
    requires BC.Acyclic(schema)
    ensures forall seeds :: c.find(seeds) == AddressOf(ctx, program, seeds)
    ensures forall name :: c.argument(name) == Argument(schema, fields, values, name)
  {
    Context(name => Argument(schema, fields, values, name), seeds => AddressOf(ctx, program, seeds))
  }

  /** The context looks for addresses as the program does. */
  ghost predicate Finds(c: Context, ctx: PA.Context, program: seq<byte>) {
    forall seeds :: c.find(seeds) == AddressOf(ctx, program, seeds)
  }

  /** An address of these seeds: the one at the highest bump that is off the curve. */
  ghost predicate DerivedFrom(ctx: PA.Context, program: seq<byte>, parts: seq<seq<byte>>, address: Key) {
    && |parts| <= 15 && (forall i :: 0 <= i < |parts| ==> |parts[i]| <= 32)
    && !ctx.onCurve(address)
    && exists bump: byte :: PA.FoundAt(ctx, PA.Flatten(parts), program, bump, address)
  }

  /** The address of the parts that the seeds of an account stand for, each in its place. */
  ghost predicate AddressOfSeeds(
      c: Context, ctx: PA.Context, program: seq<byte>, seeds: seq<Seed>, known: Addresses, address: Key)
  {
    exists parts :: SeedParts(c, seeds, known, parts) && DerivedFrom(ctx, program, parts, address)
  }

  /** Whatever is derived is found at the highest bump, from the parts of the seeds in order. */
  lemma {:induction false} DerivedOffCurve(
      c: Context, ctx: PA.Context, program: seq<byte>, seeds: seq<Seed>, known: Addresses)
    requires Finds(c, ctx, program) && Derive(c, seeds, known).Ok?
    ensures AddressOfSeeds(c, ctx, program, seeds, known, Derive(c, seeds, known).value)
  {
    var key := Derive(c, seeds, known).value;
    DeriveExactly(c, seeds, known, key);
    var parts :| SeedParts(c, seeds, known, parts) && c.find(parts) == Some(key);
    var bump := PA.FindBump(ctx, parts, program).value;
    PA.FindBumpExactly(ctx, parts, program, bump);
    PA.HighestIs(ctx, parts, program, bump);
    assert DerivedFrom(ctx, program, parts, key);
  }

  /** Every address the passes derive is the address of its account's seeds, and off the curve. */
  lemma {:induction false} PassesDeriveOffCurve(
      c: Context, ctx: PA.Context, program: seq<byte>, accounts: seq<AccountSchema>, given: Addresses,
      a: AccountSchema)
    requires Finds(c, ctx, program) && DistinctNames(accounts) && a in accounts && a.pda.Some?
    requires a.name !in given && a.name in Resolved(c, accounts, given)
    ensures var known := Resolved(c, accounts, given);
      AddressOfSeeds(c, ctx, program, a.pda.value, known, known[a.name])
  {
    DerivedNeverRejected(c, accounts, given, a);
    DerivedOffCurve(c, ctx, program, a.pda.value, Resolved(c, accounts, given));
  }

  /** After a resolution that succeeds with verification, every account with seeds has their address. */
  lemma {:induction false} SeedsOfVerified(
      c: Context, ctx: PA.Context, program: seq<byte>, accounts: seq<AccountSchema>, given: Addresses,
      a: AccountSchema)
    requires Finds(c, ctx, program) && DistinctNames(accounts) && a in accounts && a.pda.Some?
    requires Succeeds(c, accounts, given, Resolved(c, accounts, given), true)
    ensures var known := Resolved(c, accounts, given);
      a.name in known && AddressOfSeeds(c, ctx, program, a.pda.value, known, known[a.name])
  {
    if a.name in given {
      ResolvedIsLeastFixedPoint(c, accounts, given);
      DerivedOffCurve(c, ctx, program, a.pda.value, Resolved(c, accounts, given));
    } else {
      PassesDeriveOffCurve(c, ctx, program, accounts, given, a);
    }
  }

  /** With the real curve test, no point of the curve is encoded by such an address: nothing signs for it. */
  lemma {:induction false} DerivedHasNoPoint(
      ctx: PA.Context, program: seq<byte>, parts: seq<seq<byte>>, address: Key, curve: EdwardsCurve.Curve)
    requires DerivedFrom(ctx, program, parts, address) && EdwardsCurve.Suitable(curve)
    requires forall bytes :: ctx.onCurve(bytes) == EdwardsCurve.CurveTest(curve, bytes)
    ensures !EdwardsCurve.EncodesMember(curve, address)
  {
    EdwardsCurve.AcceptsExactlyEncodings(curve, address);
  }

  //// The seeds of one instruction, with its own arguments

  ghost predicate FirstField(fields: seq<BC.Field>, name: string, k: nat) {
    k < |fields| && fields[k].name == name && forall j :: 0 <= j < k ==> fields[j].name != name
  }

  lemma {:induction false} FieldOfExactly(fields: seq<BC.Field>, name: string)
    ensures forall k: nat :: FirstField(fields, name, k) ==> FieldOf(fields, name) == Some(fields[k])
    ensures FieldOf(fields, name).Some? ==> exists k: nat :: FirstField(fields, name, k)
  {
    if fields != [] {
      if fields[0].name == name {
        assert FirstField(fields, name, 0);
      } else {
        FieldOfExactly(fields[1..], name);
        forall k: nat
          ensures FirstField(fields[1..], name, k) <==> FirstField(fields, name, k + 1)
        {
          assert forall j :: 0 < j < |fields| ==> fields[j] == fields[1..][j - 1];
        }
        if k: nat :| FirstField(fields[1..], name, k) {
          assert FirstField(fields, name, k + 1);
        }
        forall k: nat | FirstField(fields, name, k)
          ensures FieldOf(fields, name) == Some(fields[k])
        {
          assert k > 0 && FirstField(fields[1..], name, k - 1);
        }
      }
    }
  }

  /** What one seed stands for: a constant, an argument as its field's type writes it, or an address. */
  ghost predicate PartOf(schema: BC.Schema, fields: seq<BC.Field>, values: map<string, BC.Value>,
      seed: Seed, known: Addresses, part: seq<byte>)
    requires BC.Acyclic(schema)
  {
    match seed
    case ConstSeed(bytes) => part == bytes
    case ArgumentSeed(name) =>
      |part| <= 32 && name in values && exists k: nat ::
        FirstField(fields, name, k) && BC.EncodeType(schema, fields[k].type_, values[name]) == Ok(part)
    case AccountSeed(name) => name in known && known[name] == part
  }

  lemma {:induction false} PartOfExactly(c: Context, schema: BC.Schema, fields: seq<BC.Field>,
      values: map<string, BC.Value>, seed: Seed, known: Addresses, part: seq<byte>)
    requires BC.Acyclic(schema)
    requires forall name :: c.argument(name) == Argument(schema, fields, values, name)
    ensures SeedIs(c, seed, known, part) <==> PartOf(schema, fields, values, seed, known, part)
  {
    if seed.ArgumentSeed? {
      FieldOfExactly(fields, seed.name);
    }
  }

  /** The address of these seeds, with every seed's part given by the instruction's schema and arguments. */
  ghost predicate InstructionAddress(
      ctx: PA.Context, program: seq<byte>, schema: BC.Schema, fields: seq<BC.Field>, values: map<string, BC.Value>,
      seeds: seq<Seed>, known: Addresses, address: Key)
    requires BC.Acyclic(schema)
  {
    exists parts: seq<seq<byte>> ::
      |parts| == |seeds| && DerivedFrom(ctx, program, parts, address)
      && forall i :: 0 <= i < |seeds| ==> PartOf(schema, fields, values, seeds[i], known, parts[i])
  }

  lemma {:induction false} AddressOfInstruction(
      c: Context, ctx: PA.Context, program: seq<byte>, schema: BC.Schema, fields: seq<BC.Field>,
      values: map<string, BC.Value>, seeds: seq<Seed>, known: Addresses, address: Key)
    requires BC.Acyclic(schema) && AddressOfSeeds(c, ctx, program, seeds, known, address)
    requires forall name :: c.argument(name) == Argument(schema, fields, values, name)
    ensures InstructionAddress(ctx, program, schema, fields, values, seeds, known, address)
  {
    var parts :| SeedParts(c, seeds, known, parts) && DerivedFrom(ctx, program, parts, address);
    forall i | 0 <= i < |seeds|
      ensures PartOf(schema, fields, values, seeds[i], known, parts[i])
    {
      PartOfExactly(c, schema, fields, values, seeds[i], known, parts[i]);
    }
  }

  /** The addresses that were returned, by name. */
  ghost predicate Returned(accounts: seq<AccountSchema>, resolved: seq<ResolvedAccount>, known: Addresses) {
    && |resolved| == |accounts|
    && forall i :: 0 <= i < |accounts| ==>
      accounts[i].name in known && resolved[i] == ResolvedAccount(
        accounts[i].name, known[accounts[i].name], accounts[i].signer, accounts[i].writable)
  }

  /**
   Resolves the accounts of an instruction of a program. With verification, each returned address of
   an account with seeds is found at the highest bump from what its seeds stand for, each in its
   place, given the other returned addresses; it lies off the curve.
   */
  method ResolveAccounts(ctx: PA.Context, program: seq<byte>, schema: BC.Schema, fields: seq<BC.Field>,
      values: map<string, BC.Value>, accounts: seq<AccountSchema>, inputs: Addresses, verify: bool)
      returns (r: Result<seq<ResolvedAccount>, ResolveError>, ghost known: Addresses)
    requires BC.Acyclic(schema) && DistinctNames(accounts)
    ensures r.Ok? ==> Returned(accounts, r.value, known)
    ensures r.Ok? ==> forall i :: 0 <= i < |accounts| && accounts[i].name in inputs ==>
      r.value[i].address == inputs[accounts[i].name]
    ensures r.Ok? && verify ==> forall i :: 0 <= i < |accounts| && accounts[i].pda.Some? ==>
      InstructionAddress(ctx, program, schema, fields, values, accounts[i].pda.value, known, r.value[i].address)
  {
    var c := InstructionContext(ctx, program, schema, fields, values);
    ghost var given := Given(accounts, inputs);
    known := Resolved(c, accounts, given);
    r := ResolveInstructionAccounts(c, accounts, inputs, verify);
    if r.Ok? {
      GivenAre(accounts, inputs);
      ResolvedIsLeastFixedPoint(c, accounts, given);
      forall i | 0 <= i < |accounts|
        ensures accounts[i].name in inputs ==> r.value[i].address == inputs[accounts[i].name]
        ensures verify && accounts[i].pda.Some? ==> InstructionAddress(
          ctx, program, schema, fields, values, accounts[i].pda.value, known, r.value[i].address)
      {
        assert accounts[i] in accounts;
        if verify && accounts[i].pda.Some? {
          SeedsOfVerified(c, ctx, program, accounts, given, accounts[i]);
          AddressOfInstruction(
            c, ctx, program, schema, fields, values, accounts[i].pda.value, known, known[accounts[i].name]);
        }
      }
    }
  }
}
