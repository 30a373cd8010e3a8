/**
 Program-derived addresses: the curve test, hashing the seeds, and the search for a bump.
 */
module ProgramAddress {
  import opened Wrappers
  import opened Bytes
  import opened LittleEndianIntegers
  import opened ModularArithmetic
  import opened FermatTheorem
  import opened TwoNotASquare
  import opened EdwardsCurve
  import Base58

  type Hash = h: seq<byte> | |h| == 32 witness Zeros(32)

  /** The hash function and the curve test. */
  datatype Context = Context(hash: seq<byte> -> Hash, onCurve: seq<byte> -> bool)

  datatype AddressError =
    | TooManySeeds(maximum: nat)
    | SeedTooLong(index: nat)
    | MalformedProgram
    | DerivedOnCurve
    | NoneFound

  datatype Found = Found(address: string, bump: byte)

  //// The curve test with its constants

  /** Computes the constants of the curve over a field. */
  method CurveOver(p: Modulus, low: nat) returns (c: Curve)
    requires p > 121666 && p % 8 == 5 && p <= 128 * Power256(low)
    ensures c.p == p && c.low == low && 0 <= c.d < p
    ensures Prime(p) ==> Suitable(c) && Same(c.d * 121666, -121665, p)
  {
    Small(121666, p);
    Small(0, p);
    var inverse := ModularInverse(121666, p);
    var d := Modulo(-121665 * inverse.value, p);
    var i := ModularPower(2, (p - 1) / 4, p);
    ModuloIsResidue(-121665 * inverse.value, p);
    c := Curve(p, d, i, low);
    if Prime(p) {
      PrimeIsFermat(p);
      HalfPowerOfTwo(p);
      ConstantsSuitable(c, 121666, 2, inverse.value);
    }
  }

  lemma {:induction false} ConstantsSuitable(c: Curve, n: int, base: int, inverse: int)
    requires c.p % 8 == 5 && c.p <= 128 * Power256(c.low)
    requires Fermat(c.p) && Same(Power(base, (c.p - 1) / 2), -1, c.p)
    requires Same(n * inverse, 1, c.p)
    requires c.d == (1 - n) * inverse % c.p && c.i == Power(base, (c.p - 1) / 4) % c.p
    ensures Suitable(c) && Same(c.d * n, 1 - n, c.p)
  {
    CurveConstant(c.d, n, inverse, c.p);
    RootOfMinusOne(c.i, base, c.p);
  }

  lemma {:induction false} CurveConstant(d: int, n: int, inverse: int, p: Modulus)
    requires Same(n * inverse, 1, p) && d == (1 - n) * inverse % p
    ensures !Same(d, -1, p) && Same(d * n, 1 - n, p)
  {
    Reduce((1 - n) * inverse, p);
    Solved(d, 1 - n, n, inverse, p);
    NotMinusOne(d, n, p);
  }

  lemma {:induction false} Halves(p: int)
    requires p % 8 == 5
    ensures (p - 1) / 4 + (p - 1) / 4 == (p - 1) / 2
  {
  }

  lemma {:induction false} RootOfMinusOne(i: int, base: int, p: Modulus)
    requires p % 8 == 5 && Same(Power(base, (p - 1) / 2), -1, p) && i == Power(base, (p - 1) / 4) % p
    ensures Same(i * i, -1, p)
  {
    var q := (p - 1) / 4;
    Reduce(Power(base, q), p);
    SquareOfRoot(i, base, q, p);
    Halves(p);
  }

  lemma {:induction false} Solved(d: int, n: int, a: int, inverse: int, p: Modulus)
    requires Same(d, n * inverse, p) && Same(a * inverse, 1, p)
    ensures Same(d * a, n, p)
  {
    TimesSame(d, n * inverse, a, a, p);
    Associate(n, inverse, a);
    assert inverse * a == a * inverse;
    TimesSame(n, n, a * inverse, 1, p);
  }

  lemma {:induction false} NotMinusOne(d: int, n: int, p: Modulus)
    requires Same(d * n, 1 - n, p)
    ensures !Same(d, -1, p)
  {
    Small(0, p);
    Small(1, p);
    if Same(d, -1, p) {
      TimesSame(d, -1, n, n, p);
      MinusSame(1 - n, -n, -n, -n, p);
    }
  }

  lemma {:induction false} SquareOfRoot(i: int, base: int, q: nat, p: Modulus)
    requires Same(i, Power(base, q), p)
    ensures Same(i * i, Power(base, q + q), p)
  {
    SquareSame(i, Power(base, q), p);
    PowerPlus(base, q, q);
  }

  method Ed25519Curve() returns (c: Curve)
    ensures c.p == 0x7fff_ffff_ffff_ffff_ffff_ffff_ffff_ffff_ffff_ffff_ffff_ffff_ffff_ffff_ffff_ffed
    ensures c.low == 31 && 0 <= c.d < c.p
    ensures Prime(c.p) ==> Suitable(c) && Same(c.d * 121_666, -121_665, c.p)
  {
    Bits248(31);
    c := CurveOver(0x7fff_ffff_ffff_ffff_ffff_ffff_ffff_ffff_ffff_ffff_ffff_ffff_ffff_ffff_ffff_ffed, 31);
  }

  method IsEd25519CurvePoint(c: Curve, compressedPoint: seq<byte>) returns (accepted: bool)
    ensures accepted == CurveTest(c, compressedPoint)
    ensures Suitable(c) ==> (accepted <==> EncodesMember(c, compressedPoint))
  {
    if Suitable(c) {
      AcceptsExactlyEncodings(c, compressedPoint);
    }
    if |compressedPoint| != c.low + 1 {
      return false;
    }
    var sign := compressedPoint[c.low] / 128;
    var encodedY := compressedPoint[c.low := compressedPoint[c.low] % 128];
    assert encodedY == Cleared(c, compressedPoint);
    var y: nat := DecodeUnsignedInteger(encodedY);
    if y >= c.p {
      return false;
    }
    var x := FindX(c, y);
    return x.Some? && !(x.value == 0 && sign == 1);
  }

  method FindX(c: Curve, y: int) returns (r: Option<int>)
    ensures r == RecoverX(c, y)
  {
    var ySquared := Modulo(y * y, c.p);
    var numerator := Modulo(ySquared - 1, c.p);
    var denominator := Modulo(c.d * ySquared + 1, c.p);
    ModuloIsResidue(y * y, c.p);
    ModuloIsResidue(ySquared - 1, c.p);
    ModuloIsResidue(c.d * ySquared + 1, c.p);
    if denominator == 0 {
      return None;
    }
    Reduce(c.d * ySquared + 1, c.p);
    Small(denominator, c.p);
    Small(0, c.p);
    var inverse := ModularInverse(denominator, c.p);
    var xSquared := Modulo(numerator * inverse.value, c.p);
    ModuloIsResidue(numerator * inverse.value, c.p);
    r := FindRoot(c, xSquared);
  }

  method FindRoot(c: Curve, xSquared: int) returns (r: Option<int>)
    ensures r == Root(c, xSquared)
  {
    var x := ModularPower(xSquared, (c.p + 3) / 8, c.p);
    ModuloIsResidue(x * x - xSquared, c.p);
    if Modulo(x * x - xSquared, c.p) != 0 {
      ModuloIsResidue(x * c.i, c.p);
      x := Modulo(x * c.i, c.p);
    }
    ModuloIsResidue(x * x - xSquared, c.p);
    if Modulo(x * x - xSquared, c.p) != 0 {
      return None;
    }
    return Some(x);
  }

  //// Seeds

  function Flatten(parts: seq<seq<byte>>): seq<byte> {
    if parts == [] then [] else Flatten(parts[..|parts| - 1]) + parts[|parts| - 1]
  }

  lemma {:induction false} FlattenAppend(parts: seq<seq<byte>>, part: seq<byte>)
    ensures Flatten(parts + [part]) == Flatten(parts) + part
  {
    assert (parts + [part])[..|parts|] == parts;
  }

  method Concatenate(parts: seq<seq<byte>>) returns (bytes: seq<byte>)
    ensures bytes == Flatten(parts)
  {
    bytes := [];
    for index := 0 to |parts|
      invariant bytes == Flatten(parts[..index])
    {
      TakeNext(parts, index);
      FlattenAppend(parts[..index], parts[index]);
      bytes := bytes + parts[index];
    }
    TakeAll(parts);
  }

  predicate SeedsFit(seeds: seq<seq<byte>>, maximum: nat) {
    |seeds| <= maximum && forall i :: 0 <= i < |seeds| ==> |seeds[i]| <= 32
  }

  /** The error for seeds that do not fit: too many, or else the first that is too long. */
  ghost predicate SeedError(seeds: seq<seq<byte>>, maximum: nat, error: AddressError) {
    if |seeds| > maximum then error == TooManySeeds(maximum)
    else exists i ::
      (0 <= i < |seeds| && |seeds[i]| > 32 && error == SeedTooLong(i) && forall j :: 0 <= j < i ==> |seeds[j]| <= 32)
  }

  method ValidateSeeds(seeds: seq<seq<byte>>, maximum: nat) returns (error: Option<AddressError>)
    ensures error.None? <==> SeedsFit(seeds, maximum)
    ensures error.None? <==> |seeds| <= maximum && forall i :: 0 <= i < |seeds| ==> |seeds[i]| <= 32
    ensures error.Some? ==> SeedError(seeds, maximum, error.value)
  {
    if |seeds| > maximum {
      return Some(TooManySeeds(maximum));
    }
    for index := 0 to |seeds|
      invariant forall j :: 0 <= j < index ==> |seeds[j]| <= 32
    {
      if |seeds[index]| > 32 {
        return Some(SeedTooLong(index));
      }
    }
    return None;
  }

  //// One address

  /** The text "ProgramDerivedAddress". */
  const Marker: seq<byte> :=
    [80, 114, 111, 103, 114, 97, 109, 68, 101, 114, 105, 118, 101, 100, 65, 100, 100, 114, 101, 115, 115]

  /** What the seeds and a program hash to. */
  function Digest(ctx: Context, seeds: seq<seq<byte>>, program: seq<byte>): Hash {
    ctx.hash(Flatten(seeds) + program + Marker)
  }

  /** The characters of an ASCII text. */
  function TextBytes(s: string): (bs: seq<byte>)
    requires forall i :: 0 <= i < |s| ==> s[i] as int < 128
    ensures |bs| == |s| && forall i :: 0 <= i < |s| ==> bs[i] == s[i] as int
  {
    seq(|s|, i requires 0 <= i < |s| => s[i] as int)
  }

  /** The 32 bytes of an address: the hash of the seeds one after the other, the program, and the text. */
  ghost function AddressBytes(ctx: Context, seeds: seq<byte>, program: seq<byte>): Hash {
    ctx.hash(seeds + program + TextBytes("ProgramDerivedAddress"))
  }

  lemma {:induction false} FlattenFirst(first: seq<byte>, rest: seq<seq<byte>>)
    ensures Flatten([]) == [] && Flatten([first] + rest) == first + Flatten(rest)
    decreases |rest|
  {
    if rest == [] {
      assert [first] + rest == [] + [first];
      FlattenAppend([], first);
    } else {
      var init, last := SplitLast(rest);
      FlattenFirst(first, init);
      FlattenAppend(init, last);
      FlattenAppend([first] + init, last);
      assert [first] + rest == ([first] + init) + [last];
    }
  }

  lemma {:induction false} DigestIs(ctx: Context, seeds: seq<seq<byte>>, program: seq<byte>)
    ensures Digest(ctx, seeds, program) == AddressBytes(ctx, Flatten(seeds), program)
    ensures forall bump: byte ::
      Bumped(ctx, seeds, bump, program) == AddressBytes(ctx, Flatten(seeds) + [bump], program)
  {
    assert Marker == TextBytes("ProgramDerivedAddress");
    forall bump: byte
      ensures Flatten(seeds + [[bump]]) == Flatten(seeds) + [bump]
    {
      FlattenAppend(seeds, [bump]);
    }
  }

  method CreateProgramAddress(ctx: Context, seeds: seq<seq<byte>>, program: string)
      returns (r: Result<string, AddressError>)
    ensures var key := Base58.DecodePublicKey(program);
      r.Ok? <==> SeedsFit(seeds, 16) && key.Ok? && !ctx.onCurve(Digest(ctx, seeds, key.value))
    ensures r.Ok? ==> r.value == Base58.Encode(Digest(ctx, seeds, Base58.DecodePublicKey(program).value))
    ensures !SeedsFit(seeds, 16) ==> r.Err? && SeedError(seeds, 16, r.error)
    ensures SeedsFit(seeds, 16) && r.Err? ==>
      r.error == if Base58.DecodePublicKey(program).Err? then MalformedProgram else DerivedOnCurve
    ensures r.Ok? ==>
      var address := AddressBytes(ctx, Flatten(seeds), Base58.DecodePublicKey(program).value);
      !ctx.onCurve(address) && r.value == Base58.Encode(address)
  {
    var invalid := ValidateSeeds(seeds, 16);
    if invalid.Some? {
      return Err(invalid.value);
    }
    var key := Base58.DecodePublicKey(program);
    if key.Err? {
      return Err(MalformedProgram);
    }
    var input := Concatenate(seeds + [key.value, Marker]);
    assert seeds + [key.value, Marker] == (seeds + [key.value]) + [Marker];
    FlattenAppend(seeds + [key.value], Marker);
    FlattenAppend(seeds, key.value);
    DigestIs(ctx, seeds, key.value);
    var address := ctx.hash(input);
    if ctx.onCurve(address) {
      return Err(DerivedOnCurve);
    }
    return Ok(Base58.Encode(address));
  }

  //// The search

  function Bumped(ctx: Context, seeds: seq<seq<byte>>, bump: byte, program: seq<byte>): Hash {
    Digest(ctx, seeds + [[bump]], program)
  }

  ghost predicate OnCurveAbove(ctx: Context, seeds: seq<seq<byte>>, program: seq<byte>, bump: int) {
    forall higher: byte :: bump < higher ==> ctx.onCurve(Bumped(ctx, seeds, higher, program))
  }

  /** The highest bump whose address is off the curve. */
  ghost predicate Highest(ctx: Context, seeds: seq<seq<byte>>, program: seq<byte>, bump: byte) {
    !ctx.onCurve(Bumped(ctx, seeds, bump, program)) && OnCurveAbove(ctx, seeds, program, bump)
  }

  lemma {:induction false} OneMoreOnCurve(ctx: Context, seeds: seq<seq<byte>>, program: seq<byte>, bump: byte)
    requires ctx.onCurve(Bumped(ctx, seeds, bump, program)) && OnCurveAbove(ctx, seeds, program, bump)
    ensures OnCurveAbove(ctx, seeds, program, bump - 1)
  {
  }

  /** The address is that of these seeds and this bump, off the curve, and every higher bump's is on it. */
  ghost predicate FoundAt(ctx: Context, seeds: seq<byte>, program: seq<byte>, bump: byte, address: seq<byte>) {
    && address == AddressBytes(ctx, seeds + [bump], program) && !ctx.onCurve(address)
    && forall higher: byte :: bump < higher ==> ctx.onCurve(AddressBytes(ctx, seeds + [higher], program))
  }

  lemma {:induction false} HighestIs(ctx: Context, seeds: seq<seq<byte>>, program: seq<byte>, bump: byte)
    ensures Highest(ctx, seeds, program, bump)
      <==> FoundAt(ctx, Flatten(seeds), program, bump, Bumped(ctx, seeds, bump, program))
  {
    DigestIs(ctx, seeds, program);
  }

  /** The search as a function: bumps from `bump` down. */
  function FindFrom(ctx: Context, seeds: seq<seq<byte>>, program: seq<byte>, bump: int): Option<byte>
    requires -1 <= bump < 256
    decreases bump + 1
  {
    if bump < 0 then None
    else if !ctx.onCurve(Bumped(ctx, seeds, bump, program)) then Some(bump)
    else FindFrom(ctx, seeds, program, bump - 1)
  }

  /** The bump found for seeds that fit. */
  function FindBump(ctx: Context, seeds: seq<seq<byte>>, program: seq<byte>): Option<byte> {
    if SeedsFit(seeds, 15) then FindFrom(ctx, seeds, program, 255) else None
  }

  lemma {:induction false} FindFromHighest(
      ctx: Context, seeds: seq<seq<byte>>, program: seq<byte>, bump: int)
    requires -1 <= bump < 256 && OnCurveAbove(ctx, seeds, program, bump)
    ensures var found := FindFrom(ctx, seeds, program, bump);
      if found.Some? then Highest(ctx, seeds, program, found.value) else OnCurveAbove(ctx, seeds, program, -1)
    decreases bump + 1
  {
    if bump >= 0 && ctx.onCurve(Bumped(ctx, seeds, bump, program)) {
      OneMoreOnCurve(ctx, seeds, program, bump);
      FindFromHighest(ctx, seeds, program, bump - 1);
    }
  }

  /** A bump is found exactly when it is the highest with an address off the curve. */
  lemma {:induction false} FindBumpExactly(ctx: Context, seeds: seq<seq<byte>>, program: seq<byte>, bump: byte)
    ensures FindBump(ctx, seeds, program) == Some(bump)
      <==> SeedsFit(seeds, 15) && Highest(ctx, seeds, program, bump)
  {
    FindFromHighest(ctx, seeds, program, 255);
  }

  lemma {:induction false} BumpFits(seeds: seq<seq<byte>>, bump: byte)
    requires SeedsFit(seeds, 15)
    ensures SeedsFit(seeds + [[bump]], 16)
  {
  }

  method FindProgramAddress(ctx: Context, seeds: seq<seq<byte>>, program: string)
      returns (r: Result<Found, AddressError>)
    ensures r.Ok? ==> SeedsFit(seeds, 15) && Base58.DecodePublicKey(program).Ok?
    ensures r.Ok? ==> Highest(ctx, seeds, Base58.DecodePublicKey(program).value, r.value.bump)
    ensures r.Ok? ==>
      r.value.address == Base58.Encode(Bumped(ctx, seeds, r.value.bump, Base58.DecodePublicKey(program).value))
    ensures r.Ok? ==> exists address ::
      r.value.address == Base58.Encode(address)
      && FoundAt(ctx, Flatten(seeds), Base58.DecodePublicKey(program).value, r.value.bump, address)
    ensures Base58.DecodePublicKey(program).Ok? ==>
      FindBump(ctx, seeds, Base58.DecodePublicKey(program).value) == if r.Ok? then Some(r.value.bump) else None
    ensures !SeedsFit(seeds, 15) ==> r.Err? && SeedError(seeds, 15, r.error)
    ensures SeedsFit(seeds, 15) && Base58.DecodePublicKey(program).Err? ==> r == Err(MalformedProgram)
    ensures SeedsFit(seeds, 15) && Base58.DecodePublicKey(program).Ok? && r.Err? ==> r.error == NoneFound
    ensures SeedsFit(seeds, 15) && Base58.DecodePublicKey(program).Ok? && r.Err? ==>
      OnCurveAbove(ctx, seeds, Base58.DecodePublicKey(program).value, -1)
  {
    var invalid := ValidateSeeds(seeds, 15);
    if invalid.Some? {
      return Err(invalid.value);
    }
    var bump: int := 255;
    while bump >= 0
      invariant -1 <= bump <= 255
      invariant bump < 255 ==> Base58.DecodePublicKey(program).Ok?
      invariant bump < 255 ==> OnCurveAbove(ctx, seeds, Base58.DecodePublicKey(program).value, bump)
    {
      var suffix: byte := bump;
      BumpFits(seeds, suffix);
      var created := CreateProgramAddress(ctx, seeds + [[suffix]], program);
      if created.Ok? {
        FindBumpExactly(ctx, seeds, Base58.DecodePublicKey(program).value, suffix);
        HighestIs(ctx, seeds, Base58.DecodePublicKey(program).value, suffix);
        return Ok(Found(created.value, suffix));
      }
      if created.error != DerivedOnCurve {
        return Err(created.error);
      }
      OneMoreOnCurve(ctx, seeds, Base58.DecodePublicKey(program).value, suffix);
      bump := bump - 1;
    }
    FindFromHighest(ctx, seeds, Base58.DecodePublicKey(program).value, 255);
    return Err(NoneFound);
  }

  //// What the addresses are good for

  /** An address derived with the real curve test decodes to bytes that encode no point of the curve. */
  lemma {:induction false} DerivedAddressHasNoPoint(c: Curve, ctx: Context, seeds: seq<seq<byte>>, program: seq<byte>)
    requires Suitable(c) && (forall bytes :: ctx.onCurve(bytes) == CurveTest(c, bytes))
    requires !ctx.onCurve(Digest(ctx, seeds, program))
    ensures var decoded := Base58.DecodePublicKey(Base58.Encode(Digest(ctx, seeds, program)));
      decoded.Ok? && !EncodesMember(c, decoded.value)
  {
    var address := Digest(ctx, seeds, program);
    Base58.EncodeIsKey(address);
    AcceptsExactlyEncodings(c, address);
  }

  /** Where one seed ends and the next begins leaves no trace in the address. */
  lemma {:induction false} SeedBoundariesInvisible(
      ctx: Context, a: seq<byte>, b: seq<byte>, rest: seq<seq<byte>>, program: seq<byte>)
    ensures Digest(ctx, [a, b] + rest, program) == Digest(ctx, [a + b] + rest, program)
  {
    FlattenPrefix(a, b, rest);
  }

  lemma {:induction false} FlattenLast(first: seq<seq<byte>>, rest: seq<seq<byte>>)
    requires rest != []
    ensures Flatten(first + rest) == Flatten(first + rest[..|rest| - 1]) + rest[|rest| - 1]
  {
    var init, last := rest[..|rest| - 1], rest[|rest| - 1];
    assert first + rest == (first + init) + [last];
    FlattenAppend(first + init, last);
  }

  lemma {:induction false} FlattenPrefix(a: seq<byte>, b: seq<byte>, rest: seq<seq<byte>>)
    ensures Flatten([a, b] + rest) == Flatten([a + b] + rest)
  {
    if rest == [] {
      assert [a, b] + rest == [a] + [b] && [a + b] + rest == [] + [a + b] && [a] == [] + [a];
      FlattenAppend([a], b);
      FlattenAppend([], a);
      FlattenAppend([], a + b);
    } else {
      FlattenPrefix(a, b, rest[..|rest| - 1]);
      FlattenLast([a, b], rest);
      FlattenLast([a + b], rest);
    }
  }
}
