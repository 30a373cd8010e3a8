/** Instruction data: a discriminator that selects the instruction, then its arguments; decoding inverts encoding. */
module InstructionData {
  import opened Wrappers
  import opened Bytes
  import opened BinaryCodec
  import opened BinaryCodecCorrect
  import opened BinaryCodecCanonical
  import opened BinaryReading

  datatype Instruction = Instruction(name: string, discriminator: seq<byte>, arguments: seq<Field>)

  datatype Catalogue = Catalogue(schema: Schema, width: nat, instructions: seq<Instruction>)

  datatype DataError =
    | TooShort | UnknownDiscriminator | BadArguments(error: CodecError) | Trailing(count: nat)

  datatype Decoded = Decoded(name: string, arguments: map<string, Value>)

  /** The first instruction from `start` on with this discriminator, or the number of instructions. */
  function MatchFrom(instructions: seq<Instruction>, discriminator: seq<byte>, start: nat): (n: nat)
    requires start <= |instructions|
    ensures start <= n <= |instructions|
    ensures n < |instructions| ==> instructions[n].discriminator == discriminator
    ensures forall i :: start <= i < n ==> instructions[i].discriminator != discriminator
    decreases |instructions| - start
  {
    if start == |instructions| || instructions[start].discriminator == discriminator then start
    else MatchFrom(instructions, discriminator, start + 1)
  }

  function FirstMatch(instructions: seq<Instruction>, discriminator: seq<byte>): nat {
    MatchFrom(instructions, discriminator, 0)
  }

  function Encode(cat: Catalogue, i: Instruction, arguments: map<string, Value>): Result<seq<byte>, CodecError>
    requires Acyclic(cat.schema)
  {
    Append(Ok(i.discriminator), EncodeFields(cat.schema, i.arguments, arguments, false))
  }

  function DecodeArguments(cat: Catalogue, i: Instruction, bytes: seq<byte>): Result<Decoded, DataError>
    requires Acyclic(cat.schema)
  {
    match DecodeFields(cat.schema, i.arguments, bytes)
    case Err(e) => Err(BadArguments(e))
    case Ok((arguments, rest)) => if rest != [] then Err(Trailing(|rest|)) else Ok(Decoded(i.name, arguments))
  }

  function Decode(cat: Catalogue, data: seq<byte>): Result<Decoded, DataError>
    requires Acyclic(cat.schema)
  {
    if |data| < cat.width then Err(TooShort)
    else
      var n := FirstMatch(cat.instructions, data[..cat.width]);
      if n == |cat.instructions| then Err(UnknownDiscriminator)
      else DecodeArguments(cat, cat.instructions[n], data[cat.width..])
  }

  method DecodeInstructionData(cat: Catalogue, data: seq<byte>) returns (r: Result<Decoded, DataError>)
    requires Acyclic(cat.schema)
    ensures r == Decode(cat, data)
  {
    if |data| < cat.width {
      return Err(TooShort);
    }
    var found := FindInstruction(cat, data[..cat.width]);
    if found == |cat.instructions| {
      return Err(UnknownDiscriminator);
    }
    var instruction := cat.instructions[found];
    var reader := OpenReader(data, cat.width);
    var arguments := ReadStruct(cat.schema, instruction.arguments, reader.value);
    if arguments.Err? {
      return Err(BadArguments(arguments.error));
    }
    if reader.value.offset != |reader.value.data| {
      return Err(Trailing(|data| - reader.value.offset));
    }
    return Ok(Decoded(instruction.name, arguments.value));
  }

  method FindInstruction(cat: Catalogue, discriminator: seq<byte>) returns (found: nat)
    ensures found == FirstMatch(cat.instructions, discriminator)
  {
    for i := 0 to |cat.instructions|
      invariant FirstMatch(cat.instructions, discriminator) == MatchFrom(cat.instructions, discriminator, i)
    {
      if cat.instructions[i].discriminator == discriminator {
        return i;
      }
    }
    return |cat.instructions|;
  }

  //// Exactness

  ghost predicate DistinctDiscriminators(cat: Catalogue) {
    forall i, j :: 0 <= i < j < |cat.instructions| ==>
      cat.instructions[i].discriminator != cat.instructions[j].discriminator
  }

  /** A catalogue whose arguments have one encoding each, and whose discriminators have their width. */
  ghost predicate WellFormed(cat: Catalogue) {
    Tidy(cat.schema) && forall i :: i in cat.instructions ==>
      |i.discriminator| == cat.width && DistinctNames(i.arguments) && FieldsCanonical(cat.schema, i.arguments)
  }

  /** Arguments for exactly the fields of an instruction. */
  ghost predicate Fits(cat: Catalogue, i: Instruction, arguments: map<string, Value>)
    requires Acyclic(cat.schema)
  {
    arguments.Keys == BinaryCodecCorrect.Names(i.arguments) && FieldsHaveType(cat.schema, i.arguments, arguments)
  }

  lemma {:induction false} ArgumentsExactly(
      cat: Catalogue, i: Instruction, bytes: seq<byte>, arguments: map<string, Value>)
    requires WellFormed(cat) && i in cat.instructions
    ensures DecodeArguments(cat, i, bytes) == Ok(Decoded(i.name, arguments))
      <==> Fits(cat, i, arguments) && EncodeFields(cat.schema, i.arguments, arguments, false) == Ok(bytes)
  {
    var fields := i.arguments;
    if DecodeArguments(cat, i, bytes) == Ok(Decoded(i.name, arguments)) {
      FieldsExact(cat.schema, fields, bytes);
      var written := EncodeFields(cat.schema, fields, arguments, false).value;
      assert written + [] == written;
    }
    if Fits(cat, i, arguments) && EncodeFields(cat.schema, fields, arguments, false) == Ok(bytes) {
      FieldsRoundTrip(cat.schema, fields, arguments, false);
      assert bytes + [] == bytes;
      assert Restrict(arguments, BinaryCodecCorrect.Names(fields)) == arguments;
    }
  }

  /** An instruction can be selected exactly when none before it has the same discriminator. */
  lemma {:induction false} SelectedExactly(cat: Catalogue, k: nat)
    requires k < |cat.instructions|
    ensures FirstMatch(cat.instructions, cat.instructions[k].discriminator) == k
      <==> forall j :: 0 <= j < k ==> cat.instructions[j].discriminator != cat.instructions[k].discriminator
  {
  }

  /** What is decoded is exactly what was encoded, for each instruction and all fitting arguments. */
  lemma {:induction false} DecodesExactly(cat: Catalogue, data: seq<byte>, k: nat, arguments: map<string, Value>)
    requires WellFormed(cat) && k < |cat.instructions| && DistinctDiscriminators(cat)
    ensures var i := cat.instructions[k];
      (|data| >= cat.width && FirstMatch(cat.instructions, data[..cat.width]) == k
       && Decode(cat, data) == Ok(Decoded(i.name, arguments)))
      <==> Fits(cat, i, arguments) && Encode(cat, i, arguments) == Ok(data)
    ensures Encode(cat, cat.instructions[k], arguments) == Ok(data)
      <==> (cat.instructions[k].discriminator <= data
            && EncodeFields(cat.schema, cat.instructions[k].arguments, arguments, false) == Ok(data[cat.width..]))
  {
    var i := cat.instructions[k];
    SelectedExactly(cat, k);
    if |data| >= cat.width {
      ArgumentsExactly(cat, i, data[cat.width..], arguments);
      assert data == data[..cat.width] + data[cat.width..];
    }
    if Encode(cat, i, arguments) == Ok(data) {
      assert data[..cat.width] == i.discriminator;
      assert data[cat.width..] == EncodeFields(cat.schema, i.arguments, arguments, false).value;
    }
  }

  /** Exactly why instruction data is refused before its arguments are read. */
  lemma {:induction false} RefusedExactly(cat: Catalogue, data: seq<byte>)
    requires Acyclic(cat.schema)
    ensures Decode(cat, data) == Err(TooShort) <==> |data| < cat.width
    ensures Decode(cat, data) == Err(UnknownDiscriminator) <==>
      |data| >= cat.width
      && forall k :: 0 <= k < |cat.instructions| ==> cat.instructions[k].discriminator != data[..cat.width]
  {
  }

  /** The first instruction with the discriminator reads the arguments; nothing may be left over. */
  lemma {:induction false} SelectedReads(cat: Catalogue, data: seq<byte>, k: nat)
    requires Acyclic(cat.schema) && |data| >= cat.width && k < |cat.instructions|
    requires cat.instructions[k].discriminator == data[..cat.width]
    requires forall j :: 0 <= j < k ==> cat.instructions[j].discriminator != data[..cat.width]
    ensures match DecodeFields(cat.schema, cat.instructions[k].arguments, data[cat.width..])
      case Err(e) => Decode(cat, data) == Err(BadArguments(e))
      case Ok((arguments, rest)) =>
        Decode(cat, data) ==
          if rest == [] then Ok(Decoded(cat.instructions[k].name, arguments)) else Err(Trailing(|rest|))
  {
    SelectedExactly(cat, k);
  }

  /** One byte string never encodes two instructions, nor one instruction with two lists of arguments. */
  lemma {:induction false} EncodingsDistinct(
      cat: Catalogue, data: seq<byte>, j: nat, a: map<string, Value>, k: nat, b: map<string, Value>)
    requires WellFormed(cat) && DistinctDiscriminators(cat) && j < |cat.instructions| && k < |cat.instructions|
    requires Fits(cat, cat.instructions[j], a) && Fits(cat, cat.instructions[k], b)
    requires Encode(cat, cat.instructions[j], a) == Ok(data) && Encode(cat, cat.instructions[k], b) == Ok(data)
    ensures j == k && a == b
  {
    DecodesExactly(cat, data, j, a);
    DecodesExactly(cat, data, k, b);
  }
}
