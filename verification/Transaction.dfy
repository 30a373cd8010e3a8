/** Transactions: length-prefixed 64-byte signatures in front of the message they sign. */
module Transaction {
  import opened Wrappers
  import opened Bytes
  import opened Message
  import opened AccountMetas
  import opened Denotation
  import opened Compiler
  import opened CompilerCorrect
  import opened CompiledMessages
  import SV = ShortVector

  type Signature = s: seq<byte> | |s| == 64 witness Zeros(64)

  const MAX_TRANSACTION_BYTES := 1232

  datatype TransactionError =
    | SignatureLength(index: nat)
    | MissingKeypair(signer: Key)
    | SeedMismatch(signer: Key)
    | TooLarge(length: nat)
    | NoSignatures

  //// Serialising and splitting

  function WriteSignature(s: Signature): seq<byte> {
    s
  }

  function ParseSignature(bs: seq<byte>): Option<(Signature, seq<byte>)> {
    match Take(bs, 64)
    case None => None
    case Some((s, rest)) => Some((s, rest))
  }

  function TransactionBytes(signatures: seq<Signature>, message: seq<byte>): seq<byte> {
    Vector(signatures, WriteSignature) + message
  }

  /** The first entry that is not 64 bytes long, or the length. */
  function FirstBad(signatures: seq<seq<byte>>): (n: nat)
    ensures n <= |signatures|
    ensures n < |signatures| ==> |signatures[n]| != 64
    ensures forall i :: 0 <= i < n ==> |signatures[i]| == 64
  {
    if signatures == [] || |signatures[0]| != 64 then 0 else 1 + FirstBad(signatures[1..])
  }

  function Serialized(message: seq<byte>, signatures: seq<seq<byte>>): Result<seq<byte>, TransactionError> {
    if FirstBad(signatures) < |signatures| then Err(SignatureLength(FirstBad(signatures)))
    else Ok(TransactionBytes(signatures, message))
  }

  function Split(bs: seq<byte>): Option<(seq<Signature>, seq<byte>)> {
    ParseVector(bs, ParseSignature)
  }

  lemma {:induction false} SignatureInverse()
    ensures Reads(ParseSignature, WriteSignature) && Exact(ParseSignature, WriteSignature)
  {
    forall s: Signature, rest: seq<byte>
      ensures ParseSignature(WriteSignature(s) + rest) == Some((s, rest))
    {
      TakePrefix(s, rest);
    }
  }

  /** A transaction splits into signatures and message in exactly one way. */
  lemma {:induction false} SplitsUniquely(bs: seq<byte>, signatures: seq<Signature>, message: seq<byte>)
    ensures Split(bs) == Some((signatures, message)) <==> bs == TransactionBytes(signatures, message)
  {
    SignatureInverse();
    VectorRoundTrip(signatures, message, ParseSignature, WriteSignature);
    if Split(bs).Some? {
      VectorExact(bs, ParseSignature, WriteSignature);
    }
  }

  lemma {:induction false} SignaturesLength(signatures: seq<Signature>)
    ensures |WriteMany(signatures, WriteSignature)| == 64 * |signatures|
  {
    if signatures != [] {
      SignaturesLength(signatures[1..]);
    }
  }

  lemma {:induction false} TransactionLength(signatures: seq<Signature>, message: seq<byte>)
    ensures |TransactionBytes(signatures, message)| >= 64 * |signatures|
  {
    SignaturesLength(signatures);
  }

  /** The number of signatures, each at its 64 bytes in order, then the message. */
  lemma {:induction false} LayoutOfTransaction(signatures: seq<Signature>, message: seq<byte>, bs: seq<byte>)
    requires bs == TransactionBytes(signatures, message) && |signatures| < 128
    ensures |bs| == 1 + 64 * |signatures| + |message| && bs[0] == |signatures|
    ensures forall i :: 0 <= i < |signatures| ==> bs[1 + 64 * i..1 + 64 * (i + 1)] == signatures[i]
    ensures bs[1 + 64 * |signatures|..] == message
  {
    var count := [|signatures|];
    assert SV.Encode(|signatures|) == count;
    ItemsLength(signatures, WriteSignature, 64);
    Assoc(count, WriteMany(signatures, WriteSignature), message);
    forall i | 0 <= i < |signatures|
      ensures 1 + 64 * (i + 1) <= |bs| && bs[1 + 64 * i..1 + 64 * (i + 1)] == signatures[i]
    {
      ItemWithin(count, signatures, WriteSignature, 64, message, i);
    }
  }

  lemma {:induction false} FirstBadIs(signatures: seq<seq<byte>>, n: nat)
    requires n <= |signatures| && forall i :: 0 <= i < n ==> |signatures[i]| == 64
    requires n < |signatures| ==> |signatures[n]| != 64
    ensures FirstBad(signatures) == n
  {
  }

  method SerializeTransaction(message: seq<byte>, signatures: seq<seq<byte>>)
      returns (r: Result<seq<byte>, TransactionError>)
    ensures r == Serialized(message, signatures)
  {
    var length := SV.EncodeShortVectorLength(|signatures|);
    var bytes := length;
    ghost var seen: seq<Signature> := [];
    for i := 0 to |signatures|
      invariant forall j :: 0 <= j < i ==> |signatures[j]| == 64
      invariant seen == signatures[..i] && bytes == length + WriteMany(seen, WriteSignature)
    {
      if |signatures[i]| != 64 {
        FirstBadIs(signatures, i);
        return Err(SignatureLength(i));
      }
      WriteAppend<Signature>(seen, signatures[i], WriteSignature);
      Assoc(length, WriteMany(seen, WriteSignature), signatures[i]);
      bytes := bytes + signatures[i];
      TakeNext(signatures, i);
      seen := seen + [signatures[i]];
    }
    TakeAll(signatures);
    FirstBadIs(signatures, |signatures|);
    return Ok(bytes + message);
  }

  /** What either form of the compiler returns for some input. */
  ghost predicate IsCompiled(c: CompiledMessage) {
    exists version, feePayer, instructions, blockhash, tables ::
      SmallTables(tables) && CompileWith(version, feePayer, instructions, blockhash, tables) == Ok(c)
  }

  lemma {:induction false} CompiledSigners(c: CompiledMessage)
    requires IsCompiled(c)
    ensures c.header.signatures == |c.signerAddresses| > 0
  {
    var version, feePayer, instructions, blockhash, tables :|
      SmallTables(tables) && CompileWith(version, feePayer, instructions, blockhash, tables) == Ok(c);
    HeaderExactly(version, feePayer, instructions, blockhash, tables, c);
    assert feePayer in Signing(feePayer, instructions);
  }

  /** One zero signature for each signer of a compiled message, in front of its bytes. */
  method CreateUnsignedTransaction(c: CompiledMessage) returns (bytes: seq<byte>)
    ensures Split(bytes) == Some((seq(c.header.signatures, _ => Zeros(64)), c.bytes))
    ensures IsCompiled(c) ==> Split(bytes) == Some((seq(|c.signerAddresses|, _ => Zeros(64)), c.bytes))
  {
    if IsCompiled(c) {
      CompiledSigners(c);
    }
    var signatures: seq<Signature> := [];
    for i := 0 to c.header.signatures
      invariant signatures == seq(i, _ => Zeros(64))
    {
      signatures := signatures + [Zeros(64)];
    }
    var r := SerializeTransaction(c.bytes, signatures);
    FirstBadIs(signatures, |signatures|);
    SplitsUniquely(r.value, signatures, c.bytes);
    return r.value;
  }

  //// Signing

  datatype Keypair = Keypair(publicKey: Key, seed: seq<byte>)

  /** The signature of a message by a keypair; none when the seed does not match the public key. */
  type Signer = (seq<byte>, Keypair) -> Option<Signature>

  /** A later keypair replaces an earlier one with the same public key. */
  function KeypairFor(keypairs: seq<Keypair>, key: Key): Option<Keypair> {
    if keypairs == [] then None
    else if keypairs[|keypairs| - 1].publicKey == key then Some(keypairs[|keypairs| - 1])
    else KeypairFor(keypairs[..|keypairs| - 1], key)
  }

  function SignOne(message: seq<byte>, keypairs: seq<Keypair>, sign: Signer, key: Key)
    : Result<Signature, TransactionError>
  {
    match KeypairFor(keypairs, key)
    case None => Err(MissingKeypair(key))
    case Some(keypair) =>
      match sign(message, keypair)
      case None => Err(SeedMismatch(key))
      case Some(s) => Ok(s)
  }

  /** The last of the keypairs with this public key. */
  ghost predicate LastFor(keypairs: seq<Keypair>, key: Key, n: nat) {
    && n < |keypairs| && keypairs[n].publicKey == key
    && forall m :: n < m < |keypairs| ==> keypairs[m].publicKey != key
  }

  lemma {:induction false} KeypairForExactly(keypairs: seq<Keypair>, key: Key)
    ensures KeypairFor(keypairs, key).None? <==> forall n :: 0 <= n < |keypairs| ==> keypairs[n].publicKey != key
    ensures forall n: nat :: LastFor(keypairs, key, n) ==> KeypairFor(keypairs, key) == Some(keypairs[n])
    ensures KeypairFor(keypairs, key).Some? ==> exists n: nat :: LastFor(keypairs, key, n)
  {
    if keypairs != [] {
      var init := keypairs[..|keypairs| - 1];
      KeypairForExactly(init, key);
      if keypairs[|init|].publicKey == key {
        assert LastFor(keypairs, key, |init|);
      } else {
        forall n: nat
          ensures LastFor(keypairs, key, n) <==> LastFor(init, key, n)
        {
        }
      }
    }
  }

  /** A signer's signature is made with the last keypair of its key; each error has one reason. */
  lemma {:induction false} SignOneExactly(
      message: seq<byte>, keypairs: seq<Keypair>, sign: Signer, key: Key, signature: Signature)
    ensures SignOne(message, keypairs, sign, key) == Ok(signature)
      <==> exists n: nat :: LastFor(keypairs, key, n) && sign(message, keypairs[n]) == Some(signature)
    ensures SignOne(message, keypairs, sign, key) == Err(SeedMismatch(key))
      <==> exists n: nat :: LastFor(keypairs, key, n) && sign(message, keypairs[n]) == None
    ensures SignOne(message, keypairs, sign, key) == Err(MissingKeypair(key))
      <==> forall n :: 0 <= n < |keypairs| ==> keypairs[n].publicKey != key
  {
    KeypairForExactly(keypairs, key);
  }

  /** The first signer without a signature, and why it has none. */
  ghost predicate FailsFirst(
      signers: seq<Key>, message: seq<byte>, keypairs: seq<Keypair>, sign: Signer, error: TransactionError)
  {
    exists i: nat :: i < |signers| && SignOne(message, keypairs, sign, signers[i]) == Err(error)
      && forall j :: 0 <= j < i ==> SignOne(message, keypairs, sign, signers[j]).Ok?
  }

  ghost predicate SignedBy(signatures: seq<Signature>, message: seq<byte>, keypairs: seq<Keypair>, sign: Signer,
      signers: seq<Key>)
  {
    |signatures| == |signers|
    && forall i :: 0 <= i < |signers| ==> SignOne(message, keypairs, sign, signers[i]) == Ok(signatures[i])
  }

  method IndexKeypairs(keypairs: seq<Keypair>) returns (m: map<Key, Keypair>)
    ensures forall key :: KeypairFor(keypairs, key) == if key in m then Some(m[key]) else None
  {
    m := map[];
    ghost var seen: seq<Keypair> := [];
    for i := 0 to |keypairs|
      invariant seen == keypairs[..i]
      invariant forall key :: KeypairFor(seen, key) == if key in m then Some(m[key]) else None
    {
      m := m[keypairs[i].publicKey := keypairs[i]];
      assert (seen + [keypairs[i]])[..i] == seen;
      TakeNext(keypairs, i);
      seen := seen + [keypairs[i]];
    }
    TakeAll(keypairs);
  }

  /**
   Signs for every required signer in order. The transaction fits a packet and splits into those
   signatures and the message; the call fails only for a missing or mismatched keypair, for no
   signer, or for exceeding the packet limit.
   */
  method SignSolanaTransaction(c: CompiledMessage, keypairs: seq<Keypair>, sign: Signer)
      returns (r: Result<seq<byte>, TransactionError>)
    ensures r.Ok? ==> |r.value| <= 1232 && c.signerAddresses != []
    ensures r.Ok? ==> exists signatures ::
      Split(r.value) == Some((signatures, c.bytes)) && SignedBy(signatures, c.bytes, keypairs, sign, c.signerAddresses)
    ensures r.Err? && (r.error.MissingKeypair? || r.error.SeedMismatch?) <==>
      exists i :: 0 <= i < |c.signerAddresses| && SignOne(c.bytes, keypairs, sign, c.signerAddresses[i]).Err?
    ensures r.Err? && (r.error.MissingKeypair? || r.error.SeedMismatch?) ==>
      FailsFirst(c.signerAddresses, c.bytes, keypairs, sign, r.error)
    ensures r.Err? && r.error.TooLarge? ==> exists signatures ::
      SignedBy(signatures, c.bytes, keypairs, sign, c.signerAddresses)
      && |TransactionBytes(signatures, c.bytes)| == r.error.length > 1232
    ensures r.Err? && r.error.NoSignatures? ==> c.signerAddresses == []
    ensures r.Err? ==> !r.error.SignatureLength?
  {
    var index := IndexKeypairs(keypairs);
    var signatures: seq<Signature> := [];
    for i := 0 to |c.signerAddresses|
      invariant |signatures| == i
      invariant forall j :: 0 <= j < i ==> SignOne(c.bytes, keypairs, sign, c.signerAddresses[j]) == Ok(signatures[j])
    {
      var signer := c.signerAddresses[i];
      if signer !in index {
        return Err(MissingKeypair(signer));
      }
      var signature := sign(c.bytes, index[signer]);
      if signature.None? {
        return Err(SeedMismatch(signer));
      }
      signatures := signatures + [signature.value];
    }
    var serialized := SerializeTransaction(c.bytes, signatures);
    FirstBadIs(signatures, |signatures|);
    SplitsUniquely(serialized.value, signatures, c.bytes);
    if |serialized.value| > MAX_TRANSACTION_BYTES {
      return Err(TooLarge(|serialized.value|));
    }
    if |signatures| == 0 {
      return Err(NoSignatures);
    }
    return Ok(serialized.value);
  }

  /**
   A transaction that fits a packet carries fewer than 128 signatures, so every signed unversioned
   transaction decodes to exactly what was asked for, with no condition on the number of signers.
   */
  lemma {:induction false} SignedTransactionsDecode(
      feePayer: Key, instructions: seq<Instruction>, blockhash: Key, chain: Chain,
      bs: seq<byte>, signatures: seq<Signature>)
    requires CompileUnversioned(feePayer, instructions, blockhash).Ok?
    requires var c := CompileUnversioned(feePayer, instructions, blockhash).value;
             Split(bs) == Some((signatures, c.bytes)) && |signatures| == |c.signerAddresses|
    requires |bs| <= 1232
    ensures DecodeMessage(Split(bs).value.1, chain) == Some(Intended(feePayer, instructions, blockhash, []))
  {
    var c := CompileUnversioned(feePayer, instructions, blockhash).value;
    SplitsUniquely(bs, signatures, c.bytes);
    TransactionLength(signatures, c.bytes);
    SignatureCount(feePayer, instructions, []);
    UnversionedPreservesMeaning(feePayer, instructions, blockhash, chain);
  }

  //// Lookup table accounts

  datatype TableAccountError = InvalidLength | NotInitialized

  const LOOKUP_TABLE_META_BYTES := 56

  /** Reads the 32-byte addresses behind the metadata. */
  method ParseAddressLookupTableAccount(data: seq<byte>) returns (r: Result<seq<Key>, TableAccountError>)
    ensures r.Ok? <==> |data| >= 56 && (|data| - 56) % 32 == 0 && data[..4] == [1, 0, 0, 0]
    ensures r.Ok? ==> data[56..] == WriteMany(r.value, WriteKey)
    ensures r == Err(InvalidLength) <==> |data| < 56 || (|data| - 56) % 32 != 0
  {
    if |data| < LOOKUP_TABLE_META_BYTES || (|data| - LOOKUP_TABLE_META_BYTES) % 32 != 0 {
      return Err(InvalidLength);
    }
    var discriminator := Value(data[..4], 256);
    DiscriminatorIsOne(data);
    if discriminator != 1 {
      return Err(NotInitialized);
    }
    var addresses: seq<Key> := [];
    var offset := LOOKUP_TABLE_META_BYTES;
    assert data[56..56] == WriteMany(addresses, WriteKey);
    while offset < |data|
      invariant 56 <= offset <= |data| && (offset - 56) % 32 == 0
      invariant data[56..offset] == WriteMany(addresses, WriteKey)
    {
      var address: Key := data[offset..offset + 32];
      WriteAppend(addresses, address, WriteKey);
      SliceNext(data, 56, offset);
      addresses := addresses + [address];
      offset := offset + 32;
    }
    assert data[56..|data|] == data[56..];
    return Ok(addresses);
  }

  lemma {:induction false} SliceNext(data: seq<byte>, from: nat, offset: nat)
    requires from <= offset && offset + 32 <= |data|
    ensures data[from..offset + 32] == data[from..offset] + data[offset..offset + 32]
  {
  }

  lemma {:induction false} DiscriminatorIsOne(data: seq<byte>)
    requires |data| >= 4
    ensures Value(data[..4], 256) == 1 <==> data[..4] == [1, 0, 0, 0]
  {
    var d: seq<int> := data[..4];
    assert d == [d[0]] + ([d[1]] + ([d[2]] + ([d[3]] + [])));
    ValuePrepend(d[3], [], 256);
    ValuePrepend(d[2], [d[3]] + [], 256);
    ValuePrepend(d[1], [d[2]] + ([d[3]] + []), 256);
    ValuePrepend(d[0], [d[1]] + ([d[2]] + ([d[3]] + [])), 256);
  }
}
