/**
 Transactions signed with Ed25519 keypairs: each signature in the packet verifies, for the message it
 travels with, under the very point that its signer's address encodes.
 */
module SignedTransactions {
  import opened Wrappers
  import opened Bytes
  import opened Message
  import opened Compiler
  import opened Transaction
  import opened EdwardsCurve
  import Ed25519
  import Base58

  /** Signing with a keypair whose public key is held as bytes. */
  function SignWith(s: Ed25519.Scheme, message: seq<byte>, keypair: Keypair): Option<Signature>
    requires Ed25519.Sound(s) && s.c.low == 31
  {
    Ed25519.SignExactly(s, message, Ed25519.Keypair(Base58.Encode(keypair.publicKey), keypair.seed));
    match Ed25519.Sign(s, message, Ed25519.Keypair(Base58.Encode(keypair.publicKey), keypair.seed))
    case Err(_) => None
    case Ok(signature) => Some(signature)
  }

  function KeypairSigner(s: Ed25519.Scheme): (sign: Signer)
    requires Ed25519.Sound(s) && s.c.low == 31
    ensures forall message, keypair :: sign(message, keypair) == SignWith(s, message, keypair)
  {
    (message, keypair) => SignWith(s, message, keypair)
  }

  /** A signature that verifies under the point an address encodes. */
  ghost predicate VerifiesFor(s: Ed25519.Scheme, signer: Key, message: seq<byte>, signature: seq<byte>)
    requires Ed25519.Sound(s)
  {
    exists public: Affine ::
      (Member(s.c, public) && EncodeAffine(s.c, public) == signer && Ed25519.Verifies(s, public, message, signature))
  }

  /** A keypair signs exactly when its seed is that of its public key, and then the signature verifies for it. */
  lemma {:induction false} SignWithVerifies(s: Ed25519.Scheme, message: seq<byte>, keypair: Keypair)
    requires Ed25519.Sound(s) && s.c.low == 31
    ensures Member(s.c, Ed25519.PublicPoint(s, keypair.seed))
    ensures SignWith(s, message, keypair).Some? <==>
      |keypair.seed| == 32 && keypair.publicKey == EncodeAffine(s.c, Ed25519.PublicPoint(s, keypair.seed))
    ensures SignWith(s, message, keypair).Some? ==>
      VerifiesFor(s, keypair.publicKey, message, SignWith(s, message, keypair).value)
  {
    Ed25519.SignExactly(s, message, Ed25519.Keypair(Base58.Encode(keypair.publicKey), keypair.seed));
    Base58.EncodeIsKey(keypair.publicKey);
  }

  lemma {:induction false} KeypairForHasKey(keypairs: seq<Keypair>, key: Key)
    ensures KeypairFor(keypairs, key).Some? ==> KeypairFor(keypairs, key).value.publicKey == key
  {
    if keypairs != [] {
      KeypairForHasKey(keypairs[..|keypairs| - 1], key);
    }
  }

  /** All signatures of a packet verify, each for its own signer. */
  ghost predicate AllVerify(s: Ed25519.Scheme, signers: seq<Key>, message: seq<byte>, signatures: seq<Signature>)
    requires Ed25519.Sound(s)
  {
    |signatures| == |signers|
    && forall i :: 0 <= i < |signers| ==> VerifiesFor(s, signers[i], message, signatures[i])
  }

  lemma {:induction false} SignedByVerifies(
      s: Ed25519.Scheme, signers: seq<Key>, message: seq<byte>, keypairs: seq<Keypair>, signatures: seq<Signature>)
    requires Ed25519.Sound(s) && s.c.low == 31
    requires SignedBy(signatures, message, keypairs, KeypairSigner(s), signers)
    ensures AllVerify(s, signers, message, signatures)
  {
    forall i | 0 <= i < |signers|
      ensures VerifiesFor(s, signers[i], message, signatures[i])
    {
      assert SignOne(message, keypairs, KeypairSigner(s), signers[i]) == Ok(signatures[i]);
      KeypairForHasKey(keypairs, signers[i]);
      SignWithVerifies(s, message, KeypairFor(keypairs, signers[i]).value);
    }
  }

  /**
   Signs with real keypairs: on success the packet splits into the message and one signature for each
   required signer, in order, that verifies under that signer's address.
   */
  method SignWithKeypairs(s: Ed25519.Scheme, c: CompiledMessage, keypairs: seq<Keypair>)
      returns (r: Result<seq<byte>, TransactionError>)
    requires Ed25519.Sound(s) && s.c.low == 31
    ensures r.Ok? ==> |r.value| <= 1232 && c.signerAddresses != []
    ensures r.Ok? ==> exists signatures ::
      Split(r.value) == Some((signatures, c.bytes)) && AllVerify(s, c.signerAddresses, c.bytes, signatures)
    ensures r.Err? && r.error.SeedMismatch? ==>
      exists keypair :: (keypair in keypairs && keypair.publicKey == r.error.signer
        && SignWith(s, c.bytes, keypair).None?)
  {
    r := SignSolanaTransaction(c, keypairs, KeypairSigner(s));
    if r.Ok? {
      ghost var signatures :| Split(r.value) == Some((signatures, c.bytes))
        && SignedBy(signatures, c.bytes, keypairs, KeypairSigner(s), c.signerAddresses);
      SignedByVerifies(s, c.signerAddresses, c.bytes, keypairs, signatures);
    } else if r.error.SeedMismatch? {
      KeypairForHasKey(keypairs, r.error.signer);
      KeypairForIn(keypairs, r.error.signer);
      assert SignOne(c.bytes, keypairs, KeypairSigner(s), r.error.signer) == Err(r.error);
    }
  }

  lemma {:induction false} KeypairForIn(keypairs: seq<Keypair>, key: Key)
    ensures KeypairFor(keypairs, key).Some? ==> KeypairFor(keypairs, key).value in keypairs
  {
    if keypairs != [] {
      KeypairForIn(keypairs[..|keypairs| - 1], key);
    }
  }
}
