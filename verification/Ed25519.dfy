/**
 Keys and signatures (section 5.1.5 to 5.1.7 of RFC 8032) over an abstract SHA-512.
 Signing succeeds exactly for the public key of the seed, and what it returns satisfies the
 verification equation S B = R + k A. The base point and its order are given by `Sound`.
 */
module Ed25519 {
  import opened Wrappers
  import opened Bytes
  import opened LittleEndianIntegers
  import opened ModularArithmetic
  import opened EdwardsCurve
  import opened EdwardsPoints
  import opened Groups
  import Base58

  type Digest = h: seq<byte> | |h| == 64 witness Zeros(64)

  datatype Scheme = Scheme(c: Curve, order: nat, sha512: seq<byte> -> Digest)

  datatype Keypair = Keypair(publicKey: string, seed: seq<byte>)

  datatype SignError = WrongSeedLength | MalformedPublicKey | SeedMismatch | NoBasePoint

  //// Recovering points with their sign

  function Negated(x: int, sign: int, p: Modulus): int {
    if x % 2 != sign then (-x) % p else x
  }

  /** Unlike the curve test this recovery does not look at the denominator. */
  function RecoverSigned(c: Curve, y: int, sign: int): Option<int> {
    var numerator := (y * y - 1) % c.p;
    var denominator := (c.d * y * y + 1) % c.p;
    match Root(c, numerator * Inverse(denominator, c.p) % c.p)
    case None => None
    case Some(x) => Some(Negated(x, sign, c.p))
  }

  /** The recovered square is the square of x for each point of the curve. */
  lemma {:induction false} SignedSquare(c: Curve, a: Affine)
    requires Suitable(c) && Member(c, a)
    ensures Same(a.x * a.x,
      (a.y * a.y - 1) % c.p * Inverse((c.d * a.y * a.y + 1) % c.p, c.p) % c.p, c.p)
  {
    var v := a.y * a.y;
    DenominatorNonzero(c, a.x, a.y);
    CurveEquation(c, a.x * a.x, v);
    Reduce(v - 1, c.p);
    Reduce(c.d * v + 1, c.p);
    Associate(c.d, a.y, a.y);
    FractionUnique(v - 1, c.d * v + 1, (c.d * v + 1) % c.p, (v - 1) % c.p, a.x * a.x, c.p);
  }

  /** From its y coordinate and the parity of its x, each curve point is recovered. */
  lemma {:induction false} RecoverSignedInverts(c: Curve, a: Affine)
    requires Suitable(c) && Member(c, a)
    ensures RecoverSigned(c, a.y, a.x % 2) == Some(a.x)
  {
    var u := (a.y * a.y - 1) % c.p * Inverse((c.d * a.y * a.y + 1) % c.p, c.p) % c.p;
    SignedSquare(c, a);
    RootComplete(c, a.x, u);
    RootSound(c, u);
    SquaresEqual(Root(c, u).value, a.x, c.p);
    SignDecides(Root(c, u).value, a.x, c.p);
  }

  lemma {:induction false} SignDecides(x: int, goal: int, p: Modulus)
    requires 0 <= x < p && 0 <= goal < p && p % 8 == 5 && (Same(x, goal, p) || Same(x, -goal, p))
    ensures Negated(x, goal % 2, p) == goal
  {
    if Same(x, goal, p) {
      SmallSame(x, goal, p);
    } else if goal == 0 {
      SmallSame(x, 0, p);
    } else {
      SameBy(p - goal, -goal, 1, p);
      SmallSame(x, p - goal, p);
      OddSum(x, goal, p);
      SameBy(-x, goal, -1, p);
      Small(goal, p);
    }
  }

  //// The base point

  function BaseY(c: Curve): int {
    4 * Inverse(5, c.p) % c.p
  }

  function BaseAffine(c: Curve): Option<Affine> {
    match RecoverSigned(c, BaseY(c), 0)
    case None => None
    case Some(x) => Some(Affine(x, BaseY(c)))
  }

  function BasePoint(c: Curve): Option<Point> {
    match BaseAffine(c)
    case None => None
    case Some(b) => Some(Point(b.x, b.y, 1, b.x * b.y % c.p))
  }

  lemma {:induction false} EvenNegated(x: int, p: Modulus)
    requires 0 <= x < p && p % 8 == 5
    ensures Negated(x, 0, p) % 2 == 0
  {
    if x % 2 != 0 {
      SameBy(p - x, -x, 1, p);
      SmallSame((-x) % p, p - x, p) by {
        Reduce(-x, p);
      }
      OddSum(x, p - x, p);
    }
  }

  /** The base point: five times its y coordinate is four, and its x coordinate is even. */
  lemma {:induction false} BaseIs(c: Curve)
    requires Suitable(c) && c.p > 5 && BaseAffine(c).Some?
    ensures var b := BaseAffine(c).value; 0 <= b.y < c.p && Same(5 * b.y, 4, c.p) && b.x % 2 == 0
  {
    var inverse := Inverse(5, c.p);
    Small(5, c.p);
    Small(0, c.p);
    InverseCorrect(5, c.p);
    Reduce(4 * inverse, c.p);
    TimesSame(5, 5, 4 * inverse % c.p, 4 * inverse, c.p);
    TimesSame(4, 4, 5 * inverse, 1, c.p);
    var y := BaseY(c);
    var u := (y * y - 1) % c.p * Inverse((c.d * y * y + 1) % c.p, c.p) % c.p;
    RootSound(c, u);
    EvenNegated(Root(c, u).value, c.p);
  }

  /** What the scheme needs: group laws, and a base point of the given order. */
  ghost predicate Sound(s: Scheme) {
    && EdwardsGroup(s.c) && 0 < s.order <= Power256(s.c.low + 1)
    && BaseAffine(s.c).Some? && Member(s.c, BaseAffine(s.c).value)
    && Multiple(CurveGroup(s.c), s.order, BaseAffine(s.c).value) == Affine(0, 1)
  }

  lemma {:induction false} BaseRepresents(c: Curve)
    requires BasePoint(c).Some?
    ensures Represents(c, BasePoint(c).value, BaseAffine(c).value)
  {
    var b := BaseAffine(c).value;
    Reduce(b.x * b.y, c.p);
    Small(0, c.p);
    Small(1, c.p);
  }

  /** A multiple of the base point, as the curve's group has it. */
  function BaseMultiple(s: Scheme, n: nat): Affine
    requires BaseAffine(s.c).Some?
  {
    Multiple(CurveGroup(s.c), n, BaseAffine(s.c).value)
  }

  //// Encoding a point

  function Encode(c: Curve, point: Point): seq<byte> {
    var inverse := Inverse(point.z, c.p);
    EncodeAffine(c, Affine(point.x * inverse % c.p, point.y * inverse % c.p))
  }

  lemma {:induction false} Unscale(x: int, a: int, z: int, p: Modulus)
    requires Fermat(p) && Same(x, a * z, p) && !Same(z, 0, p) && 0 <= a < p
    ensures x * Inverse(z, p) % p == a
  {
    var inverse := Inverse(z, p);
    InverseCorrect(z, p);
    TimesSame(x, a * z, inverse, inverse, p);
    TimesSame(a, a, z * inverse, 1, p);
    Associate(a, z, inverse);
    Small(a, p);
  }

  /** The encoding depends on the point only, not on its coordinates. */
  lemma {:induction false} EncodeRepresented(c: Curve, point: Point, a: Affine)
    requires Fermat(c.p) && Member(c, a) && Represents(c, point, a)
    ensures Encode(c, point) == EncodeAffine(c, a)
  {
    Unscale(point.x, a.x, point.z, c.p);
    Unscale(point.y, a.y, point.z, c.p);
  }

  //// Keys

  /** The low three bits are cleared, the top bit is cleared and the one below it is set. */
  function Clamp(bytes: seq<byte>): (clamped: seq<byte>)
    requires |bytes| > 1
    ensures |clamped| == |bytes|
  {
    var last := |bytes| - 1;
    bytes[0 := bytes[0] / 8 * 8][last := bytes[last] % 64 + 64]
  }

  /** A clamped scalar is a multiple of eight with its highest bit in a fixed place. */
  lemma {:induction false} ClampedScalar(bytes: seq<byte>)
    requires |bytes| > 1
    ensures var n, top := Unsigned(Clamp(bytes)), Power256(|bytes| - 1);
      n % 8 == 0 && 64 * top <= n < 128 * top
  {
    ClampBytes(bytes);
    TopDecides(Clamp(bytes), |bytes| - 1);
    FirstDecides(Clamp(bytes));
  }

  lemma {:induction false} ClampBytes(bytes: seq<byte>)
    requires |bytes| > 1
    ensures Clamp(bytes)[0] % 8 == 0 && 64 <= Clamp(bytes)[|bytes| - 1] < 128
  {
  }

  lemma {:induction false} TopDecides(bytes: seq<byte>, k: nat)
    requires |bytes| == k + 1 && 64 <= bytes[k] < 128
    ensures 64 * Power256(k) <= Unsigned(bytes) < 128 * Power256(k)
  {
    SplitTop(bytes, k);
    ValueAppend(bytes[..k], bytes[k]);
    LittleEndianValue(bytes[..k]);
    Monotone(64, bytes[k], Power256(k));
    Monotone(bytes[k], 127, Power256(k));
  }

  lemma {:induction false} FirstDecides(bytes: seq<byte>)
    requires bytes != [] && bytes[0] % 8 == 0
    ensures Unsigned(bytes) % 8 == 0
  {
    assert bytes == [bytes[0]] + bytes[1..];
    ValuePrepend(bytes[0], bytes[1..], 256);
    MultipleOfEight(bytes[0] / 8, Value(bytes[1..], 256));
  }

  lemma {:induction false} MultipleOfEight(a: int, b: int)
    ensures (a * 8 + 256 * b) % 8 == 0
  {
    assert a * 8 + 256 * b == 8 * (a + 32 * b);
  }

  /** What clamping makes of a number of 32 bytes: bit 254 is the highest, and the low three bits are cleared. */
  function ClampedNumber(n: nat): nat {
    0x4000_0000_0000_0000_0000_0000_0000_0000_0000_0000_0000_0000_0000_0000_0000_0000
    + n % 0x4000_0000_0000_0000_0000_0000_0000_0000_0000_0000_0000_0000_0000_0000_0000_0000
    - n % 8
  }

  /** Replacing the ends of a byte string changes its number by what the two bytes change. */
  lemma {:induction false} EndsReplaced(bytes: seq<byte>, first: byte, top: byte, k: nat, weight: nat)
    requires |bytes| == k + 1 && k > 0 && weight == Power256(k)
    ensures Unsigned(bytes[0 := first][k := top])
      == Unsigned(bytes) - bytes[0] + first - bytes[k] * weight + top * weight
    ensures Unsigned(bytes[..k]) < weight && Unsigned(bytes) == Unsigned(bytes[..k]) + bytes[k] * weight
  {
    var low := bytes[..k];
    var next := bytes[0 := first][k := top];
    SplitTop(bytes, k);
    ValueAppend(low, bytes[k]);
    SplitTop(next, k);
    ValueAppend(next[..k], top);
    assert low == [low[0]] + low[1..] && next[..k] == [first] + low[1..];
    ValuePrepend(low[0], low[1..], 256);
    ValuePrepend(first, low[1..], 256);
  }

  lemma {:induction false} LowByte(bytes: seq<byte>)
    requires bytes != []
    ensures Unsigned(bytes) % 8 == bytes[0] % 8
  {
    assert bytes == [bytes[0]] + bytes[1..];
    ValuePrepend(bytes[0], bytes[1..], 256);
    LowBits(bytes[0], Value(bytes[1..], 256));
  }

  lemma {:induction false} LowBits(first: int, rest: int)
    ensures (first + 256 * rest) % 8 == first % 8
  {
    assert first + 256 * rest - first % 8 == 8 * (first / 8 + 32 * rest);
  }

  lemma {:induction false} HighPart(low: nat, top: byte)
    requires low < 0x100_0000_0000_0000_0000_0000_0000_0000_0000_0000_0000_0000_0000_0000_0000_0000
    ensures (low + top * 0x100_0000_0000_0000_0000_0000_0000_0000_0000_0000_0000_0000_0000_0000_0000_0000)
      % 0x4000_0000_0000_0000_0000_0000_0000_0000_0000_0000_0000_0000_0000_0000_0000_0000
      == low + top % 64 * 0x100_0000_0000_0000_0000_0000_0000_0000_0000_0000_0000_0000_0000_0000_0000_0000
  {
  }

  /** The clamped bytes are those of the clamped number. */
  lemma {:induction false} ClampIs(bytes: seq<byte>)
    requires |bytes| == 32
    ensures Unsigned(Clamp(bytes)) == ClampedNumber(Unsigned(bytes))
  {
    Bits248(31);
    EndsReplaced(bytes, bytes[0] / 8 * 8, bytes[31] % 64 + 64, 31, Power256(31));
    LowByte(bytes);
    HighPart(Unsigned(bytes[..31]), bytes[31]);
  }

  function SecretScalar(s: Scheme, seed: seq<byte>): nat {
    Unsigned(Clamp(s.sha512(seed)[..32]))
  }

  /** The public point of a seed. */
  function PublicPoint(s: Scheme, seed: seq<byte>): Affine
    requires BaseAffine(s.c).Some?
  {
    BaseMultiple(s, SecretScalar(s, seed))
  }

  /** The encoding of a multiple of the base point. */
  function MultipleBytes(s: Scheme, n: nat): (bytes: seq<byte>)
    requires Sound(s)
    ensures |bytes| == s.c.low + 1
    ensures Member(s.c, Multiple(CurveGroup(s.c), n, BaseAffine(s.c).value))
    ensures bytes == EncodeAffine(s.c, Multiple(CurveGroup(s.c), n, BaseAffine(s.c).value))
  {
    MultipleMember(CurveGroup(s.c), n, BaseAffine(s.c).value);
    EncodeAffine(s.c, BaseMultiple(s, n))
  }

  method EncodeBaseMultiple(s: Scheme, scalar: nat) returns (r: Result<seq<byte>, SignError>)
    requires Sound(s)
    ensures Member(s.c, BaseMultiple(s, scalar)) && r == Ok(MultipleBytes(s, scalar))
  {
    var base := BasePoint(s.c);
    if base.None? {
      return Err(NoBasePoint);
    }
    BaseRepresents(s.c);
    var point := ScalarMultiply(s.c, base.value, scalar, BaseAffine(s.c).value);
    EncodeRepresented(s.c, point, BaseMultiple(s, scalar));
    return Ok(Encode(s.c, point));
  }

  method PublicKeyBytesFromSeed(s: Scheme, seed: seq<byte>) returns (r: Result<seq<byte>, SignError>)
    requires Sound(s)
    ensures |seed| != 32 ==> r == Err(WrongSeedLength)
    ensures |seed| == 32 ==> r == Ok(EncodeAffine(s.c, PublicPoint(s, seed)))
    ensures |seed| == 32 ==> r == Ok(MultipleBytes(s, ClampedNumber(Unsigned(s.sha512(seed)[..32]))))
    ensures Member(s.c, PublicPoint(s, seed))
  {
    MultipleMember(CurveGroup(s.c), SecretScalar(s, seed), BaseAffine(s.c).value);
    if |seed| != 32 {
      return Err(WrongSeedLength);
    }
    ClampIs(s.sha512(seed)[..32]);
    r := EncodeBaseMultiple(s, SecretScalar(s, seed));
  }

  //// Signatures

  function Residue(s: Scheme, bytes: seq<byte>): nat
    requires s.order > 0
  {
    Unsigned(s.sha512(bytes)) % s.order
  }

  /** S B = R + k A, with the nonce point R given by its encoding. */
  ghost predicate VerifiesWith(
      s: Scheme, public: Affine, message: seq<byte>, nonceBytes: seq<byte>, response: nat, nonce: Affine)
    requires s.order > 0 && BaseAffine(s.c).Some? && public.y >= 0 && nonce.y >= 0
  {
    && Member(s.c, nonce) && nonceBytes == EncodeAffine(s.c, nonce)
    && BaseMultiple(s, response) == CurveGroup(s.c).plus(
         nonce, Multiple(CurveGroup(s.c),
           Unsigned(s.sha512(nonceBytes + EncodeAffine(s.c, public) + message)) % s.order, public))
  }

  /** The equation a verifier checks, and the range of the response. */
  ghost predicate Verifies(s: Scheme, public: Affine, message: seq<byte>, signature: seq<byte>)
    requires s.order > 0 && BaseAffine(s.c).Some? && public.y >= 0
  {
    var width := s.c.low + 1;
    && |signature| == 2 * width && Unsigned(signature[width..]) < s.order
    && exists nonce: Affine :: nonce.y >= 0
         && VerifiesWith(s, public, message, signature[..width], Unsigned(signature[width..]), nonce)
  }

  function Response(s: Scheme, nonce: nat, challenge: nat, secret: nat): (r: nat)
    requires s.order > 0
    ensures r < s.order
  {
    assert challenge * secret >= 0;
    (nonce + challenge * secret) % s.order
  }

  lemma {:induction false} ResponseOnCurve(s: Scheme, r: nat, k: nat, a: nat)
    requires Sound(s)
    ensures Member(s.c, BaseMultiple(s, r))
    ensures BaseMultiple(s, Response(s, r, k, a))
      == CurveGroup(s.c).plus(BaseMultiple(s, r), Multiple(CurveGroup(s.c), k, BaseMultiple(s, a)))
  {
    var base := BaseAffine(s.c).value;
    MultipleMember(CurveGroup(s.c), r, base);
    ResponseEquation(CurveGroup(s.c), base, s.order, r, k, a);
  }

  lemma {:induction false} ResponseVerifies(s: Scheme, message: seq<byte>, a: nat, r: nat)
    requires Sound(s) && BaseMultiple(s, a).y >= 0
    ensures Member(s.c, BaseMultiple(s, r))
    ensures var nonceBytes := EncodeAffine(s.c, BaseMultiple(s, r));
      var k := Residue(s, nonceBytes + EncodeAffine(s.c, BaseMultiple(s, a)) + message);
      VerifiesWith(s, BaseMultiple(s, a), message, nonceBytes, Response(s, r, k, a), BaseMultiple(s, r))
  {
    ResponseOnCurve(s, r, 0, a);
    var k := Residue(s, EncodeAffine(s.c, BaseMultiple(s, r)) + EncodeAffine(s.c, BaseMultiple(s, a)) + message);
    ResponseOnCurve(s, r, k, a);
  }

  lemma {:induction false} Halves(a: seq<byte>, response: nat, width: nat)
    requires |a| == width && response < Power256(width)
    ensures var both := a + LittleEndian(response, width);
      both[..width] == a && Unsigned(both[width..]) == response
  {
    ValueLittleEndian(response, width);
    assert (a + LittleEndian(response, width))[width..] == LittleEndian(response, width);
  }

  lemma {:induction false} SignatureVerifies(s: Scheme, public: Affine, message: seq<byte>, signature: seq<byte>,
      nonceBytes: seq<byte>, response: nat, nonce: Affine)
    requires Sound(s) && public.y >= 0 && nonce.y >= 0 && response < s.order
    requires VerifiesWith(s, public, message, nonceBytes, response, nonce)
    requires signature == nonceBytes + LittleEndian(response, s.c.low + 1)
    ensures Verifies(s, public, message, signature)
  {
    Halves(nonceBytes, response, s.c.low + 1);
  }

  /** The signature of a message under a secret scalar; the nonce comes from the prefix and the message. */
  function SignatureOf(s: Scheme, secret: nat, prefix: seq<byte>, message: seq<byte>): (signature: seq<byte>)
    requires Sound(s)
    ensures |signature| == 2 * (s.c.low + 1)
  {
    var nonce := Residue(s, prefix + message);
    var challenge := Residue(s, MultipleBytes(s, nonce) + MultipleBytes(s, secret) + message);
    MultipleBytes(s, nonce) + LittleEndian(Response(s, nonce, challenge, secret), s.c.low + 1)
  }

  lemma {:induction false} SignatureOfVerifies(s: Scheme, secret: nat, prefix: seq<byte>, message: seq<byte>)
    requires Sound(s)
    ensures Member(s.c, BaseMultiple(s, secret))
    ensures Verifies(s, BaseMultiple(s, secret), message, SignatureOf(s, secret, prefix, message))
  {
    MultipleMember(CurveGroup(s.c), secret, BaseAffine(s.c).value);
    var nonce := Residue(s, prefix + message);
    var challenge := Residue(s, MultipleBytes(s, nonce) + MultipleBytes(s, secret) + message);
    ResponseVerifies(s, message, secret, nonce);
    SignatureVerifies(s, BaseMultiple(s, secret), message, SignatureOf(s, secret, prefix, message),
      MultipleBytes(s, nonce), Response(s, nonce, challenge, secret), BaseMultiple(s, nonce));
  }

  method SignWithScalar(s: Scheme, secret: nat, prefix: seq<byte>, public: seq<byte>, message: seq<byte>)
      returns (signature: seq<byte>)
    requires Sound(s) && public == MultipleBytes(s, secret)
    ensures signature == SignatureOf(s, secret, prefix, message)
  {
    var nonce := Residue(s, prefix + message);
    var noncePoint := EncodeBaseMultiple(s, nonce);
    var challenge := Residue(s, noncePoint.value + public + message);
    var response := Response(s, nonce, challenge, secret);
    signature := noncePoint.value + LittleEndian(response, s.c.low + 1);
  }

  /** What signing a message with a keypair gives. */
  function Sign(s: Scheme, message: seq<byte>, keypair: Keypair): Result<seq<byte>, SignError>
    requires Sound(s)
  {
    if |keypair.seed| != 32 then Err(WrongSeedLength)
    else
      match Base58.NormalizePublicKey(keypair.publicKey)
      case Err(_) => Err(MalformedPublicKey)
      case Ok(normalized) =>
        var secret := SecretScalar(s, keypair.seed);
        if Base58.Encode(MultipleBytes(s, secret)) != normalized then Err(SeedMismatch)
        else Ok(SignatureOf(s, secret, s.sha512(keypair.seed)[32..], message))
  }

  /**
   The signature of a message by a seed, as section 5.1.6 of RFC 8032 has it: the digest of the seed
   gives the clamped secret and the prefix, the hash of prefix and message gives the nonce, and the
   two halves are the encoded nonce point and nonce plus challenge times secret, modulo the order.
   */
  ghost predicate SignatureOfSeed(s: Scheme, seed: seq<byte>, message: seq<byte>, signature: seq<byte>)
    requires Sound(s)
  {
    var digest: seq<byte> := s.sha512(seed);
    var secret := ClampedNumber(Unsigned(digest[..32]));
    var nonce := Unsigned(s.sha512(digest[32..] + message)) % s.order;
    SignatureHalves(s, MultipleBytes(s, nonce), nonce, MultipleBytes(s, secret), secret, message, signature)
  }

  /** The nonce point, then nonce plus challenge times secret, modulo the order. */
  ghost predicate SignatureHalves(
      s: Scheme, noncePoint: seq<byte>, nonce: nat, public: seq<byte>, secret: nat, message: seq<byte>,
      signature: seq<byte>)
    requires s.order > 0
  {
    && |signature| == 64 && signature[..32] == noncePoint
    && Unsigned(signature[32..])
       == (nonce + Unsigned(s.sha512(signature[..32] + public + message)) % s.order * secret) % s.order
  }

  lemma {:induction false} HalvesHold(
      s: Scheme, noncePoint: seq<byte>, nonce: nat, public: seq<byte>, secret: nat, message: seq<byte>,
      signature: seq<byte>)
    requires 0 < s.order <= Power256(32) && |noncePoint| == 32
    requires signature == noncePoint
      + LittleEndian(Response(s, nonce, Residue(s, noncePoint + public + message), secret), 32)
    ensures SignatureHalves(s, noncePoint, nonce, public, secret, message, signature)
  {
    Halves(noncePoint, Response(s, nonce, Residue(s, noncePoint + public + message), secret), 32);
  }

  lemma {:induction false} SignGives(s: Scheme, message: seq<byte>, keypair: Keypair, signature: seq<byte>)
    requires Sound(s) && s.c.low == 31 && Sign(s, message, keypair) == Ok(signature)
    ensures var digest: seq<byte> := s.sha512(keypair.seed);
      signature == SignatureOf(s, ClampedNumber(Unsigned(digest[..32])), digest[32..], message)
  {
    ClampIs(s.sha512(keypair.seed)[..32]);
  }

  /** What signing returns is that signature. */
  lemma {:induction false} SignatureIs(s: Scheme, message: seq<byte>, keypair: Keypair, signature: seq<byte>)
    requires Sound(s) && s.c.low == 31 && Sign(s, message, keypair) == Ok(signature)
    ensures SignatureOfSeed(s, keypair.seed, message, signature)
  {
    SignGives(s, message, keypair, signature);
    SeedSignature(s, keypair.seed, message, signature);
  }

  lemma {:induction false} SeedSignature(s: Scheme, seed: seq<byte>, message: seq<byte>, signature: seq<byte>)
    requires Sound(s) && s.c.low == 31
    requires var digest: seq<byte> := s.sha512(seed);
      signature == SignatureOf(s, ClampedNumber(Unsigned(digest[..32])), digest[32..], message)
    ensures SignatureOfSeed(s, seed, message, signature)
  {
    var digest: seq<byte> := s.sha512(seed);
    var secret, nonce := ClampedNumber(Unsigned(digest[..32])), Residue(s, digest[32..] + message);
    HalvesHold(s, MultipleBytes(s, nonce), nonce, MultipleBytes(s, secret), secret, message, signature);
  }

  /** Signing succeeds exactly when the seed belongs to the public key; the signature then verifies under it. */
  lemma {:induction false} SignExactly(s: Scheme, message: seq<byte>, keypair: Keypair)
    requires Sound(s) && s.c.low == 31
    ensures Member(s.c, PublicPoint(s, keypair.seed))
    ensures Sign(s, message, keypair).Ok? <==>
      (|keypair.seed| == 32
       && Base58.DecodePublicKey(keypair.publicKey) == Ok(EncodeAffine(s.c, PublicPoint(s, keypair.seed))))
    ensures Sign(s, message, keypair).Ok? ==>
      Verifies(s, PublicPoint(s, keypair.seed), message, Sign(s, message, keypair).value)
    ensures Sign(s, message, keypair) == Err(WrongSeedLength) <==> |keypair.seed| != 32
    ensures Sign(s, message, keypair) == Err(MalformedPublicKey) <==>
      |keypair.seed| == 32 && Base58.DecodePublicKey(keypair.publicKey).Err?
  {
    var secret := SecretScalar(s, keypair.seed);
    SignatureOfVerifies(s, secret, s.sha512(keypair.seed)[32..], message);
    Base58.NormalizeIsIdentity(keypair.publicKey);
    KeyText(keypair.publicKey, MultipleBytes(s, secret));
  }

  /** A key's text is the encoding of 32 bytes exactly when it decodes to them. */
  lemma {:induction false} KeyText(text: string, bytes: seq<byte>)
    requires |bytes| == 32
    ensures Base58.DecodePublicKey(text) == Ok(bytes) <==> Base58.Encode(bytes) == text
  {
    Base58.EncodeIsKey(bytes);
    if Base58.DecodePublicKey(text).Ok? {
      Base58.AddressEqualityIsByteEquality(text, Base58.Encode(bytes));
    }
  }

  method SignMessageWithKeypair(s: Scheme, message: seq<byte>, keypair: Keypair)
      returns (r: Result<seq<byte>, SignError>)
    requires Sound(s) && s.c.low == 31
    ensures r == Sign(s, message, keypair)
    ensures Member(s.c, PublicPoint(s, keypair.seed))
    ensures r.Ok? <==>
      (|keypair.seed| == 32
       && Base58.DecodePublicKey(keypair.publicKey) == Ok(EncodeAffine(s.c, PublicPoint(s, keypair.seed))))
    ensures r.Ok? ==> Verifies(s, PublicPoint(s, keypair.seed), message, r.value)
    ensures r.Ok? ==> SignatureOfSeed(s, keypair.seed, message, r.value)
  {
    SignExactly(s, message, keypair);
    if Sign(s, message, keypair).Ok? {
      SignatureIs(s, message, keypair, Sign(s, message, keypair).value);
    }
    var seed := keypair.seed;
    var actual := PublicKeyBytesFromSeed(s, seed);
    if actual.Err? {
      return Err(actual.error);
    }
    var normalized := Base58.NormalizePublicKey(keypair.publicKey);
    if normalized.Err? {
      return Err(MalformedPublicKey);
    }
    if Base58.Encode(actual.value) != normalized.value {
      return Err(SeedMismatch);
    }
    var digest: seq<byte> := s.sha512(seed);
    var signature := SignWithScalar(s, SecretScalar(s, seed), digest[32..], actual.value, message);
    return Ok(signature);
  }
}
