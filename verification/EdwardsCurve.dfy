/**
 Points of a twisted Edwards curve and their 32-byte encoding (section 5.1.2 and 5.1.3 of RFC 8032):
 which strings the curve test accepts, and that an encoding determines its point. What is needed of
 the constants is collected in `Suitable`; the candidate root is a root, or becomes one when it is
 multiplied by a square root of minus one.
 */
module EdwardsCurve {
  import opened Wrappers
  import opened Bytes
  import opened LittleEndianIntegers
  import opened ModularArithmetic

  /**
   The field modulus, the curve constant, the square root of minus one used by the root search, and
   the width of an encoding in bytes, less one: 31 for Ed25519.
   */
  datatype Curve = Curve(p: Modulus, d: int, i: int, low: nat)

  datatype Affine = Affine(x: int, y: int)

  predicate OnCurve(c: Curve, x: int, y: int) {
    Same(y * y - x * x, 1 + c.d * (x * x) * (y * y), c.p)
  }

  predicate Member(c: Curve, a: Affine) {
    0 <= a.x < c.p && 0 <= a.y < c.p && OnCurve(c, a.x, a.y)
  }

  /** What the curve test needs to know of its constants. */
  ghost predicate Suitable(c: Curve) {
    && Fermat(c.p) && c.p % 8 == 5 && c.p <= 128 * Power256(c.low)
    && Same(c.i * c.i, -1, c.p) && !Same(c.d, -1, c.p)
  }

  //// Square roots

  function Corrected(c: Curve, x: int, u: int): int {
    if (x * x - u) % c.p != 0 then x * c.i % c.p else x
  }

  function Root(c: Curve, u: int): Option<int> {
    var x := Corrected(c, Power(u, (c.p + 3) / 8) % c.p, u);
    if (x * x - u) % c.p != 0 then None else Some(x)
  }

  lemma {:induction false} ZeroTest(a: int, b: int, m: Modulus)
    ensures (a - b) % m == 0 <==> Same(a, b, m)
  {
    Small(0, m);
    DifferenceZero(a, b, m);
  }

  lemma {:induction false} RootSound(c: Curve, u: int)
    requires Root(c, u).Some?
    ensures var x := Root(c, u).value; 0 <= x < c.p && Same(x * x, u, c.p)
  {
    var first := Power(u, (c.p + 3) / 8);
    Reduce(first, c.p);
    Reduce((first % c.p) * c.i, c.p);
    var x := Root(c, u).value;
    ZeroTest(x * x, u, c.p);
  }

  lemma {:induction false} PowerFour(a: int)
    ensures Power(a, 2) == a * a && Power(a, 4) == (a * a) * (a * a)
  {
    assert Power(a, 1) == a * Power(a, 0) == a;
    assert Power(a, 2) == a * Power(a, 1);
    PowerPlus(a, 2, 2);
  }

  /** The fourth power of the candidate root of a square is the square's square. */
  lemma {:induction false} CandidateFourth(c: Curve, x: int, u: int, k: nat)
    requires Fermat(c.p) && c.p == 8 * k - 3 && k > 0 && Same(x * x, u, c.p) && !Same(x, 0, c.p)
    ensures Same(Power(u, k + k + k + k), u * u, c.p)
  {
    var h := 4 * k - 2;
    PowerSame(x * x, u, h, c.p);
    PowerDouble(x, h);
    assert h + h == c.p - 1;
    assert Same(Power(u, h), 1, c.p);
    PowerPlus(u, h, 2);
    PowerFour(u);
    assert h + 2 == k + k + k + k;
    TimesSame(Power(u, h), 1, u * u, u * u, c.p);
  }

  lemma {:induction false} PowerQuadruple(u: int, k: nat)
    ensures Power(u, k + k + k + k) == (Power(u, k) * Power(u, k)) * (Power(u, k) * Power(u, k))
  {
    PowerPlus(u, k, k);
    PowerPlus(u, k + k, k + k);
    assert (k + k) + (k + k) == k + k + k + k;
  }

  /** Numbers with equal squares are equal up to sign. */
  lemma {:induction false} SquaresEqual(a: int, b: int, p: Modulus)
    requires Fermat(p) && Same(a * a, b * b, p)
    ensures Same(a, b, p) || Same(a, -b, p)
  {
    DifferenceZero(a * a, b * b, p);
    assert a * a - b * b == (a - b) * (a + b) by {
      assert (a - b) * (a + b) == a * (a + b) - b * (a + b);
      assert a * (a + b) == a * a + a * b && b * (a + b) == b * a + b * b;
    }
    if !Same(a - b, 0, p) {
      NoZeroDivisors(a - b, a + b, p);
      assert a + b == a - (-b);
      DifferenceZero(a, -b, p);
    } else {
      DifferenceZero(a, b, p);
    }
  }

  lemma {:induction false} SquareSame(a: int, b: int, p: Modulus)
    requires Same(a, b, p)
    ensures Same(a * a, b * b, p)
  {
    TimesSame(a, b, a, b, p);
  }

  /** Of a square, the first candidate is a root of it or of its negative. */
  lemma {:induction false} CandidateSquare(c: Curve, x: int, u: int)
    requires Fermat(c.p) && c.p % 8 == 5 && Same(x * x, u, c.p)
    ensures var first := Power(u, (c.p + 3) / 8) % c.p;
      Same(first * first, u, c.p) || Same(first * first, -u, c.p)
  {
    var k := (c.p + 3) / 8;
    var power := Power(u, k);
    Reduce(power, c.p);
    SquareSame(power % c.p, power, c.p);
    if Same(x, 0, c.p) {
      TimesSame(x, 0, x, 0, c.p);
      TimesSame(u, 0, Power(u, k - 1), Power(u, k - 1), c.p);
      SquareSame(power, 0, c.p);
    } else {
      CandidateFourth(c, x, u, k);
      PowerQuadruple(u, k);
      SquaresEqual(power * power, u, c.p);
    }
  }

  /** Every square has its root found. */
  lemma {:induction false} RootComplete(c: Curve, x: int, u: int)
    requires Suitable(c) && Same(x * x, u, c.p)
    ensures Root(c, u).Some?
  {
    var first := Power(u, (c.p + 3) / 8) % c.p;
    CandidateSquare(c, x, u);
    ZeroTest(first * first, u, c.p);
    if !Same(first * first, u, c.p) {
      var second := first * c.i % c.p;
      Reduce(first * c.i, c.p);
      SquareSame(second, first * c.i, c.p);
      Rearrange(first, c.i, first, c.i);
      TimesSame(first * first, -u, c.i * c.i, -1, c.p);
      assert (-u) * (-1) == u;
      ZeroTest(second * second, u, c.p);
    }
  }

  //// Recovering x from y

  function RecoverSquare(c: Curve, y: int): Option<int> {
    var ySquared := y * y % c.p;
    var numerator := (ySquared - 1) % c.p;
    var denominator := (c.d * ySquared + 1) % c.p;
    if denominator == 0 then None else Some(numerator * Inverse(denominator, c.p) % c.p)
  }

  function RecoverX(c: Curve, y: int): Option<int> {
    match RecoverSquare(c, y)
    case None => None
    case Some(u) => Root(c, u)
  }

  lemma {:induction false} Distribute(u: int, d: int, v: int)
    ensures u * (d * v + 1) == d * u * v + u
  {
    calc {
      u * (d * v + 1);
      u * (d * v) + u;
      (u * d) * v + u;
      d * u * v + u;
    }
  }

  lemma {:induction false} CurveEquation(c: Curve, u: int, v: int)
    ensures Same(v - u, 1 + c.d * u * v, c.p) <==> Same(u * (c.d * v + 1), v - 1, c.p)
  {
    DifferenceZero(v - u, 1 + c.d * u * v, c.p);
    DifferenceZero(v - 1, u * (c.d * v + 1), c.p);
    Distribute(u, c.d, v);
    assert (v - u) - (1 + c.d * u * v) == (v - 1) - u * (c.d * v + 1);
  }

  /** Numerator and denominator are those of the curve equation solved for the square of x. */
  lemma {:induction false} Fractions(c: Curve, y: int)
    ensures var v := y * y; var reduced := v % c.p;
      && Same((reduced - 1) % c.p, v - 1, c.p)
      && Same((c.d * reduced + 1) % c.p, c.d * v + 1, c.p)
  {
    var v := y * y;
    var reduced := v % c.p;
    Reduce(v, c.p);
    Reduce(reduced - 1, c.p);
    Reduce(c.d * reduced + 1, c.p);
    MinusSame(reduced, v, 1, 1, c.p);
    TimesSame(c.d, c.d, reduced, v, c.p);
    PlusSame(c.d * reduced, c.d * v, 1, 1, c.p);
  }

  /** A quotient n / a times its denominator is its numerator, and nothing else is. */
  lemma {:induction false} FractionUnique(n: int, a: int, a': int, n': int, u: int, p: Modulus)
    requires Fermat(p) && Same(a', a, p) && Same(n', n, p) && !Same(a, 0, p)
    ensures Same(u, n' * Inverse(a', p) % p, p) <==> Same(u * a, n, p)
  {
    var inverse := Inverse(a', p);
    var w := n' * inverse % p;
    InverseCorrect(a', p);
    Reduce(n' * inverse, p);
    TimesSame(w, n' * inverse, a, a', p);
    TimesSame(n', n, a' * inverse, 1, p);
    Associate(n', inverse, a');
    assert inverse * a' == a' * inverse;
    assert Same(w * a, n, p);
    SameFactor(a, u, w, n, p);
  }

  lemma {:induction false} SameFactor(a: int, u: int, w: int, n: int, p: Modulus)
    requires Fermat(p) && !Same(a, 0, p) && Same(w * a, n, p)
    ensures Same(u, w, p) <==> Same(u * a, n, p)
  {
    if Same(u, w, p) {
      TimesSame(u, w, a, a, p);
    }
    if Same(u * a, n, p) {
      assert u * a == a * u && w * a == a * w;
      Cancel(a, u, w, p);
    }
  }

  /** The recovered square is the only one with which y lies on the curve. */
  lemma {:induction false} RecoverSquareCorrect(c: Curve, y: int, x: int)
    requires Fermat(c.p) && RecoverSquare(c, y).Some?
    ensures OnCurve(c, x, y) <==> Same(x * x, RecoverSquare(c, y).value, c.p)
  {
    var v := y * y;
    var reduced := v % c.p;
    Fractions(c, y);
    CurveEquation(c, x * x, v);
    Small(0, c.p);
    Reduce(c.d * reduced + 1, c.p);
    FractionUnique(v - 1, c.d * v + 1, (c.d * reduced + 1) % c.p, (reduced - 1) % c.p, x * x, c.p);
  }

  /** The denominator vanishes for no y on the curve. */
  lemma {:induction false} DenominatorNonzero(c: Curve, x: int, y: int)
    requires Suitable(c) && OnCurve(c, x, y)
    ensures RecoverSquare(c, y).Some? && !Same(c.d * (y * y) + 1, 0, c.p)
  {
    var v := y * y;
    Fractions(c, y);
    CurveEquation(c, x * x, v);
    Small(0, c.p);
    assert c.d * 1 == c.d;
    if Same(c.d * v + 1, 0, c.p) {
      TimesSame(x * x, x * x, c.d * v + 1, 0, c.p);
      PlusSame(v - 1, 0, 1, 1, c.p);
      TimesSame(c.d, c.d, v, 1, c.p);
      MinusSame(c.d * v + 1, 0, 1, 1, c.p);
    }
  }

  lemma {:induction false} RecoverXSound(c: Curve, y: int)
    requires Fermat(c.p) && RecoverX(c, y).Some?
    ensures var x := RecoverX(c, y).value; 0 <= x < c.p && OnCurve(c, x, y)
  {
    var x := RecoverX(c, y).value;
    RootSound(c, RecoverSquare(c, y).value);
    RecoverSquareCorrect(c, y, x);
  }

  /** An x is recovered exactly for the y coordinates of curve points. */
  lemma {:induction false} RecoverXExactly(c: Curve, y: int)
    requires Suitable(c)
    ensures RecoverX(c, y).Some? <==> exists x :: OnCurve(c, x, y)
  {
    if RecoverX(c, y).Some? {
      RecoverXSound(c, y);
    }
    if x :| OnCurve(c, x, y) {
      DenominatorNonzero(c, x, y);
      RecoverSquareCorrect(c, y, x);
      RootComplete(c, x, RecoverSquare(c, y).value);
    }
  }

  //// Two points with one y

  lemma {:induction false} SameY(c: Curve, a: Affine, b: Affine)
    requires Suitable(c) && Member(c, a) && Member(c, b) && a.y == b.y
    ensures a.x == b.x || a.x + b.x == c.p
  {
    DenominatorNonzero(c, a.x, a.y);
    RecoverSquareCorrect(c, a.y, a.x);
    RecoverSquareCorrect(c, b.y, b.x);
    SquaresEqual(a.x, b.x, c.p);
    if Same(a.x, b.x, c.p) {
      SmallSame(a.x, b.x, c.p);
    } else {
      SameBy(c.p - b.x, -b.x, 1, c.p);
      if b.x == 0 {
        SmallSame(a.x, 0, c.p);
      } else {
        SmallSame(a.x, c.p - b.x, c.p);
      }
    }
  }

  lemma {:induction false} NegatedSquare(x: int, p: Modulus)
    ensures Same((p - x) * (p - x), x * x, p)
  {
    SameBy(p - x, -x, 1, p);
    SquareSame(p - x, -x, p);
    SquareOfNegative(x);
  }

  lemma {:induction false} SquareOfNegative(x: int)
    ensures (-x) * (-x) == x * x
  {
  }

  /** The curve equation looks at the square of x modulo p only. */
  lemma {:induction false} EquationOfSquare(u: int, w: int, v: int, d: int, p: Modulus)
    requires Same(u, w, p) && Same(v - w, 1 + d * w * v, p)
    ensures Same(v - u, 1 + d * u * v, p)
  {
    TimesSame(d, d, u, w, p);
    TimesSame(d * u, d * w, v, v, p);
    EquationSides(u, w, v, d * u * v, d * w * v, p);
  }

  lemma {:induction false} EquationSides(u: int, w: int, v: int, a: int, b: int, p: Modulus)
    requires Same(u, w, p) && Same(a, b, p) && Same(v - w, 1 + b, p)
    ensures Same(v - u, 1 + a, p)
  {
    MinusSame(v, v, u, w, p);
    PlusSame(1, 1, a, b, p);
  }

  /** The point with the other sign. */
  lemma {:induction false} Mirror(c: Curve, a: Affine)
    requires Member(c, a) && a.x > 0
    ensures Member(c, Affine(c.p - a.x, a.y))
  {
    NegatedSquare(a.x, c.p);
    EquationOfSquare((c.p - a.x) * (c.p - a.x), a.x * a.x, a.y * a.y, c.d, c.p);
  }

  //// Encoding

  /** Sets the top bit of a byte. */
  function SetTop(b: byte): byte {
    if b < 128 then b + 128 else b
  }

  /** The y coordinate in little-endian bytes, the parity of x in the top bit. */
  function EncodeAffine(c: Curve, a: Affine): (bytes: seq<byte>)
    requires a.y >= 0
    ensures |bytes| == c.low + 1
  {
    var encoded := LittleEndian(a.y, c.low + 1);
    encoded[..c.low] + [if a.x % 2 == 1 then SetTop(encoded[c.low]) else encoded[c.low]]
  }

  function SignBit(c: Curve, bytes: seq<byte>): int
    requires |bytes| == c.low + 1
  {
    bytes[c.low] / 128
  }

  function Cleared(c: Curve, bytes: seq<byte>): seq<byte>
    requires |bytes| == c.low + 1
  {
    bytes[..c.low] + [bytes[c.low] % 128]
  }

  function YOf(c: Curve, bytes: seq<byte>): nat
    requires |bytes| == c.low + 1
  {
    Unsigned(Cleared(c, bytes))
  }

  lemma {:induction false} WideEnough(k: nat)
    ensures 0 < Power256(k) && 128 * Power256(k) < Power256(k + 1)
  {
    if k > 0 {
      WideEnough(k - 1);
    }
  }

  lemma {:induction false} SplitTop(bytes: seq<byte>, k: nat)
    requires |bytes| == k + 1
    ensures bytes == bytes[..k] + [bytes[k]]
  {
  }

  /** A number below half the range leaves the top bit clear. */
  lemma {:induction false} TopBitClear(y: nat, k: nat)
    requires y < 128 * Power256(k)
    ensures LittleEndian(y, k + 1)[k] < 128 && Unsigned(LittleEndian(y, k + 1)) == y
  {
    var bytes := LittleEndian(y, k + 1);
    WideEnough(k);
    ValueLittleEndian(y, k + 1);
    SplitTop(bytes, k);
    ValueAppend(bytes[..k], bytes[k]);
    LittleEndianValue(bytes[..k]);
    if bytes[k] >= 128 {
      Monotone(128, bytes[k], Power256(k));
    }
  }

  lemma {:induction false} ClearedEncoding(c: Curve, a: Affine)
    requires a.y >= 0 && LittleEndian(a.y, c.low + 1)[c.low] < 128
    ensures Cleared(c, EncodeAffine(c, a)) == LittleEndian(a.y, c.low + 1)
    ensures SignBit(c, EncodeAffine(c, a)) == a.x % 2
  {
    var encoded := LittleEndian(a.y, c.low + 1);
    SplitTop(encoded, c.low);
  }

  /** The 32 bytes are those of one number: y in the low 255 bits, the parity of x in the bit above them. */
  lemma {:induction false} EncodingIs(c: Curve, a: Affine)
    requires c.low == 31
    requires 0 <= a.y < 0x8000_0000_0000_0000_0000_0000_0000_0000_0000_0000_0000_0000_0000_0000_0000_0000
    ensures Unsigned(EncodeAffine(c, a)) == a.y + a.x % 2
      * 0x8000_0000_0000_0000_0000_0000_0000_0000_0000_0000_0000_0000_0000_0000_0000_0000
  {
    var encoded := LittleEndian(a.y, 32);
    Bits248(31);
    TopBitClear(a.y, 31);
    SplitTop(encoded, 31);
    ValueAppend(encoded[..31], encoded[31]);
    ValueAppend(encoded[..31], SetTop(encoded[31]));
  }

  lemma {:induction false} DecodeEncode(c: Curve, a: Affine)
    requires 0 <= a.y < c.p <= 128 * Power256(c.low)
    ensures YOf(c, EncodeAffine(c, a)) == a.y && SignBit(c, EncodeAffine(c, a)) == a.x % 2
  {
    TopBitClear(a.y, c.low);
    ClearedEncoding(c, a);
  }

  lemma {:induction false} EncodeDecode(c: Curve, bytes: seq<byte>, x: int)
    requires |bytes| == c.low + 1 && x % 2 == SignBit(c, bytes)
    ensures EncodeAffine(c, Affine(x, YOf(c, bytes))) == bytes
  {
    var cleared := Cleared(c, bytes);
    LittleEndianValue(cleared);
    assert cleared[..c.low] == bytes[..c.low];
    SplitTop(bytes, c.low);
  }

  lemma {:induction false} EncodedParts(c: Curve, a: Affine, b: Affine)
    requires 0 <= a.y < c.p && 0 <= b.y < c.p && c.p <= 128 * Power256(c.low)
    requires EncodeAffine(c, a) == EncodeAffine(c, b)
    ensures a.y == b.y && a.x % 2 == b.x % 2
  {
    DecodeEncode(c, a);
    DecodeEncode(c, b);
  }

  lemma {:induction false} OddSum(x: int, y: int, p: int)
    requires x + y == p && p % 8 == 5
    ensures x % 2 != y % 2
  {
  }

  /** An encoding determines its point. */
  lemma {:induction false} EncodingDeterminesPoint(c: Curve, a: Affine, b: Affine)
    requires Suitable(c) && Member(c, a) && Member(c, b) && EncodeAffine(c, a) == EncodeAffine(c, b)
    ensures a == b
  {
    EncodedParts(c, a, b);
    SameY(c, a, b);
    if a.x + b.x == c.p {
      OddSum(a.x, b.x, c.p);
    }
  }

  //// The curve test

  function CurveTest(c: Curve, bytes: seq<byte>): bool {
    && |bytes| == c.low + 1 && YOf(c, bytes) < c.p
    && RecoverX(c, YOf(c, bytes)).Some? && !(RecoverX(c, YOf(c, bytes)).value == 0 && SignBit(c, bytes) == 1)
  }

  ghost predicate EncodesMember(c: Curve, bytes: seq<byte>) {
    exists a: Affine :: Member(c, a) && bytes == EncodeAffine(c, a)
  }

  /** Of the two points with one y, the one whose x has the given parity. */
  lemma {:induction false} WithSign(c: Curve, a: Affine, sign: int) returns (b: Affine)
    requires c.p % 8 == 5 && Member(c, a) && 0 <= sign <= 1 && !(a.x == 0 && sign == 1)
    ensures Member(c, b) && b.y == a.y && b.x % 2 == sign
  {
    b := a;
    if a.x % 2 != sign {
      Mirror(c, a);
      OddSum(c.p - a.x, a.x, c.p);
      b := Affine(c.p - a.x, a.y);
    }
  }

  lemma {:induction false} AcceptedIsEncoding(c: Curve, bytes: seq<byte>)
    requires Suitable(c) && CurveTest(c, bytes)
    ensures EncodesMember(c, bytes)
  {
    var y := YOf(c, bytes);
    RecoverXSound(c, y);
    var a := WithSign(c, Affine(RecoverX(c, y).value, y), SignBit(c, bytes));
    EncodeDecode(c, bytes, a.x);
    EncodesBy(c, a, bytes);
  }

  lemma {:induction false} EncodesBy(c: Curve, a: Affine, bytes: seq<byte>)
    requires Member(c, a) && bytes == EncodeAffine(c, a)
    ensures EncodesMember(c, bytes)
  {
  }

  lemma {:induction false} EncodingAccepted(c: Curve, a: Affine)
    requires Suitable(c) && Member(c, a)
    ensures CurveTest(c, EncodeAffine(c, a))
  {
    DecodeEncode(c, a);
    RecoverXExactly(c, a.y);
    RecoverXSound(c, a.y);
    SameY(c, a, Affine(RecoverX(c, a.y).value, a.y));
  }

  /** The test accepts exactly the encodings of curve points. */
  lemma {:induction false} AcceptsExactlyEncodings(c: Curve, bytes: seq<byte>)
    requires Suitable(c)
    ensures CurveTest(c, bytes) <==> EncodesMember(c, bytes)
  {
    if CurveTest(c, bytes) {
      AcceptedIsEncoding(c, bytes);
    }
    if EncodesMember(c, bytes) {
      var a: Affine :| Member(c, a) && bytes == EncodeAffine(c, a);
      EncodingAccepted(c, a);
    }
  }
}
