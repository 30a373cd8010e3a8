/**
 Point arithmetic in extended coordinates (section 5.1.4 of RFC 8032). The addition and doubling
 formulas compute the affine addition law, so that double-and-add is repeated addition. Each formula
 is checked one product at a time: the parts of the extended sum are named, and related to numerator
 and denominator of the affine sum by arithmetic alone.
 */
module EdwardsPoints {
  import opened ModularArithmetic
  import opened EdwardsCurve
  import opened Groups

  /** Extended coordinates: x = X/Z, y = Y/Z, x y = T/Z. */
  datatype Point = Point(x: int, y: int, z: int, t: int)

  const Identity := Point(0, 1, 1, 0)

  /** The intermediate values both formulas end with. */
  datatype Parts = Parts(e: int, f: int, g: int, h: int)

  function Assembled(c: Curve, s: Parts): Point {
    Point(s.e * s.f % c.p, s.g * s.h % c.p, s.f * s.g % c.p, s.e * s.h % c.p)
  }

  function AddParts(c: Curve, l: Point, r: Point): Parts {
    var a := (l.y - l.x) * (r.y - r.x) % c.p;
    var b := (l.y + l.x) * (r.y + r.x) % c.p;
    var s := 2 * c.d * l.t * r.t % c.p;
    var d := 2 * l.z * r.z % c.p;
    Parts((b - a) % c.p, (d - s) % c.p, (d + s) % c.p, (b + a) % c.p)
  }

  function Add(c: Curve, l: Point, r: Point): Point {
    Assembled(c, AddParts(c, l, r))
  }

  function DoubleParts(c: Curve, point: Point): Parts {
    var a := point.x * point.x % c.p;
    var b := point.y * point.y % c.p;
    var s := 2 * point.z * point.z % c.p;
    var d := (-a) % c.p;
    var e := ((point.x + point.y) * (point.x + point.y) - a - b) % c.p;
    var g := (d + b) % c.p;
    Parts(e, (g - s) % c.p, g, (d - b) % c.p)
  }

  function Double(c: Curve, point: Point): Point {
    Assembled(c, DoubleParts(c, point))
  }

  //// The affine addition law

  function Cross(c: Curve, a: Affine, b: Affine): int {
    c.d * ((a.x * a.y) * (b.x * b.y))
  }

  function AffineSum(c: Curve, a: Affine, b: Affine): Affine {
    Affine(
      (a.x * b.y + a.y * b.x) * Inverse(1 + Cross(c, a, b), c.p) % c.p,
      (a.y * b.y + a.x * b.x) * Inverse(1 - Cross(c, a, b), c.p) % c.p)
  }

  function CurveGroup(c: Curve): Group<Affine> {
    Group((a: Affine) => Member(c, a), (a: Affine, b: Affine) => AffineSum(c, a, b), Affine(0, 1))
  }

  /** The denominators of the addition law do not vanish. */
  ghost predicate Complete(c: Curve, a: Affine, b: Affine) {
    !Same(1 + Cross(c, a, b), 0, c.p) && !Same(1 - Cross(c, a, b), 0, c.p)
  }

  /** The group laws of the curve, a hypothesis wherever they are needed. */
  ghost predicate EdwardsGroup(c: Curve) {
    && Suitable(c) && Laws(CurveGroup(c))
    && forall a, b :: Member(c, a) && Member(c, b) ==> Complete(c, a, b)
  }

  /** Extended coordinates stand for an affine point. */
  ghost predicate Represents(c: Curve, point: Point, a: Affine) {
    && Same(point.x, a.x * point.z, c.p) && Same(point.y, a.y * point.z, c.p)
    && Same(point.t, (a.x * a.y) * point.z, c.p) && !Same(point.z, 0, c.p)
  }

  //// Products of coordinates

  /** Two coordinates over Z1 and Z2 multiply to one over Z1 Z2. */
  lemma {:induction false} CoordinateProduct(x: int, a: int, z: int, y: int, b: int, w: int, p: Modulus)
    requires Same(x, a * z, p) && Same(y, b * w, p)
    ensures Same(x * y, (a * b) * (z * w), p)
  {
    TimesSame(x, a * z, y, b * w, p);
    Rearrange(a, b, z, w);
  }

  lemma {:induction false} ScaledSum(x: int, a: int, y: int, b: int, w: int, p: Modulus)
    requires Same(x, a * w, p) && Same(y, b * w, p)
    ensures Same(2 * (x + y), (2 * w) * (a + b), p)
  {
    PlusSame(x, a * w, y, b * w, p);
    TimesSame(2, 2, x + y, a * w + b * w, p);
    assert 2 * (a * w + b * w) == (2 * w) * (a + b);
  }

  lemma {:induction false} Nonzero(a: int, b: int, p: Modulus)
    requires Fermat(p) && !Same(a, 0, p) && !Same(b, 0, p)
    ensures !Same(a * b, 0, p)
  {
    if Same(a * b, 0, p) {
      NoZeroDivisors(a, b, p);
    }
  }

  /** A reduced difference or sum is congruent to the one before reduction. */
  lemma {:induction false} ReducedSum(a: int, b: int, p: Modulus)
    ensures Same((a % p + b % p) % p, a + b, p) && Same((a % p - b % p) % p, a - b, p)
  {
    Reduce(a, p);
    Reduce(b, p);
    Reduce(a % p + b % p, p);
    Reduce(a % p - b % p, p);
    PlusSame(a % p, a, b % p, b, p);
    MinusSame(a % p, a, b % p, b, p);
  }

  /** A numerator is the quotient times the denominator, also when both are scaled. */
  lemma {:induction false} ScaledQuotient(
      n: int, numerator: int, d: int, denominator: int, w: int, quotient: int, p: Modulus)
    requires Same(n, w * numerator, p) && Same(d, w * denominator, p) && Same(quotient * denominator, numerator, p)
    ensures Same(n, quotient * d, p)
  {
    TimesSame(quotient, quotient, d, w * denominator, p);
    TimesSame(w, w, quotient * denominator, numerator, p);
    assert quotient * (w * denominator) == w * (quotient * denominator);
  }

  lemma {:induction false} AssembleX(e: int, f: int, g: int, x: int, p: Modulus)
    requires Same(e, x * g, p)
    ensures Same(e * f % p, x * (f * g % p), p)
  {
    TimesSame(e, x * g, f, f, p);
    Associate(x, g, f);
    assert g * f == f * g;
    AssembleOne(e * f, x, f * g, p);
  }

  lemma {:induction false} AssembleY(f: int, g: int, h: int, y: int, p: Modulus)
    requires Same(h, y * f, p)
    ensures Same(g * h % p, y * (f * g % p), p)
  {
    AssembleX(h, g, f, y, p);
    assert h * g == g * h && g * f == f * g;
  }

  lemma {:induction false} AssembleT(e: int, f: int, g: int, h: int, x: int, y: int, p: Modulus)
    requires Same(e, x * g, p) && Same(h, y * f, p)
    ensures Same(e * h % p, (x * y) * (f * g % p), p)
  {
    TimesSame(e, x * g, h, y * f, p);
    Rearrange(x, y, g, f);
    assert g * f == f * g;
    AssembleOne(e * h, x * y, f * g, p);
  }

  /** The last step of both formulas. */
  lemma {:induction false} Assemble(c: Curve, s: Parts, a: Affine)
    requires Fermat(c.p) && Same(s.e, a.x * s.g, c.p) && Same(s.h, a.y * s.f, c.p)
    requires !Same(s.f, 0, c.p) && !Same(s.g, 0, c.p)
    ensures Represents(c, Assembled(c, s), a)
  {
    AssembleX(s.e, s.f, s.g, a.x, c.p);
    AssembleY(s.f, s.g, s.h, a.y, c.p);
    AssembleT(s.e, s.f, s.g, s.h, a.x, a.y, c.p);
    Nonzero(s.f, s.g, c.p);
    Reduce(s.f * s.g, c.p);
  }

  lemma {:induction false} AssembleOne(n: int, a: int, z: int, p: Modulus)
    requires Same(n, a * z, p)
    ensures Same(n % p, a * (z % p), p)
  {
    Reduce(n, p);
    Reduce(z, p);
    TimesSame(a, a, z % p, z, p);
  }

  //// Addition

  lemma {:induction false} CrossProducts(x1: int, y1: int, x2: int, y2: int)
    ensures (y1 + x1) * (y2 + x2) - (y1 - x1) * (y2 - x2) == 2 * (x1 * y2 + y1 * x2)
    ensures (y1 + x1) * (y2 + x2) + (y1 - x1) * (y2 - x2) == 2 * (y1 * y2 + x1 * x2)
  {
    assert (y1 + x1) * (y2 + x2) == y1 * y2 + y1 * x2 + x1 * y2 + x1 * x2;
    assert (y1 - x1) * (y2 - x2) == y1 * y2 - y1 * x2 - x1 * y2 + x1 * x2;
  }

  /** The numerators of the sum, from the coordinates alone. */
  lemma {:induction false} AddNumerators(
      x1: int, y1: int, z1: int, x2: int, y2: int, z2: int, ax: int, ay: int, bx: int, by_: int, p: Modulus)
    requires Same(x1, ax * z1, p) && Same(y1, ay * z1, p) && Same(x2, bx * z2, p) && Same(y2, by_ * z2, p)
    ensures Same(2 * (x1 * y2 + y1 * x2), (2 * (z1 * z2)) * (ax * by_ + ay * bx), p)
    ensures Same(2 * (y1 * y2 + x1 * x2), (2 * (z1 * z2)) * (ay * by_ + ax * bx), p)
  {
    CoordinateProduct(x1, ax, z1, y2, by_, z2, p);
    CoordinateProduct(y1, ay, z1, x2, bx, z2, p);
    CoordinateProduct(y1, ay, z1, y2, by_, z2, p);
    CoordinateProduct(x1, ax, z1, x2, bx, z2, p);
    ScaledSum(x1 * y2, ax * by_, y1 * x2, ay * bx, z1 * z2, p);
    ScaledSum(y1 * y2, ay * by_, x1 * x2, ax * bx, z1 * z2, p);
  }

  lemma {:induction false} AddEH(c: Curve, l: Point, r: Point, a: Affine, b: Affine, s: Parts)
    requires Represents(c, l, a) && Represents(c, r, b) && s == AddParts(c, l, r)
    ensures Same(s.e, (2 * (l.z * r.z)) * (a.x * b.y + a.y * b.x), c.p)
    ensures Same(s.h, (2 * (l.z * r.z)) * (a.y * b.y + a.x * b.x), c.p)
  {
    ReducedSum((l.y + l.x) * (r.y + r.x), (l.y - l.x) * (r.y - r.x), c.p);
    CrossProducts(l.x, l.y, r.x, r.y);
    AddNumerators(l.x, l.y, l.z, r.x, r.y, r.z, a.x, a.y, b.x, b.y, c.p);
  }

  lemma {:induction false} CrossTerm(d: int, t: int, u: int, m: int, z: int, p: Modulus)
    requires Same(t * u, m * z, p)
    ensures Same(2 * d * t * u, (2 * z) * (d * m), p)
  {
    TimesSame(2 * d, 2 * d, t * u, m * z, p);
    calc {
      2 * d * t * u;
      (2 * d) * (t * u);
    }
    calc {
      (2 * d) * (m * z);
      2 * (d * (m * z));
      2 * ((d * m) * z);
      (2 * z) * (d * m);
    }
  }

  lemma {:induction false} ScaledDenominators(w: int, t: int, k: int, p: Modulus)
    requires Same(t, w * k, p)
    ensures Same((w % p - t % p) % p, w * (1 - k), p) && Same((w % p + t % p) % p, w * (1 + k), p)
  {
    ReducedSum(w, t, p);
    MinusSame(w, w, t, w * k, p);
    PlusSame(w, w, t, w * k, p);
    DistributeOne(w, k);
  }

  lemma {:induction false} DistributeOne(w: int, k: int)
    ensures w - w * k == w * (1 - k) && w + w * k == w * (1 + k)
  {
  }

  lemma {:induction false} AddFG(c: Curve, l: Point, r: Point, a: Affine, b: Affine, s: Parts)
    requires Represents(c, l, a) && Represents(c, r, b) && s == AddParts(c, l, r)
    ensures Same(s.f, (2 * (l.z * r.z)) * (1 - Cross(c, a, b)), c.p)
    ensures Same(s.g, (2 * (l.z * r.z)) * (1 + Cross(c, a, b)), c.p)
  {
    CoordinateProduct(l.t, a.x * a.y, l.z, r.t, b.x * b.y, r.z, c.p);
    CrossTerm(c.d, l.t, r.t, (a.x * a.y) * (b.x * b.y), l.z * r.z, c.p);
    Associate(2, l.z, r.z);
    ScaledDenominators(2 * (l.z * r.z), 2 * c.d * l.t * r.t, Cross(c, a, b), c.p);
  }

  /** The affine sum solves its own equations. */
  lemma {:induction false} AffineSumSolves(c: Curve, a: Affine, b: Affine)
    requires Fermat(c.p) && Complete(c, a, b)
    ensures var sum := AffineSum(c, a, b);
      && Same(sum.x * (1 + Cross(c, a, b)), a.x * b.y + a.y * b.x, c.p)
      && Same(sum.y * (1 - Cross(c, a, b)), a.y * b.y + a.x * b.x, c.p)
  {
    var sum, k := AffineSum(c, a, b), Cross(c, a, b);
    FractionUnique(a.x * b.y + a.y * b.x, 1 + k, 1 + k, a.x * b.y + a.y * b.x, sum.x, c.p);
    FractionUnique(a.y * b.y + a.x * b.x, 1 - k, 1 - k, a.y * b.y + a.x * b.x, sum.y, c.p);
  }

  lemma {:induction false} TwiceNonzero(z: int, p: Modulus)
    requires Fermat(p) && p % 8 == 5 && !Same(z, 0, p)
    ensures !Same(2 * z, 0, p)
  {
    Small(2, p);
    Small(0, p);
    Nonzero(2, z, p);
  }

  /** What numerators and denominators of both formulas have in common. */
  lemma {:induction false} Combine(c: Curve, s: Parts, v: int, w: int, a: Affine, b: Affine)
    requires Fermat(c.p) && Complete(c, a, b) && !Same(w, 0, c.p) && !Same(v, 0, c.p)
    requires Same(s.e, w * (a.x * b.y + a.y * b.x), c.p) && Same(s.g, w * (1 + Cross(c, a, b)), c.p)
    requires Same(s.h, v * (a.y * b.y + a.x * b.x), c.p) && Same(s.f, v * (1 - Cross(c, a, b)), c.p)
    ensures Represents(c, Assembled(c, s), AffineSum(c, a, b))
  {
    var sum, k := AffineSum(c, a, b), Cross(c, a, b);
    AffineSumSolves(c, a, b);
    ScaledQuotient(s.e, a.x * b.y + a.y * b.x, s.g, 1 + k, w, sum.x, c.p);
    ScaledQuotient(s.h, a.y * b.y + a.x * b.x, s.f, 1 - k, v, sum.y, c.p);
    Nonzero(w, 1 + k, c.p);
    Nonzero(v, 1 - k, c.p);
    Assemble(c, s, sum);
  }

  /** The addition formula computes the affine sum. */
  lemma {:induction false} AddCorrect(c: Curve, l: Point, r: Point, a: Affine, b: Affine)
    requires Suitable(c) && Complete(c, a, b) && Represents(c, l, a) && Represents(c, r, b)
    ensures Represents(c, Add(c, l, r), AffineSum(c, a, b))
  {
    var s := AddParts(c, l, r);
    AddEH(c, l, r, a, b, s);
    AddFG(c, l, r, a, b, s);
    Nonzero(l.z, r.z, c.p);
    TwiceNonzero(l.z * r.z, c.p);
    Combine(c, s, 2 * (l.z * r.z), 2 * (l.z * r.z), a, b);
  }

  //// Doubling

  lemma {:induction false} Square(x: int, a: int, z: int, p: Modulus)
    requires Same(x, a * z, p)
    ensures Same(x * x, (a * a) * (z * z), p)
  {
    CoordinateProduct(x, a, z, x, a, z, p);
  }

  lemma {:induction false} ReducedSquare(x: int, a: int, z: int, p: Modulus)
    requires Same(x, a * z, p)
    ensures Same(x * x % p, x * x, p) && Same(x * x % p, (a * a) * (z * z), p)
  {
    Reduce(x * x, p);
    Square(x, a, z, p);
  }

  lemma {:induction false} DoubleE(x: int, y: int, z: int, ax: int, ay: int, m: int, n: int, p: Modulus)
    requires Same(x, ax * z, p) && Same(y, ay * z, p) && Same(m, x * x, p) && Same(n, y * y, p)
    ensures Same(((x + y) * (x + y) - m - n) % p, (z * z) * (ax * ay + ay * ax), p)
  {
    var sum := (x + y) * (x + y);
    CoordinateProduct(x, ax, z, y, ay, z, p);
    ScaledTwice(x * y, ax * ay, z * z, p);
    SquareOfSum(x, y);
    MinusSame(sum, sum, m, x * x, p);
    MinusSame(sum - m, sum - x * x, n, y * y, p);
    Reduce(sum - m - n, p);
    assert ax * ay == ay * ax;
  }

  lemma {:induction false} DoubleEH(c: Curve, point: Point, a: Affine, s: Parts)
    requires Represents(c, point, a) && s == DoubleParts(c, point)
    ensures Same(s.e, (point.z * point.z) * (a.x * a.y + a.y * a.x), c.p)
    ensures Same(s.h, (-(point.z * point.z)) * (a.y * a.y + a.x * a.x), c.p)
  {
    var m, n := point.x * point.x % c.p, point.y * point.y % c.p;
    ReducedSquare(point.x, a.x, point.z, c.p);
    ReducedSquare(point.y, a.y, point.z, c.p);
    DoubleE(point.x, point.y, point.z, a.x, a.y, m, n, c.p);
    NegatedSum(m, n, a.x * a.x, a.y * a.y, point.z * point.z, c.p);
  }

  lemma {:induction false} SquareOfSum(x: int, y: int)
    ensures (x + y) * (x + y) - x * x - y * y == 2 * (x * y)
  {
    assert (x + y) * (x + y) == x * x + x * y + y * x + y * y;
  }

  lemma {:induction false} ScaledTwice(x: int, a: int, w: int, p: Modulus)
    requires Same(x, a * w, p)
    ensures Same(2 * x, w * (a + a), p)
  {
    TimesSame(2, 2, x, a * w, p);
    assert 2 * (a * w) == w * (a + a);
  }

  lemma {:induction false} NegatedSum(m: int, n: int, a: int, b: int, w: int, p: Modulus)
    requires Same(m, a * w, p) && Same(n, b * w, p)
    ensures Same(((-m) % p - n) % p, (-w) * (b + a), p)
    ensures Same(((-m) % p + n) % p, w * (b - a), p)
  {
    Reduce(-m, p);
    MinusSame(0, 0, m, a * w, p);
    MinusSame((-m) % p, 0 - a * w, n, b * w, p);
    PlusSame((-m) % p, 0 - a * w, n, b * w, p);
    Reduce((-m) % p - n, p);
    Reduce((-m) % p + n, p);
    assert 0 - a * w - b * w == (-w) * (b + a);
    assert 0 - a * w + b * w == w * (b - a);
  }

  /** Twice the scale less a scaled denominator is the other one, negated. */
  lemma {:induction false} OtherDenominator(g: int, w: int, k: int, p: Modulus)
    requires Same(g, w * (1 + k), p)
    ensures Same((g - 2 * w % p) % p, (-w) * (1 - k), p)
  {
    Reduce(2 * w, p);
    MinusSame(g, w * (1 + k), 2 * w % p, 2 * w, p);
    Reduce(g - 2 * w % p, p);
    OtherSide(w, k);
  }

  lemma {:induction false} OtherSide(w: int, k: int)
    ensures w * (1 + k) - 2 * w == (-w) * (1 - k)
  {
  }

  /** On the curve, the denominators of doubling are those of the addition law. */
  lemma {:induction false} DoubleFG(c: Curve, point: Point, a: Affine, s: Parts)
    requires Represents(c, point, a) && OnCurve(c, a.x, a.y) && s == DoubleParts(c, point)
    ensures Same(s.g, (point.z * point.z) * (1 + Cross(c, a, a)), c.p)
    ensures Same(s.f, (-(point.z * point.z)) * (1 - Cross(c, a, a)), c.p)
  {
    var w, k := point.z * point.z, Cross(c, a, a);
    ReducedSquare(point.x, a.x, point.z, c.p);
    ReducedSquare(point.y, a.y, point.z, c.p);
    NegatedSum(point.x * point.x % c.p, point.y * point.y % c.p, a.x * a.x, a.y * a.y, w, c.p);
    CrossOfSquares(c, a);
    TimesSame(w, w, a.y * a.y - a.x * a.x, 1 + k, c.p);
    Associate(2, point.z, point.z);
    OtherDenominator(s.g, w, k, c.p);
  }

  lemma {:induction false} CrossOfSquares(c: Curve, a: Affine)
    ensures c.d * (a.x * a.x) * (a.y * a.y) == Cross(c, a, a)
  {
    Rearrange(a.x, a.y, a.x, a.y);
    Associate(c.d, a.x * a.x, a.y * a.y);
  }

  lemma {:induction false} NegatedNonzero(a: int, p: Modulus)
    requires !Same(a, 0, p)
    ensures !Same(-a, 0, p)
  {
    if Same(-a, 0, p) {
      MinusSame(0, 0, -a, 0, p);
    }
  }

  /** The doubling formula computes the affine sum of a curve point with itself. */
  lemma {:induction false} DoubleCorrect(c: Curve, point: Point, a: Affine)
    requires Suitable(c) && Member(c, a) && Complete(c, a, a) && Represents(c, point, a)
    ensures Represents(c, Double(c, point), AffineSum(c, a, a))
  {
    var s := DoubleParts(c, point);
    DoubleEH(c, point, a, s);
    DoubleFG(c, point, a, s);
    Nonzero(point.z, point.z, c.p);
    NegatedNonzero(point.z * point.z, c.p);
    Combine(c, s, -(point.z * point.z), point.z * point.z, a, a);
  }

  //// Double and add

  lemma {:induction false} IdentityRepresents(c: Curve)
    ensures Represents(c, Identity, Affine(0, 1))
  {
    Small(0, c.p);
    Small(1, c.p);
  }

  lemma {:induction false} AddMember(c: Curve, l: Point, r: Point, a: Affine, b: Affine)
    requires EdwardsGroup(c) && Member(c, a) && Member(c, b) && Represents(c, l, a) && Represents(c, r, b)
    ensures Represents(c, Add(c, l, r), CurveGroup(c).plus(a, b)) && Member(c, CurveGroup(c).plus(a, b))
  {
    AddCorrect(c, l, r, a, b);
    Closed(CurveGroup(c), a, b);
  }

  lemma {:induction false} DoubleMember(c: Curve, point: Point, a: Affine)
    requires EdwardsGroup(c) && Member(c, a) && Represents(c, point, a)
    ensures Represents(c, Double(c, point), CurveGroup(c).plus(a, a)) && Member(c, CurveGroup(c).plus(a, a))
  {
    DoubleCorrect(c, point, a);
    Closed(CurveGroup(c), a, a);
  }

  /** Double-and-add computes the multiple of the point, that is, repeated addition. */
  method ScalarMultiply(c: Curve, point: Point, scalar: nat, ghost a: Affine) returns (result: Point)
    requires EdwardsGroup(c) && Member(c, a) && Represents(c, point, a)
    ensures Represents(c, result, Multiple(CurveGroup(c), scalar, a))
    ensures Member(c, Multiple(CurveGroup(c), scalar, a))
  {
    ghost var group := CurveGroup(c);
    ghost var goal := Multiple(group, scalar, a);
    ghost var sum, power := group.zero, a;
    MultipleMember(group, scalar, a);
    Neutral(group, goal);
    IdentityRepresents(c);
    result := Identity;
    var current, remaining: nat := point, scalar;
    while remaining > 0
      invariant Member(c, sum) && Represents(c, result, sum)
      invariant Member(c, power) && Represents(c, current, power)
      invariant group.plus(sum, Multiple(group, remaining, power)) == goal
    {
      DoubleAndAdd(group, sum, power, remaining);
      if remaining % 2 == 1 {
        AddMember(c, result, current, sum, power);
        result := Add(c, result, current);
        sum := group.plus(sum, power);
      }
      DoubleMember(c, current, power);
      current := Double(c, current);
      power := group.plus(power, power);
      remaining := remaining / 2;
    }
    Neutral(group, sum);
  }
}
