/** Three-component vectors over the reals: the arithmetic of `Vec3`
    (negation, and `+`, `-`, `*` with a vector or a scalar operand), the
    dot product and squared length the renderer uses, vector projection,
    the mirror formula for reflections, and normalisation against an
    abstract Euclidean `length`. */
module Vectors {

  datatype Vec3 = Vec3(x: real, y: real, z: real)

  /** The right operand of `+`, `-` and `*`: either another vector or a
      number. The closed type replaces the source's run-time type test, so
      its "Invalid type" error cannot arise. */
  datatype Operand = Vector(v: Vec3) | Scalar(k: real)

  const Zero: Vec3 := Vec3(0.0, 0.0, 0.0)

  /** The vector with every component equal to `k`. */
  function Splat(k: real): Vec3 {
    Vec3(k, k, k)
  }

  function Neg(v: Vec3): Vec3 {
    Vec3(-v.x, -v.y, -v.z)
  }

  function Add(v: Vec3, other: Operand): Vec3 {
    match other
    case Vector(w) => Vec3(v.x + w.x, v.y + w.y, v.z + w.z)
    case Scalar(k) => Vec3(v.x + k, v.y + k, v.z + k)
  }

  function Sub(v: Vec3, other: Operand): Vec3 {
    match other
    case Vector(w) => Vec3(v.x - w.x, v.y - w.y, v.z - w.z)
    case Scalar(k) => Vec3(v.x - k, v.y - k, v.z - k)
  }

  /** Component-wise product with a vector, or scaling by a number. */
  function Mul(v: Vec3, other: Operand): Vec3 {
    match other
    case Vector(w) => Vec3(v.x * w.x, v.y * w.y, v.z * w.z)
    case Scalar(k) => Vec3(v.x * k, v.y * k, v.z * k)
  }

  /** The renderer's `scale` helper: the scalar comes first. */
  function Scale(k: real, v: Vec3): Vec3 {
    Vec3(k * v.x, k * v.y, k * v.z)
  }

  function Dot(a: Vec3, b: Vec3): real {
    a.x * b.x + a.y * b.y + a.z * b.z
  }

  /** Products and squares go through these two functions, so that the
      facts about them below are used as stated. */
  function Times(a: real, b: real): real {
    a * b
  }

  function Sq(a: real): real {
    Times(a, a)
  }

  function LengthSquared(v: Vec3): real {
    Sq(v.x) + Sq(v.y) + Sq(v.z)
  }

  /** `length` is the Euclidean norm `sqrt(x*x + y*y + z*z)`: the
      non-negative number whose square is the squared length. The facts
      are released where the squared length of the same vector is
      mentioned, which `LengthFacts` below does. */
  ghost predicate IsLength(length: Vec3 -> real) {
    forall v {:trigger LengthSquared(v)} :: 0.0 <= length(v) && Sq(length(v)) == LengthSquared(v)
  }

  /** `v` divided by its length; the source does not guard a zero length. */
  function Normalize(length: Vec3 -> real, v: Vec3): Vec3
    requires length(v) != 0.0
  {
    Vec3(v.x / length(v), v.y / length(v), v.z / length(v))
  }

  /** The renderer's `proj_a_onto_b` as written: it divides by the squared
      length of `a`, the vector being projected. */
  function ProjAOntoB(a: Vec3, b: Vec3): Vec3
    requires LengthSquared(a) != 0.0
  {
    Scale(Dot(a, b) / LengthSquared(a), b)
  }

  /** Orthogonal projection of `a` onto `b`: divides by the squared length
      of `b`, the direction projected onto. */
  function ProjectOnto(a: Vec3, b: Vec3): Vec3
    requires LengthSquared(b) != 0.0
  {
    Scale(Dot(a, b) / LengthSquared(b), b)
  }

  /** The renderer's mirror formula `a + 2 * (proj(a, n) - a)`. */
  function Reflect(a: Vec3, n: Vec3): Vec3
    requires LengthSquared(n) != 0.0
  {
    Add(a, Vector(Scale(2.0, Sub(ProjectOnto(a, n), Vector(a)))))
  }

  // ---------------------------------------------------------------------
  // Algebraic identities of the operators

  lemma SubSelfIsZero(v: Vec3)
    ensures Sub(v, Vector(v)) == Zero
  {
  }

  lemma AddNegIsZero(v: Vec3)
    ensures Add(v, Vector(Neg(v))) == Zero
    ensures Neg(Neg(v)) == v
  {
  }

  /** Subtracting is adding the negation. */
  lemma SubIsAddNeg(v: Vec3, w: Vec3)
    ensures Sub(v, Vector(w)) == Add(v, Vector(Neg(w)))
  {
  }

  /** A scalar operand acts as the vector with that scalar in every
      component, for each of the three operators. */
  lemma ScalarOperandIsSplat(v: Vec3, k: real)
    ensures Add(v, Scalar(k)) == Add(v, Vector(Splat(k)))
    ensures Sub(v, Scalar(k)) == Sub(v, Vector(Splat(k)))
    ensures Mul(v, Scalar(k)) == Mul(v, Vector(Splat(k)))
    ensures Mul(v, Scalar(k)) == Scale(k, v)
  {
  }

  /** With a vector operand, `+` and `*` are component-wise and so
      commute. */
  lemma VectorOperandsCommute(v: Vec3, w: Vec3)
    ensures Add(v, Vector(w)) == Add(w, Vector(v))
    ensures Mul(v, Vector(w)) == Mul(w, Vector(v))
    ensures Mul(v, Vector(w)) == Vec3(v.x * w.x, v.y * w.y, v.z * w.z)
  {
  }

  lemma MulScalarUnits(v: Vec3)
    ensures Mul(v, Scalar(1.0)) == v
    ensures Mul(v, Scalar(0.0)) == Zero
    ensures Add(v, Vector(Zero)) == v
  {
  }

  // ---------------------------------------------------------------------
  // Squared length and the abstract Euclidean length

  lemma PositiveProduct(a: real, b: real)
    requires 0.0 < a && 0.0 < b
    ensures 0.0 < Times(a, b)
  {
  }

  lemma ProductOfNegations(a: real, b: real)
    ensures Times(-a, -b) == Times(a, b)
  {
  }

  lemma ProductMonotone(a: real, b: real, c: real)
    requires 0.0 < a && b < c
    ensures Times(a, b) < Times(a, c)
  {
    PositiveProduct(a, c - b);
    assert Times(a, c - b) == Times(a, c) - Times(a, b);
  }

  lemma ProductOfQuotients(a: real, b: real, l: real, m: real)
    requires l != 0.0 && m != 0.0
    ensures Times(a / l, b / m) == Times(a, b) / Times(l, m)
  {
    var p, q := a / l, b / m;
    assert p * l == a && q * m == b;
    assert (p * q) * (l * m) == (p * l) * (q * m);
  }

  /** A square is non-negative, and positive away from zero. */
  lemma Square(a: real)
    ensures 0.0 <= Sq(a)
    ensures a != 0.0 ==> 0.0 < Sq(a)
  {
    if 0.0 < a {
      PositiveProduct(a, a);
    } else if a < 0.0 {
      PositiveProduct(-a, -a);
      ProductOfNegations(a, a);
    }
  }

  /** The non-negative square root of one is one. */
  lemma UnitRoot(m: real)
    requires 0.0 <= m && Sq(m) == 1.0
    ensures m == 1.0
  {
    if 0.0 < m < 1.0 {
      ProductMonotone(m, m, 1.0);
    } else if 1.0 < m {
      ProductMonotone(m, 1.0, m);
    }
  }

  lemma QuotientSum(a: real, b: real, c: real, d: real)
    requires d != 0.0
    ensures a / d + b / d + c / d == (a + b + c) / d
  {
  }

  lemma SelfQuotient(d: real)
    requires d != 0.0
    ensures d / d == 1.0
  {
  }

  /** Squaring is strictly monotone on the non-negative reals. */
  lemma SquareMonotone(a: real, b: real)
    requires 0.0 <= a && 0.0 <= b
    ensures a < b <==> Sq(a) < Sq(b)
    ensures a == b <==> Sq(a) == Sq(b)
  {
    if a < b {
      Square(b);
      if 0.0 < a {
        ProductMonotone(a, a, b);
        ProductMonotone(b, a, b);
        assert Times(a, b) == Times(b, a);
      }
    } else if b < a {
      Square(a);
      if 0.0 < b {
        ProductMonotone(b, b, a);
        ProductMonotone(a, b, a);
        assert Times(a, b) == Times(b, a);
      }
    }
  }

  /** The squared length is positive away from the zero vector. */
  lemma LengthSquaredPositive(v: Vec3)
    ensures 0.0 <= LengthSquared(v)
    ensures v != Zero ==> 0.0 < LengthSquared(v)
  {
    Square(v.x);
    Square(v.y);
    Square(v.z);
    if v != Zero {
      assert v.x != 0.0 || v.y != 0.0 || v.z != 0.0;
    }
  }

  /** Negation keeps the squared length. */
  lemma NegPreservesLength(v: Vec3)
    ensures LengthSquared(Neg(v)) == LengthSquared(v)
  {
    ProductOfNegations(v.x, v.x);
    ProductOfNegations(v.y, v.y);
    ProductOfNegations(v.z, v.z);
  }

  /** The length vanishes exactly at the zero vector. */
  lemma LengthZeroIff(length: Vec3 -> real, v: Vec3)
    requires IsLength(length)
    ensures 0.0 <= length(v)
    ensures length(v) == 0.0 <==> v == Zero
  {
    var l := length(v);
    assert 0.0 <= l && Sq(l) == LengthSquared(v);
    LengthSquaredPositive(v);
    Square(l);
  }

  /** The defining facts of `length` at one vector. */
  lemma LengthFacts(length: Vec3 -> real, v: Vec3)
    requires IsLength(length)
    ensures Sq(length(v)) == LengthSquared(v)
    ensures 0.0 <= length(v)
  {
  }

  /** A non-negative number whose square is the squared length is the
      length. */
  lemma LengthIs(length: Vec3 -> real, v: Vec3, c: real)
    requires IsLength(length)
    requires 0.0 <= c && LengthSquared(v) == Sq(c)
    ensures length(v) == c
  {
    LengthFacts(length, v);
    SquareMonotone(length(v), c);
  }

  /** Lagrange's identity in three dimensions, on plain reals. */
  lemma LagrangeIdentity(a: real, b: real, c: real, d: real, e: real, f: real)
    ensures (a * a + b * b + c * c) * (d * d + e * e + f * f) - (a * d + b * e + c * f) * (a * d + b * e + c * f)
            == (b * f - c * e) * (b * f - c * e) + (c * d - a * f) * (c * d - a * f) + (a * e - b * d) * (a * e - b * d)
  {
  }

  lemma CrossSquaresNonNegative(p: real, q: real, r: real)
    ensures 0.0 <= p * p + q * q + r * r
  {
    Square(p);
    Square(q);
    Square(r);
  }

  /** Cauchy-Schwarz for squares, on plain reals. */
  lemma DotSquareBoundReals(a: real, b: real, c: real, d: real, e: real, f: real)
    ensures (a * d + b * e + c * f) * (a * d + b * e + c * f) <= (a * a + b * b + c * c) * (d * d + e * e + f * f)
  {
    LagrangeIdentity(a, b, c, d, e, f);
    CrossSquaresNonNegative(b * f - c * e, c * d - a * f, a * e - b * d);
  }

  /** `|u|^2 |w|^2 - (u . w)^2` is the squared length of the cross product,
      so it is never negative. */
  lemma DotSquareBound(u: Vec3, w: Vec3)
    ensures Sq(Dot(u, w)) <= Times(LengthSquared(u), LengthSquared(w))
  {
    DotSquareBoundReals(u.x, u.y, u.z, w.x, w.y, w.z);
  }

  /** The product of two non-negative numbers is non-negative. */
  lemma NonNegativeProduct(a: real, b: real)
    requires 0.0 <= a && 0.0 <= b
    ensures 0.0 <= Times(a, b)
  {
    if 0.0 < a && 0.0 < b {
      PositiveProduct(a, b);
    }
  }

  /** Cauchy-Schwarz: the dot product is at most the product of the
      lengths. */
  lemma CauchySchwarz(length: Vec3 -> real, u: Vec3, w: Vec3)
    requires IsLength(length)
    ensures Dot(u, w) <= Times(length(u), length(w))
  {
    LengthFacts(length, u);
    LengthFacts(length, w);
    var lu, lw := length(u), length(w);
    DotSquareBound(u, w);
    assert Sq(Times(lu, lw)) == Times(Sq(lu), Sq(lw));
    NonNegativeProduct(lu, lw);
    if 0.0 < Dot(u, w) {
      SquareMonotone(Times(lu, lw), Dot(u, w));
    }
  }

  /** The triangle inequality for `length`. */
  lemma TriangleInequality(length: Vec3 -> real, u: Vec3, w: Vec3)
    requires IsLength(length)
    ensures length(Add(u, Vector(w))) <= length(u) + length(w)
  {
    var s := Add(u, Vector(w));
    LengthFacts(length, s);
    LengthFacts(length, u);
    LengthFacts(length, w);
    CauchySchwarz(length, u, w);
    var lu, lw := length(u), length(w);
    assert LengthSquared(s) == LengthSquared(u) + 2.0 * Dot(u, w) + LengthSquared(w);
    assert Sq(lu + lw) == Sq(lu) + 2.0 * Times(lu, lw) + Sq(lw);
    SquareMonotone(length(s), lu + lw);
  }

  /** No component is longer than the vector; here the `y` component. */
  lemma ComponentBound(length: Vec3 -> real, v: Vec3)
    requires IsLength(length)
    ensures -length(v) <= v.y <= length(v)
  {
    LengthFacts(length, v);
    Square(v.x);
    Square(v.z);
    ProductOfNegations(v.y, v.y);
    if 0.0 <= v.y {
      SquareMonotone(length(v), v.y);
    } else {
      SquareMonotone(length(v), -v.y);
    }
  }

  /** Scaling by `k` multiplies the squared length by `k * k`. */
  lemma LengthSquaredScaled(v: Vec3, k: real)
    ensures LengthSquared(Mul(v, Scalar(k))) == Times(Sq(k), LengthSquared(v))
  {
  }

  /** A field over points that never changes faster than the point moves,
      as a true signed distance does. */
  ghost predicate Lipschitz(sdf: Vec3 -> real, length: Vec3 -> real) {
    forall p, q :: sdf(p) <= sdf(q) + length(Sub(p, Vector(q)))
  }

  /** Normalising a non-zero vector yields a unit vector. */
  lemma NormalizeIsUnit(length: Vec3 -> real, v: Vec3)
    requires IsLength(length)
    requires v != Zero
    ensures length(v) != 0.0
    ensures LengthSquared(Normalize(length, v)) == 1.0
    ensures length(Normalize(length, v)) == 1.0
  {
    LengthZeroIff(length, v);
    var l := length(v);
    var d := Sq(l);
    assert d == LengthSquared(v);
    Square(l);
    var u := Normalize(length, v);
    ProductOfQuotients(v.x, v.x, l, l);
    ProductOfQuotients(v.y, v.y, l, l);
    ProductOfQuotients(v.z, v.z, l, l);
    QuotientSum(Sq(v.x), Sq(v.y), Sq(v.z), d);
    SelfQuotient(d);
    assert LengthSquared(u) == 1.0;
    var m := length(u);
    assert 0.0 <= m && Sq(m) == 1.0;
    UnitRoot(m);
  }

  /** A vector of squared length one has length one, and normalising it
      gives it back. */
  lemma NormalizeUnit(length: Vec3 -> real, v: Vec3)
    requires IsLength(length)
    requires LengthSquared(v) == 1.0
    ensures length(v) == 1.0
    ensures Normalize(length, v) == v
  {
    LengthFacts(length, v);
    UnitRoot(length(v));
  }

  // ---------------------------------------------------------------------
  // Projection and reflection

  /** What is left of `a` after removing its projection onto `b` is
      orthogonal to `b`. */
  lemma ProjectOntoOrthogonal(a: Vec3, b: Vec3)
    requires LengthSquared(b) != 0.0
    ensures Dot(Sub(a, Vector(ProjectOnto(a, b))), b) == 0.0
  {
    var k := Dot(a, b) / LengthSquared(b);
    assert k * LengthSquared(b) == Dot(a, b);
    var p := ProjectOnto(a, b);
    assert Dot(Sub(a, Vector(p)), b) == Dot(a, b) - k * LengthSquared(b);
  }

  /** The as-written projection is not orthogonal: projecting (2, 0, 0)
      onto (1, 0, 0) yields (0.5, 0, 0), leaving a residual along the
      axis. */
  lemma ProjAOntoBNotOrthogonal()
    ensures ProjAOntoB(Vec3(2.0, 0.0, 0.0), Vec3(1.0, 0.0, 0.0)) == Vec3(0.5, 0.0, 0.0)
    ensures ProjectOnto(Vec3(2.0, 0.0, 0.0), Vec3(1.0, 0.0, 0.0)) == Vec3(2.0, 0.0, 0.0)
    ensures Dot(Sub(Vec3(2.0, 0.0, 0.0), Vector(ProjAOntoB(Vec3(2.0, 0.0, 0.0), Vec3(1.0, 0.0, 0.0)))),
                Vec3(1.0, 0.0, 0.0)) == 1.5
  {
    var a, b := Vec3(2.0, 0.0, 0.0), Vec3(1.0, 0.0, 0.0);
    assert Sq(2.0) == 4.0 && Sq(1.0) == 1.0 && Sq(0.0) == 0.0;
    assert Dot(a, b) == 2.0 && LengthSquared(a) == 4.0 && LengthSquared(b) == 1.0;
    assert ProjAOntoB(a, b) == Scale(0.5, b);
    assert ProjectOnto(a, b) == Scale(2.0, b);
  }

  /** The two projections agree when both vectors have the same length,
      in particular on the unit vectors the renderer passes. */
  lemma ProjectionsAgreeOnEqualLengths(a: Vec3, b: Vec3)
    requires LengthSquared(a) == LengthSquared(b) != 0.0
    ensures ProjAOntoB(a, b) == ProjectOnto(a, b)
  {
  }

  /** The mirror image is `2 k n - a`, where `k n` is the projection. */
  lemma ReflectClosedForm(a: Vec3, n: Vec3)
    requires LengthSquared(n) != 0.0
    ensures Reflect(a, n) == Sub(Scale(2.0 * (Dot(a, n) / LengthSquared(n)), n), Vector(a))
  {
  }

  /** Mirroring about `n` keeps the component along `n`... */
  lemma ReflectKeepsNormalComponent(a: Vec3, n: Vec3)
    requires LengthSquared(n) != 0.0
    ensures Dot(Reflect(a, n), n) == Dot(a, n)
  {
    var k := Dot(a, n) / LengthSquared(n);
    assert k * LengthSquared(n) == Dot(a, n);
    ReflectClosedForm(a, n);
    var r := Reflect(a, n);
    assert Dot(r, n) == 2.0 * k * LengthSquared(n) - Dot(a, n);
  }

  /** ...and the length of the vector. */
  lemma ReflectPreservesLength(a: Vec3, n: Vec3)
    requires LengthSquared(n) != 0.0
    ensures LengthSquared(Reflect(a, n)) == LengthSquared(a)
  {
    var k := Dot(a, n) / LengthSquared(n);
    var d := Dot(a, n);
    var l := LengthSquared(n);
    assert k * l == d;
    ReflectClosedForm(a, n);
    var r := Reflect(a, n);
    assert r == Vec3(2.0 * k * n.x - a.x, 2.0 * k * n.y - a.y, 2.0 * k * n.z - a.z);
    assert LengthSquared(r) == 4.0 * k * k * l - 4.0 * k * d + LengthSquared(a);
    assert 4.0 * k * k * l == 4.0 * k * d;
  }

  /** Mirroring twice about the same direction gives back the vector. */
  lemma ReflectInvolution(a: Vec3, n: Vec3)
    requires LengthSquared(n) != 0.0
    ensures Reflect(Reflect(a, n), n) == a
  {
    var r := Reflect(a, n);
    ReflectKeepsNormalComponent(a, n);
    assert ProjectOnto(r, n) == ProjectOnto(a, n);
  }
}
