/**
  Properties of the vector model that relate several operations: the
  dimension predicates, `clone` against `equals`, the inverse pairs of the
  in-place arithmetic, and the geometry of `dot` and `cross`.
*/
module VectorLaws {
  import opened Components
  import opened Vectors

  // ---------------------------------------------------------------------------
  // Dimension

  /** At most one dimension predicate holds, and two numbers followed by two
      absent fields make exactly a 2D vector. */
  lemma DimensionsExclusive(v: Vector)
    ensures !(Is2D(v) && Is3D(v)) && !(Is2D(v) && Is4D(v)) && !(Is3D(v) && Is4D(v))
    ensures v.x.Num? && v.y.Num? && v.z.Undef? && v.w.Undef? ==> Is2D(v) && !Is3D(v) && !Is4D(v)
  {
  }

  // ---------------------------------------------------------------------------
  // Construction, set, clone and equals

  /** `new Vector()` is (0, 0) and `new Vector(s)` is (s, s). */
  lemma ConstructSingleScalar(s: real)
    ensures Construct(Scalars(Undef, Undef, Undef, Undef)) == Vector(Num(0.0), Num(0.0), Undef, Undef)
    ensures Construct(Scalars(Num(s), Undef, Undef, Undef)) == Vector(Num(s), Num(s), Undef, Undef)
  {
  }

  /** A lone scalar given to `set` keeps the receiver's dimension. */
  lemma SetBroadcastKeepsDimension(r: Vector, s: Component)
    requires IsDefined(s)
    ensures Is2D(r) ==> Is2D(Set(r, Scalars(s, Undef, Undef, Undef)))
    ensures Is3D(r) ==> Is3D(Set(r, Scalars(s, Undef, Undef, Undef)))
    ensures Is4D(r) ==> Is4D(Set(r, Scalars(s, Undef, Undef, Undef)))
    ensures !HasDimension(r) ==> Is2D(Set(r, Scalars(s, Undef, Undef, Undef)))
  {
  }

  /** Two or more scalars overwrite all four fields, so `set` can lower the
      dimension of a 4D vector to 2D. */
  lemma SetScalarsCanChangeDimension(r: Vector, p: real, q: real)
    ensures Is2D(Set(r, Scalars(Num(p), Num(q), Undef, Undef)))
  {
  }

  /** `clone()` of a NaN-free vector with a dimension `equals` the original. */
  lemma CloneEqualsOriginal(v: Vector)
    requires HasDimension(v) && NaNFree(v)
    ensures Equals(Clone(v), v)
  {
  }

  /** Without a dimension the clone can differ: a lone `x` is broadcast to
      `y`, and an absent `x` becomes 0. */
  lemma CloneOfDegenerateVectors(p: real)
    ensures Clone(Vector(Num(p), Undef, Undef, Undef)) == Vector(Num(p), Num(p), Undef, Undef)
    ensures Clone(Vector(Undef, Num(p), Undef, Undef)) == Vector(Num(0.0), Num(p), Undef, Undef)
    ensures !Equals(Clone(Vector(Num(p), Undef, Undef, Undef)), Vector(Num(p), Undef, Undef, Undef))
  {
  }

  // ---------------------------------------------------------------------------
  // In-place arithmetic

  /** After any of add/sub/mult/div a 2D or 3D receiver reports 4D. */
  lemma ArithPromotesTo4D(op: ArithOp, r: Vector, a: Arg)
    requires ValidArg(a) && (op == Divide ==> NoZeroDivisor(a))
    requires Is2D(r) || Is3D(r)
    ensures !Is2D(Arith(op, r, a)) && !Is3D(Arith(op, r, a)) && Is4D(Arith(op, r, a))
    ensures Arith(op, r, a).w == NaN
  {
  }

  /** The four scalars an argument stands for once a vector-like argument is
      taken apart and a lone scalar broadcast over a 4D receiver. */
  function Effective(a: Arg): (e: Arg)
    requires ValidArg(a)
    ensures e.Scalars? && ValidArg(e)
    decreases ArgRank(a)
  {
    match a
    case VectorLike(v) => Effective(Scalars(v.x, v.y, v.z, v.w))
    case Scalars(x, y, z, w) =>
      if y.Undef? && z.Undef? && w.Undef? then Scalars(x, x, x, x) else a
  }

  /** On a 4D receiver every field is combined with the matching field of
      `Effective(a)`, an omitted one read as the identity. */
  lemma {:induction false} ArithOn4D(op: ArithOp, r: Vector, a: Arg)
    requires Is4D(r) && ValidArg(a) && (op == Divide ==> NoZeroDivisor(a))
    ensures op == Divide ==> NoZeroDivisor(Effective(a))
    ensures var e := Effective(a); var i := Num(Identity(op));
      Arith(op, r, a) == Vector(Apply(op, r.x, Coalesce(e.x, i)), Apply(op, r.y, Coalesce(e.y, i)),
                                Apply(op, r.z, Coalesce(e.z, i)), Apply(op, r.w, Coalesce(e.w, i)))
    decreases ArgRank(a)
  {
    match a
    case VectorLike(v) =>
      ArithOn4D(op, r, Scalars(v.x, v.y, v.z, v.w));
    case Scalars(x, y, z, w) =>
      if y.Undef? && z.Undef? && w.Undef? {
        ArithOn4D(op, r, Scalars(x, x, x, x));
      }
  }

  /** Effective scalars are NaN-free (and non-zero) when the argument is. */
  lemma {:induction false} EffectiveKeepsNaNFree(a: Arg)
    requires ValidArg(a) && NaNFreeArg(a)
    ensures NaNFreeArg(Effective(a))
    ensures NoZeroDivisor(a) ==> NoZeroDivisor(Effective(a))
    decreases ArgRank(a)
  {
    match a
    case VectorLike(v) =>
      EffectiveKeepsNaNFree(Scalars(v.x, v.y, v.z, v.w));
    case Scalars(_, _, _, _) =>
  }

  /** `add(v)` then `sub(v)` restores a 4D receiver with numeric fields, and
      the result `equals` the original. */
  lemma AddSubRoundTrip(r: Vector, a: Arg)
    requires IsReal4(r) && ValidArg(a) && NaNFreeArg(a)
    ensures Sub(Add(r, a), a) == r
    ensures Equals(Sub(Add(r, a), a), r)
  {
    ArithOn4D(Plus, r, a);
    ArithOn4D(Minus, Add(r, a), a);
    EffectiveKeepsNaNFree(a);
  }

  /** `mult(s)` then `div(s)` restores a 4D receiver with numeric fields when
      no scalar is zero. */
  lemma MultDivRoundTrip(r: Vector, a: Arg)
    requires IsReal4(r) && ValidArg(a) && NaNFreeArg(a) && NoZeroDivisor(a)
    ensures Div(Mult(r, a), a) == r
    ensures Equals(Div(Mult(r, a), a), r)
  {
    ArithOn4D(Times, r, a);
    ArithOn4D(Divide, Mult(r, a), a);
    EffectiveKeepsNaNFree(a);
    var e := Effective(a);
    var m := Mult(r, a);
    ApplyInverse(Times, r.x, Coalesce(e.x, Num(1.0)));
    ApplyInverse(Times, r.y, Coalesce(e.y, Num(1.0)));
    ApplyInverse(Times, r.z, Coalesce(e.z, Num(1.0)));
    ApplyInverse(Times, r.w, Coalesce(e.w, Num(1.0)));
  }

  /** On a 2D or 3D receiver `add(v)` then `sub(v)` restores only the fields
      that were present; the absent ones end as NaN. */
  lemma AddSubRestoresPresentFields(r: Vector, a: Arg)
    requires ValidArg(a) && NaNFreeArg(a)
    requires r.x.Num? && r.y.Num? && r.w.Undef? && !r.z.NaN?
    ensures var s := Sub(Add(r, a), a);
      s.x == r.x && s.y == r.y && s.w == NaN &&
      (r.z.Num? ==> s.z == r.z) && (r.z.Undef? ==> s.z == NaN)
  {
    var s1 := Add(r, a);
    assert Is4D(s1);
    ArithOn4D(Minus, s1, a);
    EffectiveKeepsNaNFree(a);
    if Is3D(r) {
      Arith3DBroadcastAgrees(Plus, r, a);
    } else {
      Arith2DBroadcastAgrees(Plus, r, a);
    }
  }

  /** On a 3D receiver, the x, y, z fields are combined with those of
      `Effective(a)` just as on a 4D one. */
  lemma {:induction false} Arith3DBroadcastAgrees(op: ArithOp, r: Vector, a: Arg)
    requires Is3D(r) && ValidArg(a) && (op == Divide ==> NoZeroDivisor(a))
    ensures op == Divide ==> NoZeroDivisor(Effective(a))
    ensures var e := Effective(a); var i := Num(Identity(op)); var s := Arith(op, r, a);
      s.x == Apply(op, r.x, Coalesce(e.x, i)) && s.y == Apply(op, r.y, Coalesce(e.y, i)) &&
      s.z == Apply(op, r.z, Coalesce(e.z, i))
    decreases ArgRank(a)
  {
    match a
    case VectorLike(v) =>
      Arith3DBroadcastAgrees(op, r, Scalars(v.x, v.y, v.z, v.w));
    case Scalars(x, y, z, w) =>
      if y.Undef? && z.Undef? && w.Undef? {
        Arith3DBroadcastAgrees(op, r, Scalars(x, x, x, Undef));
      }
  }

  /** On a receiver of no higher dimension than 2, the x and y fields are
      combined with those of `Effective(a)` just as on a 4D one. */
  lemma {:induction false} Arith2DBroadcastAgrees(op: ArithOp, r: Vector, a: Arg)
    requires !Is3D(r) && !Is4D(r) && ValidArg(a) && (op == Divide ==> NoZeroDivisor(a))
    ensures op == Divide ==> NoZeroDivisor(Effective(a))
    ensures var e := Effective(a); var i := Num(Identity(op)); var s := Arith(op, r, a);
      s.x == Apply(op, r.x, Coalesce(e.x, i)) && s.y == Apply(op, r.y, Coalesce(e.y, i))
    decreases ArgRank(a)
  {
    match a
    case VectorLike(v) =>
      Arith2DBroadcastAgrees(op, r, Scalars(v.x, v.y, v.z, v.w));
    case Scalars(x, y, z, w) =>
      if y.Undef? && z.Undef? && w.Undef? {
        Arith2DBroadcastAgrees(op, r, Scalars(x, x, Undef, Undef));
      }
  }

  // ---------------------------------------------------------------------------
  // Interpolation

  /** `lerp` by 0 stays put and by 1 reaches the target, for 4D vectors with
      numeric fields. */
  lemma LerpEndpoints(r: Vector, v: Vector)
    requires IsReal4(r) && IsReal4(v)
    ensures Lerp(r, v, Num(0.0)) == r
    ensures Lerp(r, v, Num(1.0)) == v
  {
  }

  /** `lerp` on a 2D receiver fills the absent z and w with NaN. */
  lemma LerpOn2DFillsNaN(r: Vector, v: Vector, t: Component)
    requires Is2D(r)
    ensures Lerp(r, v, t).z == NaN && Lerp(r, v, t).w == NaN
  {
  }

  // ---------------------------------------------------------------------------
  // dot, cross and manhattanLength

  /** Three numeric fields and an absent fourth. */
  predicate IsReal3(v: Vector) {
    v.x.Num? && v.y.Num? && v.z.Num? && v.w.Undef?
  }

  /** The products in the triple products `(p x q) . p` and `(p x q) . q`
      cancel pairwise. */
  lemma TripleProductsVanish(p1: real, p2: real, p3: real, q1: real, q2: real, q3: real)
    ensures (p2 * q3 - p3 * q2) * p1 + (p3 * q1 - p1 * q3) * p2 + (p1 * q2 - p2 * q1) * p3 == 0.0
    ensures (p2 * q3 - p3 * q2) * q1 + (p3 * q1 - p1 * q3) * q2 + (p1 * q2 - p2 * q1) * q3 == 0.0
  {
    assert (p2 * q3 - p3 * q2) * p1 == p1 * p2 * q3 - p1 * p3 * q2;
    assert (p3 * q1 - p1 * q3) * p2 == p2 * p3 * q1 - p1 * p2 * q3;
    assert (p1 * q2 - p2 * q1) * p3 == p1 * p3 * q2 - p2 * p3 * q1;
    assert (p2 * q3 - p3 * q2) * q1 == p2 * q1 * q3 - p3 * q1 * q2;
    assert (p3 * q1 - p1 * q3) * q2 == p3 * q1 * q2 - p1 * q2 * q3;
    assert (p1 * q2 - p2 * q1) * q3 == p1 * q2 * q3 - p2 * q1 * q3;
  }

  /** The dot product of two vectors with three numeric fields and no `w`. */
  lemma Dot3(a: Vector, b: Vector)
    requires IsReal3(a) && IsReal3(b)
    ensures Dot(a, b) == Num(a.x.val * b.x.val + a.y.val * b.y.val + a.z.val * b.z.val)
  {
  }

  /** The cross product of two numeric 3D vectors, field by field. */
  lemma CrossFormula(a: Vector, b: Vector)
    requires IsReal3(a) && IsReal3(b)
    ensures Cross(a, b) == Vector(Num(a.y.val * b.z.val - a.z.val * b.y.val),
                                  Num(a.z.val * b.x.val - a.x.val * b.z.val),
                                  Num(a.x.val * b.y.val - a.y.val * b.x.val), Undef)
  {
    CrossFields(a, b);
    ProductDifference(a.y, b.z, a.z, b.y);
    ProductDifference(a.z, b.x, a.x, b.z);
    ProductDifference(a.x, b.y, a.y, b.x);
  }

  /** `cross` always yields its three coordinates in x, y and z: the y
      coordinate is never undefined, so the constructor neither defaults
      nor broadcasts. */
  lemma CrossFields(a: Vector, b: Vector)
    ensures Cross(a, b) == Vector(Apply(Minus, Apply(Times, a.y, b.z), Apply(Times, a.z, b.y)),
                                  Apply(Minus, Apply(Times, a.z, b.x), Apply(Times, a.x, b.z)),
                                  Apply(Minus, Apply(Times, a.x, b.y), Apply(Times, a.y, b.x)), Undef)
  {
  }

  /** One coordinate of a cross product, `p * q - r * s`, on numeric fields. */
  lemma ProductDifference(p: Component, q: Component, r: Component, s: Component)
    requires p.Num? && q.Num? && r.Num? && s.Num?
    ensures Apply(Minus, Apply(Times, p, q), Apply(Times, r, s)) == Num(p.val * q.val - r.val * s.val)
  {
  }

  /** The cross product is orthogonal to both operands, whichever side of
      `dot` it is on. */
  lemma CrossOrthogonal(a: Vector, b: Vector)
    requires IsReal3(a) && IsReal3(b)
    ensures Dot(Cross(a, b), a) == Num(0.0)
    ensures Dot(Cross(a, b), b) == Num(0.0)
    ensures Dot(a, Cross(a, b)) == Num(0.0)
    ensures Dot(b, Cross(a, b)) == Num(0.0)
  {
    CrossFormula(a, b);
    CrossDot(a, b, a);
    CrossDot(a, b, b);
    DotSymmetric(a, Cross(a, b));
    DotSymmetric(b, Cross(a, b));
  }

  /** The dot product of `a x b` with either operand `v`. */
  lemma CrossDot(a: Vector, b: Vector, v: Vector)
    requires IsReal3(a) && IsReal3(b) && (v == a || v == b)
    ensures Dot(Cross(a, b), v) == Num(0.0)
  {
    var c := Cross(a, b);
    CrossFormula(a, b);
    Dot3(c, v);
    CrossDotVanishes(a.x.val, a.y.val, a.z.val, b.x.val, b.y.val, b.z.val,
                     c.x.val, c.y.val, c.z.val, v.x.val, v.y.val, v.z.val);
  }

  /** The triple product with a repeated factor, in coordinates. */
  lemma CrossDotVanishes(p1: real, p2: real, p3: real, q1: real, q2: real, q3: real,
                         c1: real, c2: real, c3: real, v1: real, v2: real, v3: real)
    requires c1 == p2 * q3 - p3 * q2 && c2 == p3 * q1 - p1 * q3 && c3 == p1 * q2 - p2 * q1
    requires (v1 == p1 && v2 == p2 && v3 == p3) || (v1 == q1 && v2 == q2 && v3 == q3)
    ensures c1 * v1 + c2 * v2 + c3 * v3 == 0.0
  {
    TripleProductsVanish(p1, p2, p3, q1, q2, q3);
  }

  /** Swapping the operands negates the cross product. */
  lemma CrossAnticommutes(a: Vector, b: Vector)
    requires IsReal3(a) && IsReal3(b)
    ensures Cross(a, b).x.val == -Cross(b, a).x.val
    ensures Cross(a, b).y.val == -Cross(b, a).y.val
    ensures Cross(a, b).z.val == -Cross(b, a).z.val
  {
  }

  /** Vectors with the same numeric fields present. */
  predicate SameShape(a: Vector, b: Vector) {
    a.x.Num? && a.y.Num? && b.x.Num? && b.y.Num? &&
    ((a.z.Num? && b.z.Num?) || (a.z.Undef? && b.z.Undef?)) &&
    ((a.w.Num? && b.w.Num?) || (a.w.Undef? && b.w.Undef?))
  }

  /** `dot` is symmetric on vectors of the same shape. */
  lemma DotSymmetric(a: Vector, b: Vector)
    requires SameShape(a, b)
    ensures Dot(a, b) == Dot(b, a)
  {
  }

  /** Fields the receiver lacks do not reach `dot`, whatever the other
      vector holds there. */
  lemma DotIgnoresFieldsAbsentOnReceiver(r: Vector, v: Vector, c: Component, d: Component)
    requires r.z.Undef? && r.w.Undef?
    ensures Dot(r, v) == Dot(r, Vector(v.x, v.y, c, d))
  {
  }

  /** A numeric vector's dot product with itself is a non-negative number. */
  lemma DotSelfNonNegative(v: Vector)
    requires SameShape(v, v)
    ensures Dot(v, v).Num? && Dot(v, v).val >= 0.0
  {
    var z := RealOrZero(v.z);
    var w := RealOrZero(v.w);
    assert v.x.val * v.x.val >= 0.0 && v.y.val * v.y.val >= 0.0;
    assert z * z >= 0.0 && w * w >= 0.0;
  }

  /** `manhattanLength()` is the dot product with (1, 1, 1, 1) for a NaN-free
      vector with numeric x and y: a signed sum, not a norm. */
  lemma ManhattanIsDotWithOnes(v: Vector)
    requires v.x.Num? && v.y.Num? && NaNFree(v)
    ensures ManhattanLength(v) == Dot(v, Vector(Num(1.0), Num(1.0), Num(1.0), Num(1.0)))
  {
  }

}
