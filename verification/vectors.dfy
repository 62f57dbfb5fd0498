/**
  The `Vector` class of vector.js as a value type.

  A vector is four fields, each of which may be absent; its dimension is not
  stored but read off which fields are defined. Every in-place method of the
  class becomes a function from the receiver (and the arguments) to the
  receiver's new value.
*/
module Vectors {
  import opened Components
  import opened Wrappers

  datatype Vector = Vector(x: Component, y: Component, z: Component, w: Component)

  /** The arguments of `set`, `add`, `sub`, `mult` and `div`: up to four
      scalars (an omitted one is `Undef`), or a vector-like object, which the
      source recognises by a defined `x` field. */
  datatype Arg = Scalars(x: Component, y: Component, z: Component, w: Component) | VectorLike(v: Vector)

  /** The receiver of the constructor's `set`/`copy` call: a fresh object with
      no fields yet. */
  const Blank := Vector(Undef, Undef, Undef, Undef)

  /** An argument the methods accept without throwing. An undefined first
      scalar is dereferenced (`x.x`) and throws; a vector-like object is
      recognised only by a defined `x`. */
  predicate ValidArg(a: Arg) {
    match a
    case Scalars(x, _, _, _) => IsDefined(x)
    case VectorLike(v) => IsDefined(v.x)
  }

  /** No scalar after the first is given, which triggers the broadcast. */
  predicate TailUndefined(a: Arg)
    requires a.Scalars?
  {
    a.y.Undef? && a.z.Undef? && a.w.Undef?
  }

  /** How many self-calls an argument can still cause: a vector-like one is
      decomposed into scalars, a lone scalar is broadcast. */
  function ArgRank(a: Arg): nat {
    match a
    case VectorLike(_) => 2
    case Scalars(_, y, z, w) => if y.Undef? && z.Undef? && w.Undef? then 1 else 0
  }

  /** The arguments `div` can use without dividing by zero. */
  predicate NoZeroDivisor(a: Arg) {
    match a
    case Scalars(x, y, z, w) => x != Num(0.0) && y != Num(0.0) && z != Num(0.0) && w != Num(0.0)
    case VectorLike(v) => v.x != Num(0.0) && v.y != Num(0.0) && v.z != Num(0.0) && v.w != Num(0.0)
  }

  // ---------------------------------------------------------------------------
  // Dimension, read off the defined fields

  predicate Is2D(v: Vector)
    ensures Is2D(v) ==> !Is3D(v) && !Is4D(v)
  {
    IsDefined(v.x) && IsDefined(v.y) && !IsDefined(v.z) && !IsDefined(v.w)
  }

  predicate Is3D(v: Vector)
    ensures Is3D(v) ==> !Is4D(v)
  {
    IsDefined(v.x) && IsDefined(v.y) && IsDefined(v.z) && !IsDefined(v.w)
  }

  /** A NaN field counts as defined (`NaN != undefined`), so a vector of
      four NaNs is 4D just as one of four numbers is. */
  predicate Is4D(v: Vector)
    ensures IsReal4(v) ==> Is4D(v)
    ensures v.x.NaN? && v.y.NaN? && v.z.NaN? && v.w.NaN? ==> Is4D(v)
  {
    IsDefined(v.x) && IsDefined(v.y) && IsDefined(v.z) && IsDefined(v.w)
  }

  /** A vector with one of the three dimensions. */
  predicate HasDimension(v: Vector) {
    Is2D(v) || Is3D(v) || Is4D(v)
  }

  /** No field is NaN. */
  predicate NaNFree(v: Vector) {
    !v.x.NaN? && !v.y.NaN? && !v.z.NaN? && !v.w.NaN?
  }

  /** All four fields are numbers. */
  predicate IsReal4(v: Vector) {
    v.x.Num? && v.y.Num? && v.z.Num? && v.w.Num?
  }

  /** An argument none of whose scalars is NaN. */
  predicate NaNFreeArg(a: Arg) {
    match a
    case Scalars(x, y, z, w) => !x.NaN? && !y.NaN? && !z.NaN? && !w.NaN?
    case VectorLike(v) => NaNFree(v)
  }

  /** The point `a + (b - a) * t`, as a reference for interpolation. */
  function Along(a: Vector, b: Vector, t: real): Vector
    requires IsReal4(a) && IsReal4(b)
  {
    Vector(Num(a.x.val + (b.x.val - a.x.val) * t),
           Num(a.y.val + (b.y.val - a.y.val) * t),
           Num(a.z.val + (b.z.val - a.z.val) * t),
           Num(a.w.val + (b.w.val - a.w.val) * t))
  }

  // ---------------------------------------------------------------------------
  // Construction and copying

  /** `copy(vec)`: all four fields are overwritten, absent ones included. */
  function Copy(r: Vector, v: Vector): (s: Vector)
    ensures s == v
    ensures Is2D(s) <==> Is2D(v)
  {
    Vector(v.x, v.y, v.z, v.w)
  }

  /** `set(x, y, z, w)`. */
  function Set(r: Vector, a: Arg): (s: Vector)
    requires ValidArg(a)
    ensures a.VectorLike? ==> s == a.v
    ensures a.Scalars? && TailUndefined(a) && Is3D(r) ==> s == Vector(a.x, a.x, a.x, Undef)
    ensures a.Scalars? && TailUndefined(a) && Is4D(r) ==> s == Vector(a.x, a.x, a.x, a.x)
    ensures a.Scalars? && TailUndefined(a) && !Is3D(r) && !Is4D(r) ==> s == Vector(a.x, a.x, Undef, Undef)
    ensures a.Scalars? && !TailUndefined(a) ==> s == Vector(a.x, a.y, a.z, a.w)
    decreases ArgRank(a)
  {
    match a
    case VectorLike(v) => Copy(r, v)
    case Scalars(x, y, z, w) =>
      if y.Undef? && z.Undef? && w.Undef? then
        if Is3D(r) then Set(r, Scalars(x, x, x, Undef))
        else if Is4D(r) then Set(r, Scalars(x, x, x, x))
        else Set(r, Scalars(x, x, Undef, Undef))
      else
        Vector(x, y, z, w)
  }

  /** `new Vector(x, y, z, w)`: a vector-like first argument is copied,
      anything else goes through `set(x ?? 0, y, z, w)` on a fresh object. */
  function Construct(a: Arg): (r: Vector)
    requires a.VectorLike? ==> IsDefined(a.v.x)
    ensures a.VectorLike? ==> r == a.v
    ensures a.Scalars? && TailUndefined(a) ==>
      var c := Coalesce(a.x, Num(0.0)); r == Vector(c, c, Undef, Undef) && Is2D(r)
    ensures a.Scalars? && !TailUndefined(a) ==> r == Vector(Coalesce(a.x, Num(0.0)), a.y, a.z, a.w)
  {
    match a
    case VectorLike(v) => Copy(Blank, v)
    case Scalars(x, y, z, w) => Set(Blank, Scalars(Coalesce(x, Num(0.0)), y, z, w))
  }

  /** `clone()`: `new Vector(this.x, this.y, this.z, this.w)`. The copy is
      exact precisely when `x` is defined and not all of `y`, `z`, `w` are
      absent; otherwise the constructor's defaulting and broadcast apply. */
  function Clone(v: Vector): (r: Vector)
    ensures r == v <==> IsDefined(v.x) && !(v.y.Undef? && v.z.Undef? && v.w.Undef?)
    ensures HasDimension(v) ==> r == v
    ensures v.x.Undef? ==> r.x == Num(0.0)
  {
    Construct(Scalars(v.x, v.y, v.z, v.w))
  }

  /** `equals(vec)`: loose equality of all four fields. It is structural
      equality restricted to NaN-free vectors; in particular a vector with a
      NaN field is not equal to itself. */
  predicate Equals(a: Vector, b: Vector)
    ensures Equals(a, b) <==> a == b && NaNFree(a)
  {
    LooseEquals(a.x, b.x) && LooseEquals(a.y, b.y) && LooseEquals(a.z, b.z) && LooseEquals(a.w, b.w)
  }

  // ---------------------------------------------------------------------------
  // In-place arithmetic

  /** The shared body of `add`, `sub`, `mult` and `div`: every field becomes
      `field op (arg ?? identity)`, after a vector-like argument is taken
      apart and a lone scalar is broadcast over the receiver's dimension. */
  function Arith(op: ArithOp, r: Vector, a: Arg): (s: Vector)
    requires ValidArg(a)
    requires op == Divide ==> NoZeroDivisor(a)
    // no field is left undefined, so the result always reports is4D
    ensures Is4D(s)
    // an absent or NaN field of the receiver becomes NaN
    ensures !r.x.Num? ==> s.x == NaN
    ensures !r.y.Num? ==> s.y == NaN
    ensures !r.z.Num? ==> s.z == NaN
    ensures !r.w.Num? ==> s.w == NaN
    // a vector-like argument acts as its four fields given as scalars
    ensures a.VectorLike? ==> s == Arith(op, r, Scalars(a.v.x, a.v.y, a.v.z, a.v.w))
    // an omitted scalar leaves a numeric field unchanged
    ensures a.Scalars? && !TailUndefined(a) ==>
      s.x == Apply(op, r.x, a.x) &&
      (a.y.Undef? && r.y.Num? ==> s.y == r.y) && (!a.y.Undef? ==> s.y == Apply(op, r.y, a.y)) &&
      (a.z.Undef? && r.z.Num? ==> s.z == r.z) && (!a.z.Undef? ==> s.z == Apply(op, r.z, a.z)) &&
      (a.w.Undef? && r.w.Num? ==> s.w == r.w) && (!a.w.Undef? ==> s.w == Apply(op, r.w, a.w))
    // a lone scalar reaches x and y, z on a 3D or 4D receiver, w only on a 4D one
    ensures a.Scalars? && TailUndefined(a) ==>
      s.x == Apply(op, r.x, a.x) && s.y == Apply(op, r.y, a.x) &&
      (Is3D(r) || Is4D(r) ==> s.z == Apply(op, r.z, a.x)) &&
      (Is4D(r) ==> s.w == Apply(op, r.w, a.x)) &&
      (!Is3D(r) && !Is4D(r) ==>
        s.z == Apply(op, r.z, Num(Identity(op))) && s.w == Apply(op, r.w, Num(Identity(op)))) &&
      (Is3D(r) ==> s.w == Apply(op, r.w, Num(Identity(op))))
    decreases ArgRank(a)
  {
    match a
    case VectorLike(v) => Arith(op, r, Scalars(v.x, v.y, v.z, v.w))
    case Scalars(x, y, z, w) =>
      if y.Undef? && z.Undef? && w.Undef? then
        if Is3D(r) then Arith(op, r, Scalars(x, x, x, Undef))
        else if Is4D(r) then Arith(op, r, Scalars(x, x, x, x))
        else Arith(op, r, Scalars(x, x, Undef, Undef))
      else
        var e := Num(Identity(op));
        Vector(Apply(op, r.x, Coalesce(x, e)), Apply(op, r.y, Coalesce(y, e)),
               Apply(op, r.z, Coalesce(z, e)), Apply(op, r.w, Coalesce(w, e)))
  }

  /** `add(x, y, z, w)` */
  function Add(r: Vector, a: Arg): (s: Vector)
    requires ValidArg(a)
    ensures IsReal4(r) && a.Scalars? && TailUndefined(a) && a.x.Num? ==>
      s == Vector(Num(r.x.val + a.x.val), Num(r.y.val + a.x.val), Num(r.z.val + a.x.val), Num(r.w.val + a.x.val))
  {
    Arith(Plus, r, a)
  }

  /** `sub(x, y, z, w)` */
  function Sub(r: Vector, a: Arg): (s: Vector)
    requires ValidArg(a)
    ensures IsReal4(r) && a.Scalars? && TailUndefined(a) && a.x.Num? ==>
      s == Vector(Num(r.x.val - a.x.val), Num(r.y.val - a.x.val), Num(r.z.val - a.x.val), Num(r.w.val - a.x.val))
  {
    Arith(Minus, r, a)
  }

  /** `mult(x, y, z, w)` */
  function Mult(r: Vector, a: Arg): (s: Vector)
    requires ValidArg(a)
    ensures IsReal4(r) && a.Scalars? && TailUndefined(a) && a.x.Num? ==>
      s == Vector(Num(r.x.val * a.x.val), Num(r.y.val * a.x.val), Num(r.z.val * a.x.val), Num(r.w.val * a.x.val))
  {
    var s := Arith(Times, r, a);
    assert IsReal4(r) && a.Scalars? && TailUndefined(a) && a.x.Num? ==>
      s.x == Apply(Times, r.x, a.x) && s.y == Apply(Times, r.y, a.x) &&
      s.z == Apply(Times, r.z, a.x) && s.w == Apply(Times, r.w, a.x);
    s
  }

  /** `div(x, y, z, w)` */
  function Div(r: Vector, a: Arg): (s: Vector)
    requires ValidArg(a) && NoZeroDivisor(a)
    ensures IsReal4(r) && a.Scalars? && TailUndefined(a) && a.x.Num? ==>
      s == Vector(Num(r.x.val / a.x.val), Num(r.y.val / a.x.val), Num(r.z.val / a.x.val), Num(r.w.val / a.x.val))
  {
    Arith(Divide, r, a)
  }

  // ---------------------------------------------------------------------------
  // Derived quantities

  /** `dot(vec)`: x and y always take part; z and w only when defined on the
      receiver, otherwise they contribute zero. */
  function Dot(r: Vector, v: Vector): (d: Component)
    ensures IsDefined(d)
    ensures d.Num? <==>
      r.x.Num? && v.x.Num? && r.y.Num? && v.y.Num? &&
      (IsDefined(r.z) ==> r.z.Num? && v.z.Num?) &&
      (IsDefined(r.w) ==> r.w.Num? && v.w.Num?)
    // the sum of the products of the fields the receiver defines
    ensures d.Num? ==>
      d.val == r.x.val * v.x.val + r.y.val * v.y.val
             + (if IsDefined(r.z) then r.z.val * v.z.val else 0.0)
             + (if IsDefined(r.w) then r.w.val * v.w.val else 0.0)
  {
    var xy := Apply(Plus, Apply(Times, r.x, v.x), Apply(Times, r.y, v.y));
    var xyz := Apply(Plus, xy, if IsDefined(r.z) then Apply(Times, r.z, v.z) else Num(0.0));
    Apply(Plus, xyz, if IsDefined(r.w) then Apply(Times, r.w, v.w) else Num(0.0))
  }

  /** `cross(vec)`: the three-dimensional formula, passed to the
      constructor, whatever the operands' dimensions. */
  function Cross(r: Vector, v: Vector): (c: Vector)
    ensures Is3D(c)
    ensures r.x.Num? && r.y.Num? && r.z.Num? && v.x.Num? && v.y.Num? && v.z.Num? ==>
      c.x.Num? && c.y.Num? && c.z.Num?
  {
    Construct(Scalars(
      Apply(Minus, Apply(Times, r.y, v.z), Apply(Times, r.z, v.y)),
      Apply(Minus, Apply(Times, r.z, v.x), Apply(Times, r.x, v.z)),
      Apply(Minus, Apply(Times, r.x, v.y), Apply(Times, r.y, v.x)),
      Undef))
  }

  /** `manhattanLength()`: `x + y + (z || 0) + (w || 0)`, a signed sum in
      which a NaN `z` or `w` counts as zero. */
  function ManhattanLength(v: Vector): (m: Component)
    ensures IsDefined(m)
    ensures m.Num? <==> v.x.Num? && v.y.Num?
    ensures m.Num? ==> m.val == v.x.val + v.y.val + RealOrZero(v.z) + RealOrZero(v.w)
  {
    Apply(Plus, Apply(Plus, Apply(Plus, v.x, v.y), OrElse(v.z, Num(0.0))), OrElse(v.w, Num(0.0)))
  }

  /** `lerp(vec, a)`: adds `(vec.f - this.f) * a` to every field. */
  function Lerp(r: Vector, v: Vector, t: Component): (s: Vector)
    ensures Is4D(s)
    ensures IsReal4(r) && IsReal4(v) && t.Num? ==> s == Along(r, v, t.val)
    ensures !IsReal4(r) ==> !IsReal4(s)
  {
    Add(r, Scalars(Apply(Times, Apply(Minus, v.x, r.x), t),
                   Apply(Times, Apply(Minus, v.y, r.y), t),
                   Apply(Times, Apply(Minus, v.z, r.z), t),
                   Apply(Times, Apply(Minus, v.w, r.w), t)))
  }

  // ---------------------------------------------------------------------------
  // breakIntoParts

  /** `Math.floor(parts || 2)` */
  function PartsCount(parts: Component): (n: int)
    ensures IsFalsy(parts) ==> n == 2
    ensures !IsFalsy(parts) ==> n == parts.val.Floor
  {
    OrElse(parts, Num(2.0)).val.Floor
  }

  function Max(a: int, b: int): int {
    if a < b then b else a
  }

  /** `Vector.breakIntoParts(a, b, parts)`. `None` stands for an endpoint
      that is undefined or not a `Vector` instance, and for the `undefined`
      the source then returns. */
  method BreakIntoParts(a: Option<Vector>, b: Option<Vector>, parts: Component) returns (res: Option<seq<Vector>>)
    ensures res.None? <==> a.None? || b.None?
    ensures res.Some? ==> |res.value| == Max(PartsCount(parts), 1) + 1
    ensures res.Some? ==> res.value[0] == Clone(a.value)
    ensures res.Some? ==> res.value[|res.value| - 1] == Clone(b.value)
    ensures res.Some? ==> forall j | 0 < j < |res.value| - 1 ::
      res.value[j] == Lerp(Clone(a.value), b.value, Num(j as real / PartsCount(parts) as real))
    ensures res.Some? && IsReal4(a.value) && IsReal4(b.value) ==> forall j | 0 <= j < |res.value| ::
      res.value[j] == Along(a.value, b.value, j as real / Max(PartsCount(parts), 1) as real)
  {
    if a.None? || b.None? {
      return None;
    }
    var n := PartsCount(parts);
    var arr := [Clone(a.value)];
    var i := 1;
    while i < n
      invariant 1 <= i <= Max(n, 1)
      invariant |arr| == i
      invariant arr[0] == Clone(a.value)
      invariant forall j | 0 < j < i :: arr[j] == Lerp(Clone(a.value), b.value, Num(j as real / n as real))
    {
      arr := arr + [Lerp(Clone(a.value), b.value, Num(i as real / n as real))];
      i := i + 1;
    }
    arr := arr + [Clone(b.value)];
    res := Some(arr);
    if IsReal4(a.value) && IsReal4(b.value) {
      var m := Max(n, 1);
      forall j | 0 <= j < |arr|
        ensures arr[j] == Along(a.value, b.value, j as real / m as real)
      {
        if j == 0 {
          AlongStart(a.value, b.value, m);
        } else if j == |arr| - 1 {
          AlongEnd(a.value, b.value, m);
        } else {
          assert m == n;
        }
      }
    }
  }

  lemma AlongStart(a: Vector, b: Vector, m: int)
    requires IsReal4(a) && IsReal4(b) && m >= 1
    ensures Along(a, b, 0 as real / m as real) == a
  {
  }

  lemma AlongEnd(a: Vector, b: Vector, m: int)
    requires IsReal4(a) && IsReal4(b) && m >= 1
    ensures Along(a, b, m as real / m as real) == b
  {
    assert m as real / m as real == 1.0;
  }

}
