/**
  A single field of a vector as JavaScript sees it.

  A field is either absent (`undefined`), a finite number, or `NaN`. Numbers
  are idealised as reals. The JavaScript operators the vector code applies to
  fields are written out here, because their treatment of `undefined` and
  `NaN` is what decides the shape of every vector result:

  - `undefined op n` and `NaN op n` are `NaN` for every arithmetic operator;
  - `c ?? d` replaces only `undefined`;
  - `c || d` replaces every falsy field: `undefined`, `NaN` and `0`;
  - `c != undefined` holds for `NaN`, and `NaN == NaN` is false.
*/
module Components {

  datatype Component = Undef | Num(val: real) | NaN

  /** `c != undefined` (loose): only an absent field is undefined. */
  predicate IsDefined(c: Component) {
    !c.Undef?
  }

  /** `c ?? d` */
  function Coalesce(c: Component, d: Component): (r: Component)
    ensures c.Undef? ==> r == d
    ensures !c.Undef? ==> r == c
    // the result is undefined only when both sides are
    ensures IsDefined(r) <==> IsDefined(c) || IsDefined(d)
  {
    if c.Undef? then d else c
  }

  /** The falsy fields: `undefined`, `NaN` and the number zero. */
  predicate IsFalsy(c: Component) {
    c.Undef? || c.NaN? || c == Num(0.0)
  }

  /** `c || d` */
  function OrElse(c: Component, d: Component): (r: Component)
    ensures IsFalsy(c) ==> r == d
    ensures !IsFalsy(c) ==> r == c && r.Num? && r.val != 0.0
  {
    if IsFalsy(c) then d else c
  }

  /** `a == b` (loose): `undefined` equals only `undefined`, and `NaN`
      equals nothing, not even itself. */
  predicate LooseEquals(a: Component, b: Component)
    ensures LooseEquals(a, b) <==> a == b && !a.NaN?
  {
    match (a, b)
    case (Undef, Undef) => true
    case (Num(p), Num(q)) => p == q
    case _ => false
  }

  /** The four operators of the in-place arithmetic methods. */
  datatype ArithOp = Plus | Minus | Times | Divide

  /** The value an omitted argument defaults to: `?? 0` for `+=`/`-=`,
      `?? 1` for `*=`/`/=`. */
  function Identity(op: ArithOp): real {
    if op == Plus || op == Minus then 0.0 else 1.0
  }

  /** `a op b` on two fields. Division by zero yields an infinity in the
      source and is outside the model. */
  function Apply(op: ArithOp, a: Component, b: Component): (r: Component)
    requires op == Divide ==> b != Num(0.0)
    ensures IsDefined(r)
    ensures r.Num? <==> a.Num? && b.Num?
  {
    if a.Num? && b.Num? then
      Num(match op
        case Plus => a.val + b.val
        case Minus => a.val - b.val
        case Times => a.val * b.val
        case Divide => Quotient(a.val, b.val))
    else
      NaN
  }

  /** `p / q` on numbers. */
  function Quotient(p: real, q: real): real
    requires q != 0.0
  {
    p / q
  }

  /** The real held by a field, read as zero when the field is not a number. */
  function RealOrZero(c: Component): real {
    if c.Num? then c.val else 0.0
  }

  /** Undoing an operation with its inverse restores a number. */
  lemma ApplyInverse(op: ArithOp, a: Component, b: Component)
    requires a.Num? && b.Num?
    requires op == Times ==> b != Num(0.0)
    requires op == Plus || op == Times
    ensures op == Plus ==> Apply(Minus, Apply(Plus, a, b), b) == a
    ensures op == Times ==> Apply(Divide, Apply(Times, a, b), b) == a
  {
  }

}
