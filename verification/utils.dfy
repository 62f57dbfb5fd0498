/**
  The dictionary helpers of utils.js over a value model of JavaScript data.

  A plain object is a `Dict` from string keys to values; a key may be present
  with the value `undefined`. Arrays, functions and every other object whose
  constructor is not `Object` are `Opaque`: the helpers never look inside them.
*/
module Utils {

  datatype Value =
    | Undefined
    | Null
    | Number(num: real)
    | Str(str: string)
    | Bool(flag: bool)
    | Dict(entries: map<string, Value>)
    | Opaque(id: nat)

  /** `v == undefined` (loose), true for `undefined` and `null`. */
  predicate IsNullish(v: Value) {
    v.Undefined? || v.Null?
  }

  /** `isDict(a)`: `a != undefined && a.constructor == Object`, which holds
      exactly for the plain objects. */
  predicate IsDict(v: Value)
    ensures IsDict(v) <==> v.Dict?
  {
    !IsNullish(v) && v.Dict?
  }

  /** The values `mergeTwoDicts` and `merge` are applied to. */
  predicate DictOrNullish(v: Value) {
    v.Dict? || IsNullish(v)
  }

  /** The properties every plain object inherits from `Object.prototype`:
      the methods of section 20.1.3 of ECMA-262 and the accessor helpers of
      its Annex B. `__proto__` is left out (see the README). */
  const InheritedKeys: set<string> := {
    "constructor", "hasOwnProperty", "isPrototypeOf", "propertyIsEnumerable",
    "toLocaleString", "toString", "valueOf",
    "__defineGetter__", "__defineSetter__", "__lookupGetter__", "__lookupSetter__"}

  /** The function an inherited property holds; it is never a dict. */
  const InheritedMember: Value := Opaque(0)

  /** `v[k]` on a dict, or on undefined or null standing for a missing
      argument: an own key reads its value, a key inherited from
      `Object.prototype` reads as a function, any other key as undefined. */
  function Lookup(v: Value, k: string): (r: Value)
    ensures v.Dict? && k in v.entries ==> r == v.entries[k]
    // only an own property can hold a dict
    ensures IsDict(r) ==> v.Dict? && k in v.entries
    // a key a dict does not hold reads as undefined unless the dict inherits it
    ensures v.Dict? && k !in v.entries ==> (IsNullish(r) <==> k !in InheritedKeys)
  {
    if v.Dict? && k in v.entries then v.entries[k]
    else if v.Dict? && k in InheritedKeys then InheritedMember
    else Undefined
  }

  /** `Object.keys(v)` as a set, empty for anything that is not a dict. */
  function KeysOf(v: Value): set<string> {
    if v.Dict? then v.entries.Keys else {}
  }

  /** `deepClone(a)`: a non-dict is returned as it is; a dict is rebuilt key
      by key from clones of its values. As a value, the clone is the input. */
  function DeepClone(v: Value): (r: Value)
    ensures r == v
    decreases v
  {
    if IsDict(v) then
      Dict(map k | k in v.entries :: DeepClone(v.entries[k]))
    else
      v
  }

  /** The arguments `mergeTwoDicts` accepts without throwing: one of them
      undefined or null, or both plain objects. */
  predicate Mergeable(a: Value, b: Value) {
    IsNullish(a) || IsNullish(b) || (a.Dict? && b.Dict?)
  }

  /** `mergeTwoDicts(a, b)`: a recursive merge in which `a` has priority and
      an undefined or null value counts as absent. The test `a[k] ==
      undefined` sees the members `a` inherits, so `b` never fills a key
      named after one of them. */
  function MergeTwoDicts(a: Value, b: Value): (r: Value)
    requires Mergeable(a, b)
    // either side missing: the other side, cloned
    ensures IsNullish(b) ==> r == a
    ensures IsNullish(a) && !IsNullish(b) ==> r == b
    ensures DictOrNullish(a) && DictOrNullish(b) ==> DictOrNullish(r)
    // both dicts: the keys of `a`, and the keys of `b` that `a` does not inherit
    ensures a.Dict? && b.Dict? ==>
      r.Dict? && r.entries.Keys == a.entries.Keys + (b.entries.Keys - InheritedKeys)
    // a key of `a` alone keeps its value
    ensures a.Dict? && b.Dict? ==>
      forall k | k in a.entries && k !in b.entries :: r.entries[k] == a.entries[k]
    // `b` fills a key that `a` holds as undefined or null, or neither holds nor inherits
    ensures a.Dict? && b.Dict? ==>
      forall k | k in b.entries && IsNullish(Lookup(a, k)) :: r.entries[k] == b.entries[k]
    // a defined value of `a` wins unless both sides hold dicts
    ensures a.Dict? && b.Dict? ==>
      forall k | k in a.entries && !IsNullish(a.entries[k]) && !(k in b.entries && IsDict(a.entries[k]) && IsDict(b.entries[k])) ::
        r.entries[k] == a.entries[k]
    decreases a
  {
    if IsNullish(b) then DeepClone(a)
    else if IsNullish(a) then DeepClone(b)
    else
      var result := DeepClone(a).entries;
      var filled := set k | k in b.entries && IsNullish(Lookup(a, k));
      Dict(map k | k in result.Keys + filled ::
        if k in filled then DeepClone(b.entries[k])
        else if k in b.entries && IsDict(a.entries[k]) && IsDict(b.entries[k]) then MergeTwoDicts(a.entries[k], b.entries[k])
        else result[k])
  }

  /** `merge(...arr)`: a left fold of `mergeTwoDicts` starting from the first
      argument; no arguments give `undefined`. */
  function Merge(args: seq<Value>): (r: Value)
    requires forall i | 0 <= i < |args| :: DictOrNullish(args[i])
    ensures DictOrNullish(r)
    ensures |args| == 0 ==> r == Undefined
    ensures |args| == 1 ==> r == args[0]
    ensures (exists i | 0 <= i < |args| :: args[i].Dict?) <==> r.Dict?
  {
    if |args| == 0 then Undefined
    else if |args| == 1 then args[0]
    else
      var init := args[..|args| - 1];
      assert forall i | 0 <= i < |init| :: init[i] == args[i];
      assert DictOrNullish(args[|args| - 1]);
      MergeTwoDicts(Merge(init), args[|args| - 1])
  }

  /** Every key of every argument. */
  function UnionOfKeys(args: seq<Value>): set<string> {
    set i, k | 0 <= i < |args| && k in KeysOf(args[i]) :: k
  }

  /** `firstDefined(...arr)`: the first argument that is neither undefined
      nor null, or undefined when there is none. */
  function FirstDefined(args: seq<Value>): (r: Value)
    ensures !r.Null?
    ensures r.Undefined? <==> forall i | 0 <= i < |args| :: IsNullish(args[i])
    ensures !r.Undefined? ==> r in args
  {
    if |args| == 0 then Undefined
    else if !IsNullish(args[0]) then args[0]
    else FirstDefined(args[1..])
  }

}
