# js-utils vectors and dictionary helpers in Dafny

This project models two files of the js-utils library.

- `vector.js` holds the `Vector` class: 2D, 3D and 4D vectors whose dimension
  is not stored but read off which of the fields `x`, `y`, `z`, `w` are
  defined. Modelled: the constructor, `copy`, `set`, `clone`, `is2D`/`is3D`/
  `is4D`, `add`/`sub`/`mult`/`div`, `dot`, `cross`, `equals`,
  `manhattanLength`, `lerp` and `breakIntoParts`.
- `utils.js` holds the dictionary helpers `isDict`, `deepClone`,
  `mergeTwoDicts`, `merge` and `firstDefined`.

Modules:

- `Components` (`components.dfy`) is one vector field as JavaScript sees it:
  `Undef`, a number (a real) or `NaN`. It also holds the operators the class
  applies to fields: `??`, `||`, loose `==` and arithmetic that propagates
  `NaN`.
- `Vectors` (`vectors.dfy`) is the class as a value type. Every in-place
  method is a function from the receiver and its arguments to the receiver's
  new value. `add`, `sub`, `mult` and `div` share one definition, `Arith`,
  as they share one shape in the source.
- `VectorLaws` (`vector_laws.dfy`) holds the properties that relate several
  operations. These include inverse pairs, clone against equals, and the
  geometry of `dot` and `cross`.
- `Utils` (`utils.dfy`) models JavaScript data as a `Value` datatype. A plain
  object is a `Dict` from keys to values. Arrays, functions and class
  instances are `Opaque`. The helpers are functions over this datatype.
- `UtilsLaws` (`utils_laws.dfy`) holds the algebra of `mergeTwoDicts` and
  the priority order of `merge`. It also holds the examples of
  `utils.test.js`, proved.
- `Wrappers` (`wrappers.dfy`) holds `Option`.

Three behaviours of the code shape much of the model:

- `add`, `sub`, `mult`, `div` and `lerp` update all four fields. On an
  undefined `z` or `w`, `this.z += 0` stores `NaN`. So after any of these a
  2D or 3D receiver has NaN fields and reports `is4D` (`ArithPromotesTo4D`,
  `LerpOn2DFillsNaN`).
- `clone()` goes through the constructor. It is exact only when `x` is
  defined and `y`, `z`, `w` are not all absent (`Clone`).
- `mergeTwoDicts` tests `a[k] == undefined`, and `a[k]` also finds the
  members every plain object inherits from `Object.prototype`. So a key of
  `b` named `toString`, `valueOf` and so on is never copied into a dict that
  does not hold it itself (`Lookup`, `MergeTwoDicts`,
  `MergeInheritedKeyExample`).

## Model

| member | source | states |
|---|---|---|
| `Components.OrElse` | vector.js:251 | `c \|\| d` replaces undefined, NaN and 0; any field it keeps is a non-zero number |
| `Components.Apply` | vector.js:87-90 | field arithmetic never yields undefined, and yields a number exactly when both operands are numbers (NaN otherwise) |
| `Components.LooseEquals` | vector.js:235 | loose `==` on fields holds exactly for identical fields other than NaN: NaN equals nothing, not even itself |
| `Components.ApplyInverse` | vector.js:103-106 | subtracting what was added, or dividing by a non-zero factor that was multiplied, restores a number |
| `Vectors.Is2D` | vector.js:33-40 | a 2D vector is neither 3D nor 4D |
| `Vectors.Is3D` | vector.js:41-48 | a 3D vector is not 4D |
| `Vectors.Is4D` | vector.js:49-56 | four numeric fields make a 4D vector, and so do four NaN fields, since NaN counts as defined |
| `Vectors.Equals` | vector.js:233-237 | `equals` holds if and only if the vectors are identical and NaN-free; a vector with a NaN field is not equal to itself |
| `Vectors.Copy` | vector.js:24-31 | `copy` overwrites all four fields, absent ones included, whatever the receiver held |
| `Vectors.Set` | vector.js:61-76 | a vector-like argument is copied; a lone scalar is broadcast to (s,s,s) on a 3D receiver, to (s,s,s,s) on a 4D one, to (s,s) otherwise; two or more scalars overwrite all four fields |
| `Vectors.Construct` | vector.js:14-23 | a vector-like argument is copied; scalars are set with an undefined `x` read as 0, so a lone scalar gives a 2D vector (s,s) |
| `Vectors.Clone` | vector.js:58-60 | the clone equals the original if and only if `x` is defined and not all of `y`, `z`, `w` are absent; every vector with a dimension is cloned exactly; an absent `x` becomes 0 |
| `Vectors.Arith` | vector.js:77-140 | closed form of the four in-place methods: the result is always 4D; absent and NaN receiver fields become NaN; a vector-like argument acts as its four fields; an omitted scalar leaves a numeric field unchanged; a lone scalar reaches z only on 3D/4D receivers and w only on 4D ones; elsewhere z and w are combined with the identity, so a number stays and an absent field becomes NaN |
| `Vectors.Add` | vector.js:77-92 | adding a lone number to a vector with four numeric fields adds it to every field |
| `Vectors.Sub` | vector.js:93-108 | subtracting a lone number from a vector with four numeric fields subtracts it from every field |
| `Vectors.Mult` | vector.js:109-124 | multiplying a vector with four numeric fields by a lone number scales every field |
| `Vectors.Div` | vector.js:125-140 | dividing a vector with four numeric fields by a lone non-zero number divides every field |
| `Vectors.Dot` | vector.js:141-149 | the dot product is never undefined, and is a number exactly when x, y and every field defined on the receiver are numbers on both sides; that number is the sum of the products of x, y and the fields the receiver defines |
| `Vectors.Cross` | vector.js:150-159 | the cross product is always 3D, and numeric when the six x/y/z fields are numeric, whatever the operands' dimensions |
| `Vectors.ManhattanLength` | vector.js:250-252 | the Manhattan length is a number exactly when x and y are; it is then x + y plus z and w where they are numbers, a signed sum |
| `Vectors.Lerp` | vector.js:253-260 | the result is 4D; on numeric 4D vectors it is the point a + (b - a)t; a receiver that is not numeric 4D stays so |
| `Vectors.PartsCount` | vector.js:303 | `Math.floor(parts \|\| 2)`: 2 for an undefined, NaN or zero `parts`, the floor of `parts` otherwise |
| `Vectors.BreakIntoParts` | vector.js:300-310 | no result if and only if an endpoint is missing; max(floor(parts \|\| 2), 1) + 1 points; the first point is a's clone, the last is b's clone, and the inner ones are lerps of a's clone; on numeric 4D endpoints, point j is a + (b - a) j/n |
| `VectorLaws.DimensionsExclusive` | vector.js:33-56 | at most one of is2D/is3D/is4D holds; two numbers followed by two absent fields are exactly 2D |
| `VectorLaws.ConstructSingleScalar` | vector.js:14-19 | `new Vector()` is (0, 0) and `new Vector(s)` is (s, s) |
| `VectorLaws.SetBroadcastKeepsDimension` | vector.js:65-70 | `set(s)` keeps a receiver's 2D, 3D or 4D dimension, and gives 2D to a receiver with none |
| `VectorLaws.SetScalarsCanChangeDimension` | vector.js:71-75 | `set(p, q)` makes any receiver 2D, a 4D one included |
| `VectorLaws.CloneEqualsOriginal` | vector.js:58-60 | a NaN-free vector with a dimension `equals` its clone |
| `VectorLaws.CloneOfDegenerateVectors` | vector.js:58-60 | cloning (p) gives (p, p), and cloning (undefined, p) gives (0, p); the first clone does not `equals` its original |
| `VectorLaws.ArithPromotesTo4D` | vector.js:81-90 | after add/sub/mult/div a 2D or 3D receiver reports 4D, with w NaN |
| `VectorLaws.ArithOn4D` | vector.js:77-92 | on a 4D receiver each field is combined with the matching effective scalar (a lone scalar broadcast to all four), an omitted one read as the identity |
| `VectorLaws.AddSubRoundTrip` | vector.js:77-108 | `sub(a)` after `add(a)` restores a numeric 4D vector exactly, and the result `equals` it |
| `VectorLaws.MultDivRoundTrip` | vector.js:109-140 | `div(a)` after `mult(a)` with non-zero scalars restores a numeric 4D vector exactly, and the result `equals` it |
| `VectorLaws.AddSubRestoresPresentFields` | vector.js:81-106 | on a 2D or 3D receiver, `add` then `sub` restores the present fields only; the absent ones end as NaN |
| `VectorLaws.Arith3DBroadcastAgrees` | vector.js:82 | on a 3D receiver x, y, z are combined with the effective scalars as on a 4D one |
| `VectorLaws.Arith2DBroadcastAgrees` | vector.js:84 | on a receiver of no higher dimension than 2, x and y are combined with the effective scalars as on a 4D one |
| `VectorLaws.LerpEndpoints` | vector.js:253-260 | `lerp` by 0 stays put and `lerp` by 1 reaches the target, on numeric 4D vectors |
| `VectorLaws.LerpOn2DFillsNaN` | vector.js:253-260 | `lerp` on a 2D receiver makes z and w NaN |
| `VectorLaws.Dot3` | vector.js:141-149 | on numeric 3D vectors, `dot` is x·x' + y·y' + z·z' |
| `VectorLaws.CrossFields` | vector.js:154-158 | the three formulas land in x, y and z with w absent: the constructor neither defaults nor broadcasts them |
| `VectorLaws.CrossFormula` | vector.js:150-159 | on numeric 3D vectors, `cross` is the textbook cross product |
| `VectorLaws.CrossOrthogonal` | vector.js:150-159 | the cross product is orthogonal to both operands, measured with `dot` from either side: `dot(a, a×b)`, `dot(a×b, a)`, `dot(b, a×b)` and `dot(a×b, b)` are all 0 |
| `VectorLaws.CrossAnticommutes` | vector.js:150-159 | swapping the operands negates each field of the cross product |
| `VectorLaws.DotSymmetric` | vector.js:141-149 | `dot` is symmetric on numeric vectors with the same fields present |
| `VectorLaws.DotIgnoresFieldsAbsentOnReceiver` | vector.js:146-147 | fields absent on the receiver do not reach `dot`, whatever the other vector holds there |
| `VectorLaws.DotSelfNonNegative` | vector.js:141-149 | a numeric vector's dot product with itself is a non-negative number |
| `VectorLaws.ManhattanIsDotWithOnes` | vector.js:250-252 | the Manhattan length of a NaN-free vector with numeric x, y is its dot product with (1, 1, 1, 1) |
| `Utils.IsDict` | utils.js:2-4 | `isDict` holds exactly for plain objects |
| `Utils.Lookup` | utils.js:53 | `a[k]` on a dict reads an own key's value; only an own key can hold a dict; a key the dict does not hold reads as undefined unless `Object.prototype` supplies it |
| `Utils.DeepClone` | utils.js:36-44 | the clone is, as a value, the input: every dict level is rebuilt with the same keys and equal values |
| `Utils.MergeTwoDicts` | utils.js:46-60 | a nullish side yields the other side; on two dicts the keys are those of `a` and those of `b` that are not inherited from `Object.prototype`; a key only `a` has keeps `a`'s value; `b` fills keys where `a[k]` is undefined or null; a defined value of `a` wins unless both sides hold dicts |
| `Utils.Merge` | utils.js:62-68 | no arguments give undefined, one gives itself; the result is a dict or nullish, and is a dict exactly when some argument is |
| `Utils.FirstDefined` | utils.js:29-35 | the result is never null; it is undefined exactly when every argument is nullish, and otherwise is one of the arguments |
| `UtilsLaws.IsDictOnlyForPlainObjects` | utils.test.js:21-28 | only plain objects are dicts: numbers, booleans, null, undefined, arrays and functions are not |
| `UtilsLaws.MergeTwoDictsIdempotent` | utils.js:47-60 | merging a dict, undefined or null with itself gives it back |
| `UtilsLaws.MergeWithEmptyDict` | utils.js:47-60 | the empty dict is a unit on the right |
| `UtilsLaws.MergeIntoEmptyDict` | utils.js:51-59 | merging into the empty dict keeps every key except those `Object.prototype` supplies |
| `UtilsLaws.MergeInheritedKeyExample` | utils.js:53-54 | mergeTwoDicts({}, {toString: 1}) is {}, while mergeTwoDicts({toString: undefined}, {toString: 1}) is {toString: 1} |
| `UtilsLaws.MergeTwoDictsRecurses` | utils.js:55-56 | dicts under the same key on both sides are merged recursively |
| `UtilsLaws.MergeTwoDictsLookup` | utils.js:52-58 | `r[k]` of a merge: `b[k]` where `a` is missing, or where `a[k]` is nullish and `b` holds `k`; `a[k]` where `b` lacks `k` or where `a[k]` is defined and the two are not both dicts |
| `UtilsLaws.MergeKeys` | utils.js:62-68 | the keys of `merge(...args)` are those of the first dict argument and those of every argument that `Object.prototype` does not supply |
| `UtilsLaws.MergeNullishAt` | utils.js:62-68 | a key that every argument leaves nullish stays nullish in the merge |
| `UtilsLaws.MergeEarlierWins` | utils.js:62-68 | the first argument holding a key as its own with a defined non-dict value decides that key of the merge |
| `UtilsLaws.MergeSnoc` | utils.js:62-68 | `merge` is a left fold: one more argument is merged into the result so far |
| `UtilsLaws.MergePair` | utils.js:62-68 | `merge(a, b)` is `mergeTwoDicts(a, b)` |
| `UtilsLaws.MergeTriple` | utils.js:62-68 | `merge(a, b, c)` is `mergeTwoDicts(mergeTwoDicts(a, b), c)` |
| `UtilsLaws.MergeTwoDictsFlat` | utils.js:51-59 | when `a` holds only defined non-dict values, the merge is the map union in which `a` wins every shared key, and `b` loses the keys `Object.prototype` supplies |
| `UtilsLaws.MergeThreeFlat` | utils.js:62-68 | three dicts whose first two are flat, and whose last two hold no inherited key, merge into the map union with earlier arguments winning |
| `UtilsLaws.MergeDisjointSingletons` | utils.js:51-59 | two one-key dicts with different keys, the second not inherited and the first holding a defined non-dict value, merge into the two-key dict |
| `UtilsLaws.MergeDisjointExample` | utils.test.js:39 | merge({a: 1}, {b: 2}) is {a: 1, b: 2} |
| `UtilsLaws.MergeThreeDisjointExample` | utils.test.js:40-44 | merge({a: 1}, {b: 2}, {c: 3}) is {a: 1, b: 2, c: 3} |
| `UtilsLaws.MergeLeftWinsExample` | utils.test.js:45 | merge({a: 1}, {a: 2}) is {a: 1} |
| `UtilsLaws.MergeThreePriorityExample` | utils.test.js:46-49 | merge({a: 1}, {a: 2, b: 2}, {b: 3}) is {a: 1, b: 2} |
| `UtilsLaws.MergeUndefinedYieldsExample` | utils.test.js:56 | merge({a: undefined}, {a: 1}) is {a: 1} |
| `UtilsLaws.MergeKeepsUndefinedKeyExample` | utils.test.js:57-62 | merge({a: 1}, {b: undefined}) is {a: 1, b: undefined}: the key `b` is kept |
| `UtilsLaws.MergeNestedInner` | utils.test.js:66-69 | the innermost level of the nested example: {hello: 2} merged with {hello: 1, hi: 5} is {hello: 2, hi: 5} |
| `UtilsLaws.MergeOneNestedLevel` | utils.js:52-58 | one dict level: the dicts under the shared key are merged, and the other keys come from `b`, except those `Object.prototype` supplies |
| `UtilsLaws.MergeNestedExample` | utils.test.js:64-69 | the nested example merges the inner dicts and keeps the left side's `hello` |
| `UtilsLaws.MergeOrderMatters` | utils.js:62-68 | `merge` is not associative: merge(a, b, c) differs from mergeTwoDicts(a, mergeTwoDicts(b, c)) for a = {k: {}}, b = {k: 5}, c = {k: {j: 1}} |
| `UtilsLaws.FirstDefinedSnoc` | utils.js:29-35 | appending an argument changes `firstDefined` only when all earlier arguments are undefined or null |
| `UtilsLaws.FirstDefinedIsFirst` | utils.js:29-35 | `firstDefined` returns the first argument that is neither undefined nor null |
| `UtilsLaws.FirstDefinedExamples` | utils.test.js:96-103 | the four examples of the `firstDefined` test |

## Left out

- Numbers are reals, not IEEE doubles. Rounding, overflow to infinity and
  signed zero are not modelled. `Components.ApplyInverse` and the round-trip
  lemmas therefore prove exact round trips that hold for doubles only up to
  rounding.
- Vectors.Div: requires every divisor to be non-zero. The source divides by
  zero and stores an infinity, which has no place in the model.
- Vectors.Set: requires a defined first argument (`ValidArg`). The source
  evaluates `x.x` on it and throws a TypeError when it is undefined. The
  same holds for `Vectors.Arith`, `Vectors.Add`, `Vectors.Sub`,
  `Vectors.Mult` and `Vectors.Div`.
- Vectors.Arith: arguments other than numbers and vector-like objects (strings,
  null, objects without `x`) are not modelled.
- Vectors.Dot: the `console.warn` on an undefined argument and the TypeError
  that follows are not modelled; the argument is always a vector.
- Vectors.Cross: the `console.warn` for operands that are not 3D is not
  modelled. The computed value is.
- Vectors.BreakIntoParts: an endpoint that is undefined or lacks `isVector` is
  `None`. The `isVector` flag itself is not a field of the model.
- Vectors.PartsCount: `parts` is a vector field here, so it is undefined,
  NaN or a real. Other `parts` values (strings, infinities) are not
  modelled.
- Utils.MergeTwoDicts: requires one side to be undefined or null, or both to
  be plain objects. With other values the source either loops over the keys
  of a primitive or array (`Object.keys`) or assigns a property of a
  primitive and throws in strict mode. Neither is modelled.
- Utils.Merge: requires every argument to be a plain object, undefined or
  null, for the same reason as `MergeTwoDicts`. With a single argument of
  another kind the source returns it unchanged.
- Utils.MergeTwoDicts: an own key named `__proto__` is not modelled. In the
  source, assigning `result["__proto__"]` sets the prototype instead of adding
  a key, and `a["__proto__"]` reads `Object.prototype`, which `isDict`
  accepts. `InheritedKeys` therefore leaves `__proto__` out. The same holds
  for `Utils.DeepClone`.
- UtilsLaws.MergeEarlierWins: requires the deciding argument to hold the key
  as its own. A key it only inherits does not decide the merge, because an
  earlier argument's own undefined value under that key shadows it.
- Utils.DeepClone: values, not object identity, are modelled. That a clone
  is a fresh object that shares no dict with its input cannot be stated here.
  Arrays are returned uncloned, as `Opaque` values. Their aliasing, which
  the array cases of the `deepClone` test at utils.test.js:78-93 rely on,
  is outside the model.
- `isDict` reads `a.constructor == Object`. A plain object with its own
  `constructor` key, and objects made by `Object.create(null)`, are not
  modelled: every `Dict` is a plain object.
- Key order is not modelled. A dict is a map, so `Object.keys` order
  (utils.test.js:61-62) is reduced to the key set (`UtilsLaws.MergeKeys`).
- `dist`, `distance`, `distanceTo`, `length`, `mag`, `setLength`, `setMag`,
  `normalize`, `limit`, `heading`, `rotate`, `angleBetween`, `angleTo` and
  `fromAngle2D` are left out. They need square roots or trigonometry, which
  reals in the model do not provide.
- `random2D` and `random3D` are left out. They draw from a random number
  generator until a sample falls inside the unit ball.
- `abs` and `stringDescription` are left out: absolute value of NaN and
  number-to-string formatting are outside the field model.
- `getNumber`, `isObject`, `isString`, `isNumber`, `isFunction`, `isArray`,
  `isBool`, `isNull` and `isDefined` are left out. They are type tests or
  call arbitrary functions.
- The tests of `utils.test.js` for functions that `utils.js` does not define
  (`turnIntoObject` and later ones) are left out.
- Mutation of the receiver is modelled as returning its new value. Aliasing
  between a receiver and an argument (`v.add(v)`) gives the same result in
  the source, because every field is read before it is written.
