/**
  Properties of the dictionary helpers: the examples of utils.test.js, the
  algebra of `mergeTwoDicts`, the priority order of `merge`, and the
  characterisation of `firstDefined`.
*/
module UtilsLaws {
  import opened Utils

  // ---------------------------------------------------------------------------
  // isDict and deepClone

  /** Only plain objects are dicts. */
  lemma IsDictOnlyForPlainObjects(m: map<string, Value>, id: nat)
    ensures IsDict(Dict(m))
    ensures !IsDict(Number(1.0)) && !IsDict(Bool(true)) && !IsDict(Null) && !IsDict(Undefined)
    ensures !IsDict(Opaque(id))
  {
  }

  // ---------------------------------------------------------------------------
  // mergeTwoDicts

  /** Merging a value with itself gives it back. */
  lemma {:induction false} MergeTwoDictsIdempotent(a: Value)
    requires DictOrNullish(a)
    ensures MergeTwoDicts(a, a) == a
    decreases a
  {
    if a.Dict? {
      var r := MergeTwoDicts(a, a);
      forall k | k in a.entries
        ensures r.entries[k] == a.entries[k]
      {
        if IsDict(a.entries[k]) {
          MergeTwoDictsIdempotent(a.entries[k]);
        }
      }
      assert r.entries == a.entries;
    }
  }

  /** The empty dict is a unit on the right. */
  lemma MergeWithEmptyDict(a: Value)
    requires a.Dict?
    ensures MergeTwoDicts(a, Dict(map[])) == a
  {
    var r := MergeTwoDicts(a, Dict(map[]));
    assert r.entries.Keys == a.entries.Keys;
    assert r.entries == a.entries;
  }

  /** On the left the empty dict drops the keys every dict inherits, which
      `{}[k]` finds defined, and keeps the rest. */
  lemma MergeIntoEmptyDict(a: Value)
    requires a.Dict?
    ensures MergeTwoDicts(Dict(map[]), a) == Dict(a.entries - InheritedKeys)
  {
    var r := MergeTwoDicts(Dict(map[]), a);
    var kept := a.entries - InheritedKeys;
    assert r.entries.Keys == kept.Keys;
    forall k | k in kept
      ensures r.entries[k] == kept[k]
    {
      assert IsNullish(Lookup(Dict(map[]), k));
    }
    assert r.entries == kept;
  }

  /** `mergeTwoDicts({}, {toString: 1})` is `{}`: the inherited `toString`
      of the left side counts as defined. A `toString` the left side holds
      as undefined is filled like any other key. */
  lemma MergeInheritedKeyExample()
    ensures MergeTwoDicts(Dict(map[]), Dict(map["toString" := Number(1.0)])) == Dict(map[])
    ensures MergeTwoDicts(Dict(map["toString" := Undefined]), Dict(map["toString" := Number(1.0)]))
         == Dict(map["toString" := Number(1.0)])
  {
    var b := Dict(map["toString" := Number(1.0)]);
    var r1 := MergeTwoDicts(Dict(map[]), b);
    assert r1.entries == map[];
    var r2 := MergeTwoDicts(Dict(map["toString" := Undefined]), b);
    assert r2.entries == b.entries;
  }

  /** Two dicts under the same key are merged recursively. */
  lemma MergeTwoDictsRecurses(a: Value, b: Value, k: string)
    requires a.Dict? && b.Dict?
    requires k in a.entries && k in b.entries && IsDict(a.entries[k]) && IsDict(b.entries[k])
    ensures MergeTwoDicts(a, b).entries[k] == MergeTwoDicts(a.entries[k], b.entries[k])
  {
  }

  /** Reading key `k` of a merge, as JavaScript's `r[k]`. */
  lemma MergeTwoDictsLookup(a: Value, b: Value, k: string)
    requires DictOrNullish(a) && DictOrNullish(b)
    ensures var r := MergeTwoDicts(a, b);
      && (IsNullish(a) ==> Lookup(r, k) == Lookup(b, k))
      && (IsNullish(Lookup(a, k)) && k in KeysOf(b) ==> Lookup(r, k) == Lookup(b, k))
      && (!IsNullish(a) && k !in KeysOf(b) ==> Lookup(r, k) == Lookup(a, k))
      && (!IsNullish(Lookup(a, k)) && !(IsDict(Lookup(a, k)) && IsDict(Lookup(b, k))) ==> Lookup(r, k) == Lookup(a, k))
  {
  }

  // ---------------------------------------------------------------------------
  // merge

  /** A key no argument defines stays undefined or null in the merge. */
  lemma {:induction false} MergeNullishAt(args: seq<Value>, k: string)
    requires forall i | 0 <= i < |args| :: DictOrNullish(args[i])
    requires forall i | 0 <= i < |args| :: IsNullish(Lookup(args[i], k))
    ensures IsNullish(Lookup(Merge(args), k))
  {
    if |args| > 1 {
      var init := args[..|args| - 1];
      MergeNullishAt(init, k);
      MergeTwoDictsLookup(Merge(init), args[|args| - 1], k);
    }
  }

  /** Earlier arguments take priority: the first argument that holds key
      `k` with a defined value other than a dict decides the merged value.
      (An inherited `k` does not decide it: an earlier argument's own
      undefined `k` shadows it in the result.) */
  lemma {:induction false} MergeEarlierWins(args: seq<Value>, i: int, k: string)
    requires forall j | 0 <= j < |args| :: DictOrNullish(args[j])
    requires 0 <= i < |args|
    requires forall j | 0 <= j < i :: IsNullish(Lookup(args[j], k))
    requires k in KeysOf(args[i])
    requires !IsNullish(Lookup(args[i], k)) && !IsDict(Lookup(args[i], k))
    ensures Lookup(Merge(args), k) == Lookup(args[i], k)
  {
    if |args| > 1 {
      var init := args[..|args| - 1];
      var last := args[|args| - 1];
      if i < |args| - 1 {
        MergeEarlierWins(init, i, k);
      } else {
        MergeNullishAt(init, k);
      }
      MergeTwoDictsLookup(Merge(init), last, k);
    }
  }

  /** The keys of a merge: every key of the first dict argument, and every
      key of the others that a dict does not inherit. */
  lemma {:induction false} MergeKeys(args: seq<Value>)
    requires forall i | 0 <= i < |args| :: DictOrNullish(args[i])
    ensures KeysOf(Merge(args)) == KeysOf(FirstDefined(args)) + (UnionOfKeys(args) - InheritedKeys)
  {
    if |args| == 1 {
      assert UnionOfKeys(args) == KeysOf(args[0]);
    } else if |args| > 1 {
      var init := args[..|args| - 1];
      var last := args[|args| - 1];
      assert args == init + [last];
      MergeKeys(init);
      FirstDefinedSnoc(init, last);
      UnionOfKeysSnoc(init, last);
      MergeIsDictIffSomeDefined(init);
      if FirstDefined(init).Undefined? {
        NoKeysWhenAllNullish(init);
      }
    }
  }

  /** Over dicts and nullish values, the merge is a dict exactly when some
      argument is neither undefined nor null. */
  lemma {:induction false} MergeIsDictIffSomeDefined(args: seq<Value>)
    requires forall i | 0 <= i < |args| :: DictOrNullish(args[i])
    ensures Merge(args).Dict? <==> !FirstDefined(args).Undefined?
  {
    assert forall i | 0 <= i < |args| :: args[i].Dict? <==> !IsNullish(args[i]);
  }

  /** Arguments that are all undefined or null contribute no key. */
  lemma {:induction false} NoKeysWhenAllNullish(args: seq<Value>)
    requires forall i | 0 <= i < |args| :: IsNullish(args[i])
    ensures UnionOfKeys(args) == {}
  {
  }

  /** The keys of one more argument join the union. */
  lemma {:induction false} UnionOfKeysSnoc(args: seq<Value>, x: Value)
    ensures UnionOfKeys(args + [x]) == UnionOfKeys(args) + KeysOf(x)
  {
    var s := args + [x];
    assert forall i | 0 <= i < |args| :: s[i] == args[i];
    assert s[|args|] == x;
  }

  /** One more argument merges it into the result so far: `merge` is a
      left fold. */
  lemma MergeSnoc(args: seq<Value>, x: Value)
    requires |args| >= 1
    requires forall i | 0 <= i < |args| :: DictOrNullish(args[i])
    requires DictOrNullish(x)
    ensures Merge(args + [x]) == MergeTwoDicts(Merge(args), x)
  {
    var s := args + [x];
    assert s[..|s| - 1] == args;
  }

  /** `merge(a, b)` is `mergeTwoDicts(a, b)`. */
  lemma MergePair(a: Value, b: Value)
    requires DictOrNullish(a) && DictOrNullish(b)
    ensures Merge([a, b]) == MergeTwoDicts(a, b)
  {
    MergeSnoc([a], b);
    assert [a] + [b] == [a, b];
  }

  /** `merge(a, b, c)` is `mergeTwoDicts(mergeTwoDicts(a, b), c)`. */
  lemma MergeTriple(a: Value, b: Value, c: Value)
    requires DictOrNullish(a) && DictOrNullish(b) && DictOrNullish(c)
    ensures Merge([a, b, c]) == MergeTwoDicts(MergeTwoDicts(a, b), c)
  {
    MergePair(a, b);
    MergeSnoc([a, b], c);
    assert [a, b] + [c] == [a, b, c];
  }

  /** Merging two one-key dicts with different keys, the second key not an
      inherited one and the first value defined and not a dict, joins them. */
  lemma MergeDisjointSingletons(k1: string, x1: Value, k2: string, x2: Value)
    requires k1 != k2 && k2 !in InheritedKeys
    requires !IsNullish(x1) && !IsDict(x1)
    ensures Merge([Dict(map[k1 := x1]), Dict(map[k2 := x2])]) == Dict(map[k1 := x1, k2 := x2])
  {
    var a, b := Dict(map[k1 := x1]), Dict(map[k2 := x2]);
    MergePair(a, b);
    MergeTwoDictsFlat(a, b);
    assert b.entries - InheritedKeys == b.entries;
    assert b.entries + a.entries == map[k1 := x1, k2 := x2];
  }

  /** `merge({a: 1}, {b: 2})` is `{a: 1, b: 2}`. */
  lemma MergeDisjointExample(a: Value, b: Value)
    requires a == Dict(map["a" := Number(1.0)]) && b == Dict(map["b" := Number(2.0)])
    ensures Merge([a, b])
         == Dict(map["a" := Number(1.0), "b" := Number(2.0)])
  {
    ShortKeyNotInherited("b");
    MergeDisjointSingletons("a", a.entries["a"], "b", b.entries["b"]);
  }

  /** `merge({a: 1}, {a: 2})` is `{a: 1}`. */
  lemma MergeLeftWinsExample()
    ensures Merge([Dict(map["a" := Number(1.0)]), Dict(map["a" := Number(2.0)])])
         == Dict(map["a" := Number(1.0)])
  {
    var a, b := Dict(map["a" := Number(1.0)]), Dict(map["a" := Number(2.0)]);
    MergePair(a, b);
    var r := MergeTwoDicts(a, b);
    assert r.entries.Keys == {"a"};
    assert r.entries == map["a" := Number(1.0)];
  }

  /** `merge({a: undefined}, {a: 1})` is `{a: 1}`. */
  lemma MergeUndefinedYieldsExample()
    ensures Merge([Dict(map["a" := Undefined]), Dict(map["a" := Number(1.0)])])
         == Dict(map["a" := Number(1.0)])
  {
    var a, b := Dict(map["a" := Undefined]), Dict(map["a" := Number(1.0)]);
    MergePair(a, b);
    var r := MergeTwoDicts(a, b);
    assert r.entries.Keys == {"a"};
    assert r.entries == map["a" := Number(1.0)];
  }

  /** `merge({a: 1}, {b: undefined})` keeps the key `b`, holding undefined. */
  lemma MergeKeepsUndefinedKeyExample(a: Value, b: Value)
    requires a == Dict(map["a" := Number(1.0)]) && b == Dict(map["b" := Undefined])
    ensures Merge([a, b])
         == Dict(map["a" := Number(1.0), "b" := Undefined])
  {
    ShortKeyNotInherited("b");
    MergeDisjointSingletons("a", a.entries["a"], "b", b.entries["b"]);
  }

  /** When every value of `a` is defined and not a dict, the merge is the
      union of the two maps in which `a` wins every shared key. */
  lemma MergeTwoDictsFlat(a: Value, b: Value)
    requires a.Dict? && b.Dict?
    requires forall k | k in a.entries :: !IsNullish(a.entries[k]) && !IsDict(a.entries[k])
    ensures MergeTwoDicts(a, b) == Dict((b.entries - InheritedKeys) + a.entries)
  {
    var r := MergeTwoDicts(a, b);
    var union := (b.entries - InheritedKeys) + a.entries;
    assert r.entries.Keys == union.Keys;
    forall k | k in union
      ensures r.entries[k] == union[k]
    {
      if k !in a.entries {
        assert IsNullish(Lookup(a, k));
      }
    }
    assert r.entries == union;
  }

  /** Keys shorter than seven characters name no inherited member, so a map
      with only such keys loses none of them to `InheritedKeys`. */
  lemma ShortKeysNotInherited(m: map<string, Value>)
    requires forall k | k in m :: |k| < 7
    ensures m - InheritedKeys == m
  {
    forall k | k in m
      ensures k !in InheritedKeys
    {
      ShortKeyNotInherited(k);
    }
  }

  /** Every inherited member's name has at least seven characters. */
  lemma ShortKeyNotInherited(k: string)
    requires |k| < 7
    ensures k !in InheritedKeys
  {
  }

  /** Folding a third dict onto two flat ones whose later keys are not
      inherited: earlier maps win every shared key. */
  lemma MergeTwoDictsFlatTwice(a: Value, b: Value, c: Value)
    requires a.Dict? && b.Dict? && c.Dict?
    requires forall k | k in a.entries :: !IsNullish(a.entries[k]) && !IsDict(a.entries[k])
    requires forall k | k in b.entries :: !IsNullish(b.entries[k]) && !IsDict(b.entries[k])
    requires b.entries - InheritedKeys == b.entries && c.entries - InheritedKeys == c.entries
    ensures MergeTwoDicts(MergeTwoDicts(a, b), c) == Dict(c.entries + b.entries + a.entries)
  {
    var ab := Dict(b.entries + a.entries);
    FlatUnion(a, b);
    calc {
      MergeTwoDicts(MergeTwoDicts(a, b), c);
      { MergeTwoDictsFlat(a, b); }
      MergeTwoDicts(ab, c);
      { MergeTwoDictsFlat(ab, c); }
      Dict((c.entries - InheritedKeys) + ab.entries);
      Dict(c.entries + ab.entries);
      { assert c.entries + ab.entries == c.entries + b.entries + a.entries; }
      Dict(c.entries + b.entries + a.entries);
    }
  }

  /** The union of two maps of defined non-dict values holds only such
      values. */
  lemma FlatUnion(a: Value, b: Value)
    requires a.Dict? && b.Dict?
    requires forall k | k in a.entries :: !IsNullish(a.entries[k]) && !IsDict(a.entries[k])
    requires forall k | k in b.entries :: !IsNullish(b.entries[k]) && !IsDict(b.entries[k])
    ensures forall k | k in (b.entries + a.entries) :: !IsNullish((b.entries + a.entries)[k]) && !IsDict((b.entries + a.entries)[k])
  {
    var ab := b.entries + a.entries;
    forall k | k in ab
      ensures !IsNullish(ab[k]) && !IsDict(ab[k])
    {
      if k in a.entries {
        assert ab[k] == a.entries[k];
      } else {
        assert ab[k] == b.entries[k];
      }
    }
  }

  /** Three arguments whose first two hold only defined non-dict values,
      and whose later two hold no inherited key, merge into the union of the
      three maps, earlier ones winning. */
  lemma MergeThreeFlat(a: Value, b: Value, c: Value)
    requires a.Dict? && b.Dict? && c.Dict?
    requires forall k | k in a.entries :: !IsNullish(a.entries[k]) && !IsDict(a.entries[k])
    requires forall k | k in b.entries :: !IsNullish(b.entries[k]) && !IsDict(b.entries[k])
    requires b.entries - InheritedKeys == b.entries && c.entries - InheritedKeys == c.entries
    ensures Merge([a, b, c]) == Dict(c.entries + b.entries + a.entries)
  {
    MergeTwoDictsFlatTwice(a, b, c);
    MergeTriple(a, b, c);
  }

  /** `merge({a: 1}, {b: 2}, {c: 3})` is `{a: 1, b: 2, c: 3}`. */
  lemma MergeThreeDisjointExample(a: Value, b: Value, c: Value)
    requires a == Dict(map["a" := Number(1.0)])
    requires b == Dict(map["b" := Number(2.0)])
    requires c == Dict(map["c" := Number(3.0)])
    ensures Merge([a, b, c]) == Dict(map["a" := Number(1.0), "b" := Number(2.0), "c" := Number(3.0)])
  {
    assert c.entries + b.entries + a.entries == map["a" := Number(1.0), "b" := Number(2.0), "c" := Number(3.0)];
    NumbersAreFlat(a);
    NumbersAreFlat(b);
    ShortKeysNotInherited(b.entries);
    ShortKeysNotInherited(c.entries);
    MergeThreeFlat(a, b, c);
  }

  /** `merge({a: 1}, {a: 2, b: 2}, {b: 3})` is `{a: 1, b: 2}`. */
  lemma MergeThreePriorityExample(a: Value, b: Value, c: Value)
    requires a == Dict(map["a" := Number(1.0)])
    requires b == Dict(map["a" := Number(2.0), "b" := Number(2.0)])
    requires c == Dict(map["b" := Number(3.0)])
    ensures Merge([a, b, c]) == Dict(map["a" := Number(1.0), "b" := Number(2.0)])
  {
    assert c.entries + b.entries + a.entries == map["a" := Number(1.0), "b" := Number(2.0)];
    NumbersAreFlat(a);
    NumbersAreFlat(b);
    ShortKeysNotInherited(b.entries);
    ShortKeysNotInherited(c.entries);
    MergeThreeFlat(a, b, c);
  }

  /** A dict of numbers holds only defined values none of which is a dict. */
  lemma NumbersAreFlat(v: Value)
    requires v.Dict? && forall k | k in v.entries :: v.entries[k].Number?
    ensures forall k | k in v.entries :: !IsNullish(v.entries[k]) && !IsDict(v.entries[k])
  {
  }

  /** The innermost level of the nested `merge` example. */
  lemma MergeNestedInner()
    ensures MergeTwoDicts(Dict(map["hello" := Number(2.0)]), Dict(map["hello" := Number(1.0), "hi" := Number(5.0)]))
         == Dict(map["hello" := Number(2.0), "hi" := Number(5.0)])
  {
    var a, b := Dict(map["hello" := Number(2.0)]), Dict(map["hello" := Number(1.0), "hi" := Number(5.0)]);
    assert b.entries + a.entries == map["hello" := Number(2.0), "hi" := Number(5.0)];
    ShortKeysNotInherited(b.entries);
    MergeTwoDictsFlat(a, b);
  }

  /** One dict level of the nested `merge` example: the dicts under `key`
      are merged, the keys only `b` has are taken from `b` unless a dict
      inherits them. */
  lemma MergeOneNestedLevel(key: string, x: Value, y: Value, b: Value)
    requires IsDict(x) && IsDict(y) && b.Dict? && key in b.entries && b.entries[key] == y
    ensures MergeTwoDicts(Dict(map[key := x]), b) == Dict((b.entries - InheritedKeys)[key := MergeTwoDicts(x, y)])
  {
    var r := MergeTwoDicts(Dict(map[key := x]), b);
    SingletonMergeEntries(key, x, y, b);
    UpdatedEntries(r.entries, b.entries, key, MergeTwoDicts(x, y));
  }

  /** A map with the keys of `(m - InheritedKeys)[key := v]`, holding `v` at
      `key` and the value of `m` everywhere else, is that map. */
  lemma UpdatedEntries(e: map<string, Value>, m: map<string, Value>, key: string, v: Value)
    requires e.Keys == ((m - InheritedKeys)[key := v]).Keys
    requires key in e && e[key] == v
    requires forall k | k in e && k != key :: e[k] == m[k]
    ensures e == (m - InheritedKeys)[key := v]
  {
    var expected := (m - InheritedKeys)[key := v];
    forall k | k in expected
      ensures e[k] == expected[k]
    {
      if k != key {
        assert expected[k] == m[k];
      }
    }
  }

  /** The entries of `mergeTwoDicts({key: x}, b)`, key by key. */
  lemma SingletonMergeEntries(key: string, x: Value, y: Value, b: Value)
    requires IsDict(x) && IsDict(y) && b.Dict? && key in b.entries && b.entries[key] == y
    ensures var r := MergeTwoDicts(Dict(map[key := x]), b);
      && r.entries.Keys == ((b.entries - InheritedKeys)[key := MergeTwoDicts(x, y)]).Keys
      && r.entries[key] == MergeTwoDicts(x, y)
      && forall k | k in r.entries && k != key :: r.entries[k] == b.entries[k]
  {
    var a := Dict(map[key := x]);
    MergeTwoDictsRecurses(a, b, key);
    forall k | k in MergeTwoDicts(a, b).entries && k != key
      ensures MergeTwoDicts(a, b).entries[k] == b.entries[k]
    {
      MergeFillsAbsentKey(a, b, k);
    }
  }

  /** A key that `a` neither holds nor inherits is taken from `b`. */
  lemma MergeFillsAbsentKey(a: Value, b: Value, k: string)
    requires a.Dict? && b.Dict? && k in b.entries && k !in a.entries && k !in InheritedKeys
    ensures k in MergeTwoDicts(a, b).entries && MergeTwoDicts(a, b).entries[k] == b.entries[k]
  {
    assert IsNullish(Lookup(a, k));
  }

  /** The nested example of the `merge` test: dicts under the same key are
      merged, and the left side's `hello` survives. */
  lemma MergeNestedExample()
    ensures Merge([
        Dict(map["a" := Dict(map["data" := Dict(map["hello" := Number(2.0)])])]),
        Dict(map["a" := Dict(map["text" := Str("hi"), "data" := Dict(map["hello" := Number(1.0), "hi" := Number(5.0)])])])])
      == Dict(map["a" := Dict(map["text" := Str("hi"), "data" := Dict(map["hello" := Number(2.0), "hi" := Number(5.0)])])])
  {
    var inner1 := Dict(map["hello" := Number(2.0)]);
    var inner2 := Dict(map["hello" := Number(1.0), "hi" := Number(5.0)]);
    var mid1 := Dict(map["data" := inner1]);
    var mid2 := Dict(map["text" := Str("hi"), "data" := inner2]);
    var top1 := Dict(map["a" := mid1]);
    var top2 := Dict(map["a" := mid2]);
    var mi := Dict(map["hello" := Number(2.0), "hi" := Number(5.0)]);
    var mm := Dict(map["text" := Str("hi"), "data" := mi]);
    assert mid2.entries["data" := mi] == mm.entries;
    assert top2.entries["a" := mm] == map["a" := mm];
    ShortKeysNotInherited(mid2.entries);
    ShortKeysNotInherited(top2.entries);
    MergeNestedInner();
    MergeOneNestedLevel("data", inner1, inner2, mid2);
    MergeOneNestedLevel("a", mid1, mid2, top2);
    MergePair(top1, top2);
  }

  /** The fold is not associative: with `a = {k: {}}`, `b = {k: 5}` and
      `c = {k: {j: 1}}`, `merge(a, b, c)` reaches into `c` under `k`, while
      merging `a` with the merge of `b` and `c` gives back `a`. */
  lemma MergeOrderMatters(a: Value, b: Value, c: Value)
    requires a == Dict(map["k" := Dict(map[])])
    requires b == Dict(map["k" := Number(5.0)])
    requires c == Dict(map["k" := Dict(map["j" := Number(1.0)])])
    ensures Merge([a, b, c]) == c
    ensures MergeTwoDicts(a, MergeTwoDicts(b, c)) == a
    ensures Merge([a, b, c]) != MergeTwoDicts(a, MergeTwoDicts(b, c))
  {
    MergeOrderMattersFold(a, b, c);
    MergeOrderMattersNested(a, b, c);
    assert "j" in c.entries["k"].entries && "j" !in a.entries["k"].entries;
  }

  /** `merge(a, b, c)` for the dicts of `MergeOrderMatters`. */
  lemma MergeOrderMattersFold(a: Value, b: Value, c: Value)
    requires a == Dict(map["k" := Dict(map[])])
    requires b == Dict(map["k" := Number(5.0)])
    requires c == Dict(map["k" := Dict(map["j" := Number(1.0)])])
    ensures Merge([a, b, c]) == c
  {
    MergeOrderMattersLeft(a, b);
    MergeOrderMattersRight(a, c);
    MergeTripleAbsorbed(a, b, c);
  }

  /** When `a` absorbs `b` and `c` absorbs `a`, `merge(a, b, c)` is `c`. */
  lemma MergeTripleAbsorbed(a: Value, b: Value, c: Value)
    requires DictOrNullish(a) && DictOrNullish(b) && DictOrNullish(c)
    requires MergeTwoDicts(a, b) == a && MergeTwoDicts(a, c) == c
    ensures Merge([a, b, c]) == c
  {
    MergeTriple(a, b, c);
  }

  /** The empty dict under `k` in `a` takes in `c`'s dict under `k`. */
  lemma MergeOrderMattersRight(a: Value, c: Value)
    requires a == Dict(map["k" := Dict(map[])])
    requires c == Dict(map["k" := Dict(map["j" := Number(1.0)])])
    ensures MergeTwoDicts(a, c) == c
  {
    var e := Dict(map[]);
    var j1 := Dict(map["j" := Number(1.0)]);
    assert c.entries["k" := j1] == c.entries;
    ShortKeysNotInherited(c.entries);
    ShortKeysNotInherited(j1.entries);
    MergeIntoEmptyDict(j1);
    MergeOneNestedLevel("k", e, j1, c);
  }

  /** `mergeTwoDicts(a, mergeTwoDicts(b, c))` for the dicts of
      `MergeOrderMatters`. */
  lemma MergeOrderMattersNested(a: Value, b: Value, c: Value)
    requires a == Dict(map["k" := Dict(map[])])
    requires b == Dict(map["k" := Number(5.0)])
    requires c == Dict(map["k" := Dict(map["j" := Number(1.0)])])
    ensures MergeTwoDicts(a, MergeTwoDicts(b, c)) == a
  {
    assert c.entries + b.entries == b.entries;
    ShortKeysNotInherited(c.entries);
    calc {
      MergeTwoDicts(a, MergeTwoDicts(b, c));
      { MergeTwoDictsFlat(b, c); }
      MergeTwoDicts(a, b);
      { MergeOrderMattersLeft(a, b); }
      a;
    }
  }

  /** A dict under `k` in `a` is kept against a number under `k` in `b`. */
  lemma MergeOrderMattersLeft(a: Value, b: Value)
    requires a == Dict(map["k" := Dict(map[])]) && b == Dict(map["k" := Number(5.0)])
    ensures MergeTwoDicts(a, b) == a
  {
    var r := MergeTwoDicts(a, b);
    assert r.entries == a.entries;
  }

  // ---------------------------------------------------------------------------
  // firstDefined

  /** One more argument changes `firstDefined` only when every earlier one
      is undefined or null. */
  lemma {:induction false} FirstDefinedSnoc(args: seq<Value>, x: Value)
    ensures !FirstDefined(args).Undefined? ==> FirstDefined(args + [x]) == FirstDefined(args)
    ensures FirstDefined(args).Undefined? ==> FirstDefined(args + [x]) == FirstDefined([x])
  {
    if |args| == 0 {
      assert args + [x] == [x];
    } else {
      assert (args + [x])[1..] == args[1..] + [x];
      FirstDefinedSnoc(args[1..], x);
    }
  }

  /** The first argument that is neither undefined nor null is returned. */
  lemma {:induction false} FirstDefinedIsFirst(args: seq<Value>, i: int)
    requires 0 <= i < |args| && !IsNullish(args[i])
    requires forall j | 0 <= j < i :: IsNullish(args[j])
    ensures FirstDefined(args) == args[i]
  {
    if i > 0 {
      FirstDefinedIsFirst(args[1..], i - 1);
    }
  }

  /** The examples of the `firstDefined` test. */
  lemma FirstDefinedExamples()
    ensures FirstDefined([Number(1.0), Number(2.0), Number(3.0)]) == Number(1.0)
    ensures FirstDefined([Undefined, Number(2.0), Number(3.0)]) == Number(2.0)
    ensures FirstDefined([Undefined, Undefined, Number(3.0)]) == Number(3.0)
    ensures FirstDefined([Undefined, Undefined, Undefined]) == Undefined
  {
    FirstDefinedIsFirst([Undefined, Undefined, Number(3.0)], 2);
  }

}
