/**
  Deep copy and deep merge over JavaScript value trees (src/utils/merge.js).
  The source works on fresh copies only, so each operation is a function of
  its inputs; a thrown TypeError is the `None` result.
 */
module Merge {
  import opened JsValue
  import opened TypeCheck

  // ---------------------------------------------------------------------
  // copyValue

  /**
    `copyValue`: the switch on `getType` rebuilds arrays, dates and plain
    objects and returns every other value as it is.
   */
  function CopyValue(v: Value): (r: Value)
    ensures r == v
    decreases v, 1
  {
    match v
    case Arr(_) => Arr(CopyArray(v))
    case Date(_, _) => CopyDate(v)
    case Obj(_) => Obj(CopyObject(v))
    case _ => v
  }

  /** `copyArray`: `list.map(copyValue)` */
  function CopyArray(list: Value): (r: seq<Value>)
    requires list.Arr?
    ensures r == list.items
    decreases list, 0
  {
    var c := seq(|list.items|, i requires 0 <= i < |list.items| => CopyValue(list.items[i]));
    assert forall i :: 0 <= i < |c| ==> c[i] == list.items[i];
    c
  }

  /** `copyDate`: `new Date(oldDate)` keeps the time, hence the text. */
  function CopyDate(d: Value): (r: Value)
    requires d.Date?
    ensures r == d
  {
    Date(d.time, d.text)
  }

  /** `copyObject`: every own key of the object, with a copy of its value. */
  function CopyObject(value: Value): (r: map<string, Value>)
    requires value.Obj?
    ensures r == value.props
    decreases value, 0
  {
    var m := map k | k in value.props :: CopyValue(value.props[k]);
    assert forall k :: k in m ==> m[k] == value.props[k];
    m
  }

  // ---------------------------------------------------------------------
  // Object.keys and Array.prototype.concat

  lemma IndicesDistinct()
    ensures forall i: nat, j: nat :: NatToDecimal(i) == NatToDecimal(j) ==> i == j
  {
    forall i: nat, j: nat | NatToDecimal(i) == NatToDecimal(j) {
      NatToDecimalInjective(i, j);
    }
  }

  /**
    The own enumerable properties `Object.keys(v)` lists, with `v[key]` for
    each: the keys of an array or a string are exactly its indices, written
    as canonical decimals (a key reads back as an index below the length and
    prints as itself); other primitives, dates and functions have none; and
    `null` and `undefined` throw.
   */
  function OwnEntries(v: Value): (r: Option<map<string, Value>>)
    ensures r.None? <==> v.Undef? || v.Null?
    ensures v.Obj? ==> r == Some(v.props)
    ensures v.Arr? ==> r.Some? && forall i :: 0 <= i < |v.items| ==>
              NatToDecimal(i) in r.value && r.value[NatToDecimal(i)] == v.items[i]
    ensures v.Arr? ==> r.Some? && forall k :: k in r.value ==>
              DecimalValue(k) < |v.items| && NatToDecimal(DecimalValue(k)) == k
    ensures v.Str? ==> r.Some? && forall i :: 0 <= i < |v.s| ==>
              NatToDecimal(i) in r.value && r.value[NatToDecimal(i)] == Str([v.s[i]])
    ensures v.Str? ==> r.Some? && forall k :: k in r.value ==>
              DecimalValue(k) < |v.s| && NatToDecimal(DecimalValue(k)) == k
    ensures v.Bool? || v.Num? || v.Date? || v.Fn? ==> r == Some(map[])
  {
    match v
    case Undef => None
    case Null => None
    case Obj(m) => Some(m)
    case Arr(items) => Some(IndexEntries(items))
    case Str(s) => Some(IndexEntries(seq(|s|, i requires 0 <= i < |s| => Str([s[i]]))))
    case _ => Some(map[])
  }

  /**
    The entries of an array-like value: index `i`, as its decimal key, holds
    the i-th element, and no other key is present.
   */
  function IndexEntries(items: seq<Value>): (r: map<string, Value>)
    ensures forall k :: k in r ==> DecimalValue(k) < |items| && NatToDecimal(DecimalValue(k)) == k
    ensures forall i :: 0 <= i < |items| ==> NatToDecimal(i) in r && r[NatToDecimal(i)] == items[i]
    decreases |items|
  {
    if items == [] then map[]
    else
      var n := |items| - 1;
      var front := IndexEntries(items[..n]);
      DecimalRoundTrip(n);
      ExtendIndexKeys(front, items, NatToDecimal(n));
      ExtendIndexValues(front, items, NatToDecimal(n));
      front[NatToDecimal(n) := items[n]]
  }

  /** Adding the last index to the entries of the front keeps their keys exactly indices. */
  lemma ExtendIndexKeys(front: map<string, Value>, items: seq<Value>, key: string)
    requires items != [] && DecimalValue(key) == |items| - 1 && NatToDecimal(|items| - 1) == key
    requires forall k :: k in front ==> DecimalValue(k) < |items| - 1 && NatToDecimal(DecimalValue(k)) == k
    ensures forall k :: k in front[key := items[|items| - 1]] ==>
      DecimalValue(k) < |items| && NatToDecimal(DecimalValue(k)) == k
  {
    forall k | k in front[key := items[|items| - 1]]
      ensures DecimalValue(k) < |items| && NatToDecimal(DecimalValue(k)) == k
    {
      if k != key {
        assert k in front;
      }
    }
  }

  /** Adding the last index to the entries of the front keeps every index at its element. */
  lemma ExtendIndexValues(front: map<string, Value>, items: seq<Value>, key: string)
    requires items != [] && key == NatToDecimal(|items| - 1) && DecimalValue(key) == |items| - 1
    requires forall i :: 0 <= i < |items| - 1 ==> NatToDecimal(i) in front && front[NatToDecimal(i)] == items[i]
    ensures forall i :: 0 <= i < |items| ==>
      NatToDecimal(i) in front[key := items[|items| - 1]] && front[key := items[|items| - 1]][NatToDecimal(i)] == items[i]
  {
    forall i | 0 <= i < |items| - 1
      ensures NatToDecimal(i) != key
    {
      DecimalRoundTrip(i);
    }
  }


  /** What `array.concat(x)` appends: the elements of an array, any other value as one element. */
  function Spread(x: Value): seq<Value>
  {
    if x.Arr? then x.items else [x]
  }

  // ---------------------------------------------------------------------
  // mergeDeep

  /** `mergeDeep(target, source)`: the switch on the target's `getType`. */
  function MergeDeep(target: Value, source: Value): (r: Option<Value>)
    decreases target, 2
  {
    match target
    case Arr(_) => Some(MergeArray(target, source))
    case Obj(_) => MergeObject(target, source)
    case _ => Some(source)
  }

  /** `mergeArray`: a copy of the target concatenated with a copy of the source. */
  function MergeArray(target: Value, source: Value): (r: Value)
    requires target.Arr?
    ensures r == Arr(target.items + Spread(source))
  {
    var sourceCopy := CopyValue(source);
    var targetCopy := CopyArray(target);
    Arr(targetCopy + Spread(sourceCopy))
  }

  /**
    `mergeObject`: start from a copy of the target; for each key of the
    source, merge into the result's value when that is truthy, otherwise store
    a copy of the source value. Each key is visited once and touches only its
    own slot, so the order of `Object.keys` does not matter; a nested merge
    that throws makes the whole merge throw.
   */
  function MergeObject(target: Value, source: Value): (r: Option<Value>)
    requires target.Obj?
    decreases target, 1
  {
    match OwnEntries(source)
    case None => None
    case Some(entries) =>
      var result := CopyObject(target);
      if NestedMergesSucceed(target, entries) then
        Some(Obj(map k | k in result.Keys + entries.Keys ::
          if k !in entries then result[k]
          else if k in result && Truthy(result[k]) then MergeDeep(result[k], entries[k]).value
          else CopyValue(entries[k])))
      else None
  }

  /**
    Every recursive merge `mergeObject` makes succeeds: one per shared key
    whose value in (the copy of) the target is truthy.
   */
  predicate NestedMergesSucceed(target: Value, entries: map<string, Value>)
    requires target.Obj?
    decreases target, 0
  {
    forall k :: k in entries && k in target.props && Truthy(target.props[k]) ==>
      MergeDeep(target.props[k], entries[k]).Some?
  }

  // ---------------------------------------------------------------------
  // Properties

  /** A target that is neither an array nor an object yields the source itself. */
  lemma MergeScalarTarget(target: Value, source: Value)
    requires !target.Arr? && !target.Obj?
    ensures MergeDeep(target, source) == Some(source)
  {
  }

  /**
    An array target: the target's elements, then the source's elements when
    the source is an array, or the source itself as one last element when it
    is not; the merge never throws.
   */
  lemma MergeArrayTarget(target: Value, source: Value)
    requires target.Arr?
    ensures source.Arr? ==> MergeDeep(target, source) == Some(Arr(target.items + source.items))
    ensures !source.Arr? ==> MergeDeep(target, source) == Some(Arr(target.items + [source]))
    ensures source.Arr? ==> |MergeDeep(target, source).value.items| == |target.items| + |source.items|
  {
  }

  /** An object target and a `null`/`undefined` source: `Object.keys` throws. */
  lemma MergeObjectNullishSource(target: Value, source: Value)
    requires target.Obj? && (source.Undef? || source.Null?)
    ensures MergeDeep(target, source).None?
  {
  }

  /**
    A nested `null` under a key whose target value is an object: the nested
    merge reaches `Object.keys(null)`, so the whole merge throws.
   */
  lemma NestedNullThrows(key: string)
    ensures MergeDeep(Obj(map[key := Obj(map[])]), Obj(map[key := Null])).None?
  {
    var target, source := Obj(map[key := Obj(map[])]), Obj(map[key := Null]);
    MergeObjectNullishSource(Obj(map[]), Null);
    var entries := OwnEntries(source).value;
    assert entries == map[key := Null];
    assert key in entries && key in target.props && Truthy(target.props[key]);
    assert MergeDeep(target.props[key], entries[key]).None?;
    assert !NestedMergesSucceed(target, entries);
    assert MergeObject(target, source).None?;
  }

  /**
    An object target: the result's keys are the union of both key sets;
    target-only keys keep their value; source-only keys take the source value;
    a shared key is merged recursively when its target value is truthy and
    takes the source value when it is falsy.
   */
  lemma MergeObjectTarget(target: Value, source: Value, entries: map<string, Value>)
    requires target.Obj? && OwnEntries(source) == Some(entries)
    requires MergeDeep(target, source).Some?
    ensures var r := MergeDeep(target, source).value;
      && r.Obj?
      && r.props.Keys == target.props.Keys + entries.Keys
      && (forall k :: k in target.props && k !in entries ==> r.props[k] == target.props[k])
      && (forall k :: k in entries && k !in target.props ==> r.props[k] == entries[k])
      && (forall k :: k in entries && k in target.props && !Truthy(target.props[k]) ==>
            r.props[k] == entries[k])
      && (forall k :: k in entries && k in target.props && Truthy(target.props[k]) ==>
            MergeDeep(target.props[k], entries[k]) == Some(r.props[k]))
  {
    assert NestedMergesSucceed(target, entries);
  }

  /** The merge fails exactly when a nullish source meets an object target, at any depth. */
  ghost predicate Mergeable(target: Value, source: Value)
    decreases target
  {
    target.Obj? ==>
      && !source.Undef? && !source.Null?
      && var entries := OwnEntries(source).value;
         forall k :: k in entries && k in target.props && Truthy(target.props[k]) ==>
           Mergeable(target.props[k], entries[k])
  }

  lemma {:induction false} MergeSucceedsIffMergeable(target: Value, source: Value)
    ensures MergeDeep(target, source).Some? <==> Mergeable(target, source)
    decreases target
  {
    if target.Obj? && !source.Undef? && !source.Null? {
      var entries := OwnEntries(source).value;
      forall k | k in entries && k in target.props && Truthy(target.props[k])
        ensures MergeDeep(target.props[k], entries[k]).Some? <==> Mergeable(target.props[k], entries[k])
      {
        MergeSucceedsIffMergeable(target.props[k], entries[k]);
      }
      MergeObjectSucceeds(target, source, entries);
    }
  }

  /** An object target merges exactly when every recursive merge it makes does. */
  lemma MergeObjectSucceeds(target: Value, source: Value, entries: map<string, Value>)
    requires target.Obj? && OwnEntries(source) == Some(entries)
    ensures MergeDeep(target, source).Some? <==> NestedMergesSucceed(target, entries)
  {
  }

  /** Merging an object with an empty object gives back the target. */
  lemma MergeWithEmptyObject(target: Value)
    requires target.Obj?
    ensures MergeDeep(target, Obj(map[])) == Some(target)
  {
    MergeObjectSucceeds(target, Obj(map[]), map[]);
    assert NestedMergesSucceed(target, map[]);
    MergeObjectTarget(target, Obj(map[]), map[]);
    var r := MergeDeep(target, Obj(map[])).value;
    assert r.props == target.props;
  }

  /**
    The JSON update example, `{"a":{"b":"c"},"d":true}` merged with
    `{"a":{"b":"e"}}` giving `{"a":{"b":"e"},"d":true}`, for any key names
    and string values.
   */
  lemma MergeJsonExample(a: string, b: string, d: string, c: string, e: string)
    requires a != d
    ensures MergeDeep(Obj(map[a := Obj(map[b := Str(c)]), d := Bool(true)]),
                      Obj(map[a := Obj(map[b := Str(e)])]))
         == Some(Obj(map[a := Obj(map[b := Str(e)]), d := Bool(true)]))
  {
    var innerT := Obj(map[b := Str(c)]);
    var innerS := Obj(map[b := Str(e)]);
    var target := Obj(map[a := innerT, d := Bool(true)]);
    var source := Obj(map[a := innerS]);
    MergeLeafObjects(b, c, e);
    assert NestedMergesSucceed(target, source.props);
    MergeObjectSucceeds(target, source, source.props);
    MergeObjectTarget(target, source, source.props);
    var r := MergeDeep(target, source).value;
    var expected := map[a := innerS, d := Bool(true)];
    assert r.props.Keys == expected.Keys;
    assert r.props[a] == expected[a];
    assert r.props[d] == expected[d];
    MapsAgree(r.props, expected);
  }

  /** One string key on both sides: the source string wins, whether or not the target's is blank. */
  lemma MergeLeafObjects(b: string, c: string, e: string)
    ensures MergeDeep(Obj(map[b := Str(c)]), Obj(map[b := Str(e)])) == Some(Obj(map[b := Str(e)]))
  {
    var innerT := Obj(map[b := Str(c)]);
    var innerS := Obj(map[b := Str(e)]);
    assert NestedMergesSucceed(innerT, innerS.props);
    MergeObjectSucceeds(innerT, innerS, innerS.props);
    MergeObjectTarget(innerT, innerS, innerS.props);
    var ri := MergeDeep(innerT, innerS).value;
    assert ri.props[b] == Str(e);
    MapsAgree(ri.props, innerS.props);
  }

  /**
    The deep-merge example of the utility tests: arrays are concatenated, a
    falsy target value is replaced, nested objects are merged key by key and a
    target-only Date survives.
   */
  lemma MergeNestedExample(a: string, b: string, c: string, e: string, f: string, when: Value)
    requires a != b && b != c && a != c && e != f && when.Date?
    ensures MergeDeep(
              Obj(map[a := Arr([Num(1), Num(2), Num(3)]), b := Bool(false),
                      c := Obj(map[e := when, f := Arr([Str("a"), Str("b")])])]),
              Obj(map[a := Arr([Num(5), Num(4)]), b := Bool(true),
                      c := Obj(map[f := Arr([Str("d")])])]))
         == Some(Obj(map[a := Arr([Num(1), Num(2), Num(3), Num(5), Num(4)]), b := Bool(true),
                         c := Obj(map[e := when, f := Arr([Str("a"), Str("b"), Str("d")])])]))
  {
    var cT := Obj(map[e := when, f := Arr([Str("a"), Str("b")])]);
    var cS := Obj(map[f := Arr([Str("d")])]);
    var rc := Obj(map[e := when, f := Arr([Str("a"), Str("b"), Str("d")])]);
    var ra := Arr([Num(1), Num(2), Num(3), Num(5), Num(4)]);
    var target := Obj(map[a := Arr([Num(1), Num(2), Num(3)]), b := Bool(false), c := cT]);
    var source := Obj(map[a := Arr([Num(5), Num(4)]), b := Bool(true), c := cS]);
    assert MergeDeep(target, source).Some? by {
      MergeNestedInner(e, f, when);
      assert NestedMergesSucceed(target, source.props);
      MergeObjectSucceeds(target, source, source.props);
    }
    var r := MergeDeep(target, source).value;
    assert r.Obj? && r.props.Keys == {a, b, c} by {
      MergeObjectTarget(target, source, source.props);
    }
    assert r.props[a] == ra by {
      MergeSharedKey(target, source, source.props, a);
      assert [Num(1), Num(2), Num(3)] + [Num(5), Num(4)] == [Num(1), Num(2), Num(3), Num(5), Num(4)];
    }
    assert r.props[b] == Bool(true) by {
      MergeSharedKey(target, source, source.props, b);
    }
    assert r.props[c] == rc by {
      MergeNestedInner(e, f, when);
      MergeSharedKey(target, source, source.props, c);
    }
    MapsAgree(r.props, map[a := ra, b := Bool(true), c := rc]);
  }

  /** The value a shared key gets: the nested merge when the target's is truthy, else the source's. */
  lemma MergeSharedKey(target: Value, source: Value, entries: map<string, Value>, k: string)
    requires target.Obj? && OwnEntries(source) == Some(entries)
    requires MergeDeep(target, source).Some?
    requires k in entries && k in target.props
    ensures var r := MergeDeep(target, source).value;
      && r.Obj? && k in r.props
      && (Truthy(target.props[k]) ==> MergeDeep(target.props[k], entries[k]) == Some(r.props[k]))
      && (!Truthy(target.props[k]) ==> r.props[k] == entries[k])
  {
    MergeObjectTarget(target, source, entries);
  }

  /** The nested object of the example: the arrays under `f` are concatenated and the Date under `e` survives. */
  lemma MergeNestedInner(e: string, f: string, when: Value)
    requires e != f && when.Date?
    ensures MergeDeep(Obj(map[e := when, f := Arr([Str("a"), Str("b")])]), Obj(map[f := Arr([Str("d")])]))
         == Some(Obj(map[e := when, f := Arr([Str("a"), Str("b"), Str("d")])]))
  {
    var cT := Obj(map[e := when, f := Arr([Str("a"), Str("b")])]);
    var cS := Obj(map[f := Arr([Str("d")])]);
    assert NestedMergesSucceed(cT, cS.props);
    MergeObjectSucceeds(cT, cS, cS.props);
    MergeObjectTarget(cT, cS, cS.props);
    var rc := MergeDeep(cT, cS).value;
    assert [Str("a"), Str("b")] + [Str("d")] == [Str("a"), Str("b"), Str("d")];
    assert rc.props == map[e := when, f := Arr([Str("a"), Str("b"), Str("d")])];
  }

  /** Two maps with the same keys and the same value at each key are equal. */
  lemma MapsAgree<K, V>(m: map<K, V>, n: map<K, V>)
    requires m.Keys == n.Keys
    requires forall k :: k in m ==> m[k] == n[k]
    ensures m == n
  {
  }
}
