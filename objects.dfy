/** Plain JavaScript objects with string keys, as the tool uses them: the
    properties in insertion order (the order `for ... in`, `Object.keys` and
    `Object.values` follow), where assigning to an existing key replaces its
    value in place and assigning to a new key appends it. */
module Objects {

  datatype Prop<V> = Prop(key: string, value: V)

  predicate DistinctKeys<V>(props: seq<Prop<V>>)
  {
    forall i, j :: 0 <= i < j < |props| ==> props[i].key != props[j].key
  }

  /** Position of `key` among the properties, or -1 when it is absent. */
  function IndexOfKey<V>(props: seq<Prop<V>>, key: string): (i: int)
    ensures -1 <= i < |props|
    ensures i == -1 ==> forall j :: 0 <= j < |props| ==> props[j].key != key
    ensures 0 <= i ==> props[i].key == key && forall j :: 0 <= j < i ==> props[j].key != key
  {
    if props == [] then -1
    else if props[|props| - 1].key == key then
      var i := IndexOfKey(props[..|props| - 1], key);
      if i < 0 then |props| - 1 else i
    else IndexOfKey(props[..|props| - 1], key)
  }

  /** `obj[key] = value`. */
  function Assign<V>(props: seq<Prop<V>>, key: string, value: V): (r: seq<Prop<V>>)
    ensures IndexOfKey(props, key) >= 0 ==> |r| == |props|
    ensures IndexOfKey(props, key) < 0 ==> |r| == |props| + 1 && r[|props|] == Prop(key, value)
    ensures IndexOfKey(props, key) >= 0 ==> r[IndexOfKey(props, key)] == Prop(key, value)
    ensures forall j :: 0 <= j < |props| ==> r[j].key == props[j].key
    ensures forall j :: 0 <= j < |props| && props[j].key != key ==> r[j] == props[j]
  {
    var i := IndexOfKey(props, key);
    if i < 0 then props + [Prop(key, value)] else props[i := Prop(key, value)]
  }

  /** The first position holding `key` is its index. */
  lemma IndexOfKeyIs<V>(props: seq<Prop<V>>, key: string, i: int)
    requires -1 <= i < |props|
    requires 0 <= i ==> props[i].key == key
    requires forall j :: 0 <= j < |props| && (i < 0 || j < i) ==> props[j].key != key
    ensures IndexOfKey(props, key) == i
  {
  }

  /** After `obj[key] = value` the key sits at its old place, or last when
      it is new, and holds `value`. */
  lemma AssignAt<V>(props: seq<Prop<V>>, key: string, value: V)
    ensures var i := IndexOfKey(props, key);
            var k := if i >= 0 then i else |props|;
            var r := Assign(props, key, value);
            k < |r| && r[k] == Prop(key, value) && IndexOfKey(r, key) == k
  {
    var i := IndexOfKey(props, key);
    var k := if i >= 0 then i else |props|;
    var r := Assign(props, key, value);
    IndexOfKeyIs(r, key, k);
  }

  /** Assigning keeps the keys distinct. */
  lemma AssignKeepsDistinct<V>(props: seq<Prop<V>>, key: string, value: V)
    requires DistinctKeys(props)
    ensures DistinctKeys(Assign(props, key, value))
  {
  }
}
