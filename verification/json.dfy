/** JSON trees, and when two of them mean the same. */
module JsonTrees {
  import opened Options

  datatype Json =
    | Null
    | Bool(bool)
    | Num(real)
    | Str(string)
    | Arr(items: seq<Json>)
    | Obj(fields: seq<Field>)

  /** A property, in the order `Object.keys` lists it. */
  datatype Field = Field(key: string, value: Json)

  function Find(fs: seq<Field>, key: string): Option<Json>
  {
    if fs == [] then None
    else if fs[0].key == key then Some(fs[0].value)
    else Find(fs[1..], key)
  }

  predicate HasKey(fs: seq<Field>, key: string)
  {
    Find(fs, key).Some?
  }

  ghost predicate DistinctKeys(fs: seq<Field>)
  {
    forall i, j :: 0 <= i < j < |fs| ==> fs[i].key != fs[j].key
  }

  /** No object in the tree has a key twice. */
  ghost predicate WellFormed(j: Json)
  {
    match j
    case Arr(items) => forall i :: 0 <= i < |items| ==> WellFormed(items[i])
    case Obj(fields) => DistinctKeys(fields) && forall i :: 0 <= i < |fields| ==> WellFormed(fields[i].value)
    case _ => true
  }

  ghost predicate AllWellFormed(fs: seq<Field>)
  {
    DistinctKeys(fs) && forall i :: 0 <= i < |fs| ==> WellFormed(fs[i].value)
  }

  /** What a tree means: an object is a map, whatever the order of its keys. */
  datatype Value =
    | VNull
    | VBool(bool)
    | VNum(real)
    | VStr(string)
    | VArr(seq<Value>)
    | VObj(map<string, Value>)

  function Meaning(j: Json): Value
  {
    match j
    case Null => VNull
    case Bool(b) => VBool(b)
    case Num(n) => VNum(n)
    case Str(s) => VStr(s)
    case Arr(items) => VArr(Meanings(items))
    case Obj(fields) => VObj(FieldMap(fields))
  }

  function Meanings(items: seq<Json>): (vs: seq<Value>)
    ensures |vs| == |items|
  {
    if items == [] then [] else [Meaning(items[0])] + Meanings(items[1..])
  }

  function FieldMap(fs: seq<Field>): map<string, Value>
  {
    if fs == [] then map[] else FieldMap(fs[1..])[fs[0].key := Meaning(fs[0].value)]
  }

  /** `deepEqual`: arrays element by element, objects key by key with as many keys on both sides. */
  predicate DeepEqual(a: Json, b: Json)
    decreases a
  {
    match a
    case Arr(items) => b.Arr? && |items| == |b.items| && AllEqual(items, b.items)
    case Obj(fields) => b.Obj? && |fields| == |b.fields| && FieldsIn(fields, b.fields)
    case _ => a == b
  }

  predicate AllEqual(a: seq<Json>, b: seq<Json>)
    requires |a| == |b|
    decreases a
  {
    a == [] || (DeepEqual(a[0], b[0]) && AllEqual(a[1..], b[1..]))
  }

  predicate FieldsIn(a: seq<Field>, b: seq<Field>)
    decreases a
  {
    a == [] || (HasKey(b, a[0].key) && DeepEqual(a[0].value, Find(b, a[0].key).value) && FieldsIn(a[1..], b))
  }

  ghost function KeysOf(fs: seq<Field>): set<string>
  {
    set i | 0 <= i < |fs| :: fs[i].key
  }

  lemma {:induction false} FindAt(fs: seq<Field>, i: nat)
    requires i < |fs| && DistinctKeys(fs)
    ensures Find(fs, fs[i].key) == Some(fs[i].value)
  {
    if i > 0 {
      assert fs[0].key != fs[i].key;
      FindAt(fs[1..], i - 1);
    }
  }

  lemma {:induction false} FindWhere(fs: seq<Field>, key: string) returns (i: nat)
    requires HasKey(fs, key)
    ensures i < |fs| && fs[i].key == key && fs[i].value == Find(fs, key).value
  {
    if fs[0].key == key {
      i := 0;
    } else {
      i := FindWhere(fs[1..], key);
      i := i + 1;
    }
  }

  lemma HasKeyIff(fs: seq<Field>, key: string)
    ensures HasKey(fs, key) <==> key in KeysOf(fs)
    decreases fs
  {
    if fs != [] {
      HasKeyIff(fs[1..], key);
      KeysCons(fs);
    }
  }

  lemma KeysCons(fs: seq<Field>)
    requires fs != []
    ensures KeysOf(fs) == KeysOf(fs[1..]) + {fs[0].key}
  {
    forall k | k in KeysOf(fs) ensures k in KeysOf(fs[1..]) + {fs[0].key} {
      var i :| 0 <= i < |fs| && fs[i].key == k;
      if i > 0 { assert fs[1..][i - 1].key == k; }
    }
    forall k | k in KeysOf(fs[1..]) ensures k in KeysOf(fs) {
      var i :| 0 <= i < |fs[1..]| && fs[1..][i].key == k;
      assert fs[i + 1].key == k;
    }
  }

  lemma {:induction false} KeyCount(fs: seq<Field>)
    requires DistinctKeys(fs)
    ensures |KeysOf(fs)| == |fs|
  {
    if fs != [] {
      KeyCount(fs[1..]);
      KeysCons(fs);
      assert fs[0].key !in KeysOf(fs[1..]);
    }
  }

  /** The map of an object has its keys, each with the meaning of its value. */
  lemma {:induction false} FieldMapHas(fs: seq<Field>, key: string)
    ensures key in FieldMap(fs) <==> HasKey(fs, key)
    ensures HasKey(fs, key) ==> FieldMap(fs)[key] == Meaning(Find(fs, key).value)
    decreases fs
  {
    if fs != [] {
      FieldMapHas(fs[1..], key);
    }
  }

  /** `deepEqual` decides whether two trees mean the same. */
  lemma {:induction false} DeepEqualIff(a: Json, b: Json)
    requires WellFormed(a) && WellFormed(b)
    ensures DeepEqual(a, b) <==> Meaning(a) == Meaning(b)
    decreases a
  {
    if a.Arr? && b.Arr? && |a.items| == |b.items| {
      AllEqualIff(a.items, b.items);
    } else if a.Obj? && b.Obj? {
      ObjectsEqualIff(a.fields, b.fields);
    }
  }

  lemma {:induction false} AllEqualIff(a: seq<Json>, b: seq<Json>)
    requires |a| == |b| && forall i :: 0 <= i < |a| ==> WellFormed(a[i]) && WellFormed(b[i])
    ensures AllEqual(a, b) <==> Meanings(a) == Meanings(b)
    decreases a
  {
    if a != [] {
      DeepEqualIff(a[0], b[0]);
      AllEqualIff(a[1..], b[1..]);
      var x, y := Meanings(a), Meanings(b);
      assert x == [Meaning(a[0])] + Meanings(a[1..]) && y == [Meaning(b[0])] + Meanings(b[1..]);
      assert x[0] == Meaning(a[0]) && y[0] == Meaning(b[0]) && x[1..] == Meanings(a[1..]) && y[1..] == Meanings(b[1..]);
    }
  }

  /** Every property of `a` is in `b`, with the same meaning. */
  ghost predicate Included(a: seq<Field>, b: seq<Field>)
  {
    forall i :: 0 <= i < |a| ==> HasKey(b, a[i].key) && Meaning(a[i].value) == Meaning(Find(b, a[i].key).value)
  }

  lemma {:induction false} FieldsInIff(a: seq<Field>, b: seq<Field>)
    requires (forall i :: 0 <= i < |a| ==> WellFormed(a[i].value)) && AllWellFormed(b)
    ensures FieldsIn(a, b) <==> Included(a, b)
    decreases a, 0
  {
    if a != [] {
      FieldsInIff(a[1..], b);
      if HasKey(b, a[0].key) {
        var j := FindWhere(b, a[0].key);
        DeepEqualIff(a[0].value, b[j].value);
      }
      assert forall i :: 1 <= i < |a| ==> a[i] == a[1..][i - 1];
      assert forall i :: 0 <= i < |a| - 1 ==> a[1..][i] == a[i + 1];
    }
  }

  lemma {:induction false} ObjectsEqualIff(a: seq<Field>, b: seq<Field>)
    requires AllWellFormed(a) && AllWellFormed(b)
    ensures |a| == |b| && FieldsIn(a, b) <==> FieldMap(a) == FieldMap(b)
    decreases a, 1
  {
    FieldsInIff(a, b);
    if |a| == |b| && Included(a, b) {
      IncludedSame(a, b);
    }
    if FieldMap(a) == FieldMap(b) {
      SameIncluded(a, b);
    }
  }

  lemma MapKeys(fs: seq<Field>)
    ensures FieldMap(fs).Keys == KeysOf(fs)
  {
    forall k ensures k in FieldMap(fs) <==> k in KeysOf(fs) {
      FieldMapHas(fs, k);
      HasKeyIff(fs, k);
    }
  }

  lemma IncludedSame(a: seq<Field>, b: seq<Field>)
    requires DistinctKeys(a) && DistinctKeys(b) && |a| == |b| && Included(a, b)
    ensures FieldMap(a) == FieldMap(b)
  {
    SubsetsEqual(a, b);
    MapKeys(a);
    MapKeys(b);
    forall k | k in FieldMap(a) ensures k in FieldMap(b) && FieldMap(a)[k] == FieldMap(b)[k] {
      FieldMapHas(a, k);
      FieldMapHas(b, k);
      var i := FindWhere(a, k);
    }
  }

  lemma SameIncluded(a: seq<Field>, b: seq<Field>)
    requires DistinctKeys(a) && DistinctKeys(b) && FieldMap(a) == FieldMap(b)
    ensures |a| == |b| && Included(a, b)
  {
    MapKeys(a);
    MapKeys(b);
    KeyCount(a);
    KeyCount(b);
    forall i | 0 <= i < |a| ensures HasKey(b, a[i].key) && Meaning(a[i].value) == Meaning(Find(b, a[i].key).value) {
      FindAt(a, i);
      FieldMapHas(a, a[i].key);
      FieldMapHas(b, a[i].key);
    }
  }

  lemma SubsetsEqual(a: seq<Field>, b: seq<Field>)
    requires DistinctKeys(a) && DistinctKeys(b) && |a| == |b|
    requires forall i :: 0 <= i < |a| ==> HasKey(b, a[i].key)
    ensures KeysOf(a) == KeysOf(b)
  {
    KeyCount(a);
    KeyCount(b);
    forall k | k in KeysOf(a) ensures k in KeysOf(b) {
      HasKeyIff(b, k);
    }
    SameSize(KeysOf(a), KeysOf(b));
  }

  lemma SameSize(a: set<string>, b: set<string>)
    requires a <= b && |a| == |b|
    ensures a == b
  {
    assert |b - a| == |b| - |a|;
  }
}
