/** Configuration trees as values, and what an in-place update makes of one. */
module ConfigTrees {
  /** Anything that is not a plain object; arrays are told apart by identity, and passed on as they are. */
  datatype Scalar = Null | Bool(bool) | Num(real) | Str(string) | Array(identity: nat)

  datatype Tree = Leaf(value: Scalar) | Node(kids: map<string, Tree>)

  /** Names every object inherits; the `in` operator finds them in any source. */
  predicate IsInherited(key: string)
  {
    key in {"constructor", "hasOwnProperty", "isPrototypeOf", "propertyIsEnumerable", "toLocaleString", "toString",
            "valueOf", "__defineGetter__", "__defineSetter__", "__lookupGetter__", "__lookupSetter__"}
  }

  type Object = t: Tree | t.Node? witness Node(map[])

  const EMPTY: Object := Node(map[])

  /** Is the key deleted from the target before the source is copied in? */
  predicate IsStale(key: string, source: Object)
  {
    key !in source.kids && !IsInherited(key)
  }

  /** The object a source object is copied into: the one at the key, or a new one. */
  function Base(target: Object, key: string): Object
  {
    if key in target.kids && target.kids[key].Node? then target.kids[key] else EMPTY
  }

  /** What `deepMutate` makes of an object. */
  function Mutated(target: Object, source: Object): Object
    decreases source
  {
    Node(map key | key in target.kids.Keys + source.kids.Keys && !IsStale(key, source) ::
      if key !in source.kids then target.kids[key]
      else if source.kids[key].Leaf? then source.kids[key]
      else Mutated(Base(target, key), source.kids[key]))
  }

  /** No object the source describes holds, under an inherited name, something the source does not. */
  ghost predicate NoLeftovers(target: Object, source: Object)
    decreases source
  {
    && (forall key :: key in target.kids && IsInherited(key) ==> key in source.kids)
    && forall key :: key in source.kids && source.kids[key].Node? ==> NoLeftovers(Base(target, key), source.kids[key])
  }

  /** The update makes the target equal to the source exactly when there are no leftovers. */
  lemma {:induction false} MutatedIff(target: Object, source: Object)
    ensures Mutated(target, source) == source <==> NoLeftovers(target, source)
    decreases source
  {
    var m := Mutated(target, source).kids;
    forall key | key in source.kids && source.kids[key].Node?
      ensures m[key] == source.kids[key] <==> NoLeftovers(Base(target, key), source.kids[key])
    {
      MutatedIff(Base(target, key), source.kids[key]);
    }
    if NoLeftovers(target, source) {
      assert forall key :: key in m <==> key in source.kids;
      assert m == source.kids;
    }
    if m == source.kids {
      forall key | key in target.kids && IsInherited(key) ensures key in source.kids {
        assert key in m;
      }
    }
  }

  /** A leftover: a reload with nothing in it does not take away a key named as an inherited one. */
  lemma LeftoverStays(value: Scalar)
    ensures var target := Node(map["toString" := Leaf(value)]);
            Mutated(target, EMPTY) == target && Mutated(target, EMPTY) != EMPTY
  {
    var target := Node(map["toString" := Leaf(value)]);
    assert Mutated(target, EMPTY).kids.Keys == {"toString"};
  }

  /** In an object none of whose keys is an inherited name, at any depth, nothing can be left over. */
  ghost predicate PlainNames(t: Tree)
  {
    t.Node? ==> forall key :: key in t.kids ==> !IsInherited(key) && PlainNames(t.kids[key])
  }

  lemma {:induction false} PlainNamesAreExact(target: Object, source: Object)
    requires PlainNames(target)
    ensures Mutated(target, source) == source
  {
    MutatedIff(target, source);
    NothingLeft(target, source);
  }

  lemma {:induction false} NothingLeft(target: Object, source: Object)
    requires PlainNames(target)
    ensures NoLeftovers(target, source)
    decreases source
  {
    forall key | key in source.kids && source.kids[key].Node? ensures NoLeftovers(Base(target, key), source.kids[key]) {
      NothingLeft(Base(target, key), source.kids[key]);
    }
  }

  /** What a live object holds after some reloads. */
  function Reloaded(target: Object, sources: seq<Object>): Object
  {
    if sources == [] then target else Mutated(Reloaded(target, sources[..|sources| - 1]), sources[|sources| - 1])
  }

  /** While no earlier source used an inherited name, the live object equals the newest source. */
  lemma {:induction false} LastReloadWins(sources: seq<Object>)
    requires sources != [] && forall i :: 0 <= i < |sources| - 1 ==> PlainNames(sources[i])
    ensures Reloaded(EMPTY, sources) == sources[|sources| - 1]
    decreases |sources|
  {
    var n := |sources| - 1;
    if n > 0 {
      assert sources[..n][n - 1] == sources[n - 1];
      LastReloadWins(sources[..n]);
    }
    PlainNamesAreExact(Reloaded(EMPTY, sources[..n]), sources[n]);
  }

  /** The update is idempotent, leftovers and all. */
  lemma {:induction false} MutatedTwice(target: Object, source: Object)
    ensures Mutated(Mutated(target, source), source) == Mutated(target, source)
    decreases source
  {
    var once := Mutated(target, source);
    var twice := Mutated(once, source);
    forall key | key in source.kids && source.kids[key].Node? ensures twice.kids[key] == once.kids[key] {
      MutatedTwice(Base(target, key), source.kids[key]);
      assert Base(once, key) == once.kids[key];
    }
    assert twice.kids == once.kids;
  }
}

/** The update itself, on objects in the heap. */
module LiveConfig {
  import opened ConfigTrees

  datatype Slot = Plain(value: Scalar) | Ref(obj: JsObject)

  class JsObject {
    var fields: map<string, Slot>

    constructor ()
      ensures fields == map[]
    {
      fields := map[];
    }
  }

  /** Which objects make up a tree in the heap, and how they hang together. */
  datatype Shape = Shape(self: JsObject, kids: map<string, Kid>)

  datatype Kid = Value(value: Scalar) | Sub(shape: Shape)

  ghost function Foot(s: Shape): (foot: set<JsObject>)
    ensures s.self in foot && forall k :: k in s.kids ==> KidFoot(s.kids[k]) <= foot
  {
    {s.self} + set k, o | k in s.kids && o in KidFoot(s.kids[k]) :: o
  }

  ghost function KidFoot(kid: Kid): set<JsObject>
  {
    if kid.Sub? then Foot(kid.shape) else {}
  }

  function SlotOf(kid: Kid): Slot
  {
    if kid.Sub? then Ref(kid.shape.self) else Plain(kid.value)
  }

  /** The heap has this shape. */
  ghost predicate Matches(s: Shape)
    reads Foot(s)
    decreases s
  {
    && s.self.fields == (map k | k in s.kids :: SlotOf(s.kids[k]))
    && forall k :: k in s.kids && s.kids[k].Sub? ==> Matches(s.kids[k].shape)
  }

  /** A tree: no object is reached twice. */
  ghost predicate IsTree(s: Shape)
  {
    && (forall k :: k in s.kids ==> s.self !in KidFoot(s.kids[k]) && (s.kids[k].Sub? ==> IsTree(s.kids[k].shape)))
    && forall k, l :: k in s.kids && l in s.kids && k != l ==> KidFoot(s.kids[k]) !! KidFoot(s.kids[l])
  }

  /** The value a tree in the heap stands for. */
  function TreeOf(s: Shape): Object
  {
    Node(map k | k in s.kids :: KidTree(s.kids[k]))
  }

  function KidTree(kid: Kid): Tree
  {
    if kid.Sub? then TreeOf(kid.shape) else Leaf(kid.value)
  }

  /** Wherever there was an object and the source has one, it is still the same object. */
  ghost predicate KeepsIdentity(before: Shape, after: Shape, source: Shape)
  {
    && after.self == before.self
    && forall k :: k in source.kids && source.kids[k].Sub? && k in before.kids && before.kids[k].Sub? ==>
         k in after.kids && after.kids[k].Sub?
         && KeepsIdentity(before.kids[k].shape, after.kids[k].shape, source.kids[k].shape)
  }

  function WithKid(s: Shape, key: string, kid: Kid): Shape
  {
    Shape(s.self, s.kids[key := kid])
  }

  function KidTreeAt(s: Shape, key: string): Object
  {
    if key in s.kids && s.kids[key].Sub? then TreeOf(s.kids[key].shape) else EMPTY
  }

  /** The kid is the object at the key, or a new one, updated from a source object. */
  ghost predicate IsUpdated(before: Shape, kid: Kid, source: Shape, key: string)
  {
    && kid.Sub? && TreeOf(kid.shape) == Mutated(KidTreeAt(before, key), TreeOf(source))
    && (key in before.kids && before.kids[key].Sub? ==> KeepsIdentity(before.kids[key].shape, kid.shape, source))
  }

  /** The kid is what copying the source's property makes of the target's. */
  ghost predicate Copied(before: Shape, kid: Kid, source: Shape, key: string)
    requires key in source.kids
  {
    match source.kids[key]
    case Value(_) => kid == source.kids[key]
    case Sub(sub) => IsUpdated(before, kid, sub, key)
  }

  lemma WithKidFoot(s: Shape, key: string, kid: Kid)
    ensures Foot(WithKid(s, key, kid)) <= Foot(s) + KidFoot(kid)
    ensures KidFoot(kid) <= Foot(WithKid(s, key, kid))
  {
    assert WithKid(s, key, kid).kids[key] == kid;
  }

  lemma KidInFoot(s: Shape, key: string)
    requires key in s.kids
    ensures KidFoot(s.kids[key]) <= Foot(s)
  {
  }

  /** Replacing a kid keeps a tree a tree, if the new kid is one and shares nothing with the rest. */
  lemma WithKidIsTree(s: Shape, key: string, kid: Kid)
    requires IsTree(s) && (kid.Sub? ==> IsTree(kid.shape)) && s.self !in KidFoot(kid)
    requires forall k :: k in s.kids && k != key ==> KidFoot(s.kids[k]) !! KidFoot(kid)
    ensures IsTree(WithKid(s, key, kid))
  {
  }

  function SlotsOf(s: Shape): map<string, Slot>
  {
    map k | k in s.kids :: SlotOf(s.kids[k])
  }

  /** The objects at the other keys are as the shape says. */
  ghost predicate OthersMatch(s: Shape, key: string)
    reads Foot(s)
  {
    forall k :: k in s.kids && k != key && s.kids[k].Sub? ==> Matches(s.kids[k].shape)
  }

  lemma WithKidMatches(s: Shape, key: string, kid: Kid)
    requires s.self.fields == SlotsOf(s)[key := SlotOf(kid)] && OthersMatch(s, key)
    requires kid.Sub? ==> Matches(kid.shape)
    ensures Matches(WithKid(s, key, kid))
  {
    var after := WithKid(s, key, kid);
    assert SlotsOf(after) == SlotsOf(s)[key := SlotOf(kid)];
  }

  method SetPlain(target: JsObject, key: string, value: Scalar, ghost t: Shape) returns (ghost after: Shape)
    requires target == t.self && Matches(t) && IsTree(t)
    modifies target
    ensures after == WithKid(t, key, Value(value)) && Matches(after) && IsTree(after)
  {
    target.fields := target.fields[key := Plain(value)];
    after := WithKid(t, key, Value(value));
    WithKidMatches(t, key, Value(value));
    WithKidIsTree(t, key, Value(value));
  }

  /** A key that holds no object gets a new one. */
  method EnsureObject(target: JsObject, key: string, ghost t: Shape, ghost foot: set<JsObject>)
    returns (ghost after: Shape, ghost grown: set<JsObject>)
    requires target == t.self && Matches(t) && IsTree(t) && foot == Foot(t)
    modifies target
    ensures Matches(after) && IsTree(after) && after.self == target
    ensures key in after.kids && after.kids[key].Sub? && target.fields[key] == Ref(after.kids[key].shape.self)
    ensures IsEnsured(t, key, after) && grown == Foot(after) && fresh(grown - foot)
  {
    after, grown := t, foot;
    if key !in target.fields || target.fields[key].Plain? {
      var empty := new JsObject();
      ghost var kid := Sub(Shape(empty, map[]));
      target.fields := target.fields[key := Ref(empty)];
      after := WithKid(t, key, kid);
      WithKidMatches(t, key, kid);
      WithKidIsTree(t, key, kid);
      EnsuredFoot(t, key, after);
      grown := Foot(after);
    }
  }

  /** A tree in its shape, from this object down. */
  ghost predicate StandsFrom(after: Shape, self: JsObject)
    reads Foot(after)
  {
    Matches(after) && IsTree(after) && after.self == self
  }

  /** Copies one property of the source. */
  method CopyKey(target: JsObject, source: JsObject, key: string, ghost t: Shape, ghost foot: set<JsObject>,
                 ghost s: Shape, ghost src: set<JsObject>)
    returns (ghost after: Shape, ghost grown: set<JsObject>)
    requires target == t.self && Matches(t) && IsTree(t) && foot == Foot(t)
    requires source == s.self && Matches(s) && foot !! src && src == Foot(s) && key in s.kids
    modifies foot
    ensures StandsFrom(after, target) && grown == Foot(after) && fresh(grown - foot)
    ensures key in after.kids && after == WithKid(t, key, after.kids[key]) && Copied(t, after.kids[key], s, key)
    decreases s, 2
  {
    match source.fields[key] {
      case Plain(v) =>
        after := SetPlain(target, key, v, t);
        WithKidFoot(t, key, Value(v));
        grown := Foot(after);
      case Ref(o) =>
        KidInFoot(s, key);
        after, grown := CopyObject(target, o, key, t, foot, s.kids[key].shape, Foot(s.kids[key].shape));
    }
  }

  method CopyObject(target: JsObject, o: JsObject, key: string, ghost t: Shape, ghost foot: set<JsObject>,
                    ghost s: Shape, ghost src: set<JsObject>)
    returns (ghost after: Shape, ghost grown: set<JsObject>)
    requires target == t.self && Matches(t) && IsTree(t) && foot == Foot(t)
    requires o == s.self && Matches(s) && foot !! src && src == Foot(s)
    modifies foot
    ensures StandsFrom(after, target) && grown == Foot(after) && fresh(grown - foot)
    ensures key in after.kids && after == WithKid(t, key, after.kids[key]) && IsUpdated(t, after.kids[key], s, key)
    decreases s, 6
  {
    ghost var mid, midFoot := EnsureObject(target, key, t, foot);
    var into := target.fields[key];
    after, grown := Descend(target, into.obj, o, key, mid, midFoot, s, src);
    EnsuredCopy(t, key, mid, after.kids[key], s);
  }

  /** The shape once there is an object at the key: as before, or with a new, empty one. */
  ghost predicate IsEnsured(t: Shape, key: string, mid: Shape)
  {
    && key in mid.kids && mid.kids[key].Sub?
    && if key in t.kids && t.kids[key].Sub? then mid == t
       else mid == WithKid(t, key, Sub(Shape(mid.kids[key].shape.self, map[])))
  }

  lemma EnsuredFoot(t: Shape, key: string, mid: Shape)
    requires IsEnsured(t, key, mid)
    ensures Foot(mid) <= Foot(t) + {mid.kids[key].shape.self}
  {
    if mid != t {
      var empty := Shape(mid.kids[key].shape.self, map[]);
      assert Foot(empty) == {empty.self};
      WithKidFoot(t, key, Sub(empty));
    }
  }

  lemma EnsuredCopy(t: Shape, key: string, mid: Shape, kid: Kid, s: Shape)
    requires IsEnsured(t, key, mid) && IsUpdated(mid, kid, s, key)
    ensures IsUpdated(t, kid, s, key) && WithKid(mid, key, kid) == WithKid(t, key, kid)
  {
    if mid != t {
      assert TreeOf(mid.kids[key].shape).kids == map[];
      assert mid.kids[key := kid] == t.kids[key := kid];
    }
  }

  /** The recursive step: the object at the key is updated from the source's. */
  method Descend(target: JsObject, into: JsObject, o: JsObject, key: string, ghost t: Shape, ghost foot: set<JsObject>,
                 ghost s: Shape, ghost src: set<JsObject>)
    returns (ghost after: Shape, ghost grown: set<JsObject>)
    requires target == t.self && Matches(t) && IsTree(t) && foot == Foot(t)
    requires key in t.kids && t.kids[key].Sub? && t.kids[key].shape.self == into
    requires o == s.self && Matches(s) && foot !! src && src == Foot(s)
    modifies foot
    ensures StandsFrom(after, target) && grown == Foot(after) && fresh(grown - foot)
    ensures key in after.kids && after == WithKid(t, key, after.kids[key]) && IsUpdated(t, after.kids[key], s, key)
    decreases s, 5
  {
    ghost var sub := t.kids[key].shape;
    KidInFoot(t, key);
    ghost var subFoot := Foot(sub);
    ghost var fields := target.fields;
    ghost var done, doneFoot := DeepMutate(into, o, sub, subFoot, s, src);
    assert target.fields == fields;
    assert SlotsOf(t)[key := Ref(into)] == fields;
    assert OthersMatch(t, key);
    WithKidMatches(t, key, Sub(done));
    WithKidFoot(t, key, Sub(done));
    assert doneFoot * foot <= subFoot;
    GrownIsTree(t, key, done);
    after := WithKid(t, key, Sub(done));
    grown := Foot(after);
    assert grown <= foot + doneFoot;
  }

  /** Objects that were under the key before, or were not in the tree, are under no other key. */
  lemma GrownIsTree(t: Shape, key: string, done: Shape)
    requires IsTree(t) && key in t.kids && IsTree(done) && Foot(done) * Foot(t) <= KidFoot(t.kids[key])
    ensures IsTree(WithKid(t, key, Sub(done)))
  {
    forall k | k in t.kids && k != key ensures KidFoot(t.kids[k]) !! Foot(done) {
      KidInFoot(t, k);
    }
    WithKidIsTree(t, key, Sub(done));
  }

  /** The shape without the stale keys. */
  ghost function Trimmed(t: Shape, s: Shape): Shape
  {
    Shape(t.self, map k | k in t.kids && (k in s.kids || IsInherited(k)) :: t.kids[k])
  }

  lemma TrimmedIsTree(t: Shape, s: Shape)
    requires IsTree(t)
    ensures IsTree(Trimmed(t, s)) && Foot(Trimmed(t, s)) <= Foot(t)
  {
    forall o | o in Foot(Trimmed(t, s)) ensures o in Foot(t) {
      if o != t.self {
        var k :| k in Trimmed(t, s).kids && o in KidFoot(Trimmed(t, s).kids[k]);
        KidInFoot(t, k);
      }
    }
  }

  function Kept(fields: map<string, Slot>, source: map<string, Slot>): map<string, Slot>
  {
    map k | k in fields && (k in source || IsInherited(k)) :: fields[k]
  }

  /** The first loop: keys the source does not have are deleted, unless they are inherited names. */
  method DeleteStale(target: JsObject, source: JsObject)
    requires target != source
    modifies target
    ensures target.fields == Kept(old(target.fields), source.fields)
  {
    var todo := target.fields.Keys;
    ghost var before := target.fields;
    while todo != {}
      invariant todo <= before.Keys
      invariant target.fields == map k | k in before && (k in todo || k in source.fields || IsInherited(k)) :: before[k]
      decreases todo
    {
      var key :| key in todo;
      todo := todo - {key};
      if key !in source.fields && !IsInherited(key) {
        target.fields := target.fields - {key};
      }
    }
  }

  lemma TrimmedMatches(t: Shape, s: Shape)
    requires t.self.fields == Kept(SlotsOf(t), SlotsOf(s))
    requires forall k :: k in t.kids && t.kids[k].Sub? ==> Matches(t.kids[k].shape)
    ensures Matches(Trimmed(t, s))
  {
    assert SlotsOf(Trimmed(t, s)) == Kept(SlotsOf(t), SlotsOf(s));
  }

  /** All the source's keys but those still to do have been copied. */
  ghost predicate CopiedTo(base: Shape, cur: Shape, s: Shape, todo: set<string>)
  {
    && (forall k :: k in s.kids && k !in todo ==> k in cur.kids && Copied(base, cur.kids[k], s, k))
    && (forall k :: k !in s.kids || k in todo ==> (k in cur.kids <==> k in base.kids))
    && (forall k :: (k !in s.kids || k in todo) && k in cur.kids ==> cur.kids[k] == base.kids[k])
  }

  lemma CopiedOne(base: Shape, cur: Shape, s: Shape, todo: set<string>, key: string, kid: Kid)
    requires CopiedTo(base, cur, s, todo) && key in todo && key in s.kids && Copied(cur, kid, s, key)
    ensures CopiedTo(base, WithKid(cur, key, kid), s, todo - {key})
  {
    assert KidTreeAt(cur, key) == KidTreeAt(base, key);
    assert Copied(base, kid, s, key);
  }

  /** The second loop: every key of the source is copied, objects into objects. */
  method CopyAll(target: JsObject, source: JsObject, ghost t: Shape, ghost foot: set<JsObject>, ghost s: Shape,
                 ghost src: set<JsObject>)
    returns (ghost after: Shape, ghost grown: set<JsObject>)
    requires target == t.self && Matches(t) && IsTree(t) && foot == Foot(t)
    requires source == s.self && Matches(s) && foot !! src && src == Foot(s)
    modifies foot
    ensures StandsFrom(after, target) && grown == Foot(after) && fresh(grown - foot)
    ensures CopiedTo(t, after, s, {})
    decreases s, 3
  {
    after, grown := t, foot;
    var todo := source.fields.Keys;
    while todo != {}
      invariant todo <= s.kids.Keys && Matches(s) && CopiedTo(t, after, s, todo)
      invariant StandsFrom(after, target) && grown == Foot(after) && fresh(grown - foot)
      decreases todo
    {
      var key :| key in todo;
      ghost var before := after;
      after, grown := CopyKey(target, source, key, before, grown, s, src);
      CopiedOne(t, before, s, todo, key, after.kids[key]);
      todo := todo - {key};
    }
  }

  lemma CopiedTree(t: Shape, after: Shape, s: Shape, k: string)
    requires CopiedTo(Trimmed(t, s), after, s, {})
    ensures k in after.kids <==> k in Mutated(TreeOf(t), TreeOf(s)).kids
    ensures k in after.kids ==> KidTree(after.kids[k]) == Mutated(TreeOf(t), TreeOf(s)).kids[k]
  {
    if k in s.kids {
      assert Copied(Trimmed(t, s), after.kids[k], s, k);
      if s.kids[k].Sub? {
        assert KidTreeAt(Trimmed(t, s), k) == Base(TreeOf(t), k);
      }
    }
  }

  lemma CopiedIdentity(t: Shape, after: Shape, s: Shape)
    requires CopiedTo(Trimmed(t, s), after, s, {}) && after.self == t.self
    ensures KeepsIdentity(t, after, s)
  {
    forall k | k in s.kids && s.kids[k].Sub? && k in t.kids && t.kids[k].Sub?
      ensures k in after.kids && after.kids[k].Sub? &&
                KeepsIdentity(t.kids[k].shape, after.kids[k].shape, s.kids[k].shape)
    {
      assert Copied(Trimmed(t, s), after.kids[k], s, k);
    }
  }

  lemma CopiedAll(t: Shape, after: Shape, s: Shape)
    requires CopiedTo(Trimmed(t, s), after, s, {}) && after.self == t.self
    ensures TreeOf(after) == Mutated(TreeOf(t), TreeOf(s)) && KeepsIdentity(t, after, s)
  {
    var m := Mutated(TreeOf(t), TreeOf(s));
    forall k
      ensures k in after.kids <==> k in m.kids
      ensures k in after.kids ==> KidTree(after.kids[k]) == m.kids[k]
    {
      CopiedTree(t, after, s, k);
    }
    assert TreeOf(after).kids == m.kids;
    CopiedIdentity(t, after, s);
  }

  /**
   * `deepMutate`. The target becomes what the source says, leftovers under inherited names apart; each
   * object both sides have is updated in place, and no object of the source ends up in the target.
   */
  method DeepMutate(target: JsObject, source: JsObject, ghost t: Shape, ghost foot: set<JsObject>, ghost s: Shape,
                    ghost src: set<JsObject>)
    returns (ghost after: Shape, ghost grown: set<JsObject>)
    requires target == t.self && Matches(t) && IsTree(t) && foot == Foot(t)
    requires source == s.self && Matches(s) && foot !! src && src == Foot(s)
    modifies foot
    ensures StandsFrom(after, target) && grown == Foot(after) && fresh(grown - foot)
    ensures TreeOf(after) == Mutated(TreeOf(t), TreeOf(s)) && KeepsIdentity(t, after, s)
    decreases s, 4
  {
    DeleteStale(target, source);
    TrimmedIsTree(t, s);
    TrimmedMatches(t, s);
    after, grown := CopyAll(target, source, Trimmed(t, s), Foot(Trimmed(t, s)), s, src);
    CopiedAll(t, after, s);
  }

  /** The live references. Their map is itself an object here, whose properties are the live objects. */
  class ConfigManager {
    const liveConfigs: JsObject
    /** The trees behind the live references, and all their objects. */
    ghost var tree: Shape
    ghost var objects: set<JsObject>

    constructor ()
      ensures Valid() && tree.kids == map[] && fresh(objects)
    {
      liveConfigs := new JsObject();
      tree, objects := Shape(liveConfigs, map[]), {liveConfigs};
    }

    ghost predicate Valid()
      reads this, Foot(tree)
    {
      StandsFrom(tree, liveConfigs) && objects == Foot(tree) && forall n :: n in tree.kids ==> tree.kids[n].Sub?
    }

    /**
     * `updateLiveReference`. Readers keep the object they hold: it is updated, never replaced; other
     * configurations stay as they are, and none of the new data's objects goes live.
     */
    method UpdateLiveReference(name: string, newData: JsObject, ghost s: Shape, ghost src: set<JsObject>)
      requires Valid() && newData == s.self && Matches(s) && src == Foot(s) && src !! objects
      modifies this, objects
      ensures Valid() && fresh(objects - old(objects)) && name in tree.kids
      ensures tree == WithKid(old(tree), name, tree.kids[name]) && IsUpdated(old(tree), tree.kids[name], s, name)
    {
      ghost var t, foot := tree, objects;
      tree, objects := CopyObject(liveConfigs, newData, name, t, foot, s, src);
    }
  }

  /** A reader's reference survives the update of any configuration, and shows its own, as updated. */
  lemma ReferencesLive(before: Shape, after: Shape, name: string, s: Shape, n: string)
    requires name in after.kids && after == WithKid(before, name, after.kids[name])
    requires IsUpdated(before, after.kids[name], s, name)
    requires n in before.kids && before.kids[n].Sub?
    ensures n in after.kids && after.kids[n].Sub? && after.kids[n].shape.self == before.kids[n].shape.self
    ensures n != name ==> after.kids[n] == before.kids[n]
    ensures n == name && PlainNames(TreeOf(before.kids[n].shape)) ==> TreeOf(after.kids[n].shape) == TreeOf(s)
  {
    if n == name && PlainNames(TreeOf(before.kids[n].shape)) {
      PlainNamesAreExact(TreeOf(before.kids[n].shape), TreeOf(s));
    }
  }
}
