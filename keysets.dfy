/**
 * The KeySet class of the presentation layer (KeySet.ts): a mutable set of
 * instance keys, bucketed by class name, and of serialized node keys, with
 * a guid that is renewed whenever an operation changes the size.
 *
 * Every method is proved against the value-level operations of KeySetSpec:
 * its new `Model()` is the spec function of its old one.
 */
module KeySets {

  import opened Wrappers
  import opened NodeKeys
  import opened KeySetSpec

  /**
   * Stand-in for `Guid.createValue`: a counter, so every value handed out
   * is different from every earlier one.
   */
  class GuidSource {
    var next: nat

    constructor ()
      ensures next == 0
    {
      next := 0;
    }

    method CreateValue() returns (g: nat)
      modifies this
      ensures g == old(next) && next == old(next) + 1
    {
      g := next;
      next := next + 1;
    }
  }

  /** What `add`, `delete`, `hasAll` and `hasAny` accept: a key, an array of keys, or another KeySet. */
  datatype KeysArg = SingleKey(key: KeyValue) | KeyArray(keys: seq<KeyValue>) | OtherSet(other: KeySet)

  /** A KeySet argument must itself hold only well-formed node-key strings. */
  ghost predicate ArgValid(a: KeysArg)
    reads if a.OtherSet? then {a.other} else {}
  {
    a.OtherSet? ==> a.other.Valid()
  }

  /** A bucket of ids as the `instanceKeys` getter hands it out. */
  function NormalizedIds(ids: set<string>): set<string> {
    set id | id in ids :: NormalizeId(id)
  }

  /** `[...set]`: the elements of a set in some order, each once. */
  method SetToSeq<T>(s: set<T>) returns (xs: seq<T>)
    ensures Elements(xs) == s && Distinct(xs)
  {
    xs := [];
    var rest := s;
    while rest != {}
      invariant rest <= s
      invariant Elements(xs) == s - rest && Distinct(xs)
      decreases rest
    {
      var x :| x in rest;
      assert Elements(xs + [x]) == Elements(xs) + {x};
      xs := xs + [x];
      rest := rest - {x};
    }
  }

  /**
   * How the guid and the guid source moved while the size went from `sz0`
   * to `sz`: not at all when the size is back where it was, and otherwise
   * the guid is the last value handed out.
   */
  ghost predicate GuidFollows(sz0: nat, sz: nat, g0: nat, g: nat, n0: nat, n: nat) {
    (sz == sz0 ==> g == g0 && n == n0) && (sz != sz0 ==> n0 <= g && g + 1 == n)
  }

  class KeySet {
    var instanceKeys: map<string, set<string>>  // class name -> instance ids
    var nodeKeys: set<string>                   // serialized node keys
    var guid: nat

    /** The contents as a value. */
    function Model(): Store
      reads this
    {
      Store(instanceKeys, nodeKeys)
    }

    ghost predicate Valid()
      reads this
    {
      StoreValid(Model())
    }

    /**
     * The guid was handed out by `gen`: every value `gen` hands out later
     * differs from it.
     */
    ghost predicate TokenFrom(gen: GuidSource)
      reads this, gen
    {
      guid < gen.next
    }

    /** `new KeySet()` (KeySet.ts:68-71): empty, with a fresh guid. */
    constructor (gen: GuidSource)
      modifies gen
      ensures Valid() && Model() == EmptyStore && TokenFrom(gen)
      ensures guid == old(gen.next) && gen.next == old(gen.next) + 1
    {
      instanceKeys := map[];
      nodeKeys := {};
      var g := gen.CreateValue();
      guid := g;
    }

    /**
     * `new KeySet(source)` (KeySet.ts:68-74): an empty set, then `add(source)`
     * when a source is given.
     */
    static method Create(source: Option<KeysArg>, gen: GuidSource) returns (ks: KeySet, r: Outcome<()>)
      requires source.Some? ==> ArgValid(source.value) && !source.value.SingleKey?
      modifies gen
      ensures fresh(ks) && ks.Valid() && ks.TokenFrom(gen)
      ensures source.None? ==> r == Ok(()) && ks.Model() == EmptyStore
      ensures source.Some? && source.value.KeyArray? ==>
        var a := AddKeys(EmptyStore, source.value.keys, None);
        ks.Model() == a.store && (r == Ok(()) <==> a.ok)
      ensures source.Some? && source.value.OtherSet? ==>
        r == Ok(()) && ks.Model() == AddSet(EmptyStore, old(source.value.other.Model()), None)
    {
      ks := new KeySet(gen);
      r := Ok(());
      if source.Some? {
        r := ks.Add(source.value, None, gen);
      }
    }

    /** `instanceKeysCount` (KeySet.ts:99-103): the ids of all buckets. */
    method InstanceKeysCount() returns (count: nat)
      ensures count == BucketSum(instanceKeys)
      ensures count == |InstanceMembers(instanceKeys)|
    {
      count := 0;
      var rest := instanceKeys;
      while rest.Keys != {}
        invariant count + BucketSum(rest) == BucketSum(instanceKeys)
        decreases rest.Keys
      {
        var c :| c in rest;
        BucketSumRemove(rest, c);
        count := count + |rest[c]|;
        rest := rest - {c};
      }
      InstanceMembersCount(instanceKeys);
    }

    /**
     * The `instanceKeys` getter (KeySet.ts:89-94): a copy of the buckets with
     * every id passed through `Id64.fromJSON`.
     */
    method InstanceKeysView() returns (m: map<string, set<string>>)
      ensures m.Keys == instanceKeys.Keys
      ensures forall c :: c in m ==> m[c] == NormalizedIds(instanceKeys[c])
    {
      m := map[];
      var classes := instanceKeys.Keys;
      while classes != {}
        invariant classes <= instanceKeys.Keys
        invariant m.Keys == instanceKeys.Keys - classes
        invariant forall c :: c in m ==> m[c] == NormalizedIds(instanceKeys[c])
        decreases classes
      {
        var c :| c in classes;
        var ids := NormalizeAll(instanceKeys[c]);
        m := m[c := ids];
        classes := classes - {c};
      }
    }

    /** The id mapping inside the `instanceKeys` getter (KeySet.ts:93). */
    static method NormalizeAll(ids: set<string>) returns (r: set<string>)
      ensures r == NormalizedIds(ids)
    {
      r := {};
      var rest := ids;
      while rest != {}
        invariant rest <= ids
        invariant r == NormalizedIds(ids - rest)
        decreases rest
      {
        var id :| id in rest;
        r := r + {NormalizeId(id)};
        assert NormalizedIds(ids - (rest - {id})) == NormalizedIds(ids - rest) + {NormalizeId(id)};
        rest := rest - {id};
      }
      assert ids - rest == ids;
    }

    /**
     * The `nodeKeys` getter (KeySet.ts:111-118): every stored string parsed
     * back, so a key is in the view iff its serialized form is stored.
     */
    method NodeKeysView() returns (ks: set<KeyProps>)
      requires Valid()
      ensures forall p :: p in ks <==> Ser(p) in nodeKeys
    {
      ks := {};
      var rest := nodeKeys;
      while rest != {}
        invariant rest <= nodeKeys
        invariant forall p :: p in ks <==> Ser(p) in nodeKeys - rest
        decreases rest
      {
        var k :| k in rest;
        var q := Deser(k).value;
        DeserCanonical(k);
        forall p | Ser(p) == k ensures p == q {
          SerRoundTrip(p);
        }
        ks := ks + {q};
        rest := rest - {k};
      }
    }

    /** `nodeKeysCount` (KeySet.ts:123-125). */
    function NodeKeysCount(): (n: nat)
      reads this
      ensures n == |NodeMembers(nodeKeys)|
    {
      NodeMembersCount(nodeKeys);
      |nodeKeys|
    }

    /** The `size` getter (KeySet.ts:345-351): the number of keys held. */
    method Size() returns (n: nat)
      ensures n == SizeOf(Model())
      ensures n == |Members(Model())|
    {
      var ids := InstanceKeysCount();
      n := |nodeKeys| + ids;
      SizeIsMemberCount(Model());
    }

    /** `isEmpty` (KeySet.ts:356-358): no key is held, though empty buckets may be. */
    method IsEmpty() returns (b: bool)
      ensures b <==> SizeOf(Model()) == 0
      ensures b <==> Members(Model()) == {}
    {
      var n := Size();
      b := n == 0;
    }

    /**
     * `clear` (KeySet.ts:139-147). A set of size 0 is returned untouched, so
     * its empty buckets and its guid survive.
     */
    method Clear(gen: GuidSource)
      requires Valid() && TokenFrom(gen)
      modifies this, gen
      ensures Valid() && TokenFrom(gen)
      ensures old(SizeOf(Model())) != 0 ==> guid != old(guid)
      ensures old(SizeOf(Model())) == 0 ==>
        Model() == old(Model()) && guid == old(guid) && gen.next == old(gen.next)
      ensures old(SizeOf(Model())) != 0 ==>
        Model() == EmptyStore && guid == old(gen.next) && gen.next == old(gen.next) + 1
    {
      var empty := IsEmpty();
      if empty {
        return;
      }
      instanceKeys := map[];
      nodeKeys := {};
      guid := gen.CreateValue();
    }

    /**
     * `add(value, pred)` (KeySet.ts:180-202). The predicate only filters the
     * elements of an array or of another set; a single key ignores it. The
     * guid is renewed when the size has changed.
     */
    method Add(value: KeysArg, pred: Option<KeyValue -> bool>, gen: GuidSource) returns (r: Outcome<()>)
      requires Valid() && ArgValid(value) && TokenFrom(gen)
      modifies this, gen
      ensures Valid() && TokenFrom(gen)
      ensures SizeOf(Model()) != old(SizeOf(Model())) ==> guid != old(guid)
      ensures value.SingleKey? ==> match AddKey(old(Model()), value.key)
        case Ok(t) => r == Ok(()) && Model() == t
        case InvalidArgument => r == InvalidArgument && Model() == old(Model())
      ensures value.KeyArray? ==>
        var a := AddKeys(old(Model()), value.keys, pred);
        Model() == a.store && (r == Ok(()) <==> a.ok)
      ensures value.OtherSet? ==>
        r == Ok(()) && Model() == AddSet(old(Model()), old(value.other.Model()), pred)
      ensures SizeOf(Model()) >= old(SizeOf(Model()))
      ensures SizeOf(Model()) == old(SizeOf(Model())) ==> guid == old(guid) && gen.next == old(gen.next)
      ensures SizeOf(Model()) != old(SizeOf(Model())) ==> old(gen.next) <= guid && guid + 1 == gen.next
    {
      match value
      case SingleKey(v) =>
        r := AddSingle(v, gen);
      case KeyArray(keys) =>
        r := AddArray(keys, pred, gen);
      case OtherSet(other) =>
        AddOther(other.Model(), pred, gen);
        r := Ok(());
    }

    /**
     * The closing step of `add` and `delete` (KeySet.ts:199-200, 242-243):
     * a fresh guid exactly when the size differs from the one before.
     */
    method RenewIfChanged(sizeBefore: nat, gen: GuidSource)
      requires Valid()
      modifies this, gen
      ensures Valid() && Model() == old(Model())
      ensures sizeBefore == SizeOf(Model()) ==> guid == old(guid) && gen.next == old(gen.next)
      ensures sizeBefore != SizeOf(Model()) ==> guid == old(gen.next) && gen.next == old(gen.next) + 1
    {
      var sizeAfter := Size();
      if sizeAfter != sizeBefore {
        guid := gen.CreateValue();
      }
    }

    /**
     * `add` of another set, whose contents are read before anything changes
     * (so a set may be added to itself).
     */
    method AddOther(o: Store, pred: Option<KeyValue -> bool>, gen: GuidSource)
      requires Valid() && StoreValid(o)
      modifies this, gen
      ensures Valid() && Model() == AddSet(old(Model()), o, pred)
      ensures SizeOf(Model()) >= old(SizeOf(Model()))
      ensures SizeOf(Model()) == old(SizeOf(Model())) ==> guid == old(guid) && gen.next == old(gen.next)
      ensures SizeOf(Model()) != old(SizeOf(Model())) ==> guid == old(gen.next) && gen.next == old(gen.next) + 1
    {
      ghost var s0 := Model();
      var sizeBefore := Size();
      AddKeySet(o, pred);
      AddSetGrows(s0, o, pred);
      RenewIfChanged(sizeBefore, gen);
    }

    /**
     * `add` of a single key. Entity props are re-added as the instance key
     * `{ className: classFullName, id: Id64.fromJSON(id) }`, so a growing add
     * of entity props renews the guid twice: once inside, once outside.
     */
    method AddSingle(v: KeyValue, gen: GuidSource) returns (r: Outcome<()>)
      requires Valid()
      modifies this, gen
      ensures Valid()
      ensures Classify(v) == Unrecognised ==> r == InvalidArgument && Model() == old(Model())
      ensures Classify(v) != Unrecognised ==> r == Ok(()) && Model() == Insert(old(Model()), AddedMember(v))
      ensures SizeOf(Model()) >= old(SizeOf(Model()))
      ensures SizeOf(Model()) == old(SizeOf(Model())) ==> guid == old(guid) && gen.next == old(gen.next)
      ensures SizeOf(Model()) != old(SizeOf(Model())) ==>
        guid + 1 == gen.next
        && gen.next == old(gen.next) + (if Classify(v) == EntityPropsShape then 2 else 1)
      decreases if Classify(v) == EntityPropsShape then 1 else 0
    {
      if v.Falsy? {
        return InvalidArgument;
      }
      var shape := Classify(v);
      if shape == Unrecognised {
        return InvalidArgument;
      }
      ghost var s0 := Model();
      var sizeBefore := Size();
      if shape == EntityPropsShape {
        var inner := InstanceValue(v.props.classFullName, NormalizeId(v.props.id));
        assert Classify(inner) == InstanceKeyShape;
        var _ := AddSingle(inner, gen);
      } else {
        StoreKey(v);
      }
      InsertSize(s0, AddedMember(v));
      r := Ok(());
      RenewIfChanged(sizeBefore, gen);
    }

    /** The instance-key and node-key branches of `add` (KeySet.ts:190-196). */
    method StoreKey(v: KeyValue)
      requires Valid() && (Classify(v) == InstanceKeyShape || Classify(v) == NodeKeyShape)
      modifies this
      ensures Valid() && guid == old(guid)
      ensures Model() == Insert(old(Model()), AddedMember(v))
    {
      if Classify(v) == InstanceKeyShape {
        var c := v.props.className;
        if c !in instanceKeys {
          instanceKeys := instanceKeys[c := {}];
        }
        instanceKeys := instanceKeys[c := instanceKeys[c] + {v.props.id}];
      } else {
        AddParsable(Model(), v.props);
        nodeKeys := nodeKeys + {Ser(v.props)};
      }
    }

    /** `add` of an array: `add(key)` for each element the predicate lets through. */
    method AddArray(keys: seq<KeyValue>, pred: Option<KeyValue -> bool>, gen: GuidSource) returns (r: Outcome<()>)
      requires Valid()
      modifies this, gen
      ensures Valid()
      ensures var a := AddKeys(old(Model()), keys, pred);
        Model() == a.store && (r == Ok(()) <==> a.ok)
      ensures SizeOf(Model()) >= old(SizeOf(Model()))
      ensures SizeOf(Model()) == old(SizeOf(Model())) ==> guid == old(guid) && gen.next == old(gen.next)
      ensures SizeOf(Model()) != old(SizeOf(Model())) ==> old(gen.next) <= guid && guid + 1 == gen.next
    {
      var sizeBefore := Size();
      var ok := AddEachKey(keys, pred, gen);
      if !ok {
        return InvalidArgument;
      }
      r := Ok(());
      RenewIfChanged(sizeBefore, gen);
    }

    /**
     * The loop of an array `add`, up to and including the first
     * unrecognised key, which ends it with `ok` false.
     */
    method AddEachKey(keys: seq<KeyValue>, pred: Option<KeyValue -> bool>, gen: GuidSource) returns (ok: bool)
      requires Valid()
      modifies this, gen
      ensures Valid() && AddKeys(old(Model()), keys, pred) == Applied(Model(), ok)
      ensures SizeOf(Model()) >= old(SizeOf(Model()))
      ensures GuidFollows(old(SizeOf(Model())), SizeOf(Model()), old(guid), guid, old(gen.next), gen.next)
    {
      ghost var s0, g0, n0 := Model(), guid, gen.next;
      var i := 0;
      ok := true;
      while ok && i < |keys|
        invariant i <= |keys| && Valid() && AddKeys(s0, keys[..i], pred) == Applied(Model(), ok)
        invariant SizeOf(Model()) >= SizeOf(s0)
        invariant GuidFollows(SizeOf(s0), SizeOf(Model()), g0, guid, n0, gen.next)
      {
        ok := AddElement(s0, keys, pred, i, gen);
        i := i + 1;
      }
      if ok {
        assert keys[..i] == keys;
      } else {
        AddKeysStuck(s0, keys, pred, i);
      }
    }

    /** One element of an array `add`: `add(key)` if the predicate lets it through. */
    method AddElement(ghost s0: Store, keys: seq<KeyValue>, pred: Option<KeyValue -> bool>, i: nat, gen: GuidSource)
      returns (ok: bool)
      requires Valid() && i < |keys|
      requires AddKeys(s0, keys[..i], pred) == Applied(Model(), true)
      modifies this, gen
      ensures Valid() && AddKeys(s0, keys[..i + 1], pred) == Applied(Model(), ok)
      ensures SizeOf(Model()) >= old(SizeOf(Model()))
      ensures GuidFollows(old(SizeOf(Model())), SizeOf(Model()), old(guid), guid, old(gen.next), gen.next)
    {
      AddKeysStep(s0, keys, pred, i);
      ok := true;
      if Allows(pred, keys[i]) {
        var ri := AddSingle(keys[i], gen);
        ok := ri.Ok?;
      }
    }

    /**
     * `addKeySet` (KeySet.ts:149-165), given the other set's contents as they
     * were when the call began: first its node keys, then its buckets, each
     * of which gets a bucket here.
     */
    method AddKeySet(o: Store, pred: Option<KeyValue -> bool>)
      requires Valid() && StoreValid(o)
      modifies this
      ensures Valid() && guid == old(guid)
      ensures Model() == AddSet(old(Model()), o, pred)
    {
      AddNodeKeys(o.nodes, pred);
      MergeClasses(o, pred);
    }

    /** The node-key loop of `addKeySet` (KeySet.ts:150-153). */
    method AddNodeKeys(nodes: set<string>, pred: Option<KeyValue -> bool>)
      requires Valid() && forall k :: k in nodes ==> Deser(k).Some?
      modifies this
      ensures Valid() && guid == old(guid) && instanceKeys == old(instanceKeys)
      ensures nodeKeys == old(nodeKeys) + AcceptedNodes(nodes, pred)
    {
      var rest := nodes;
      while rest != {}
        invariant rest <= nodes
        invariant instanceKeys == old(instanceKeys) && guid == old(guid)
        invariant nodeKeys == old(nodeKeys) + AcceptedNodes(nodes - rest, pred)
        invariant Valid()
        decreases rest
      {
        var k :| k in rest;
        if Allows(pred, NodeValue(k)) {
          nodeKeys := nodeKeys + {k};
        }
        AcceptedNodesAdd(nodes - rest, k, pred);
        DoneOneMore(nodes, rest, k);
        rest := rest - {k};
      }
      assert nodes - rest == nodes;
    }

    /** The bucket loop of `addKeySet` (KeySet.ts:154-164). */
    method MergeClasses(o: Store, pred: Option<KeyValue -> bool>)
      modifies this
      ensures guid == old(guid) && nodeKeys == old(nodeKeys)
      ensures instanceKeys == MergeBuckets(old(instanceKeys), o, pred, o.buckets.Keys)
    {
      ghost var m0 := instanceKeys;
      var classes := o.buckets.Keys;
      assert o.buckets.Keys - classes == {};
      MergeNone(m0, o, pred);
      while classes != {}
        invariant classes <= o.buckets.Keys
        invariant nodeKeys == old(nodeKeys) && guid == old(guid)
        invariant instanceKeys == MergeBuckets(m0, o, pred, o.buckets.Keys - classes)
        decreases classes
      {
        var c :| c in classes;
        var bucket := if c in instanceKeys then instanceKeys[c] else {};
        assert bucket == (if c in m0 then m0[c] else {});
        var added := AddAccepted(bucket, c, o.buckets[c], pred);
        MergeStep(m0, o, pred, o.buckets.Keys - classes, c);
        instanceKeys := instanceKeys[c := added];
        DoneOneMore(o.buckets.Keys, classes, c);
        classes := classes - {c};
      }
    }

    /** The id loop of `addKeySet` (KeySet.ts:160-163). */
    static method AddAccepted(bucket: set<string>, c: string, ids: set<string>, pred: Option<KeyValue -> bool>)
      returns (added: set<string>)
      ensures added == bucket + AcceptedIds(ids, c, pred)
    {
      added := bucket;
      var rest := ids;
      while rest != {}
        invariant rest <= ids
        invariant added == bucket + AcceptedIds(ids - rest, c, pred)
        decreases rest
      {
        var id :| id in rest;
        if Allows(pred, InstanceValue(c, id)) {
          added := added + {id};
        }
        assert AcceptedIds(ids - (rest - {id}), c, pred) ==
          AcceptedIds(ids - rest, c, pred) + (if Allows(pred, InstanceValue(c, id)) then {id} else {});
        rest := rest - {id};
      }
      assert ids - rest == ids;
    }

    /**
     * `delete(value)` (KeySet.ts:222-245). The guid is renewed when the size
     * has changed.
     */
    method Delete(value: KeysArg, gen: GuidSource) returns (r: Outcome<()>)
      requires Valid() && TokenFrom(gen)
      modifies this, gen
      ensures Valid() && TokenFrom(gen)
      ensures SizeOf(Model()) != old(SizeOf(Model())) ==> guid != old(guid)
      ensures value.SingleKey? ==> match DeleteKey(old(Model()), value.key)
        case Ok(t) => r == Ok(()) && Model() == t
        case InvalidArgument => r == InvalidArgument && Model() == old(Model())
      ensures value.KeyArray? ==>
        var a := DeleteKeys(old(Model()), value.keys);
        Model() == a.store && (r == Ok(()) <==> a.ok)
      ensures value.OtherSet? ==>
        r == Ok(()) && Model() == DeleteSet(old(Model()), old(value.other.Model()))
      ensures SizeOf(Model()) <= old(SizeOf(Model()))
      ensures SizeOf(Model()) == old(SizeOf(Model())) ==> guid == old(guid) && gen.next == old(gen.next)
      ensures SizeOf(Model()) != old(SizeOf(Model())) ==> old(gen.next) <= guid && guid + 1 == gen.next
    {
      match value
      case SingleKey(v) =>
        r := DeleteSingle(v, gen);
      case KeyArray(keys) =>
        r := DeleteArray(keys, gen);
      case OtherSet(other) =>
        DeleteOther(other.Model(), gen);
        r := Ok(());
    }

    /**
     * `delete` of another set, whose contents are read before anything
     * changes (so a set may be deleted from itself).
     */
    method DeleteOther(o: Store, gen: GuidSource)
      requires Valid()
      modifies this, gen
      ensures Valid() && Model() == DeleteSet(old(Model()), o)
      ensures SizeOf(Model()) <= old(SizeOf(Model()))
      ensures SizeOf(Model()) == old(SizeOf(Model())) ==> guid == old(guid) && gen.next == old(gen.next)
      ensures SizeOf(Model()) != old(SizeOf(Model())) ==> guid == old(gen.next) && gen.next == old(gen.next) + 1
    {
      ghost var s0 := Model();
      var sizeBefore := Size();
      DeleteKeySet(o);
      DeleteSetShrinks(s0, o);
      RenewIfChanged(sizeBefore, gen);
    }

    /**
     * `delete` of a single key. Entity props are deleted as the instance key
     * `{ className: classFullName, id }`, with the id as given.
     */
    method DeleteSingle(v: KeyValue, gen: GuidSource) returns (r: Outcome<()>)
      requires Valid()
      modifies this, gen
      ensures Valid()
      ensures Classify(v) == Unrecognised ==> r == InvalidArgument && Model() == old(Model())
      ensures Classify(v) != Unrecognised ==> r == Ok(()) && Model() == Remove(old(Model()), QueriedMember(v))
      ensures SizeOf(Model()) <= old(SizeOf(Model()))
      ensures SizeOf(Model()) == old(SizeOf(Model())) ==> guid == old(guid) && gen.next == old(gen.next)
      ensures SizeOf(Model()) != old(SizeOf(Model())) ==>
        guid + 1 == gen.next
        && gen.next == old(gen.next) + (if Classify(v) == EntityPropsShape then 2 else 1)
      decreases if Classify(v) == EntityPropsShape then 1 else 0
    {
      if v.Falsy? {
        return InvalidArgument;
      }
      var shape := Classify(v);
      if shape == Unrecognised {
        return InvalidArgument;
      }
      ghost var s0 := Model();
      var sizeBefore := Size();
      if shape == EntityPropsShape {
        var inner := InstanceValue(v.props.classFullName, v.props.id);
        assert Classify(inner) == InstanceKeyShape;
        var _ := DeleteSingle(inner, gen);
      } else {
        DropKey(v);
      }
      RemoveSize(s0, QueriedMember(v));
      r := Ok(());
      RenewIfChanged(sizeBefore, gen);
    }

    /** The instance-key and node-key branches of `delete` (KeySet.ts:232-238). */
    method DropKey(v: KeyValue)
      requires Valid() && (Classify(v) == InstanceKeyShape || Classify(v) == NodeKeyShape)
      modifies this
      ensures Valid() && guid == old(guid)
      ensures Model() == Remove(old(Model()), QueriedMember(v))
    {
      if Classify(v) == InstanceKeyShape {
        var c := v.props.className;
        if c in instanceKeys {
          instanceKeys := instanceKeys[c := instanceKeys[c] - {v.props.id}];
        }
      } else {
        nodeKeys := nodeKeys - {Ser(v.props)};
      }
    }

    /** `delete` of an array: `delete(key)` for each element in turn. */
    method DeleteArray(keys: seq<KeyValue>, gen: GuidSource) returns (r: Outcome<()>)
      requires Valid()
      modifies this, gen
      ensures Valid()
      ensures var a := DeleteKeys(old(Model()), keys);
        Model() == a.store && (r == Ok(()) <==> a.ok)
      ensures SizeOf(Model()) <= old(SizeOf(Model()))
      ensures SizeOf(Model()) == old(SizeOf(Model())) ==> guid == old(guid) && gen.next == old(gen.next)
      ensures SizeOf(Model()) != old(SizeOf(Model())) ==> old(gen.next) <= guid && guid + 1 == gen.next
    {
      var sizeBefore := Size();
      var ok := DeleteEachKey(keys, gen);
      if !ok {
        return InvalidArgument;
      }
      r := Ok(());
      RenewIfChanged(sizeBefore, gen);
    }

    /**
     * The loop of an array `delete`, up to and including the first
     * unrecognised key, which ends it with `ok` false.
     */
    method DeleteEachKey(keys: seq<KeyValue>, gen: GuidSource) returns (ok: bool)
      requires Valid()
      modifies this, gen
      ensures Valid() && DeleteKeys(old(Model()), keys) == Applied(Model(), ok)
      ensures SizeOf(Model()) <= old(SizeOf(Model()))
      ensures GuidFollows(old(SizeOf(Model())), SizeOf(Model()), old(guid), guid, old(gen.next), gen.next)
    {
      ghost var s0, g0, n0 := Model(), guid, gen.next;
      var i := 0;
      ok := true;
      while ok && i < |keys|
        invariant i <= |keys| && Valid() && DeleteKeys(s0, keys[..i]) == Applied(Model(), ok)
        invariant SizeOf(Model()) <= SizeOf(s0)
        invariant GuidFollows(SizeOf(s0), SizeOf(Model()), g0, guid, n0, gen.next)
      {
        ok := DeleteElement(s0, keys, i, gen);
        i := i + 1;
      }
      if ok {
        assert keys[..i] == keys;
      } else {
        DeleteKeysStuck(s0, keys, i);
      }
    }

    /** One element of an array `delete`: `delete(key)`. */
    method DeleteElement(ghost s0: Store, keys: seq<KeyValue>, i: nat, gen: GuidSource) returns (ok: bool)
      requires Valid() && i < |keys|
      requires DeleteKeys(s0, keys[..i]) == Applied(Model(), true)
      modifies this, gen
      ensures Valid() && DeleteKeys(s0, keys[..i + 1]) == Applied(Model(), ok)
      ensures SizeOf(Model()) <= old(SizeOf(Model()))
      ensures GuidFollows(old(SizeOf(Model())), SizeOf(Model()), old(guid), guid, old(gen.next), gen.next)
    {
      DeleteKeysStep(s0, keys, i);
      var ri := DeleteSingle(keys[i], gen);
      ok := ri.Ok?;
    }

    /**
     * `deleteKeySet` (KeySet.ts:204-215), given the other set's contents as
     * they were when the call began. Buckets are emptied, never removed.
     */
    method DeleteKeySet(o: Store)
      requires Valid()
      modifies this
      ensures Valid() && guid == old(guid)
      ensures Model() == DeleteSet(old(Model()), o)
    {
      var rest := o.nodes;
      while rest != {}
        invariant rest <= o.nodes
        invariant instanceKeys == old(instanceKeys) && guid == old(guid)
        invariant nodeKeys == old(nodeKeys) - (o.nodes - rest)
        decreases rest
      {
        var k :| k in rest;
        nodeKeys := nodeKeys - {k};
        rest := rest - {k};
      }
      assert o.nodes - rest == o.nodes;
      SubtractClasses(o);
    }

    /** The bucket loop of `deleteKeySet` (KeySet.ts:207-214). */
    method SubtractClasses(o: Store)
      modifies this
      ensures guid == old(guid) && nodeKeys == old(nodeKeys)
      ensures instanceKeys == SubtractBuckets(old(instanceKeys), o, o.buckets.Keys)
    {
      ghost var m0 := instanceKeys;
      var classes := o.buckets.Keys;
      assert o.buckets.Keys - classes == {};
      SubtractNone(m0, o);
      while classes != {}
        invariant classes <= o.buckets.Keys
        invariant nodeKeys == old(nodeKeys) && guid == old(guid)
        invariant instanceKeys == SubtractBuckets(m0, o, o.buckets.Keys - classes)
        decreases classes
      {
        var c :| c in classes;
        if c in instanceKeys {
          assert c in m0;
          var left := Without(instanceKeys[c], o.buckets[c]);
          SubtractStep(m0, o, o.buckets.Keys - classes, c);
          instanceKeys := instanceKeys[c := left];
        } else {
          SubtractSkip(m0, o, o.buckets.Keys - classes, c);
        }
        DoneOneMore(o.buckets.Keys, classes, c);
        classes := classes - {c};
      }
    }

    /** The id loop of `deleteKeySet` (KeySet.ts:211-213). */
    static method Without(bucket: set<string>, ids: set<string>) returns (left: set<string>)
      ensures left == bucket - ids
    {
      left := bucket;
      var rest := ids;
      while rest != {}
        invariant rest <= ids
        invariant left == bucket - (ids - rest)
        decreases rest
      {
        var id :| id in rest;
        left := left - {id};
        rest := rest - {id};
      }
    }

    /**
     * `has` (KeySet.ts:251-263): entity props are looked up as the instance
     * key `{ className: classFullName, id }`, an instance key in its class
     * bucket, a node key by its serialized form; anything else is rejected.
     */
    method Has(value: KeyValue) returns (r: Outcome<bool>)
      ensures r == HasKey(Model(), value)
      ensures r.Ok? ==> (r.value <==> QueriedMember(value) in Members(Model()))
      decreases if Classify(value) == EntityPropsShape then 1 else 0
    {
      var shape := Classify(value);
      if shape == Unrecognised {
        return InvalidArgument;
      }
      if shape == EntityPropsShape {
        r := Has(InstanceValue(value.props.classFullName, value.props.id));
        return;
      }
      if shape == InstanceKeyShape {
        var c := value.props.className;
        r := Ok(c in instanceKeys && value.props.id in instanceKeys[c]);
        return;
      }
      r := Ok(Ser(value.props) in nodeKeys);
    }

    /**
     * `hasAll` (KeySet.ts:318-325): a single key is rejected; an array is
     * answered by its size check and then the "all" walk; another set by
     * `ContainsAll`.
     */
    method HasAll(keys: KeysArg) returns (r: Outcome<bool>)
      ensures keys.SingleKey? ==> r == InvalidArgument
      ensures keys.KeyArray? ==>
        r == if SizeOf(Model()) < |keys.keys| then Ok(false) else AllHave(Model(), keys.keys)
      ensures keys.OtherSet? ==> r == Ok(ContainsAll(Model(), keys.other.Model()))
    {
      match keys
      case SingleKey(_) =>
        r := InvalidArgument;
      case KeyArray(ks) =>
        r := HasKeysArrayAll(ks);
      case OtherSet(other) =>
        var b := HasKeySetAll(other.Model());
        r := Ok(b);
    }

    /**
     * `hasAny` (KeySet.ts:331-340): a single key is rejected; an array is
     * answered by the "any" walk; another set by `SharesAny`.
     */
    method HasAny(keys: KeysArg) returns (r: Outcome<bool>)
      ensures keys.SingleKey? ==> r == InvalidArgument
      ensures keys.KeyArray? ==> r == AnyHas(Model(), keys.keys)
      ensures keys.OtherSet? ==> r == Ok(SharesAny(Model(), keys.other.Model()))
    {
      match keys
      case SingleKey(_) =>
        r := InvalidArgument;
      case KeyArray(ks) =>
        r := HasKeysArrayAny(ks);
      case OtherSet(other) =>
        var b := HasKeySetAny(other.Model());
        r := Ok(b);
    }

    /** `hasKeysArray(keys, "all")` (KeySet.ts:295-303). */
    method HasKeysArrayAll(ks: seq<KeyValue>) returns (r: Outcome<bool>)
      ensures r == if SizeOf(Model()) < |ks| then Ok(false) else AllHave(Model(), ks)
    {
      var size := Size();
      if size < |ks| {
        return Ok(false);
      }
      var i := 0;
      while i < |ks|
        invariant 0 <= i <= |ks|
        invariant AllHave(Model(), ks) == AllHave(Model(), ks[i..])
      {
        assert ks[i..][1..] == ks[i + 1..];
        var h := Has(ks[i]);
        if h.InvalidArgument? {
          return InvalidArgument;
        }
        if !h.value {
          return Ok(false);
        }
        i := i + 1;
      }
      r := Ok(true);
    }

    /** `hasKeysArray(keys, "any")` (KeySet.ts:305-311). */
    method HasKeysArrayAny(ks: seq<KeyValue>) returns (r: Outcome<bool>)
      ensures r == AnyHas(Model(), ks)
    {
      var i := 0;
      while i < |ks|
        invariant 0 <= i <= |ks|
        invariant AnyHas(Model(), ks) == AnyHas(Model(), ks[i..])
      {
        assert ks[i..][1..] == ks[i + 1..];
        var h := Has(ks[i]);
        if h.InvalidArgument? {
          return InvalidArgument;
        }
        if h.value {
          return Ok(true);
        }
        i := i + 1;
      }
      r := Ok(false);
    }

    /**
     * `hasKeySet(keys, "all")` (KeySet.ts:269-281): the size checks first,
     * then every node key, then every bucket with every id.
     */
    method HasKeySetAll(o: Store) returns (b: bool)
      ensures b == ContainsAll(Model(), o)
    {
      assert |o.buckets.Keys| == |o.buckets| && |instanceKeys.Keys| == |instanceKeys|;
      if |nodeKeys| < |o.nodes| || |instanceKeys| < |o.buckets| {
        if ContainsAll(Model(), o) {
          SubsetSize(o.nodes, nodeKeys);
          SubsetSize(o.buckets.Keys, instanceKeys.Keys);
        }
        return false;
      }
      var rest := o.nodes;
      while rest != {}
        invariant rest <= o.nodes
        invariant o.nodes - rest <= nodeKeys
        decreases rest
      {
        var k :| k in rest;
        if k !in nodeKeys {
          return false;
        }
        rest := rest - {k};
      }
      assert o.nodes - rest == o.nodes;
      var classes := o.buckets.Keys;
      while classes != {}
        invariant classes <= o.buckets.Keys
        invariant o.nodes <= nodeKeys
        invariant forall c :: c in o.buckets && c !in classes ==>
          c in instanceKeys && o.buckets[c] <= instanceKeys[c]
        decreases classes
      {
        var c :| c in classes;
        if c !in instanceKeys || |instanceKeys[c]| < |o.buckets[c]| {
          if c in instanceKeys && o.buckets[c] <= instanceKeys[c] {
            SubsetSize(o.buckets[c], instanceKeys[c]);
          }
          return false;
        }
        var ids := o.buckets[c];
        while ids != {}
          invariant ids <= o.buckets[c]
          invariant o.buckets[c] - ids <= instanceKeys[c]
          decreases ids
        {
          var id :| id in ids;
          if id !in instanceKeys[c] {
            return false;
          }
          ids := ids - {id};
        }
        assert o.buckets[c] - ids == o.buckets[c];
        classes := classes - {c};
      }
      b := true;
    }

    /** `hasKeySet(keys, "any")` (KeySet.ts:283-292). */
    method HasKeySetAny(o: Store) returns (b: bool)
      ensures b == SharesAny(Model(), o)
    {
      var rest := o.nodes;
      while rest != {}
        invariant rest <= o.nodes
        invariant forall k :: k in o.nodes && k !in rest ==> k !in nodeKeys
        decreases rest
      {
        var k :| k in rest;
        if k in nodeKeys {
          return true;
        }
        rest := rest - {k};
      }
      var classes := o.buckets.Keys;
      while classes != {}
        invariant classes <= o.buckets.Keys
        invariant forall k :: k in o.nodes ==> k !in nodeKeys
        invariant forall c, id :: c in o.buckets && c !in classes && c in instanceKeys && id in o.buckets[c] ==>
          id !in instanceKeys[c]
        decreases classes
      {
        var c :| c in classes;
        if c in instanceKeys {
          var ids := o.buckets[c];
          while ids != {}
            invariant ids <= o.buckets[c]
            invariant forall id :: id in o.buckets[c] && id !in ids ==> id !in instanceKeys[c]
            decreases ids
          {
            var id :| id in ids;
            if id in instanceKeys[c] {
              return true;
            }
            ids := ids - {id};
          }
        }
        classes := classes - {c};
      }
      b := false;
    }

    /**
     * `toJSON` (KeySet.ts:364-377): one entry per non-empty bucket, then every
     * node key parsed back.
     */
    method ToJSON() returns (json: KeySetJSON)
      requires Valid()
      ensures Serializes(Model(), json)
    {
      var es := InstanceEntries();
      var ns := NodeEntries();
      json := KeySetJSON(es, ns);
    }

    /** The bucket loop of `toJSON` (KeySet.ts:365-369): empty buckets are skipped. */
    method InstanceEntries() returns (es: seq<(string, seq<string>)>)
      ensures forall i :: 0 <= i < |es| ==>
        es[i].0 in instanceKeys && instanceKeys[es[i].0] != {}
        && Elements(es[i].1) == instanceKeys[es[i].0] && Distinct(es[i].1)
      ensures forall i, k :: 0 <= i < k < |es| ==> es[i].0 != es[k].0
      ensures Classes(es) == NonEmptyBuckets(Model()).Keys
    {
      es := [];
      var classes := instanceKeys.Keys;
      while classes != {}
        invariant classes <= instanceKeys.Keys
        invariant forall i :: 0 <= i < |es| ==>
          es[i].0 in instanceKeys && es[i].0 !in classes && instanceKeys[es[i].0] != {}
          && Elements(es[i].1) == instanceKeys[es[i].0] && Distinct(es[i].1)
        invariant forall i, k :: 0 <= i < k < |es| ==> es[i].0 != es[k].0
        invariant Classes(es) == NonEmptyBuckets(Model()).Keys - classes
        decreases classes
      {
        var c :| c in classes;
        if instanceKeys[c] != {} {
          var ids := SetToSeq(instanceKeys[c]);
          ClassesAppend(es, (c, ids));
          es := es + [(c, ids)];
        }
        DoneOneMore(NonEmptyBuckets(Model()).Keys, classes, c);
        classes := classes - {c};
      }
    }

    /** The node-key loop of `toJSON` (KeySet.ts:370-372): every stored string parsed back. */
    method NodeEntries() returns (ns: seq<KeyProps>)
      requires Valid()
      ensures NodeStrings(ns) == nodeKeys && Distinct(ns)
    {
      ns := [];
      var rest := nodeKeys;
      while rest != {}
        invariant rest <= nodeKeys
        invariant NodeStrings(ns) == nodeKeys - rest
        invariant Distinct(ns)
        decreases rest
      {
        var k :| k in rest;
        var p := Deser(k).value;
        ParsedIsNew(ns, k);
        ns := ns + [p];
        rest := rest - {k};
      }
    }

    /**
     * `addKeySetJSON` (KeySet.ts:167-172): node keys are serialized in; each
     * instance entry replaces its class's bucket.
     */
    method AddKeySetJSON(json: KeySetJSON)
      requires Valid()
      modifies this
      ensures Valid() && guid == old(guid)
      ensures Model() == Store(Overwrite(old(instanceKeys), json.instanceKeys), old(nodeKeys) + NodeStrings(json.nodeKeys))
    {
      AddJSONNodes(json.nodeKeys);
      AddJSONInstances(json.instanceKeys);
    }

    /** The node-key loop of `addKeySetJSON` (KeySet.ts:168-169). */
    method AddJSONNodes(ps: seq<KeyProps>)
      requires Valid()
      modifies this
      ensures Valid() && guid == old(guid) && instanceKeys == old(instanceKeys)
      ensures nodeKeys == old(nodeKeys) + NodeStrings(ps)
    {
      var i := 0;
      while i < |ps|
        invariant 0 <= i <= |ps|
        invariant instanceKeys == old(instanceKeys) && guid == old(guid)
        invariant nodeKeys == old(nodeKeys) + NodeStrings(ps[..i])
        invariant Valid()
      {
        AddParsable(Model(), ps[i]);
        nodeKeys := nodeKeys + {Ser(ps[i])};
        NodeStringsSnoc(ps[..i], ps[i]);
        TakeOneMore(ps, i);
        i := i + 1;
      }
      assert ps[..i] == ps;
    }

    /** The instance-key loop of `addKeySetJSON` (KeySet.ts:170-171): each entry replaces its class's bucket. */
    method AddJSONInstances(es: seq<(string, seq<string>)>)
      modifies this
      ensures guid == old(guid) && nodeKeys == old(nodeKeys)
      ensures instanceKeys == Overwrite(old(instanceKeys), es)
    {
      var j := 0;
      while j < |es|
        invariant 0 <= j <= |es|
        invariant instanceKeys == Overwrite(old(instanceKeys), es[..j])
        invariant nodeKeys == old(nodeKeys) && guid == old(guid)
      {
        assert es[..j + 1][..j] == es[..j];
        var entry := es[j];
        instanceKeys := instanceKeys[entry.0 := Elements(entry.1)];
        j := j + 1;
      }
      assert es[..j] == es;
    }

    /** `fromJSON` (KeySet.ts:383-387): a new set loaded from the JSON form. */
    static method FromJSON(json: KeySetJSON, gen: GuidSource) returns (ks: KeySet)
      modifies gen
      ensures fresh(ks) && ks.Valid() && ks.TokenFrom(gen)
      ensures ks.Model() == LoadJSON(json)
      ensures ks.guid == old(gen.next) && gen.next == old(gen.next) + 1
    {
      ks := new KeySet(gen);
      ks.AddKeySetJSON(json);
      assert NodeStrings(json.nodeKeys) == {} + NodeStrings(json.nodeKeys);
    }
  }
}
