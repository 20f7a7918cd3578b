/**
 * The contents of a KeySet as a value, and what each KeySet operation does
 * to it.
 *
 * A `Store` is the pair of collections a KeySet keeps: a map from class name
 * to a bucket of instance id strings, and a set of serialized node keys. A
 * bucket may be empty. `Members` is the set of keys a store holds, as seen
 * by `has`; `SizeOf` is what the `size` getter computes.
 */
module KeySetSpec {

  import opened Wrappers
  import opened NodeKeys

  /** `PresentationError(InvalidArgument)` is the only failure a KeySet raises. */
  datatype Outcome<T> = Ok(value: T) | InvalidArgument

  datatype Store = Store(buckets: map<string, set<string>>, nodes: set<string>)

  datatype Member = InstanceMember(className: string, id: string) | NodeMember(serialized: string)

  const EmptyStore := Store(map[], {})

  function Bucket(s: Store, c: string): set<string> {
    if c in s.buckets then s.buckets[c] else {}
  }

  /** Every stored node-key string is the serialized form of a node key. */
  ghost predicate StoreValid(s: Store) {
    forall k :: k in s.nodes ==> Deser(k).Some?
  }

  /** Storing the serialized form of a node key keeps every stored string parsable. */
  lemma AddParsable(s: Store, k: KeyProps)
    requires StoreValid(s)
    ensures StoreValid(Store(s.buckets, s.nodes + {Ser(k)}))
  {
    SerRoundTrip(k);
  }

  ghost predicate NoEmptyBucket(s: Store) {
    forall c :: c in s.buckets ==> s.buckets[c] != {}
  }

  // ---------------------------------------------------------------------
  // Members and size
  // ---------------------------------------------------------------------

  ghost function Row(c: string, ids: set<string>): set<Member> {
    set id | id in ids :: InstanceMember(c, id)
  }

  ghost function InstanceMembers(m: map<string, set<string>>): set<Member> {
    set c, id | c in m && id in m[c] :: InstanceMember(c, id)
  }

  ghost function NodeMembers(nodes: set<string>): set<Member> {
    set k | k in nodes :: NodeMember(k)
  }

  ghost function Members(s: Store): set<Member> {
    InstanceMembers(s.buckets) + NodeMembers(s.nodes)
  }

  /** The sum of the bucket sizes, in no particular order. */
  ghost function BucketSum(m: map<string, set<string>>): nat
    decreases m.Keys
  {
    if m.Keys == {} then 0
    else
      var c :| c in m;
      |m[c]| + BucketSum(m - {c})
  }

  /** The `size` getter: node keys plus the ids of every bucket. */
  ghost function SizeOf(s: Store): nat {
    |s.nodes| + BucketSum(s.buckets)
  }

  /** The sum does not depend on which bucket is taken first. */
  lemma {:induction false} BucketSumRemove(m: map<string, set<string>>, c: string)
    requires c in m
    ensures BucketSum(m) == |m[c]| + BucketSum(m - {c})
    decreases m.Keys
  {
    var c' :| c' in m && BucketSum(m) == |m[c']| + BucketSum(m - {c'});
    if c' != c {
      BucketSumRemove(m - {c'}, c);
      BucketSumRemove(m - {c}, c');
      assert m - {c'} - {c} == m - {c} - {c'};
    }
  }

  lemma {:induction false} RowCount(c: string, ids: set<string>)
    ensures |Row(c, ids)| == |ids|
    decreases ids
  {
    if ids != {} {
      var x :| x in ids;
      RowCount(c, ids - {x});
      assert Row(c, ids) == Row(c, ids - {x}) + {InstanceMember(c, x)};
    }
  }

  lemma {:induction false} NodeMembersCount(nodes: set<string>)
    ensures |NodeMembers(nodes)| == |nodes|
    decreases nodes
  {
    if nodes != {} {
      var x :| x in nodes;
      NodeMembersCount(nodes - {x});
      assert NodeMembers(nodes) == NodeMembers(nodes - {x}) + {NodeMember(x)};
    }
  }

  lemma {:induction false} InstanceMembersCount(m: map<string, set<string>>)
    ensures |InstanceMembers(m)| == BucketSum(m)
    decreases m.Keys
  {
    if m.Keys != {} {
      var c :| c in m;
      BucketSumRemove(m, c);
      var rest := m - {c};
      InstanceMembersCount(rest);
      RowCount(c, m[c]);
      assert InstanceMembers(m) == InstanceMembers(rest) + Row(c, m[c]);
      assert InstanceMembers(rest) !! Row(c, m[c]);
    } else {
      assert InstanceMembers(m) == {};
    }
  }

  /**
   * `size` counts each key once: it is the number of distinct members, so an
   * empty bucket contributes nothing.
   */
  lemma SizeIsMemberCount(s: Store)
    ensures SizeOf(s) == |Members(s)|
  {
    InstanceMembersCount(s.buckets);
    NodeMembersCount(s.nodes);
    assert InstanceMembers(s.buckets) !! NodeMembers(s.nodes);
  }

  /** Adding or dropping an empty bucket leaves the size alone. */
  lemma EmptyBucketAddsNothing(s: Store, c: string)
    requires c !in s.buckets
    ensures SizeOf(Store(s.buckets[c := {}], s.nodes)) == SizeOf(s)
  {
    var t := Store(s.buckets[c := {}], s.nodes);
    assert Members(t) == Members(s) by {
      assert InstanceMembers(t.buckets) == InstanceMembers(s.buckets);
    }
    SizeIsMemberCount(s);
    SizeIsMemberCount(t);
  }

  // ---------------------------------------------------------------------
  // Single keys: add, delete, has
  // ---------------------------------------------------------------------

  /**
   * The member an `add` of a recognised single key inserts. Entity props
   * become `{ className: classFullName, id: Id64.fromJSON(id) }`.
   */
  function AddedMember(v: KeyValue): Member
    requires Classify(v) != Unrecognised
  {
    match Classify(v)
    case EntityPropsShape => InstanceMember(v.props.classFullName, NormalizeId(v.props.id))
    case InstanceKeyShape => InstanceMember(v.props.className, v.props.id)
    case NodeKeyShape => NodeMember(Ser(v.props))
  }

  /**
   * The member `delete` and `has` look for. Entity props become
   * `{ className: classFullName, id }` with the id as given: no normalisation.
   */
  function QueriedMember(v: KeyValue): Member
    requires Classify(v) != Unrecognised
  {
    match Classify(v)
    case EntityPropsShape => InstanceMember(v.props.classFullName, v.props.id)
    case InstanceKeyShape => InstanceMember(v.props.className, v.props.id)
    case NodeKeyShape => NodeMember(Ser(v.props))
  }

  /** Puts one key in: an instance id goes into its class bucket, created if missing. */
  function Insert(s: Store, m: Member): Store {
    match m
    case InstanceMember(c, id) => Store(s.buckets[c := Bucket(s, c) + {id}], s.nodes)
    case NodeMember(k) => Store(s.buckets, s.nodes + {k})
  }

  /** Takes one key out; a bucket is never removed, even when it becomes empty. */
  function Remove(s: Store, m: Member): Store {
    match m
    case InstanceMember(c, id) =>
      if c in s.buckets then Store(s.buckets[c := s.buckets[c] - {id}], s.nodes) else s
    case NodeMember(k) => Store(s.buckets, s.nodes - {k})
  }

  function Contains(s: Store, m: Member): bool {
    match m
    case InstanceMember(c, id) => c in s.buckets && id in s.buckets[c]
    case NodeMember(k) => k in s.nodes
  }

  /** `add` of a single key (KeySet.ts:180-201). */
  function AddKey(s: Store, v: KeyValue): Outcome<Store> {
    if Classify(v) == Unrecognised then InvalidArgument else Ok(Insert(s, AddedMember(v)))
  }

  /** `delete` of a single key (KeySet.ts:222-245). */
  function DeleteKey(s: Store, v: KeyValue): Outcome<Store> {
    if Classify(v) == Unrecognised then InvalidArgument else Ok(Remove(s, QueriedMember(v)))
  }

  /**
   * `has` (KeySet.ts:251-263): a falsy or unrecognised value is rejected;
   * otherwise the answer is whether the queried key is a member.
   */
  function HasKey(s: Store, v: KeyValue): (r: Outcome<bool>)
    ensures r == InvalidArgument <==> Classify(v) == Unrecognised
    ensures r.Ok? ==> (r.value <==> QueriedMember(v) in Members(s))
  {
    if Classify(v) == Unrecognised then InvalidArgument
    else
      ContainsIsMember(s, QueriedMember(v));
      Ok(Contains(s, QueriedMember(v)))
  }

  lemma ContainsIsMember(s: Store, m: Member)
    ensures Contains(s, m) <==> m in Members(s)
  {
    if m.InstanceMember? && Contains(s, m) {
      assert m in InstanceMembers(s.buckets);
    }
    if m.NodeMember? && Contains(s, m) {
      assert m in NodeMembers(s.nodes);
    }
  }

  /** Inserting a key adds exactly that member; other members and buckets stay. */
  lemma InsertMembers(s: Store, m: Member)
    ensures Members(Insert(s, m)) == Members(s) + {m}
    ensures m.InstanceMember? ==> Insert(s, m).buckets.Keys == s.buckets.Keys + {m.className}
    ensures m.NodeMember? ==> Insert(s, m).buckets == s.buckets
  {
    var t := Insert(s, m);
    if m.InstanceMember? {
      assert InstanceMembers(t.buckets) == InstanceMembers(s.buckets) + {m};
    } else {
      assert NodeMembers(t.nodes) == NodeMembers(s.nodes) + {m};
    }
  }

  /** Removing a key drops exactly that member; the bucket map keeps its keys. */
  lemma RemoveMembers(s: Store, m: Member)
    ensures Members(Remove(s, m)) == Members(s) - {m}
    ensures Remove(s, m).buckets.Keys == s.buckets.Keys
  {
    var t := Remove(s, m);
    if m.InstanceMember? {
      assert InstanceMembers(t.buckets) == InstanceMembers(s.buckets) - {m};
    } else {
      assert NodeMembers(t.nodes) == NodeMembers(s.nodes) - {m};
    }
  }

  /** Inserting a member that is already there returns the very same store. */
  lemma InsertPresent(s: Store, m: Member)
    requires m in Members(s)
    ensures Insert(s, m) == s
  {
    ContainsIsMember(s, m);
    if m.InstanceMember? {
      assert Bucket(s, m.className) + {m.id} == s.buckets[m.className];
      assert s.buckets[m.className := s.buckets[m.className]] == s.buckets;
    }
  }

  /** The size grows by one exactly when the inserted key was new. */
  lemma InsertSize(s: Store, m: Member)
    ensures SizeOf(Insert(s, m)) == SizeOf(s) + (if m in Members(s) then 0 else 1)
  {
    InsertMembers(s, m);
    SizeIsMemberCount(s);
    SizeIsMemberCount(Insert(s, m));
  }

  /** The size drops by one exactly when the removed key was there. */
  lemma RemoveSize(s: Store, m: Member)
    ensures SizeOf(Remove(s, m)) == SizeOf(s) - (if m in Members(s) then 1 else 0)
  {
    RemoveMembers(s, m);
    SizeIsMemberCount(s);
    SizeIsMemberCount(Remove(s, m));
  }

  /**
   * After adding an instance key or a node key, `has` of that same value is
   * true, and every other member is as before.
   */
  lemma AddThenHas(s: Store, v: KeyValue)
    requires Classify(v) == InstanceKeyShape || Classify(v) == NodeKeyShape
    ensures AddKey(s, v).Ok? && HasKey(AddKey(s, v).value, v) == Ok(true)
    ensures Members(AddKey(s, v).value) == Members(s) + {QueriedMember(v)}
  {
    InsertMembers(s, AddedMember(v));
  }

  /** After deleting any recognised key, `has` of that same value is false. */
  lemma DeleteThenHas(s: Store, v: KeyValue)
    requires Classify(v) != Unrecognised
    ensures DeleteKey(s, v).Ok? && HasKey(DeleteKey(s, v).value, v) == Ok(false)
    ensures Members(DeleteKey(s, v).value) == Members(s) - {QueriedMember(v)}
  {
    RemoveMembers(s, QueriedMember(v));
  }

  /**
   * Entity props are normalised on add only: after adding an entity whose id
   * is "0X1" to an empty set, `has` of the same entity is false, because the
   * set holds "0x1" while `has` looks for "0X1".
   */
  lemma EntityPropsNormalisedOnAddOnly()
    ensures var v := Props(KeyProps("BisCore:Element", "", "0X1", "", []));
      AddKey(EmptyStore, v).Ok? && HasKey(AddKey(EmptyStore, v).value, v) == Ok(false)
  {
    var v := Props(KeyProps("BisCore:Element", "", "0X1", "", []));
    assert NormalizeId("0X1") == "0x1";
    var t := AddKey(EmptyStore, v).value;
    InsertMembers(EmptyStore, AddedMember(v));
    assert Members(EmptyStore) == {} by {
      assert InstanceMembers(map[]) == {};
    }
    assert Members(t) == {InstanceMember("BisCore:Element", "0x1")};
  }

  /**
   * Adding a key that is already a member changes nothing, so neither the
   * size nor the guid moves.
   */
  lemma AddPresentKeyChangesNothing(s: Store, v: KeyValue)
    requires Classify(v) != Unrecognised && AddedMember(v) in Members(s)
    ensures AddKey(s, v) == Ok(s)
  {
    InsertPresent(s, AddedMember(v));
  }

  /** Adding the same key twice leaves the store as after the first add. */
  lemma AddKeyIdempotent(s: Store, v: KeyValue)
    requires AddKey(s, v).Ok?
    ensures AddKey(AddKey(s, v).value, v) == AddKey(s, v)
  {
    InsertMembers(s, AddedMember(v));
    InsertPresent(AddKey(s, v).value, AddedMember(v));
  }

  // ---------------------------------------------------------------------
  // Arrays of keys
  // ---------------------------------------------------------------------

  /** The store after a prefix of the array, and whether no element failed. */
  datatype Applied = Applied(store: Store, ok: bool)

  /** An absent predicate lets every key through. */
  predicate Allows(pred: Option<KeyValue -> bool>, v: KeyValue) {
    pred.None? || pred.value(v)
  }

  /**
   * `add(array, pred)`: each element the predicate lets through is added in
   * order; the first unrecognised one stops the walk, leaving the earlier
   * additions in place.
   */
  function AddKeys(s: Store, vs: seq<KeyValue>, pred: Option<KeyValue -> bool>): Applied
    decreases |vs|
  {
    if vs == [] then Applied(s, true)
    else
      var prev := AddKeys(s, vs[..|vs| - 1], pred);
      var v := vs[|vs| - 1];
      if !prev.ok || !Allows(pred, v) then prev
      else match AddKey(prev.store, v)
        case Ok(t) => Applied(t, true)
        case InvalidArgument => Applied(prev.store, false)
  }

  /** `delete(array)`: each element is deleted in order, up to the first unrecognised one. */
  function DeleteKeys(s: Store, vs: seq<KeyValue>): Applied
    decreases |vs|
  {
    if vs == [] then Applied(s, true)
    else
      var prev := DeleteKeys(s, vs[..|vs| - 1]);
      if !prev.ok then prev
      else match DeleteKey(prev.store, vs[|vs| - 1])
        case Ok(t) => Applied(t, true)
        case InvalidArgument => Applied(prev.store, false)
  }

  ghost function AddedMembers(vs: seq<KeyValue>, pred: Option<KeyValue -> bool>): set<Member> {
    set i | 0 <= i < |vs| && Allows(pred, vs[i]) && Classify(vs[i]) != Unrecognised :: AddedMember(vs[i])
  }

  ghost function DeletedMembers(vs: seq<KeyValue>): set<Member> {
    set i | 0 <= i < |vs| && Classify(vs[i]) != Unrecognised :: QueriedMember(vs[i])
  }

  /** An array add succeeds iff every element the predicate lets through is a recognised key. */
  lemma {:induction false} AddKeysOk(s: Store, vs: seq<KeyValue>, pred: Option<KeyValue -> bool>)
    ensures AddKeys(s, vs, pred).ok <==>
      forall i :: 0 <= i < |vs| && Allows(pred, vs[i]) ==> Classify(vs[i]) != Unrecognised
    decreases |vs|
  {
    if vs != [] {
      var init := vs[..|vs| - 1];
      AddKeysOk(s, init, pred);
      assert forall i :: 0 <= i < |init| ==> init[i] == vs[i];
    }
  }

  /** The members an array adds grow by those of its last element. */
  lemma AddedMembersSnoc(vs: seq<KeyValue>, pred: Option<KeyValue -> bool>)
    requires vs != []
    ensures var v := vs[|vs| - 1];
      AddedMembers(vs, pred) == AddedMembers(vs[..|vs| - 1], pred)
        + (if Allows(pred, v) && Classify(v) != Unrecognised then {AddedMember(v)} else {})
  {
    var init := vs[..|vs| - 1];
    assert forall i :: 0 <= i < |init| ==> init[i] == vs[i];
  }

  /** When it succeeds, an array add inserts exactly the members of the elements let through. */
  lemma {:induction false} AddKeysMembers(s: Store, vs: seq<KeyValue>, pred: Option<KeyValue -> bool>)
    requires AddKeys(s, vs, pred).ok
    ensures Members(AddKeys(s, vs, pred).store) == Members(s) + AddedMembers(vs, pred)
    decreases |vs|
  {
    if vs == [] {
      assert AddedMembers(vs, pred) == {};
    } else {
      var init := vs[..|vs| - 1];
      var v := vs[|vs| - 1];
      var prev := AddKeys(s, init, pred);
      assert prev.ok;
      AddKeysMembers(s, init, pred);
      AddedMembersSnoc(vs, pred);
      if Allows(pred, v) {
        InsertMembers(prev.store, AddedMember(v));
      }
    }
  }

  /** An array add, even one that fails part-way, removes no member. */
  lemma {:induction false} AddKeysGrows(s: Store, vs: seq<KeyValue>, pred: Option<KeyValue -> bool>)
    ensures Members(s) <= Members(AddKeys(s, vs, pred).store)
    decreases |vs|
  {
    if vs != [] {
      var init := vs[..|vs| - 1];
      var v := vs[|vs| - 1];
      AddKeysGrows(s, init, pred);
      var prev := AddKeys(s, init, pred);
      if prev.ok && Allows(pred, v) && Classify(v) != Unrecognised {
        InsertMembers(prev.store, AddedMember(v));
      }
    }
  }

  /** An array delete succeeds iff every element is a recognised key. */
  lemma {:induction false} DeleteKeysOk(s: Store, vs: seq<KeyValue>)
    ensures DeleteKeys(s, vs).ok <==> forall i :: 0 <= i < |vs| ==> Classify(vs[i]) != Unrecognised
    decreases |vs|
  {
    if vs != [] {
      var init := vs[..|vs| - 1];
      DeleteKeysOk(s, init);
      assert forall i :: 0 <= i < |init| ==> init[i] == vs[i];
    }
  }

  /** The members an array deletes grow by that of its last element, when it is recognised. */
  lemma DeletedMembersSnoc(vs: seq<KeyValue>)
    requires vs != [] && Classify(vs[|vs| - 1]) != Unrecognised
    ensures DeletedMembers(vs) == DeletedMembers(vs[..|vs| - 1]) + {QueriedMember(vs[|vs| - 1])}
  {
    var init := vs[..|vs| - 1];
    assert forall i :: 0 <= i < |init| ==> init[i] == vs[i];
  }

  /** When it succeeds, an array delete removes exactly the members of its elements. */
  lemma {:induction false} DeleteKeysMembers(s: Store, vs: seq<KeyValue>)
    requires DeleteKeys(s, vs).ok
    ensures Members(DeleteKeys(s, vs).store) == Members(s) - DeletedMembers(vs)
    decreases |vs|
  {
    if vs == [] {
      assert DeletedMembers(vs) == {};
    } else {
      var init := vs[..|vs| - 1];
      var v := vs[|vs| - 1];
      var prev := DeleteKeys(s, init);
      assert prev.ok;
      DeleteKeysMembers(s, init);
      RemoveMembers(prev.store, QueriedMember(v));
      DeletedMembersSnoc(vs);
    }
  }

  /** Once an element has failed, an array add looks at nothing after it. */
  lemma {:induction false} AddKeysStuck(s: Store, vs: seq<KeyValue>, pred: Option<KeyValue -> bool>, i: nat)
    requires i <= |vs| && !AddKeys(s, vs[..i], pred).ok
    ensures AddKeys(s, vs, pred) == AddKeys(s, vs[..i], pred)
    decreases |vs| - i
  {
    if i < |vs| {
      assert vs[..i + 1][..i] == vs[..i];
      AddKeysStuck(s, vs, pred, i + 1);
    } else {
      assert vs[..i] == vs;
    }
  }

  /** Once an element has failed, an array delete looks at nothing after it. */
  lemma {:induction false} DeleteKeysStuck(s: Store, vs: seq<KeyValue>, i: nat)
    requires i <= |vs| && !DeleteKeys(s, vs[..i]).ok
    ensures DeleteKeys(s, vs) == DeleteKeys(s, vs[..i])
    decreases |vs| - i
  {
    if i < |vs| {
      assert vs[..i + 1][..i] == vs[..i];
      DeleteKeysStuck(s, vs, i + 1);
    } else {
      assert vs[..i] == vs;
    }
  }

  /**
   * The "all" walk of `hasKeysArray` (KeySet.ts:298-302), after its size
   * check: elements are asked in order and the first one not answered
   * `true` decides.
   */
  function AllHave(s: Store, vs: seq<KeyValue>): Outcome<bool>
    decreases |vs|
  {
    if vs == [] then Ok(true)
    else match HasKey(s, vs[0])
      case InvalidArgument => InvalidArgument
      case Ok(b) => if b then AllHave(s, vs[1..]) else Ok(false)
  }

  /** The "any" walk of `hasKeysArray` (KeySet.ts:306-310): the first element not answered `false` decides. */
  function AnyHas(s: Store, vs: seq<KeyValue>): Outcome<bool>
    decreases |vs|
  {
    if vs == [] then Ok(false)
    else match HasKey(s, vs[0])
      case InvalidArgument => InvalidArgument
      case Ok(b) => if b then Ok(true) else AnyHas(s, vs[1..])
  }

  /** The "all" walk answers `true` iff every element is here. */
  lemma {:induction false} AllHaveMeaning(s: Store, vs: seq<KeyValue>)
    ensures AllHave(s, vs) == Ok(true) <==> forall i :: 0 <= i < |vs| ==> HasKey(s, vs[i]) == Ok(true)
    decreases |vs|
  {
    if vs != [] {
      var tail := vs[1..];
      AllHaveMeaning(s, tail);
      assert forall i :: 0 <= i < |tail| ==> tail[i] == vs[i + 1];
      if HasKey(s, vs[0]) == Ok(true) && forall i :: 0 <= i < |tail| ==> HasKey(s, tail[i]) == Ok(true) {
        forall i | 0 <= i < |vs| ensures HasKey(s, vs[i]) == Ok(true) {
          if i > 0 { assert vs[i] == tail[i - 1]; }
        }
      }
    }
  }

  /** The "all" walk answers `false` iff some element is missing while every element before it is here. */
  lemma AllHaveStops(s: Store, vs: seq<KeyValue>)
    ensures AllHave(s, vs) == Ok(false) <==>
      exists i :: 0 <= i < |vs| && HasKey(s, vs[i]) == Ok(false)
        && forall j :: 0 <= j < i ==> HasKey(s, vs[j]) == Ok(true)
  {
    if AllHave(s, vs) == Ok(false) {
      var i := AllHaveStopsWhere(s, vs);
    }
    if exists i :: 0 <= i < |vs| && HasKey(s, vs[i]) == Ok(false)
        && forall j :: 0 <= j < i ==> HasKey(s, vs[j]) == Ok(true) {
      var i :| 0 <= i < |vs| && HasKey(s, vs[i]) == Ok(false)
        && forall j :: 0 <= j < i ==> HasKey(s, vs[j]) == Ok(true);
      AllHaveStopsAt(s, vs, i);
    }
  }

  /** Where the walk stopped when it answered `false`. */
  lemma {:induction false} AllHaveStopsWhere(s: Store, vs: seq<KeyValue>) returns (i: int)
    requires AllHave(s, vs) == Ok(false)
    ensures 0 <= i < |vs| && HasKey(s, vs[i]) == Ok(false)
    ensures forall j :: 0 <= j < i ==> HasKey(s, vs[j]) == Ok(true)
    decreases |vs|
  {
    if HasKey(s, vs[0]) == Ok(false) {
      i := 0;
    } else {
      var tail := vs[1..];
      var k := AllHaveStopsWhere(s, tail);
      i := k + 1;
      forall j | 0 <= j < i ensures HasKey(s, vs[j]) == Ok(true) {
        if j > 0 { assert vs[j] == tail[j - 1]; }
      }
    }
  }

  /** An element answered `false` with every earlier one `true` makes the walk answer `false`. */
  lemma {:induction false} AllHaveStopsAt(s: Store, vs: seq<KeyValue>, i: int)
    requires 0 <= i < |vs| && HasKey(s, vs[i]) == Ok(false)
    requires forall j :: 0 <= j < i ==> HasKey(s, vs[j]) == Ok(true)
    ensures AllHave(s, vs) == Ok(false)
    decreases i
  {
    if i > 0 {
      var tail := vs[1..];
      assert HasKey(s, vs[0]) == Ok(true);
      forall j | 0 <= j < i - 1 ensures HasKey(s, tail[j]) == Ok(true) {
        assert tail[j] == vs[j + 1];
      }
      AllHaveStopsAt(s, tail, i - 1);
    }
  }

  /** The "any" walk answers `false` iff no element is here. */
  lemma {:induction false} AnyHasMeaning(s: Store, vs: seq<KeyValue>)
    ensures AnyHas(s, vs) == Ok(false) <==> forall i :: 0 <= i < |vs| ==> HasKey(s, vs[i]) == Ok(false)
    decreases |vs|
  {
    if vs != [] {
      var tail := vs[1..];
      AnyHasMeaning(s, tail);
      assert forall i :: 0 <= i < |tail| ==> tail[i] == vs[i + 1];
      if HasKey(s, vs[0]) == Ok(false) && forall i :: 0 <= i < |tail| ==> HasKey(s, tail[i]) == Ok(false) {
        forall i | 0 <= i < |vs| ensures HasKey(s, vs[i]) == Ok(false) {
          if i > 0 { assert vs[i] == tail[i - 1]; }
        }
      }
    }
  }

  /** The "any" walk answers `true` iff some element is here while every element before it is missing. */
  lemma AnyHasStops(s: Store, vs: seq<KeyValue>)
    ensures AnyHas(s, vs) == Ok(true) <==>
      exists i :: 0 <= i < |vs| && HasKey(s, vs[i]) == Ok(true)
        && forall j :: 0 <= j < i ==> HasKey(s, vs[j]) == Ok(false)
  {
    if AnyHas(s, vs) == Ok(true) {
      var i := AnyHasStopsWhere(s, vs);
    }
    if exists i :: 0 <= i < |vs| && HasKey(s, vs[i]) == Ok(true)
        && forall j :: 0 <= j < i ==> HasKey(s, vs[j]) == Ok(false) {
      var i :| 0 <= i < |vs| && HasKey(s, vs[i]) == Ok(true)
        && forall j :: 0 <= j < i ==> HasKey(s, vs[j]) == Ok(false);
      AnyHasStopsAt(s, vs, i);
    }
  }

  /** Where the walk stopped when it answered `true`. */
  lemma {:induction false} AnyHasStopsWhere(s: Store, vs: seq<KeyValue>) returns (i: int)
    requires AnyHas(s, vs) == Ok(true)
    ensures 0 <= i < |vs| && HasKey(s, vs[i]) == Ok(true)
    ensures forall j :: 0 <= j < i ==> HasKey(s, vs[j]) == Ok(false)
    decreases |vs|
  {
    if HasKey(s, vs[0]) == Ok(true) {
      i := 0;
    } else {
      var tail := vs[1..];
      var k := AnyHasStopsWhere(s, tail);
      i := k + 1;
      forall j | 0 <= j < i ensures HasKey(s, vs[j]) == Ok(false) {
        if j > 0 { assert vs[j] == tail[j - 1]; }
      }
    }
  }

  /** An element answered `true` with every earlier one `false` makes the walk answer `true`. */
  lemma {:induction false} AnyHasStopsAt(s: Store, vs: seq<KeyValue>, i: int)
    requires 0 <= i < |vs| && HasKey(s, vs[i]) == Ok(true)
    requires forall j :: 0 <= j < i ==> HasKey(s, vs[j]) == Ok(false)
    ensures AnyHas(s, vs) == Ok(true)
    decreases i
  {
    if i > 0 {
      var tail := vs[1..];
      assert HasKey(s, vs[0]) == Ok(false);
      forall j | 0 <= j < i - 1 ensures HasKey(s, tail[j]) == Ok(false) {
        assert tail[j] == vs[j + 1];
      }
      AnyHasStopsAt(s, tail, i - 1);
    }
  }

  /**
   * The size check in front of the "all" walk counts array elements, not
   * distinct keys: a set holding one instance key answers the walk for
   * `[k, k]` with `true`, yet its size 1 is below the array's length 2, so
   * `hasAll([k, k])` is `false`.
   */
  lemma RepeatedKeyDefeatsSizeCheck()
    ensures var k := InstanceValue("A", "0x1");
      var s := AddKey(EmptyStore, k).value;
      SizeOf(s) < |[k, k]| && AllHave(s, [k, k]) == Ok(true)
  {
    var k := InstanceValue("A", "0x1");
    var s := AddKey(EmptyStore, k).value;
    InsertSize(EmptyStore, AddedMember(k));
    assert SizeOf(EmptyStore) == 0;
    assert HasKey(s, k) == Ok(true);
    assert [k, k][1..] == [k];
    assert [k][1..] == [];
  }

  // ---------------------------------------------------------------------
  // Another KeySet: addKeySet, deleteKeySet, hasKeySet
  // ---------------------------------------------------------------------

  /** A stored node key as handed to a predicate: parsed back into an object. */
  function NodeValue(k: string): KeyValue {
    match Deser(k)
    case Some(p) => Props(p)
    case None => Falsy
  }

  /** The key value a predicate sees for a member of another set. */
  function MemberValue(m: Member): KeyValue {
    match m
    case InstanceMember(c, id) => InstanceValue(c, id)
    case NodeMember(k) => NodeValue(k)
  }

  /** The ids among `ids` of class `c` that the predicate lets through. */
  function AcceptedIds(ids: set<string>, c: string, pred: Option<KeyValue -> bool>): set<string> {
    set id | id in ids && Allows(pred, InstanceValue(c, id))
  }

  /** The serialized node keys among `nodes` that the predicate lets through. */
  function AcceptedNodes(nodes: set<string>, pred: Option<KeyValue -> bool>): set<string> {
    set k | k in nodes && Allows(pred, NodeValue(k))
  }

  /** Accepting one more candidate node key. */
  lemma AcceptedNodesAdd(done: set<string>, k: string, pred: Option<KeyValue -> bool>)
    ensures AcceptedNodes(done + {k}, pred) == AcceptedNodes(done, pred) + (if Allows(pred, NodeValue(k)) then {k} else {})
  {
  }

  /** The ids of class `c` in `o` that the predicate lets through. */
  function Filtered(o: Store, c: string, pred: Option<KeyValue -> bool>): set<string> {
    AcceptedIds(Bucket(o, c), c, pred)
  }

  /**
   * The buckets of `m` after the classes in `done` of `o` have been merged
   * in: each such class gets a bucket, holding the ids the predicate accepts.
   */
  function MergeBuckets(m: map<string, set<string>>, o: Store, pred: Option<KeyValue -> bool>, done: set<string>)
    : map<string, set<string>>
  {
    map c | c in m.Keys + done ::
      (if c in m then m[c] else {}) + (if c in done then Filtered(o, c, pred) else {})
  }

  /** The buckets of `m` after the ids of the classes in `done` of `o` have been taken out. */
  function SubtractBuckets(m: map<string, set<string>>, o: Store, done: set<string>): map<string, set<string>> {
    map c | c in m :: m[c] - (if c in done then Bucket(o, c) else {})
  }

  /**
   * `addKeySet` (KeySet.ts:149-165). Every class of the other set gets a
   * bucket here, even when the predicate rejects all of its ids.
   */
  function AddSet(s: Store, o: Store, pred: Option<KeyValue -> bool>): (r: Store)
    ensures r.buckets.Keys == s.buckets.Keys + o.buckets.Keys
    ensures forall c :: c in r.buckets ==> r.buckets[c] == Bucket(s, c) + Filtered(o, c, pred)
  {
    Store(MergeBuckets(s.buckets, o, pred, o.buckets.Keys), s.nodes + AcceptedNodes(o.nodes, pred))
  }

  /** `deleteKeySet` (KeySet.ts:204-215): buckets are emptied, never removed. */
  function DeleteSet(s: Store, o: Store): (r: Store)
    ensures r.buckets.Keys == s.buckets.Keys
    ensures forall c :: c in r.buckets ==> r.buckets[c] == s.buckets[c] - Bucket(o, c)
  {
    Store(SubtractBuckets(s.buckets, o, o.buckets.Keys), s.nodes - o.nodes)
  }

  /** Merging one more class of `o` updates exactly that class's bucket. */
  lemma MergeStep(m: map<string, set<string>>, o: Store, pred: Option<KeyValue -> bool>, done: set<string>, c: string)
    requires c !in done
    ensures MergeBuckets(m, o, pred, done + {c}) ==
      MergeBuckets(m, o, pred, done)[c := (if c in m then m[c] else {}) + Filtered(o, c, pred)]
  {
  }

  /** Subtracting one more class of `o` updates at most that class's bucket. */
  lemma SubtractStep(m: map<string, set<string>>, o: Store, done: set<string>, c: string)
    requires c !in done && c in m
    ensures SubtractBuckets(m, o, done + {c}) == SubtractBuckets(m, o, done)[c := m[c] - Bucket(o, c)]
  {
  }

  /** Subtracting a class that has no bucket here changes nothing. */
  lemma SubtractSkip(m: map<string, set<string>>, o: Store, done: set<string>, c: string)
    requires c !in m
    ensures SubtractBuckets(m, o, done + {c}) == SubtractBuckets(m, o, done)
  {
  }

  lemma MergeNone(m: map<string, set<string>>, o: Store, pred: Option<KeyValue -> bool>)
    ensures MergeBuckets(m, o, pred, {}) == m
  {
    var r := MergeBuckets(m, o, pred, {});
    assert r.Keys == m.Keys;
    forall c | c in m ensures r[c] == m[c] {
    }
  }

  lemma SubtractNone(m: map<string, set<string>>, o: Store)
    ensures SubtractBuckets(m, o, {}) == m
  {
    var r := SubtractBuckets(m, o, {});
    assert r.Keys == m.Keys;
    forall c | c in m ensures r[c] == m[c] {
    }
  }

  /** One more element of an array add, spelled out. */
  lemma AddKeysStep(s: Store, vs: seq<KeyValue>, pred: Option<KeyValue -> bool>, i: nat)
    requires i < |vs| && AddKeys(s, vs[..i], pred).ok
    ensures var prev := AddKeys(s, vs[..i], pred).store;
      AddKeys(s, vs[..i + 1], pred) ==
        if !Allows(pred, vs[i]) then Applied(prev, true)
        else if Classify(vs[i]) == Unrecognised then Applied(prev, false)
        else Applied(Insert(prev, AddedMember(vs[i])), true)
  {
    assert vs[..i + 1][..i] == vs[..i];
  }

  /** One more element of an array delete, spelled out. */
  lemma DeleteKeysStep(s: Store, vs: seq<KeyValue>, i: nat)
    requires i < |vs| && DeleteKeys(s, vs[..i]).ok
    ensures var prev := DeleteKeys(s, vs[..i]).store;
      DeleteKeys(s, vs[..i + 1]) ==
        if Classify(vs[i]) == Unrecognised then Applied(prev, false)
        else Applied(Remove(prev, QueriedMember(vs[i])), true)
  {
    assert vs[..i + 1][..i] == vs[..i];
  }

  /** Adding another set never shrinks this one. */
  lemma AddSetGrows(s: Store, o: Store, pred: Option<KeyValue -> bool>)
    ensures SizeOf(AddSet(s, o, pred)) >= SizeOf(s)
  {
    AddSetMembers(s, o, pred);
    SizeIsMemberCount(s);
    SizeIsMemberCount(AddSet(s, o, pred));
    SubsetSize(Members(s), Members(AddSet(s, o, pred)));
  }

  /** Deleting another set never grows this one. */
  lemma DeleteSetShrinks(s: Store, o: Store)
    ensures SizeOf(DeleteSet(s, o)) <= SizeOf(s)
  {
    DeleteSetMembers(s, o);
    SizeIsMemberCount(s);
    SizeIsMemberCount(DeleteSet(s, o));
    SubsetSize(Members(DeleteSet(s, o)), Members(s));
  }

  lemma SubsetSize<T>(a: set<T>, b: set<T>)
    requires a <= b
    ensures |a| <= |b|
  {
    assert b == a + (b - a);
  }

  /**
   * `add(otherKeySet, pred)` inserts exactly the members of the other set
   * that the predicate accepts, and removes nothing.
   */
  lemma AddSetMembers(s: Store, o: Store, pred: Option<KeyValue -> bool>)
    ensures Members(AddSet(s, o, pred)) ==
      Members(s) + set m | m in Members(o) && Allows(pred, MemberValue(m))
  {
    var r := AddSet(s, o, pred);
    var accepted := set m | m in Members(o) && Allows(pred, MemberValue(m));
    forall m | m in Members(r) ensures m in Members(s) + accepted {
      if m.InstanceMember? {
        assert m.id in r.buckets[m.className];
        if m.id !in Bucket(s, m.className) {
          assert m in InstanceMembers(o.buckets);
        }
      } else {
        if m.serialized !in s.nodes {
          assert m in NodeMembers(o.nodes);
        }
      }
    }
    forall m | m in Members(s) + accepted ensures m in Members(r) {
      if m.InstanceMember? {
        assert m.id in r.buckets[m.className];
      } else {
        assert m.serialized in r.nodes;
      }
    }
  }

  /** `delete(otherKeySet)` removes exactly the other set's members. */
  lemma DeleteSetMembers(s: Store, o: Store)
    ensures Members(DeleteSet(s, o)) == Members(s) - Members(o)
  {
    var r := DeleteSet(s, o);
    forall m | m in Members(s) - Members(o) ensures m in Members(r) {
      if m.InstanceMember? {
        assert m.id !in Bucket(o, m.className) by { ContainsIsMember(o, m); }
        assert m.id in r.buckets[m.className];
      } else {
        assert m.serialized !in o.nodes by { ContainsIsMember(o, m); }
        assert m.serialized in r.nodes;
      }
    }
  }

  /**
   * Adding another set with a predicate that rejects everything still
   * creates the other set's buckets here: the result has a bucket for "A"
   * that is empty, and its size is 0.
   */
  lemma AddSetCreatesEmptyBuckets()
    ensures var r := AddSet(EmptyStore, Store(map["A" := {"0x1"}], {}), Some(_ => false));
      "A" in r.buckets && r.buckets["A"] == {} && SizeOf(r) == 0
  {
    var o := Store(map["A" := {"0x1"}], {});
    var r := AddSet(EmptyStore, o, Some(_ => false));
    assert r.buckets.Keys == {"A"};
    assert Filtered(o, "A", Some(_ => false)) == {};
    assert r.nodes == {};
    assert Members(r) == {} by {
      assert InstanceMembers(r.buckets) == {};
    }
    SizeIsMemberCount(r);
  }

  /**
   * The "all" check of `hasKeySet` (KeySet.ts:269-281): the size checks it
   * starts with are implied by these inclusions, so it comes down to every
   * node key and every bucket of the other set being here, with every id.
   */
  ghost predicate ContainsAll(s: Store, o: Store) {
    && o.nodes <= s.nodes
    && forall c :: c in o.buckets ==> c in s.buckets && o.buckets[c] <= s.buckets[c]
  }

  /** The "any" check of `hasKeySet` (KeySet.ts:284-292). */
  ghost predicate SharesAny(s: Store, o: Store) {
    || (exists k :: k in o.nodes && k in s.nodes)
    || (exists c, id :: c in o.buckets && c in s.buckets && id in o.buckets[c] && id in s.buckets[c])
  }

  /**
   * `hasAll(otherKeySet)` holds iff every member of the other set is here
   * AND every class the other set has a bucket for (even an empty one) has a
   * bucket here.
   */
  lemma ContainsAllMembers(s: Store, o: Store)
    ensures ContainsAll(s, o) <==> Members(o) <= Members(s) && o.buckets.Keys <= s.buckets.Keys
  {
    if Members(o) <= Members(s) && o.buckets.Keys <= s.buckets.Keys {
      assert o.nodes <= s.nodes by {
        forall k | k in o.nodes ensures k in s.nodes {
          assert NodeMember(k) in NodeMembers(o.nodes);
          ContainsIsMember(s, NodeMember(k));
        }
      }
      forall c | c in o.buckets ensures o.buckets[c] <= s.buckets[c] {
        forall id | id in o.buckets[c] ensures id in s.buckets[c] {
          assert InstanceMember(c, id) in InstanceMembers(o.buckets);
          ContainsIsMember(s, InstanceMember(c, id));
        }
      }
    }
    if ContainsAll(s, o) {
      forall m | m in Members(o) ensures m in Members(s) {
        ContainsIsMember(o, m);
        ContainsIsMember(s, m);
      }
    }
  }

  /** `hasAny(otherKeySet)` holds iff the two sets share a member. */
  lemma SharesAnyMembers(s: Store, o: Store)
    ensures SharesAny(s, o) <==> Members(o) * Members(s) != {}
  {
    if Members(o) * Members(s) != {} {
      var m :| m in Members(o) * Members(s);
      ContainsIsMember(o, m);
      ContainsIsMember(s, m);
      match m
      case NodeMember(k) => assert k in o.nodes && k in s.nodes;
      case InstanceMember(c, id) =>
        assert c in o.buckets && c in s.buckets && id in o.buckets[c] && id in s.buckets[c];
    }
    if SharesAny(s, o) {
      if k :| k in o.nodes && k in s.nodes {
        ContainsIsMember(o, NodeMember(k));
        ContainsIsMember(s, NodeMember(k));
        assert NodeMember(k) in Members(o) * Members(s);
      } else {
        var c, id :| c in o.buckets && c in s.buckets && id in o.buckets[c] && id in s.buckets[c];
        ContainsIsMember(o, InstanceMember(c, id));
        ContainsIsMember(s, InstanceMember(c, id));
        assert InstanceMember(c, id) in Members(o) * Members(s);
      }
    }
  }

  /**
   * So `hasAll` is not plain containment of members: a set with no members
   * but an empty bucket "A" is not contained in the empty set.
   */
  lemma EmptyBucketDefeatsHasAll()
    ensures Members(Store(map["A" := {}], {})) == {}
    ensures !ContainsAll(EmptyStore, Store(map["A" := {}], {}))
  {
    assert InstanceMembers(map["A" := {}]) == {};
    assert "A" in Store(map["A" := {}], {}).buckets && "A" !in EmptyStore.buckets;
  }

  // ---------------------------------------------------------------------
  // toJSON and fromJSON
  // ---------------------------------------------------------------------

  datatype KeySetJSON = KeySetJSON(instanceKeys: seq<(string, seq<string>)>, nodeKeys: seq<KeyProps>)

  function Elements<T>(xs: seq<T>): set<T> {
    set x | x in xs
  }

  predicate Distinct<T(==)>(xs: seq<T>) {
    forall i, j :: 0 <= i < j < |xs| ==> xs[i] != xs[j]
  }

  ghost function Classes(es: seq<(string, seq<string>)>): set<string> {
    set i | 0 <= i < |es| :: es[i].0
  }

  /** Appending an entry adds exactly its class to the classes of a list of entries. */
  lemma ClassesAppend(es: seq<(string, seq<string>)>, e: (string, seq<string>))
    ensures Classes(es + [e]) == Classes(es) + {e.0}
  {
    var t := es + [e];
    forall c | c in Classes(t) ensures c in Classes(es) + {e.0} {
      var i :| 0 <= i < |t| && t[i].0 == c;
      if i < |es| {
        assert es[i] == t[i];
      }
    }
    forall c | c in Classes(es) + {e.0} ensures c in Classes(t) {
      if c in Classes(es) {
        var i :| 0 <= i < |es| && es[i].0 == c;
        assert t[i] == es[i];
      } else {
        assert t[|es|] == e;
      }
    }
  }

  /** The serialized forms of a list of node keys. */
  function NodeStrings(ps: seq<KeyProps>): set<string> {
    set p | p in ps :: Ser(p)
  }

  /** Taking one more element out of what is left adds it to what is done. */
  lemma DoneOneMore<T>(all: set<T>, rest: set<T>, x: T)
    requires x in rest
    ensures all - (rest - {x}) == (all - rest) + (if x in all then {x} else {})
  {
  }

  /** A prefix one longer is the prefix and the next element. */
  lemma TakeOneMore<T>(xs: seq<T>, i: nat)
    requires i < |xs|
    ensures xs[..i + 1] == xs[..i] + [xs[i]]
  {
  }

  lemma NodeStringsSnoc(ps: seq<KeyProps>, p: KeyProps)
    ensures NodeStrings(ps + [p]) == NodeStrings(ps) + {Ser(p)}
  {
    assert forall q :: q in ps + [p] <==> q in ps || q == p;
  }

  /**
   * Parsing a stored string that is not yet listed adds a key that is not
   * yet listed either, so the listing stays free of repeats.
   */
  lemma ParsedIsNew(ns: seq<KeyProps>, k: string)
    requires Deser(k).Some? && k !in NodeStrings(ns) && Distinct(ns)
    ensures Distinct(ns + [Deser(k).value])
    ensures NodeStrings(ns + [Deser(k).value]) == NodeStrings(ns) + {k}
  {
    var p := Deser(k).value;
    DeserCanonical(k);
    forall i | 0 <= i < |ns| ensures ns[i] != p {
      assert ns[i] in ns;
      assert Ser(ns[i]) in NodeStrings(ns);
    }
    NodeStringsSnoc(ns, p);
  }

  /** The buckets of `s` that hold at least one id. */
  function NonEmptyBuckets(s: Store): map<string, set<string>> {
    map c | c in s.buckets && s.buckets[c] != {} :: s.buckets[c]
  }

  /**
   * What `toJSON` (KeySet.ts:364-377) produces from a store, in whatever
   * order the collections are walked: one entry per non-empty bucket, each
   * listing that bucket's ids once, and every stored node key parsed back
   * into an object, once.
   */
  ghost predicate Serializes(s: Store, j: KeySetJSON) {
    var es := j.instanceKeys;
    && (forall i :: 0 <= i < |es| ==>
          es[i].0 in s.buckets && s.buckets[es[i].0] != {}
          && Elements(es[i].1) == s.buckets[es[i].0] && Distinct(es[i].1))
    && (forall i, k :: 0 <= i < k < |es| ==> es[i].0 != es[k].0)
    && Classes(es) == NonEmptyBuckets(s).Keys
    && Distinct(j.nodeKeys)
    && NodeStrings(j.nodeKeys) == s.nodes
  }

  /** `addKeySetJSON`'s buckets: each entry overwrites its class's bucket in `m`. */
  function Overwrite(m: map<string, set<string>>, es: seq<(string, seq<string>)>): map<string, set<string>>
    decreases |es|
  {
    if es == [] then m
    else Overwrite(m, es[..|es| - 1])[es[|es| - 1].0 := Elements(es[|es| - 1].1)]
  }

  /** The store `fromJSON` builds (KeySet.ts:167-172, 383-387). */
  function LoadJSON(j: KeySetJSON): Store {
    Store(Overwrite(map[], j.instanceKeys), NodeStrings(j.nodeKeys))
  }

  /**
   * A repeated class name is overwritten, not merged: the bucket of a class
   * is the id list of its LAST entry.
   */
  lemma {:induction false} OverwriteLastWins(m: map<string, set<string>>, es: seq<(string, seq<string>)>, i: nat)
    requires i < |es|
    requires forall k :: i < k < |es| ==> es[k].0 != es[i].0
    ensures es[i].0 in Overwrite(m, es) && Overwrite(m, es)[es[i].0] == Elements(es[i].1)
    decreases |es|
  {
    if i < |es| - 1 {
      var init := es[..|es| - 1];
      assert forall k :: i < k < |init| ==> init[k] == es[k];
      OverwriteLastWins(m, init, i);
    }
  }

  lemma {:induction false} OverwriteKeys(m: map<string, set<string>>, es: seq<(string, seq<string>)>)
    ensures Overwrite(m, es).Keys == m.Keys + Classes(es)
    decreases |es|
  {
    if es != [] {
      var init := es[..|es| - 1];
      OverwriteKeys(m, init);
      assert forall k :: 0 <= k < |init| ==> init[k] == es[k];
      assert Classes(es) == Classes(init) + {es[|es| - 1].0};
    } else {
      assert Classes(es) == {};
    }
  }

  /** Two entries for one class: the second one's ids replace the first one's. */
  lemma RepeatedClassOverwrites(c: string, first: seq<string>, second: seq<string>)
    ensures Overwrite(map[], [(c, first), (c, second)]) == map[c := Elements(second)]
  {
    assert [(c, first), (c, second)][..1] == [(c, first)];
    assert [(c, first)][..0] == [];
    assert Overwrite(map[], [(c, first)]) == map[c := Elements(first)];
  }

  /** Every node key `fromJSON` stores parses back. */
  lemma LoadJSONValid(j: KeySetJSON)
    ensures StoreValid(LoadJSON(j))
  {
    forall k | k in LoadJSON(j).nodes ensures Deser(k).Some? {
      var p :| p in j.nodeKeys && Ser(p) == k;
      SerRoundTrip(p);
    }
  }

  /** `fromJSON(s.toJSON())` has exactly the non-empty buckets of `s`. */
  lemma RoundTripBuckets(s: Store, j: KeySetJSON)
    requires Serializes(s, j)
    ensures LoadJSON(j).buckets == NonEmptyBuckets(s)
  {
    var t := LoadJSON(j);
    var es := j.instanceKeys;
    var nonEmpty := NonEmptyBuckets(s);
    OverwriteKeys(map[], es);
    assert t.buckets.Keys == nonEmpty.Keys;
    forall c | c in t.buckets ensures t.buckets[c] == nonEmpty[c] {
      var i :| 0 <= i < |es| && es[i].0 == c;
      assert forall k :: i < k < |es| ==> es[k].0 != es[i].0;
      OverwriteLastWins(map[], es, i);
      assert Elements(es[i].1) == s.buckets[c];
    }
  }

  /**
   * `fromJSON(s.toJSON())` has the same node keys, members and size as `s`
   * and no empty bucket. It is contained in `s` in the sense of `hasAll`,
   * but contains `s` only when `s` has no empty bucket.
   */
  lemma RoundTrip(s: Store, j: KeySetJSON)
    requires Serializes(s, j)
    ensures var t := LoadJSON(j);
      && t.nodes == s.nodes
      && NoEmptyBucket(t)
      && Members(t) == Members(s)
      && SizeOf(t) == SizeOf(s)
      && ContainsAll(s, t)
      && (ContainsAll(t, s) <==> NoEmptyBucket(s))
  {
    var t := LoadJSON(j);
    RoundTripBuckets(s, j);
    assert t.nodes == s.nodes;
    assert InstanceMembers(t.buckets) == InstanceMembers(s.buckets);
    assert Members(t) == Members(s);
    SizeIsMemberCount(s);
    SizeIsMemberCount(t);
    ContainsAllMembers(s, t);
    ContainsAllMembers(t, s);
    assert t.buckets.Keys <= s.buckets.Keys;
    assert s.buckets.Keys <= t.buckets.Keys <==> NoEmptyBucket(s);
  }
}
