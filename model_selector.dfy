/**
 * The set of model ids of a view's model selector (ModelSelectorState.ts).
 *
 * The ids live in a JavaScript `Set`, which iterates in insertion order; the
 * model keeps them as a sequence without repetitions. Adding an id already
 * present leaves it where it is; deleting one closes the gap.
 */
module ModelSelector {

  import opened Wrappers

  /** `Id64Arg`: one id, or a collection of ids walked in its own order. */
  datatype Id64Arg = OneId(id: string) | ManyIds(ids: seq<string>)

  /** The ids `Id64.forEach` hands to its callback, in order. */
  function ArgIds(arg: Id64Arg): seq<string> {
    match arg
    case OneId(id) => [id]
    case ManyIds(ids) => ids
  }

  function Elements(xs: seq<string>): set<string> {
    set x | x in xs
  }

  predicate Distinct(xs: seq<string>) {
    forall i, j :: 0 <= i < j < |xs| ==> xs[i] != xs[j]
  }

  /** `Set.add` on an insertion-ordered set. */
  function AddOne(ms: seq<string>, id: string): seq<string> {
    if id in ms then ms else ms + [id]
  }

  /** The set after `add` of each id in turn. */
  function AddAll(ms: seq<string>, ids: seq<string>): seq<string>
    decreases |ids|
  {
    if ids == [] then ms else AddAll(AddOne(ms, ids[0]), ids[1..])
  }

  /** The set after `delete` of every id in `gone`: the remaining ids keep their order. */
  function DropAll(ms: seq<string>, gone: set<string>): seq<string>
    decreases |ms|
  {
    if ms == [] then []
    else (if ms[0] in gone then [] else [ms[0]]) + DropAll(ms[1..], gone)
  }

  /** Adding one id keeps the old ids first and introduces no repetition. */
  lemma AddOneFacts(ms: seq<string>, id: string)
    requires Distinct(ms)
    ensures Elements(AddOne(ms, id)) == Elements(ms) + {id}
    ensures Distinct(AddOne(ms, id))
    ensures |AddOne(ms, id)| >= |ms| && AddOne(ms, id)[..|ms|] == ms
  {
    if id !in ms {
      assert Elements(ms + [id]) == Elements(ms) + {id};
      assert (ms + [id])[..|ms|] == ms;
    }
  }

  /**
   * After adding ids, the set holds exactly the old ids and the added ones,
   * without repetitions.
   */
  lemma {:induction false} AddAllContents(ms: seq<string>, ids: seq<string>)
    requires Distinct(ms)
    ensures Elements(AddAll(ms, ids)) == Elements(ms) + Elements(ids)
    ensures Distinct(AddAll(ms, ids))
    decreases |ids|
  {
    if ids != [] {
      AddOneFacts(ms, ids[0]);
      AddAllContents(AddOne(ms, ids[0]), ids[1..]);
      assert Elements(ids) == {ids[0]} + Elements(ids[1..]) by {
        assert ids == [ids[0]] + ids[1..];
      }
    }
  }

  /** Adding ids keeps the old ids first, in their old order. */
  lemma {:induction false} AddAllKeepsPrefix(ms: seq<string>, ids: seq<string>)
    requires Distinct(ms)
    ensures |AddAll(ms, ids)| >= |ms| && AddAll(ms, ids)[..|ms|] == ms
    decreases |ids|
  {
    if ids != [] {
      var next := AddOne(ms, ids[0]);
      AddOneFacts(ms, ids[0]);
      AddAllKeepsPrefix(next, ids[1..]);
      var r := AddAll(next, ids[1..]);
      assert r[..|ms|] == r[..|next|][..|ms|];
    }
  }

  /** Adding ids that are all present already changes nothing, the size included. */
  lemma {:induction false} AddPresentChangesNothing(ms: seq<string>, ids: seq<string>)
    requires Elements(ids) <= Elements(ms)
    ensures AddAll(ms, ids) == ms
    decreases |ids|
  {
    if ids != [] {
      assert ids[0] in Elements(ids);
      assert Elements(ids[1..]) <= Elements(ids);
      AddPresentChangesNothing(ms, ids[1..]);
    }
  }

  /**
   * After dropping, an id is present iff it was present and not dropped;
   * the result has no repetitions and is no longer than before.
   */
  lemma {:induction false} DropAllContents(ms: seq<string>, gone: set<string>)
    requires Distinct(ms)
    ensures forall x :: x in DropAll(ms, gone) <==> x in ms && x !in gone
    ensures Distinct(DropAll(ms, gone))
    ensures |DropAll(ms, gone)| <= |ms|
    decreases |ms|
  {
    if ms != [] {
      DropAllContents(ms[1..], gone);
      assert forall x :: x in ms <==> x == ms[0] || x in ms[1..];
      assert ms[0] !in ms[1..] by {
        forall j | 0 <= j < |ms[1..]| ensures ms[1..][j] != ms[0] {
          assert ms[1..][j] == ms[j + 1];
        }
      }
    }
  }

  /** Dropping nothing present keeps the ids in the same order. */
  lemma {:induction false} DropAbsentChangesNothing(ms: seq<string>, gone: set<string>)
    requires forall x :: x in ms ==> x !in gone
    ensures DropAll(ms, gone) == ms
    decreases |ms|
  {
    if ms != [] {
      DropAbsentChangesNothing(ms[1..], gone);
      assert [ms[0]] + ms[1..] == ms;
    }
  }

  /** Dropping one more id is dropping the larger set at once. */
  lemma {:induction false} DropTwice(ms: seq<string>, gone: set<string>, id: string)
    ensures DropAll(DropAll(ms, gone), {id}) == DropAll(ms, gone + {id})
    decreases |ms|
  {
    if ms != [] {
      DropTwice(ms[1..], gone, id);
      var head := if ms[0] in gone then [] else [ms[0]];
      DropAppend(head, DropAll(ms[1..], gone), {id});
      if ms[0] !in gone {
        assert head[1..] == [];
      }
    }
  }

  lemma {:induction false} DropAppend(a: seq<string>, b: seq<string>, gone: set<string>)
    ensures DropAll(a + b, gone) == DropAll(a, gone) + DropAll(b, gone)
    decreases |a|
  {
    if a == [] {
      assert a + b == b;
    } else {
      assert (a + b)[0] == a[0];
      assert (a + b)[1..] == a[1..] + b;
      DropAppend(a[1..], b, gone);
    }
  }

  lemma ElementsPrefix(ids: seq<string>, i: nat)
    requires i < |ids|
    ensures Elements(ids[..i + 1]) == Elements(ids[..i]) + {ids[i]}
  {
    assert ids[..i + 1] == ids[..i] + [ids[i]];
  }

  lemma AddAllSnoc(ms: seq<string>, ids: seq<string>, id: string)
    ensures AddAll(ms, ids + [id]) == AddOne(AddAll(ms, ids), id)
    decreases |ids|
  {
    if ids == [] {
      assert [id][1..] == [];
    } else {
      assert (ids + [id])[0] == ids[0];
      assert (ids + [id])[1..] == ids[1..] + [id];
      AddAllSnoc(AddOne(ms, ids[0]), ids[1..], id);
    }
  }

  class ModelSelectorState {
    const id: string
    const name: string           // `code.getValue()`
    var models: seq<string>      // the `models` Set, in insertion order

    ghost predicate Valid()
      reads this
    {
      Distinct(models)
    }

    /** The constructor (ModelSelectorState.ts:23-27): the given models are added in order. */
    constructor (id: string, name: string, initial: Option<seq<string>>)
      ensures this.id == id && this.name == name && Valid()
      ensures initial.None? ==> models == []
      ensures initial.Some? ==> models == AddAll([], initial.value)
    {
      this.id := id;
      this.name := name;
      models := [];
      new;
      if initial.Some? {
        AddModels(ManyIds(initial.value));
      }
    }

    /** `addModels` (ModelSelectorState.ts:60-62). */
    method AddModels(arg: Id64Arg)
      requires Valid()
      modifies this
      ensures Valid()
      ensures models == AddAll(old(models), ArgIds(arg))
      ensures forall x :: x in models <==> x in old(models) || x in ArgIds(arg)
      ensures forall x :: Has(x) <==> old(Has(x)) || x in ArgIds(arg)
      ensures |models| >= |old(models)| && models[..|old(models)|] == old(models)
    {
      var ids := ArgIds(arg);
      ghost var m0 := models;
      AddAllContents(m0, ids);
      AddAllKeepsPrefix(m0, ids);
      AddEach(ids);
      assert forall x :: x in models <==> x in Elements(models);
      assert forall x :: x in m0 + ids <==> x in Elements(m0) + Elements(ids);
    }

    /** The `Id64.forEach` loop of `addModels`: `Set.add` of each id in turn. */
    method AddEach(ids: seq<string>)
      requires Valid()
      modifies this
      ensures Valid() && models == AddAll(old(models), ids)
    {
      ghost var m0 := models;
      var i := 0;
      while i < |ids|
        invariant 0 <= i <= |ids|
        invariant models == AddAll(m0, ids[..i])
        invariant Valid()
      {
        AddAllSnoc(m0, ids[..i], ids[i]);
        assert ids[..i + 1] == ids[..i] + [ids[i]];
        AddOneFacts(models, ids[i]);
        if ids[i] !in models {
          models := models + [ids[i]];
        }
        i := i + 1;
      }
      assert ids[..i] == ids;
    }

    /** `dropModels` (ModelSelectorState.ts:64-67). */
    method DropModels(arg: Id64Arg)
      requires Valid()
      modifies this
      ensures Valid()
      ensures models == DropAll(old(models), Elements(ArgIds(arg)))
      ensures forall x :: x in models <==> x in old(models) && x !in ArgIds(arg)
      ensures forall x :: Has(x) <==> old(Has(x)) && x !in ArgIds(arg)
    {
      var ids := ArgIds(arg);
      ghost var m0 := models;
      assert DropAll(m0, {}) == m0 by {
        DropAbsentChangesNothing(m0, {});
      }
      assert Elements(ids[..0]) == {};
      var i := 0;
      while i < |ids|
        invariant 0 <= i <= |ids|
        invariant models == DropAll(m0, Elements(ids[..i]))
        invariant Valid()
      {
        DropAllContents(models, {ids[i]});
        models := DropOne(models, ids[i]);
        DropTwice(m0, Elements(ids[..i]), ids[i]);
        ElementsPrefix(ids, i);
        i := i + 1;
      }
      assert ids[..i] == ids;
      DropAllContents(m0, Elements(ids));
    }

    /** `Set.delete`: the loop that closes the gap left by one id. */
    static method DropOne(ms: seq<string>, x: string) returns (r: seq<string>)
      ensures r == DropAll(ms, {x})
    {
      r := [];
      var i := 0;
      while i < |ms|
        invariant 0 <= i <= |ms|
        invariant r == DropAll(ms[..i], {x})
      {
        DropAppend(ms[..i], [ms[i]], {x});
        assert ms[..i + 1] == ms[..i] + [ms[i]];
        assert DropAll([ms[i]], {x}) == if ms[i] == x then [] else [ms[i]] by {
          assert [ms[i]][1..] == [];
        }
        if ms[i] != x {
          r := r + [ms[i]];
        }
        i := i + 1;
      }
      assert ms[..i] == ms;
    }

    /** `has` (ModelSelectorState.ts:70): the id occurs at some position of the set. */
    function Has(modelId: string): (b: bool)
      reads this
      ensures b <==> exists i :: 0 <= i < |models| && models[i] == modelId
      ensures b <==> modelId in Elements(models)
    {
      modelId in models
    }

    /** `containsModel` (ModelSelectorState.ts:73): `has` of the id's string form. */
    function ContainsModel(modelId: string): (b: bool)
      reads this
      ensures b <==> Has(modelId)
      ensures b <==> modelId in Elements(models)
    {
      Has(modelId)
    }

    /**
     * `equalState` (ModelSelectorState.ts:45-57): the sizes, ids and names
     * are compared first, then the two sets position by position in
     * insertion order, so holding the same ids in another order is not
     * equal.
     */
    method EqualState(other: ModelSelectorState) returns (r: bool)
      ensures r <==> |models| == |other.models| && id == other.id && name == other.name && models == other.models
    {
      if |models| != |other.models| || id != other.id || name != other.name {
        return false;
      }
      var i := 0;
      while i < |models|
        invariant 0 <= i <= |models|
        invariant models[..i] == other.models[..i]
      {
        if models[i] != other.models[i] {
          return false;
        }
        assert models[..i + 1] == models[..i] + [models[i]];
        assert other.models[..i + 1] == other.models[..i] + [other.models[i]];
        i := i + 1;
      }
      assert models == models[..i] && other.models == other.models[..i];
      r := true;
    }

    /** The models part of `toJSON` (ModelSelectorState.ts:32-37): each model once, in set order. */
    method ToJSONModels() returns (r: seq<string>)
      requires Valid()
      ensures r == models && Distinct(r)
    {
      r := [];
      var i := 0;
      while i < |models|
        invariant 0 <= i <= |models|
        invariant r == models[..i]
      {
        assert models[..i + 1] == models[..i] + [models[i]];
        r := r + [models[i]];
        i := i + 1;
      }
      assert models[..i] == models;
    }
  }

  /**
   * Two selectors with the same id and name, built from the same ids in
   * another order, hold the same set of models, yet `equalState` says they
   * differ, since it compares the two sets position by position.
   */
  method OrderMatters() returns (a: ModelSelectorState, b: ModelSelectorState, equal: bool)
    ensures a.id == b.id && a.name == b.name
    ensures forall x :: a.Has(x) <==> b.Has(x)
    ensures !equal
  {
    a := new ModelSelectorState("selector", "name", Some(["a", "b"]));
    b := new ModelSelectorState("selector", "name", Some(["b", "a"]));
    assert AddAll([], ["a", "b"]) == ["a", "b"] by {
      assert ["a", "b"][1..] == ["b"];
    }
    assert AddAll([], ["b", "a"]) == ["b", "a"] by {
      assert ["b", "a"][1..] == ["a"];
    }
    equal := a.EqualState(b);
    assert a.models[0] != b.models[0];
  }
}
