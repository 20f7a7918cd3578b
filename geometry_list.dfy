/**
 * The list of geometry primitives that a graphics builder accumulates
 * (GeometryList.ts): elements are pushed or appended at the end, the list
 * can be cleared, and it is walked by a small iterator that keeps its own
 * position counter.
 */
module Geometry {

  import opened Wrappers

  /** `GeometryList`, over any element type `G`. */
  class GeometryList<G> {
    var list: seq<G>     // `_list`

    constructor ()
      ensures list == []
    {
      list := [];
    }

    /** `first`: element 0, or nothing when the list is empty. */
    function First(): (r: Option<G>)
      reads this
      ensures r.Some? <==> |list| > 0
      ensures r.Some? ==> r.value == list[0]
    {
      if |list| > 0 then Some(list[0]) else None
    }

    /** `length`. */
    function Length(): (n: nat)
      reads this
      ensures n == 0 <==> list == []
    {
      |list|
    }

    /** `isEmpty`: the length is 0, which is exactly when there is no first element. */
    function IsEmpty(): (b: bool)
      reads this
      ensures b <==> Length() == 0
      ensures b <==> First().None?
    {
      |list| == 0
    }

    /** `push`: `g` goes at the end, and the new length is returned. */
    method Push(g: G) returns (n: nat)
      modifies this
      ensures list == old(list) + [g]
      ensures n == Length() && n == old(Length()) + 1
      ensures First() == if old(list) == [] then Some(g) else old(First())
    {
      list := list + [g];
      n := |list|;
    }

    /**
     * `append`: the elements of `src`, as they were before the call, follow
     * the old elements in order, and the list itself is returned. Appending
     * a list to itself doubles it, since the spread is taken first.
     */
    method Append(src: GeometryList<G>) returns (r: GeometryList<G>)
      modifies this
      ensures r == this
      ensures list == old(list) + old(src.list)
      ensures Length() == old(Length()) + old(src.Length())
      ensures src != this ==> src.list == old(src.list)
    {
      list := list + src.list;
      r := this;
    }

    /** `clear`: afterwards the list is empty and has no first element. */
    method Clear()
      modifies this
      ensures list == []
      ensures Length() == 0 && IsEmpty() && First().None?
    {
      list := [];
    }

    /** `[Symbol.iterator]`: a fresh iterator at position 0 over this list. */
    method Iterator() returns (it: GeometryListIterator<G>)
      ensures fresh(it)
      ensures it.source == this && it.key == 0
    {
      it := new GeometryListIterator(this);
    }
  }

  /**
   * The object `[Symbol.iterator]` returns. It reads the list it came from
   * at every step, so it sees changes made to it meanwhile.
   */
  class GeometryListIterator<G> {
    const source: GeometryList<G>
    var key: nat

    constructor (source: GeometryList<G>)
      ensures this.source == source && key == 0
    {
      this.source := source;
      key := 0;
    }

    /**
     * `next`: below the end, the element at the position and not done;
     * otherwise done, with the element before the position as the value
     * (the last element right after the end, nothing further on). The
     * position always advances.
     */
    method Next() returns (done: bool, value: Option<G>)
      modifies this
      ensures key == old(key) + 1
      ensures done <==> old(key) >= |source.list|
      ensures !done ==> value == Some(source.list[old(key)])
      ensures done ==> value == if 1 <= old(key) <= |source.list| then Some(source.list[old(key) - 1]) else None
    {
      if key < |source.list| {
        done, value := false, Some(source.list[key]);
      } else if 1 <= key && key - 1 < |source.list| {
        done, value := true, Some(source.list[key - 1]);
      } else {
        done, value := true, None;
      }
      key := key + 1;
    }
  }

  /**
   * A `for ... of` loop over the list, collecting what it yields: the
   * iterator hands out every element in index order and then reports done,
   * and the list itself is left as it was.
   */
  method Elements<G>(gl: GeometryList<G>) returns (xs: seq<G>)
    ensures xs == gl.list
  {
    var it := gl.Iterator();
    xs := [];
    var done, value := it.Next();
    while !done
      invariant it.source == gl && it.key == |xs| + 1
      invariant |xs| <= |gl.list| && xs == gl.list[..|xs|]
      invariant done <==> |xs| == |gl.list|
      invariant !done ==> value == Some(gl.list[|xs|])
      decreases |gl.list| - |xs|
    {
      xs := xs + [value.value];
      done, value := it.Next();
    }
  }
}
