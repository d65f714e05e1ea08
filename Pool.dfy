/**
 * `Pool`: a bounded stack of reusable objects. `obtain` pops the most recently freed
 * object or makes a new one; `free` pushes while the pool holds fewer than `max`
 * objects and resets the object either way.
 */
module Pool {
  import opened Wrappers

  /** A poolable object: `kind` stands for its class, `resets` counts calls of `reset`. */
  class Poolable {
    const kind: int
    var resets: nat

    constructor (kind: int)
      ensures this.kind == kind && resets == 0
    {
      this.kind := kind;
      resets := 0;
    }

    /** `reset`: what it does to the object is up to its class; here it is counted. */
    method Reset()
      modifies this
      ensures resets == old(resets) + 1
    {
      resets := resets + 1;
    }
  }

  function MaxOf(a: int, b: int): int {
    if a >= b then a else b
  }

  /** Pushing onto a stack capped at `max` entries: the object is dropped once it is full. */
  function PushCapped(stack: seq<Poolable>, o: Poolable, max: int): (r: seq<Poolable>)
    ensures |stack| < max ==> r == stack + [o]
    ensures |stack| >= max ==> r == stack
  {
    if |stack| < max then stack + [o] else stack
  }

  /** Pushing several objects in order onto a capped stack. */
  function PushAllCapped(stack: seq<Poolable>, objects: seq<Poolable>, max: int): seq<Poolable>
    decreases |objects|
  {
    if objects == [] then stack
    else PushAllCapped(PushCapped(stack, objects[0], max), objects[1..], max)
  }

  /** The room left on a stack capped at `max`. */
  function Room(stack: seq<Poolable>, max: int): nat {
    if |stack| < max then max - |stack| else 0
  }

  /** Pushing onto a capped stack keeps the longest prefix of the objects that fits. */
  lemma {:induction false} PushAllKeepsPrefix(stack: seq<Poolable>, objects: seq<Poolable>, max: int)
    ensures var k := if |objects| <= Room(stack, max) then |objects| else Room(stack, max);
            PushAllCapped(stack, objects, max) == stack + objects[..k]
    decreases |objects|
  {
    if objects != [] {
      var next := PushCapped(stack, objects[0], max);
      PushAllKeepsPrefix(next, objects[1..], max);
      if |stack| < max {
        var k := if |objects| <= Room(stack, max) then |objects| else Room(stack, max);
        assert objects[1..][..k - 1] == objects[1..k];
        assert stack + objects[..k] == next + objects[1..k];
      } else {
        assert objects[..0] == [];
      }
    }
  }

  /** The non-null entries of a stack, in order. */
  function NonNull(objects: seq<Poolable?>): seq<Poolable> {
    if objects == [] then []
    else if objects[0] == null then NonNull(objects[1..])
    else [objects[0]] + NonNull(objects[1..])
  }

  /** `NonNull` keeps exactly the non-null entries: nothing else, and none of them lost. */
  lemma {:induction false} NonNullMembers(objects: seq<Poolable?>)
    ensures |NonNull(objects)| <= |objects|
    ensures forall x: Poolable? :: x in NonNull(objects) <==> x in objects && x != null
  {
    if objects != [] {
      NonNullMembers(objects[1..]);
      assert objects == [objects[0]] + objects[1..];
    }
  }

  /** One more entry of a list to free: a null changes nothing, anything else is pushed. */
  lemma PushAllStep(stack: seq<Poolable>, list: seq<Poolable?>, i: int, max: int)
    requires 0 <= i < |list|
    ensures PushAllCapped(stack, NonNull(list[..i + 1]), max) ==
            if list[i] == null then PushAllCapped(stack, NonNull(list[..i]), max)
            else PushCapped(PushAllCapped(stack, NonNull(list[..i]), max), list[i], max)
  {
    assert list[..i + 1] == list[..i] + [list[i]];
    NonNullSnoc(list[..i], list[i]);
    if list[i] != null {
      PushAllSnoc(stack, NonNull(list[..i]), list[i], max);
    } else {
      assert NonNull(list[..i]) + [] == NonNull(list[..i]);
    }
  }

  /** Appending one entry adds one to its count and leaves every other count alone. */
  lemma MultisetSnoc(list: seq<Poolable?>, i: int)
    requires 0 <= i < |list|
    ensures forall x :: multiset(list[..i + 1])[x] == multiset(list[..i])[x] + (if x == list[i] then 1 else 0)
  {
    assert list[..i + 1] == list[..i] + [list[i]];
  }

  lemma NonNullSnoc(objects: seq<Poolable?>, o: Poolable?)
    ensures NonNull(objects + [o]) == NonNull(objects) + (if o == null then [] else [o])
  {
    if objects != [] {
      assert (objects + [o])[1..] == objects[1..] + [o];
      NonNullSnoc(objects[1..], o);
    } else {
      assert [o][1..] == [];
    }
  }

  lemma PushAllSnoc(stack: seq<Poolable>, objects: seq<Poolable>, o: Poolable, max: int)
    ensures PushAllCapped(stack, objects + [o], max) == PushCapped(PushAllCapped(stack, objects, max), o, max)
    decreases |objects|
  {
    if objects != [] {
      assert (objects + [o])[1..] == objects[1..] + [o];
      PushAllSnoc(PushCapped(stack, objects[0], max), objects[1..], o, max);
    } else {
      assert [o][1..] == [];
    }
  }

  class Pool {
    /** The class of the objects `newObject` creates. */
    const kind: int
    /** The maximum number of objects that will be pooled. */
    const max: int
    /** The free objects, top of the stack last. */
    var freeObjects: seq<Poolable>
    /** The highest number of free objects seen; public, so callers may reset it. */
    var peak: int

    /** The free count never exceeds `max` (nor 0, when `max` is negative). */
    ghost predicate Valid()
      reads this
    {
      |freeObjects| <= MaxOf(max, 0)
    }

    /** `Pool(initialCapacity, max)`: no free objects; the capacity is only a size hint. */
    constructor (kind: int, initialCapacity: int, max: int)
      ensures Valid() && this.kind == kind && this.max == max
      ensures freeObjects == [] && peak == 0
    {
      this.kind := kind;
      this.max := max;
      freeObjects := [];
      peak := 0;
    }

    /** `obtain`: pop the most recently freed object, or create one when there is none. */
    method Obtain() returns (o: Poolable)
      requires Valid()
      modifies this
      ensures Valid() && peak == old(peak)
      ensures old(freeObjects) == [] ==> fresh(o) && o.kind == kind && o.resets == 0 && freeObjects == []
      ensures old(freeObjects) != [] ==>
                o == old(freeObjects[|freeObjects| - 1]) && freeObjects == old(freeObjects[..|freeObjects| - 1])
    {
      if |freeObjects| == 0 {
        o := new Poolable(kind);
      } else {
        o := freeObjects[|freeObjects| - 1];
        freeObjects := freeObjects[..|freeObjects| - 1];
      }
    }

    /**
     * `free`: null is rejected; otherwise the object is pushed while there is room, the
     * peak follows the free count, and the object is reset either way.
     */
    method Free(o: Poolable?) returns (r: Outcome<string>)
      requires Valid()
      modifies this, o
      ensures Valid()
      ensures o == null <==> r.Fail?
      ensures o == null ==> r == Fail("object cannot be null.") && unchanged(this)
      ensures o != null ==>
                freeObjects == PushCapped(old(freeObjects), o, max) && o.resets == old(o.resets) + 1 &&
                peak == (if |old(freeObjects)| < max then MaxOf(old(peak), |freeObjects|) else old(peak))
    {
      if o == null {
        return Fail("object cannot be null.");
      }
      if |freeObjects| < max {
        freeObjects := freeObjects + [o];
        peak := MaxOf(peak, |freeObjects|);
      }
      o.Reset();
      r := Pass;
    }

    /**
     * `freeAll`: a null stack is rejected; null entries are skipped; every other entry
     * is pushed while there is room and reset; the peak is updated once, at the end.
     */
    method FreeAll(objects: Option<seq<Poolable?>>) returns (r: Outcome<string>)
      requires Valid()
      modifies this, if objects.Some? then set o | o in objects.value && o != null else {}
      ensures Valid()
      ensures objects.None? <==> r.Fail?
      ensures objects.None? ==> r == Fail("object cannot be null.") && unchanged(this)
      ensures objects.Some? ==>
                freeObjects == PushAllCapped(old(freeObjects), NonNull(objects.value), max) &&
                peak == MaxOf(old(peak), |freeObjects|) &&
                forall k :: 0 <= k < |objects.value| && objects.value[k] != null ==>
                  objects.value[k].resets == old(objects.value[k].resets) + multiset(objects.value)[objects.value[k]]
    {
      if objects.None? {
        return Fail("object cannot be null.");
      }
      var list := objects.value;
      var i := 0;
      assert list[..0] == [];
      while i < |list|
        invariant 0 <= i <= |list| && Valid() && peak == old(peak)
        invariant freeObjects == PushAllCapped(old(freeObjects), NonNull(list[..i]), max)
        invariant forall k :: 0 <= k < |list| && list[k] != null ==>
                    list[k].resets == old(list[k].resets) + multiset(list[..i])[list[k]]
      {
        PushAllStep(old(freeObjects), list, i, max);
        MultisetSnoc(list, i);
        FreeEntry(list, i);
        i := i + 1;
      }
      assert list[..i] == list;
      peak := MaxOf(peak, |freeObjects|);
      r := Pass;
    }

    /** One entry of `freeAll`: a null is skipped; otherwise pushed while there is room, and reset. */
    method FreeEntry(list: seq<Poolable?>, i: int)
      requires Valid() && 0 <= i < |list|
      modifies this, if list[i] != null then {list[i]} else {}
      ensures Valid() && peak == old(peak)
      ensures freeObjects == if list[i] == null then old(freeObjects) else PushCapped(old(freeObjects), list[i], max)
      ensures forall k :: 0 <= k < |list| && list[k] != null ==>
                list[k].resets == old(list[k].resets) + (if list[k] == list[i] then 1 else 0)
    {
      var o := list[i];
      if o != null {
        if |freeObjects| < max {
          freeObjects := freeObjects + [o];
        }
        o.Reset();
      }
    }

    /** `clear`: drop every free object. */
    method Clear()
      modifies this`freeObjects
      ensures freeObjects == [] && Valid()
    {
      freeObjects := [];
    }

    /** `getFree`: the number of objects `obtain` can hand out without creating one. */
    method GetFree() returns (n: int)
      ensures n == |freeObjects|
    {
      n := |freeObjects|;
    }
  }

  /** An object freed and obtained straight away comes back, and the stack is as before. */
  method FreeThenObtain(pool: Pool, o: Poolable) returns (back: Poolable)
    requires pool.Valid() && |pool.freeObjects| < pool.max
    modifies pool, o
    ensures back == o && o.resets == old(o.resets) + 1
    ensures pool.freeObjects == old(pool.freeObjects) && pool.Valid()
  {
    var r := pool.Free(o);
    back := pool.Obtain();
  }
}
