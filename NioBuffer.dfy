/**
 * The part of a `java.nio` direct buffer (`IntBuffer`, `FloatBuffer`) that the vertex
 * and element buffers rely on: a fixed capacity, a position and a limit, relative `put`
 * that throws `BufferOverflowException` at the limit, and the doubling `ensureSize`
 * both buffers implement on top of it.
 */
module NioBuffer {
  import opened Wrappers

  datatype Exception = BufferOverflow

  /** The bytes of one `int` or `float` element: `asIntBuffer`/`asFloatBuffer` capacity is bytes / 4. */
  const ElementBytes := 4

  /** A buffer's contents (its capacity is `|data|`), position and limit. */
  datatype Buffer<T> = Buffer(data: seq<T>, position: nat, limit: nat)

  /** The `java.nio` invariant `0 <= position <= limit <= capacity`. */
  predicate WellFormed<T>(b: Buffer<T>) {
    b.position <= b.limit <= |b.data|
  }

  /** The elements relative puts can still write before the limit. */
  function Room<T>(b: Buffer<T>): nat
    requires WellFormed(b)
  {
    b.limit - b.position
  }

  /** A freshly allocated direct buffer: zeroed, position 0, limit at the capacity. */
  function Allocate<T>(capacity: nat, zero: T): (b: Buffer<T>)
    ensures WellFormed(b) && |b.data| == capacity && b.position == 0 && Room(b) == capacity
    ensures forall k :: 0 <= k < capacity ==> b.data[k] == zero
  {
    Buffer(seq(capacity, _ => zero), 0, capacity)
  }

  /** Relative `put`: writes at the position and advances it, or throws at the limit. */
  function Put<T>(b: Buffer<T>, v: T): (r: Result<Buffer<T>, Exception>)
    requires WellFormed(b)
    ensures r.Success? <==> b.position < b.limit
    ensures r.Success? ==> WellFormed(r.value)
  {
    if b.position < b.limit then Success(Buffer(b.data[b.position := v], b.position + 1, b.limit))
    else Failure(BufferOverflow)
  }

  /**
   * A chain `put(v0).put(v1)...`: the buffer after the puts that happened, and whether
   * one of them threw (the earlier writes stay).
   */
  function PutAll<T>(b: Buffer<T>, vs: seq<T>): (r: (Buffer<T>, bool))
    requires WellFormed(b)
    ensures WellFormed(r.0) && |r.0.data| == |b.data| && r.0.limit == b.limit
    decreases |vs|
  {
    if vs == [] then (b, false)
    else
      var next := Put(b, vs[0]);
      if next.Failure? then (b, true) else PutAll(next.value, vs[1..])
  }

  /**
   * What the chain of puts does: the first `n` values land at the position, where `n`
   * is the room left or all of them; it throws exactly when there was not room for all.
   */
  lemma {:induction false} PutAllEffect<T>(b: Buffer<T>, vs: seq<T>)
    requires WellFormed(b)
    ensures var n := if |vs| <= Room(b) then |vs| else Room(b);
            var r := PutAll(b, vs);
            (r.1 <==> Room(b) < |vs|) && r.0.position == b.position + n &&
            forall k :: 0 <= k < |b.data| ==>
              r.0.data[k] == if b.position <= k < b.position + n then vs[k - b.position] else b.data[k]
    decreases |vs|
  {
    if vs != [] && b.position < b.limit {
      var next := Put(b, vs[0]).value;
      PutAllEffect(next, vs[1..]);
    }
  }

  /** `put` chained onto a put that succeeded. */
  lemma PutAllCons<T>(b: Buffer<T>, v: T, vs: seq<T>)
    requires WellFormed(b)
    ensures PutAll(b, [v] + vs) == if Put(b, v).Failure? then (b, true) else PutAll(Put(b, v).value, vs)
  {
    assert ([v] + vs)[0] == v && ([v] + vs)[1..] == vs;
  }

  /**
   * Reallocation as both `ensureSize` methods do it: allocate `capacity` elements, bulk
   * put the old elements from 0 to the old limit (overflowing when they do not fit),
   * rewind, and restore the position.
   */
  function Reallocated<T>(b: Buffer<T>, capacity: nat, zero: T): (r: Result<Buffer<T>, Exception>)
    requires WellFormed(b)
    ensures r.Success? <==> b.limit <= capacity
    ensures r.Success? ==> WellFormed(r.value) && |r.value.data| == capacity
  {
    if b.limit <= capacity then Success(Buffer(b.data[..b.limit] + seq(capacity - b.limit, _ => zero), b.position, capacity))
    else Failure(BufferOverflow)
  }

  /** `ensureSize(add)` as written: the new buffer has `capacity * 2` BYTES, i.e. `capacity / 2` elements. */
  function EnsureSizeAsWritten<T>(b: Buffer<T>, add: nat, zero: T): Result<Buffer<T>, Exception>
    requires WellFormed(b)
  {
    if |b.data| < b.position + add then Reallocated(b, (|b.data| * 2) / ElementBytes, zero) else Success(b)
  }

  /** `ensureSize(add)` with the evident intent: the new buffer has twice as many elements. */
  function EnsureSize<T>(b: Buffer<T>, add: nat, zero: T): (r: Buffer<T>)
    requires WellFormed(b)
    ensures WellFormed(r)
  {
    if |b.data| < b.position + add then Reallocated(b, 2 * |b.data|, zero).value else b
  }

  /**
   * `ensureSize` keeps the position and every element before the limit; it changes
   * nothing when there is capacity for `add` more, and otherwise doubles the capacity
   * and moves the limit to it.
   */
  lemma EnsureSizeKeeps<T>(b: Buffer<T>, add: nat, zero: T)
    requires WellFormed(b)
    ensures var r := EnsureSize(b, add, zero);
            r.position == b.position && |r.data| >= |b.data| && r.data[..b.limit] == b.data[..b.limit] &&
            (b.position + add <= |b.data| ==> r == b) &&
            (|b.data| < b.position + add ==> |r.data| == 2 * |b.data| && r.limit == |r.data|)
  {
  }

  /** With the limit at the capacity and `add` no more than it, one doubling leaves room for `add`. */
  lemma EnsureSizeRoom<T>(b: Buffer<T>, add: nat, zero: T)
    requires WellFormed(b) && b.limit == |b.data| && add <= |b.data|
    ensures var r := EnsureSize(b, add, zero); r.limit == |r.data| && add <= Room(r)
  {
  }

  /** A buffer of capacity 0 never grows, so any put chain after `ensureSize` throws. */
  lemma ZeroCapacityOverflows<T>(b: Buffer<T>, vs: seq<T>, zero: T)
    requires WellFormed(b) && |b.data| == 0 && vs != []
    ensures var r := EnsureSize(b, |vs|, zero); |r.data| == 0 && PutAll(r, vs).1
  {
    PutAllEffect(EnsureSize(b, |vs|, zero), vs);
  }

  /**
   * As written, every reallocation of a non-empty buffer whose limit is at its capacity
   * throws: the old elements do not fit in half the capacity.
   */
  lemma AsWrittenOverflows<T>(b: Buffer<T>, add: nat, zero: T)
    requires WellFormed(b) && 1 <= |b.data| == b.limit && |b.data| < b.position + add
    ensures EnsureSizeAsWritten(b, add, zero) == Failure(BufferOverflow)
  {
    assert (|b.data| * 2) / ElementBytes < |b.data|;
  }

  /** The append methods: `ensureSize(|vs|)`, then the chain of puts of `vs`. */
  function Appended<T>(b: Buffer<T>, vs: seq<T>, zero: T): (r: (Buffer<T>, bool))
    requires WellFormed(b)
    ensures WellFormed(r.0)
  {
    PutAll(EnsureSize(b, |vs|, zero), vs)
  }

  /**
   * With the limit at the capacity and no more values than the capacity, an append
   * never throws: the values land, in order, at the old position, everything before
   * them stays, and the limit stays at the (possibly doubled) capacity.
   */
  lemma AppendFits<T>(b: Buffer<T>, vs: seq<T>, zero: T)
    requires WellFormed(b) && b.limit == |b.data| && |vs| <= |b.data|
    ensures var r := Appended(b, vs, zero);
            !r.1 && r.0.limit == |r.0.data| && r.0.position == b.position + |vs| &&
            r.0.data[..b.position] == b.data[..b.position] && r.0.data[b.position..r.0.position] == vs
  {
    var grown := EnsureSize(b, |vs|, zero);
    EnsureSizeKeeps(b, |vs|, zero);
    EnsureSizeRoom(b, |vs|, zero);
    PutAllEffect(grown, vs);
  }

  /** `upload`: what is sent is the written prefix; then position 0 and limit at the old position. */
  function Flip<T>(b: Buffer<T>): (r: (seq<T>, Buffer<T>))
    requires WellFormed(b)
    ensures WellFormed(r.1) && r.1.data == b.data && |r.0| == b.position
  {
    (b.data[..b.position], Buffer(b.data, 0, b.position))
  }

  /** A fresh array of twice the length holding the old elements up to `limit`, zero after. */
  method GrowArray<T>(a: array<T>, limit: nat, zero: T) returns (r: array<T>)
    requires limit <= a.Length
    ensures fresh(r) && r.Length == 2 * a.Length
    ensures r[..] == a[..limit] + seq(2 * a.Length - limit, _ => zero)
  {
    r := new T[2 * a.Length](_ => zero);
    var k := 0;
    while k < limit
      invariant 0 <= k <= limit
      invariant forall j :: 0 <= j < k ==> r[j] == a[j]
      invariant forall j :: k <= j < r.Length ==> r[j] == zero
    {
      r[k] := a[k];
      k := k + 1;
    }
  }
}
