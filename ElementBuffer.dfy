/**
 * `ElementBuffer`: a growable buffer of triangle indices handed to OpenGL as an element
 * array. The `IntBuffer` is an array plus its position and limit; `glGenBuffers` supplies
 * the id, and the data `glBufferData` receives is what `Upload` returns.
 */
module ElementBuffer {
  import opened Wrappers
  import opened NioBuffer
  import JavaInt

  /** `GL_STATIC_DRAW`, the usage hint of the one-argument constructor. */
  const StaticDraw := 0x88E4

  class ElementBuffer {
    const id: int
    const mode: int
    var indices: array<int>
    var position: nat
    var limit: nat
    var triangles: int

    /** The index buffer as a value. */
    ghost function Indices(): Buffer<int>
      reads this, indices
    {
      Buffer(indices[..], position, limit)
    }

    ghost predicate Valid()
      reads this, indices
    {
      WellFormed(Indices())
    }

    /**
     * The state while only `putTriangle` has run: three indices per triangle, the limit
     * at the capacity, and a capacity that is a multiple of three.
     */
    ghost predicate Appending()
      reads this, indices
    {
      position == 3 * triangles && limit == indices.Length && indices.Length % 3 == 0
    }

    /** `ElementBuffer(size, mode)`: room for `size` triangles, `size * 3 * 4` bytes. */
    constructor (size: nat, mode: int, id: int)
      requires size * 3 * ElementBytes <= JavaInt.MaxInt
      ensures Valid() && Appending() && Indices() == Allocate(3 * size, 0)
      ensures triangles == 0 && this.mode == mode && this.id == id
    {
      this.id := id;
      this.mode := mode;
      indices := new int[size * 3 * ElementBytes / ElementBytes](_ => 0);
      position := 0;
      limit := 3 * size;
      triangles := 0;
    }

    /** `ensureSize`: grow, by doubling, when `add` more indices would not fit the capacity. */
    method EnsureSize(add: nat)
      requires Valid()
      modifies this
      ensures Valid() && Indices() == NioBuffer.EnsureSize(old(Indices()), add, 0)
      ensures indices == old(indices) || fresh(indices)
      ensures triangles == old(triangles)
    {
      if indices.Length < position + add {
        indices := GrowArray(indices, limit, 0);
        limit := indices.Length;
      }
    }

    /** A chain of relative puts, stopping at the first that throws. */
    method PutEach(vs: seq<int>) returns (ok: bool)
      requires Valid()
      modifies this`position, indices
      ensures Valid() && limit == old(limit)
      ensures PutAll(old(Indices()), vs) == (Indices(), !ok)
      decreases |vs|
    {
      if vs == [] {
        return true;
      }
      if position < limit {
        indices[position] := vs[0];
        position := position + 1;
        ok := PutEach(vs[1..]);
      } else {
        ok := false;
      }
    }

    /**
     * `putTriangle`: make room for three more, count the triangle, then put `a`, `b`, `c`
     * in that order; a put at the limit throws, after the count and the earlier puts.
     */
    method PutTriangle(a: int, b: int, c: int) returns (r: Outcome<Exception>)
      requires Valid()
      modifies this, indices
      ensures Valid() && triangles == old(triangles) + 1
      ensures (Indices(), r.Fail?) == Appended(old(Indices()), [a, b, c], 0)
      ensures r.Fail? ==> r.error == BufferOverflow
      ensures old(Appending()) && 3 <= old(indices.Length) ==> r.Pass? && Appending()
      ensures old(indices.Length) == 0 ==> r.Fail?
    {
      ghost var before := Indices();
      EnsureSize(3);
      triangles := triangles + 1;
      var ok := PutEach([a, b, c]);
      r := if ok then Pass else Fail(BufferOverflow);
      if old(Appending()) && 3 <= old(indices.Length) {
        AppendingStep(before, old(triangles), a, b, c);
      }
      if old(indices.Length) == 0 {
        ZeroCapacityOverflows(before, [a, b, c], 0);
      }
    }

    /** `getTriangles`. */
    function GetTriangles(): int
      reads this
    {
      triangles
    }

    /**
     * `upload`: the limit moves to the position and the position back to 0, so the data
     * sent is the indices written so far, which is three per triangle while appending.
     */
    method Upload() returns (sent: seq<int>)
      requires Valid()
      modifies this`position, this`limit
      ensures Valid() && (sent, Indices()) == Flip(old(Indices()))
      ensures old(Appending()) ==> |sent| == 3 * GetTriangles()
    {
      sent := indices[..position];
      limit := position;
      position := 0;
    }
  }

  /** From three indices per triangle and a capacity that is a multiple of three, a triangle fits. */
  lemma AppendingStep(buffer: Buffer<int>, triangles: int, a: int, b: int, c: int)
    requires WellFormed(buffer) && buffer.limit == |buffer.data| && 3 <= |buffer.data|
    requires buffer.position == 3 * triangles && |buffer.data| % 3 == 0
    ensures var r := Appended(buffer, [a, b, c], 0);
            !r.1 && r.0.position == 3 * (triangles + 1) && r.0.limit == |r.0.data| && |r.0.data| % 3 == 0
  {
    EnsureSizeKeeps(buffer, 3, 0);
    AppendFits(buffer, [a, b, c], 0);
  }

  /**
   * As written, a buffer made for one triangle throws on the second: its three indices
   * are copied into the new buffer of `3 * 2` bytes, which holds one int.
   */
  lemma SecondTriangleOverflows(a: int, b: int, c: int)
    ensures var first := Appended(Allocate(3, 0), [a, b, c], 0);
            !first.1 && EnsureSizeAsWritten(first.0, 3, 0) == Failure(BufferOverflow)
  {
    var start := Allocate(3, 0);
    AppendFits(start, [a, b, c], 0);
    AsWrittenOverflows(Appended(start, [a, b, c], 0).0, 3, 0);
  }

  /** With the corrected doubling, the same buffer takes its second triangle. */
  lemma SecondTriangleFits(a: int, b: int, c: int)
    ensures var first := Appended(Allocate(3, 0), [a, b, c], 0);
            !first.1 && !Appended(first.0, [a, b, c], 0).1
  {
    var start := Allocate(3, 0);
    AppendFits(start, [a, b, c], 0);
    AppendFits(Appended(start, [a, b, c], 0).0, [a, b, c], 0);
  }
}
