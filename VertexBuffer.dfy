/**
 * `VertexBuffer`: a growable buffer of vertex attributes (floats) handed to OpenGL as an
 * array buffer. Each vertex takes `size` bytes; with the default layout that is a
 * position (3 floats, byte 0), an RGB colour (3 floats, byte 12) and a texture
 * coordinate (2 floats, byte 24), 32 bytes in all. Floats are exact reals here.
 */
module VertexBuffer {
  import opened Wrappers
  import opened NioBuffer
  import JavaInt

  /** `GL_STATIC_DRAW`, the usage hint of the short constructors. */
  const StaticDraw := 0x88E4
  /** The bytes of one vertex in the default layout. */
  const DefaultSize := 32
  /** The default byte offsets of the attributes within a vertex. */
  const PosOffset := 0
  const ColorOffset := 12
  const UvOffset := 24

  /** 256 to the power `k`: the weight of byte `k` of an `int`. */
  function ByteWeight(k: nat): (w: nat)
    ensures w >= 1
  {
    if k == 0 then 1 else 256 * ByteWeight(k - 1)
  }

  /**
   * `(color >> 8 * k) & 0xFF` on a Java `int`: the arithmetic shift is floor division by
   * 256^k, and the mask is the remainder modulo 256 of the two's-complement value.
   */
  function Channel(color: int, k: nat): (c: int)
    ensures 0 <= c < 256
  {
    (color / ByteWeight(k)) % 256
  }

  /** A channel as the float `channel / 255f`. */
  function Unit(channel: int): real {
    channel as real / 255.0
  }

  /** `color(int)`: red, green and blue from bits 16-23, 8-15 and 0-7. */
  function Rgb(color: int): seq<real> {
    [Unit(Channel(color, 2)), Unit(Channel(color, 1)), Unit(Channel(color, 0))]
  }

  /** `colorAlpha(int)`: red, green, blue and alpha from bits 24-31, 16-23, 8-15 and 0-7. */
  function Rgba(color: int): seq<real> {
    [Unit(Channel(color, 3)), Unit(Channel(color, 2)), Unit(Channel(color, 1)), Unit(Channel(color, 0))]
  }

  /** Packing channels into `0xRRGGBB` and unpacking them with `color(int)` gives them back. */
  lemma RgbOfPacked(red: int, green: int, blue: int)
    requires 0 <= red < 256 && 0 <= green < 256 && 0 <= blue < 256
    ensures Rgb(red * 0x10000 + green * 0x100 + blue) == [Unit(red), Unit(green), Unit(blue)]
  {
    var color := red * 0x10000 + green * 0x100 + blue;
    JavaInt.DivAdd(red * 0x100 + green, blue, 0x100);
    JavaInt.DivAdd(red, green, 0x100);
    JavaInt.DivAdd(red, green * 0x100 + blue, 0x10000);
    JavaInt.DivAdd(0, red, 0x100);
    JavaInt.DivAdd(0, blue, 0x100);
    assert color / ByteWeight(1) == red * 0x100 + green;
    assert color / ByteWeight(2) == red;
  }

  /**
   * Packing into `0xRRGGBBAA` as a Java `int` (negative when red is 128 or more) and
   * unpacking with `colorAlpha(int)` gives the channels back.
   */
  lemma RgbaOfPacked(red: int, green: int, blue: int, alpha: int)
    requires 0 <= red < 256 && 0 <= green < 256 && 0 <= blue < 256 && 0 <= alpha < 256
    ensures Rgba(JavaInt.Wrap32(red * 0x100_0000 + green * 0x1_0000 + blue * 0x100 + alpha)) ==
            [Unit(red), Unit(green), Unit(blue), Unit(alpha)]
  {
    var low := green * 0x1_0000 + blue * 0x100 + alpha;
    var top := if red < 128 then red else red - 256;
    var color := top * 0x100_0000 + low;
    assert JavaInt.Wrap32(red * 0x100_0000 + low) == color;
    JavaInt.DivAdd(top * 0x1_0000 + green * 0x100 + blue, alpha, 0x100);
    JavaInt.DivAdd(top * 0x100 + green, blue * 0x100 + alpha, 0x1_0000);
    JavaInt.DivAdd(top, low, 0x100_0000);
    assert color / ByteWeight(1) == top * 0x1_0000 + green * 0x100 + blue;
    assert color / ByteWeight(2) == top * 0x100 + green;
    assert color / ByteWeight(3) == top;
    JavaInt.DivAdd(top * 0x100 + green, blue, 0x100);
    JavaInt.DivAdd(top, green, 0x100);
    JavaInt.DivAdd(if red < 128 then 0 else -1, red, 0x100);
    JavaInt.DivAdd(0, alpha, 0x100);
  }

  /** The `glBufferSubData` call an `updateVertex*` method makes. */
  datatype SubData = SubData(byteOffset: int, values: seq<real>)

  /** `Preconditions.checkArgument` failing. */
  datatype Rejected = IllegalArgument

  class VertexBuffer {
    const id: int
    const mode: int
    /** The bytes of one vertex. */
    const size: nat
    var vertices: array<real>
    var position: nat
    var limit: nat
    var nowVertexes: int

    /** The float buffer as a value. */
    ghost function Vertices(): Buffer<real>
      reads this, vertices
    {
      Buffer(vertices[..], position, limit)
    }

    ghost predicate Valid()
      reads this, vertices
    {
      WellFormed(Vertices())
    }

    /** No upload has moved the limit: it is at the capacity. */
    ghost predicate Growing()
      reads this, vertices
    {
      limit == vertices.Length
    }

    /**
     * `VertexBuffer(vertexes, mode, setter, size)`: `vertexes * size` bytes of floats;
     * the short constructors use `GL_STATIC_DRAW` and 32-byte vertices.
     */
    constructor (id: int, vertexes: nat, mode: int := StaticDraw, size: nat := DefaultSize)
      requires vertexes * size <= JavaInt.MaxInt
      ensures Valid() && Growing() && Vertices() == Allocate(vertexes * size / ElementBytes, 0.0)
      ensures nowVertexes == 0 && this.id == id && this.mode == mode && this.size == size
    {
      this.id := id;
      this.mode := mode;
      this.size := size;
      vertices := new real[vertexes * size / ElementBytes](_ => 0.0);
      position := 0;
      limit := vertexes * size / ElementBytes;
      nowVertexes := 0;
    }

    /** `ensureSize`: grow, by doubling, when `add` more floats would not fit the capacity. */
    method EnsureSize(add: nat)
      requires Valid()
      modifies this
      ensures Valid() && Vertices() == NioBuffer.EnsureSize(old(Vertices()), add, 0.0)
      ensures vertices == old(vertices) || fresh(vertices)
      ensures nowVertexes == old(nowVertexes)
    {
      if vertices.Length < position + add {
        vertices := GrowArray(vertices, limit, 0.0);
        limit := vertices.Length;
      }
    }

    /** A chain of relative puts, stopping at the first that throws. */
    method PutEach(vs: seq<real>) returns (ok: bool)
      requires Valid()
      modifies this`position, vertices
      ensures Valid() && limit == old(limit) && nowVertexes == old(nowVertexes)
      ensures PutAll(old(Vertices()), vs) == (Vertices(), !ok)
      decreases |vs|
    {
      if vs == [] {
        return true;
      }
      if position < limit {
        vertices[position] := vs[0];
        position := position + 1;
        ok := PutEach(vs[1..]);
      } else {
        ok := false;
      }
    }

    /** `ensureSize(|vs|)` followed by the puts of `vs`, as every append method does. */
    method Append(vs: seq<real>) returns (r: Outcome<Exception>)
      requires Valid()
      modifies this, vertices
      ensures Valid() && nowVertexes == old(nowVertexes)
      ensures (Vertices(), r.Fail?) == Appended(old(Vertices()), vs, 0.0)
      ensures r.Fail? ==> r.error == BufferOverflow
      ensures old(Growing()) && |vs| <= old(vertices.Length) ==>
                r.Pass? && Growing() && position == old(position) + |vs| &&
                vertices[..old(position)] == old(vertices[..position]) && vertices[old(position)..position] == vs
    {
      ghost var before := Vertices();
      EnsureSize(|vs|);
      var ok := PutEach(vs);
      r := if ok then Pass else Fail(BufferOverflow);
      if old(Growing()) && |vs| <= old(vertices.Length) {
        AppendFits(before, vs, 0.0);
      }
    }

    /** `pos(x, y, z)`. */
    method Pos(x: real, y: real, z: real) returns (r: Outcome<Exception>)
      requires Valid()
      modifies this, vertices
      ensures Valid() && nowVertexes == old(nowVertexes)
      ensures (Vertices(), r.Fail?) == Appended(old(Vertices()), [x, y, z], 0.0)
    {
      r := Append([x, y, z]);
    }

    /** `color(r, g, b)`. */
    method Color(red: real, green: real, blue: real) returns (r: Outcome<Exception>)
      requires Valid()
      modifies this, vertices
      ensures Valid() && nowVertexes == old(nowVertexes)
      ensures (Vertices(), r.Fail?) == Appended(old(Vertices()), [red, green, blue], 0.0)
    {
      r := Append([red, green, blue]);
    }

    /** `color(int)`: the channels of `0xRRGGBB`, each divided by 255. */
    method ColorPacked(color: int) returns (r: Outcome<Exception>)
      requires Valid()
      modifies this, vertices
      ensures Valid() && nowVertexes == old(nowVertexes)
      ensures (Vertices(), r.Fail?) == Appended(old(Vertices()), Rgb(color), 0.0)
    {
      var rgb := Rgb(color);
      r := Color(rgb[0], rgb[1], rgb[2]);
    }

    /** `colorAlpha(r, g, b, a)`. */
    method ColorAlpha(red: real, green: real, blue: real, alpha: real) returns (r: Outcome<Exception>)
      requires Valid()
      modifies this, vertices
      ensures Valid() && nowVertexes == old(nowVertexes)
      ensures (Vertices(), r.Fail?) == Appended(old(Vertices()), [red, green, blue, alpha], 0.0)
    {
      r := Append([red, green, blue, alpha]);
    }

    /** `colorAlpha(int)`: the channels of `0xRRGGBBAA`, each divided by 255. */
    method ColorAlphaPacked(color: int) returns (r: Outcome<Exception>)
      requires Valid()
      modifies this, vertices
      ensures Valid() && nowVertexes == old(nowVertexes)
      ensures (Vertices(), r.Fail?) == Appended(old(Vertices()), Rgba(color), 0.0)
    {
      var rgba := Rgba(color);
      r := ColorAlpha(rgba[0], rgba[1], rgba[2], rgba[3]);
    }

    /** `uv(u, v)`. */
    method Uv(u: real, v: real) returns (r: Outcome<Exception>)
      requires Valid()
      modifies this, vertices
      ensures Valid() && nowVertexes == old(nowVertexes)
      ensures (Vertices(), r.Fail?) == Appended(old(Vertices()), [u, v], 0.0)
    {
      r := Append([u, v]);
    }

    /** `endVertex`: the only operation that changes the vertex count. */
    method EndVertex()
      modifies this`nowVertexes
      ensures nowVertexes == old(nowVertexes) + 1
    {
      nowVertexes := nowVertexes + 1;
    }

    /** `getVertexes`. */
    function GetVertexes(): int
      reads this
    {
      nowVertexes
    }

    /**
     * The `updateVertex*` methods: rejected unless `vertex < nowVertexes` (a negative
     * vertex passes); otherwise one `glBufferSubData` of the values at byte
     * `vertex * size + offset`, computed in `long`.
     */
    function UpdateVertex(vertex: int, values: seq<real>, offset: int): (r: Result<SubData, Rejected>)
      reads this
      ensures r.Success? <==> vertex < nowVertexes
      ensures r.Success? ==> r.value.values == values && r.value.byteOffset - offset == vertex * size
    {
      if vertex < nowVertexes then Success(SubData(vertex * size + offset, values))
      else Failure(IllegalArgument)
    }

    function UpdateVertexPos(vertex: int, x: real, y: real, z: real, offset: int := PosOffset): Result<SubData, Rejected>
      reads this
    {
      UpdateVertex(vertex, [x, y, z], offset)
    }

    function UpdateVertexColor(vertex: int, red: real, green: real, blue: real, offset: int := ColorOffset)
      : Result<SubData, Rejected>
      reads this
    {
      UpdateVertex(vertex, [red, green, blue], offset)
    }

    function UpdateVertexColorPacked(vertex: int, color: int): Result<SubData, Rejected>
      reads this
    {
      var rgb := Rgb(color);
      UpdateVertexColor(vertex, rgb[0], rgb[1], rgb[2])
    }

    function UpdateVertexColorAlpha(vertex: int, red: real, green: real, blue: real, alpha: real,
                                    offset: int := ColorOffset): Result<SubData, Rejected>
      reads this
    {
      UpdateVertex(vertex, [red, green, blue, alpha], offset)
    }

    function UpdateVertexColorAlphaPacked(vertex: int, color: int): Result<SubData, Rejected>
      reads this
    {
      var rgba := Rgba(color);
      UpdateVertexColorAlpha(vertex, rgba[0], rgba[1], rgba[2], rgba[3])
    }

    function UpdateVertexUv(vertex: int, u: real, v: real, offset: int := UvOffset): Result<SubData, Rejected>
      reads this
    {
      UpdateVertex(vertex, [u, v], offset)
    }

    /**
     * In the default 32-byte layout, the default position, colour and texture-coordinate
     * updates of an existing vertex write the byte ranges 0-12, 12-24 and 24-32 of that
     * vertex: inside its record and disjoint from each other.
     */
    lemma DefaultUpdatesInVertex(vertex: nat, x: real, y: real, z: real, red: real, green: real, blue: real,
                                 u: real, v: real)
      requires size == DefaultSize && vertex < nowVertexes
      ensures var p, c, t := UpdateVertexPos(vertex, x, y, z), UpdateVertexColor(vertex, red, green, blue),
                             UpdateVertexUv(vertex, u, v);
              p.Success? && c.Success? && t.Success? &&
              vertex * size == p.value.byteOffset &&
              p.value.byteOffset + 4 * |p.value.values| == c.value.byteOffset &&
              c.value.byteOffset + 4 * |c.value.values| == t.value.byteOffset &&
              t.value.byteOffset + 4 * |t.value.values| == (vertex + 1) * size
    {
    }

    /**
     * `upload`: the limit moves to the position and the position back to 0, so the data
     * sent is exactly the floats written so far.
     */
    method Upload() returns (sent: seq<real>)
      requires Valid()
      modifies this`position, this`limit
      ensures Valid() && (sent, Vertices()) == Flip(old(Vertices()))
    {
      sent := vertices[..position];
      limit := position;
      position := 0;
    }
  }
}
