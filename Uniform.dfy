/**
 * `Uniform`: a shader uniform with a typed client-side buffer and a dirty flag; `upload`
 * sends the buffer with one `glUniform*` call only when it changed since the last upload.
 * The GL calls issued are recorded in `issued`; `glGetUniformLocation` is an input.
 */
module Uniform {
  import opened Wrappers

  /** `Uniform.Type`, in declaration order. */
  datatype Type = Int1 | Int2 | Int3 | Int4 | Float1 | Float2 | Float3 | Float4 | Matrix2 | Matrix3 | Matrix4

  function Ordinal(t: Type): nat {
    match t
    case Int1 => 0 case Int2 => 1 case Int3 => 2 case Int4 => 3
    case Float1 => 4 case Float2 => 5 case Float3 => 6 case Float4 => 7
    case Matrix2 => 8 case Matrix3 => 9 case Matrix4 => 10
  }

  /** `Type.count`: the number of values the uniform holds. */
  function Count(t: Type): nat {
    match t
    case Int1 => 1 case Int2 => 2 case Int3 => 3 case Int4 => 4
    case Float1 => 1 case Float2 => 2 case Float3 => 3 case Float4 => 4
    case Matrix2 => 4 case Matrix3 => 9 case Matrix4 => 16
  }

  predicate IsMatrix(t: Type) {
    t.Matrix2? || t.Matrix3? || t.Matrix4?
  }

  /** The `n` in the type's name: the vector length, or the side of the square matrix. */
  function Dimension(t: Type): nat {
    match t
    case Int1 => 1 case Int2 => 2 case Int3 => 3 case Int4 => 4
    case Float1 => 1 case Float2 => 2 case Float3 => 3 case Float4 => 4
    case Matrix2 => 2 case Matrix3 => 3 case Matrix4 => 4
  }

  /** The constructor's choice: an int buffer for the first four types, a float buffer otherwise. */
  predicate UsesIntBuffer(t: Type) {
    Ordinal(t) < 4
  }

  /** The count of a vector type is its length, of a matrix type its side squared. */
  lemma CountTable(t: Type)
    ensures Count(t) == if IsMatrix(t) then Dimension(t) * Dimension(t) else Dimension(t)
    ensures 1 <= Dimension(t) <= 4
  {
  }

  /** Exactly the `INT_n` types use the int buffer. */
  lemma IntBufferTypes(t: Type)
    ensures UsesIntBuffer(t) <==> t.Int1? || t.Int2? || t.Int3? || t.Int4?
  {
  }

  /** A `glUniform*` call: its size `n`, the location and the values sent. */
  datatype Call =
    | IntVector(n: nat, location: int, ints: seq<int>)
    | FloatVector(n: nat, location: int, floats: seq<real>)
    | FloatMatrix(n: nat, location: int, transpose: bool, floats: seq<real>)

  /** The exceptions `setInt` and `setFloat` can throw. */
  datatype Thrown = IllegalArgument | IllegalState | BufferOverflow

  /** The one call `upload` makes for a type: `glUniform{n}iv`, `glUniform{n}fv` or `glUniformMatrix{n}fv`. */
  function CallFor(t: Type, location: int, ints: seq<int>, floats: seq<real>): (c: Call)
    ensures c.IntVector? <==> UsesIntBuffer(t)
    ensures c.FloatMatrix? <==> IsMatrix(t)
    ensures c.n == Dimension(t) && c.location == location
    ensures c.IntVector? ==> c.ints == ints
    ensures !c.IntVector? ==> c.floats == floats
    ensures c.FloatMatrix? ==> !c.transpose
  {
    if UsesIntBuffer(t) then IntVector(Dimension(t), location, ints)
    else if IsMatrix(t) then FloatMatrix(Dimension(t), location, false, floats)
    else FloatVector(Dimension(t), location, floats)
  }

  /**
   * What `setInt`/`setFloat` accept, as written: `checkArgument(data.length != count)`
   * rejects a full array, and a longer one overflows the buffer of `count` values.
   */
  predicate LengthAccepted(length: nat, count: nat) {
    length != count && length <= count
  }

  /** So only arrays shorter than the count are accepted: a full set is impossible. */
  lemma OnlyShorterAccepted(length: nat, count: nat)
    ensures LengthAccepted(length, count) <==> length < count
    ensures !LengthAccepted(count, count)
  {
  }

  class Uniform {
    const kind: Type
    const name: string
    var location: int
    var ibuf: array?<int>
    var fbuf: array?<real>
    var dirty: bool
    /** The `glUniform*` calls issued so far. */
    var issued: seq<Call>

    /** Exactly one buffer, of the kind and size the type asks for. */
    ghost predicate Valid()
      reads this
    {
      (UsesIntBuffer(kind) ==> ibuf != null && fbuf == null && ibuf.Length == Count(kind)) &&
      (!UsesIntBuffer(kind) ==> fbuf != null && ibuf == null && fbuf.Length == Count(kind))
    }

    /**
     * `Uniform(name, type)`: allocates the buffer the type asks for and starts dirty.
     * `memAllocInt`/`memAllocFloat` memory is uninitialised; here it starts at zero.
     */
    constructor (name: string, kind: Type)
      ensures Valid() && (ibuf != null ==> fresh(ibuf)) && (fbuf != null ==> fresh(fbuf))
      ensures this.name == name && this.kind == kind && dirty && issued == []
    {
      this.name := name;
      this.kind := kind;
      location := 0;
      if Ordinal(kind) < 4 {
        ibuf := new int[Count(kind)];
        fbuf := null;
      } else {
        ibuf := null;
        fbuf := new real[Count(kind)](_ => 0.0);
      }
      dirty := true;
      issued := [];
    }

    /** `updateUniformLocation(program)`: the location GL reports for the name. */
    method UpdateUniformLocation(found: int)
      modifies this`location
      ensures location == found
    {
      location := found;
    }

    /**
     * `setInt(data)`: the argument check, then the buffer check, then a bulk put at 0,
     * which throws without writing when the data does not fit; success marks it dirty.
     */
    method SetInt(data: seq<int>) returns (r: Outcome<Thrown>)
      requires Valid()
      modifies this`dirty, ibuf
      ensures Valid()
      ensures |data| == Count(kind) ==> r == Fail(IllegalArgument)
      ensures |data| != Count(kind) && !UsesIntBuffer(kind) ==> r == Fail(IllegalState)
      ensures r.Pass? <==> UsesIntBuffer(kind) && LengthAccepted(|data|, Count(kind))
      ensures r.Pass? ==> dirty && ibuf[..|data|] == data && ibuf[|data|..] == old(ibuf[|data|..])
      ensures r.Fail? ==> dirty == old(dirty) && (ibuf != null ==> ibuf[..] == old(ibuf[..]))
      ensures r.Fail? && |data| > Count(kind) && UsesIntBuffer(kind) ==> r == Fail(BufferOverflow)
    {
      if |data| == Count(kind) {
        return Fail(IllegalArgument);
      }
      if ibuf == null {
        return Fail(IllegalState);
      }
      if |data| > ibuf.Length {
        return Fail(BufferOverflow);
      }
      var k := 0;
      while k < |data|
        invariant 0 <= k <= |data|
        invariant ibuf[..k] == data[..k] && ibuf[|data|..] == old(ibuf[|data|..])
      {
        ibuf[k] := data[k];
        k := k + 1;
      }
      dirty := true;
      r := Pass;
    }

    /** `setFloat(data)`: as `setInt`, on the float buffer. */
    method SetFloat(data: seq<real>) returns (r: Outcome<Thrown>)
      requires Valid()
      modifies this`dirty, fbuf
      ensures Valid()
      ensures |data| == Count(kind) ==> r == Fail(IllegalArgument)
      ensures |data| != Count(kind) && UsesIntBuffer(kind) ==> r == Fail(IllegalState)
      ensures r.Pass? <==> !UsesIntBuffer(kind) && LengthAccepted(|data|, Count(kind))
      ensures r.Pass? ==> dirty && fbuf[..|data|] == data && fbuf[|data|..] == old(fbuf[|data|..])
      ensures r.Fail? ==> dirty == old(dirty) && (fbuf != null ==> fbuf[..] == old(fbuf[..]))
      ensures r.Fail? && |data| > Count(kind) && !UsesIntBuffer(kind) ==> r == Fail(BufferOverflow)
    {
      if |data| == Count(kind) {
        return Fail(IllegalArgument);
      }
      if fbuf == null {
        return Fail(IllegalState);
      }
      if |data| > fbuf.Length {
        return Fail(BufferOverflow);
      }
      var k := 0;
      while k < |data|
        invariant 0 <= k <= |data|
        invariant fbuf[..k] == data[..k] && fbuf[|data|..] == old(fbuf[|data|..])
      {
        fbuf[k] := data[k];
        k := k + 1;
      }
      dirty := true;
      r := Pass;
    }

    /** The call `upload` makes when dirty: the whole buffer (after `clear`). */
    ghost function PendingCall(): Call
      requires Valid()
      reads this, ibuf, fbuf
    {
      CallFor(kind, location, if ibuf != null then ibuf[..] else [], if fbuf != null then fbuf[..] else [])
    }

    /** `upload`: nothing when clean; otherwise clear the flag and issue the type's one call. */
    method Upload()
      requires Valid()
      modifies this`dirty, this`issued
      ensures Valid() && !dirty
      ensures issued == old(issued) + if old(dirty) then [old(PendingCall())] else []
    {
      if !dirty {
        return;
      }
      dirty := false;
      if Ordinal(kind) < 4 {
        var c := IntVector(Dimension(kind), location, ibuf[..]);
        issued := issued + [c];
      } else {
        var c := if IsMatrix(kind) then FloatMatrix(Dimension(kind), location, false, fbuf[..])
                 else FloatVector(Dimension(kind), location, fbuf[..]);
        issued := issued + [c];
      }
    }
  }

  /** Two uploads with no set between them issue one call in total, and none when clean. */
  method UploadTwice(u: Uniform)
    requires u.Valid()
    modifies u`dirty, u`issued
    ensures u.Valid() && !u.dirty
    ensures |u.issued| == |old(u.issued)| + if old(u.dirty) then 1 else 0
  {
    u.Upload();
    u.Upload();
  }
}
