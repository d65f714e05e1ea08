/**
 * Axis-aligned bounding boxes. `Box` is the value a box holds; the functions on it
 * say what each operation computes, and class `AABB` is the mutable object of the
 * source, whose methods update its four public fields in place.
 * Coordinates are integer pixels.
 */
module Aabb {
  import opened Wrappers

  datatype Box = Box(minX: int, minY: int, maxX: int, maxY: int)

  /** The shared zero box `AABB_NULL`. */
  const Zero: Box := Box(0, 0, 0, 0)

  /** `isValid`: the minimum corner is below and left of the maximum corner. */
  predicate WellFormed(b: Box) {
    b.minX <= b.maxX && b.minY <= b.maxY
  }

  function Min(a: int, b: int): int { if a <= b then a else b }
  function Max(a: int, b: int): int { if a <= b then b else a }

  /** `validate`: swaps the coordinates of an axis whose minimum exceeds its maximum. */
  function Normalize(b: Box): (r: Box)
    ensures WellFormed(r)
    ensures WellFormed(b) ==> r == b
    ensures r.minX == Min(b.minX, b.maxX) && r.maxX == Max(b.minX, b.maxX)
    ensures r.minY == Min(b.minY, b.maxY) && r.maxY == Max(b.minY, b.maxY)
  {
    Box(Min(b.minX, b.maxX), Min(b.minY, b.maxY), Max(b.minX, b.maxX), Max(b.minY, b.maxY))
  }

  /** `validate` leaves a valid box as it is, and so validating twice is validating once. */
  lemma NormalizeIdempotent(b: Box)
    ensures WellFormed(b) ==> Normalize(b) == b
    ensures Normalize(Normalize(b)) == Normalize(b)
  {
  }

  /**
   * `newAABB(minX, minY, maxX, maxY, checkValid)`. With `checkValid` it raises
   * `IllegalArgumentException` when the given box is ALREADY valid: the source checks
   * `!isValid()`, the reverse of what its message says, and the model keeps that.
   */
  function Create(minX: int, minY: int, maxX: int, maxY: int, checkValid: bool): (r: Result<Box, string>)
    ensures r.Failure? <==> checkValid && minX <= maxX && minY <= maxY
    ensures r.Success? ==> WellFormed(r.value)
    ensures r.Success? ==> r.value.minX == Min(minX, maxX) && r.value.maxX == Max(minX, maxX)
    ensures r.Success? ==> r.value.minY == Min(minY, maxY) && r.value.maxY == Max(minY, maxY)
  {
    var raw := Box(minX, minY, maxX, maxY);
    if checkValid && WellFormed(raw) then Failure("Invalid AABB") else Success(Normalize(raw))
  }

  /** `newAABB` without the check: the normalised box, always. */
  function NewBox(minX: int, minY: int, maxX: int, maxY: int): (r: Box)
    ensures Create(minX, minY, maxX, maxY, false) == Success(r)
  {
    Normalize(Box(minX, minY, maxX, maxY))
  }

  /** `move(x, y)`: every coordinate shifted, then validated. */
  function Translate(b: Box, x: int, y: int): Box {
    Normalize(Box(b.minX + x, b.minY + y, b.maxX + x, b.maxY + y))
  }

  /** `inflate(x, y)`: validate, push every edge outwards by x or y, validate again. */
  function Grow(b: Box, x: int, y: int): Box {
    var n := Normalize(b);
    Normalize(Box(n.minX - x, n.minY - y, n.maxX + x, n.maxY + y))
  }

  /** `getWidth`, after `validate`. */
  function Width(b: Box): (w: int)
    ensures w >= 0
    ensures WellFormed(b) ==> w == b.maxX - b.minX
  {
    if b.minX <= b.maxX then b.maxX - b.minX else b.minX - b.maxX
  }

  /** `getHeight`, after `validate`. */
  function Height(b: Box): (h: int)
    ensures h >= 0
    ensures WellFormed(b) ==> h == b.maxY - b.minY
  {
    if b.minY <= b.maxY then b.maxY - b.minY else b.minY - b.maxY
  }

  /** Width and height are those of the validated box, and validating keeps them. */
  lemma SizeOfNormalized(b: Box)
    ensures Width(b) == Normalize(b).maxX - Normalize(b).minX && Width(Normalize(b)) == Width(b)
    ensures Height(b) == Normalize(b).maxY - Normalize(b).minY && Height(Normalize(b)) == Height(b)
  {
  }

  /** `intersects`: both validated, then a strict overlap test on both axes. */
  predicate Overlaps(a: Box, b: Box) {
    var na := Normalize(a);
    var nb := Normalize(b);
    na.minX < nb.maxX && na.maxX > nb.minX && na.minY < nb.maxY && na.maxY > nb.minY
  }

  /** `intersect`: the common part, or the zero box when the boxes do not intersect. */
  function Intersection(a: Box, b: Box): Box {
    if !Overlaps(a, b) then Zero
    else
      var na := Normalize(a);
      var nb := Normalize(b);
      Box(Max(na.minX, nb.minX), Max(na.minY, nb.minY), Min(na.maxX, nb.maxX), Min(na.maxY, nb.maxY))
  }

  /** `boundWith`: the smallest box around both validated boxes. */
  function Bound(a: Box, b: Box): Box {
    var na := Normalize(a);
    var nb := Normalize(b);
    Box(Min(na.minX, nb.minX), Min(na.minY, nb.minY), Max(na.maxX, nb.maxX), Max(na.maxY, nb.maxY))
  }

  /** `contains(x, y)`: inclusive on every edge; it does not validate first. */
  predicate ContainsPoint(b: Box, x: int, y: int) {
    b.minX <= x <= b.maxX && b.minY <= y <= b.maxY
  }

  /** `inner` lies within `outer`. */
  predicate Within(inner: Box, outer: Box) {
    outer.minX <= inner.minX && inner.maxX <= outer.maxX &&
    outer.minY <= inner.minY && inner.maxY <= outer.maxY
  }

  /** `move` shifts the validated box by (x, y) and keeps its size. */
  lemma TranslateShifts(b: Box, x: int, y: int)
    ensures Translate(b, x, y) == Box(Normalize(b).minX + x, Normalize(b).minY + y,
                                      Normalize(b).maxX + x, Normalize(b).maxY + y)
    ensures Width(Translate(b, x, y)) == Width(b) && Height(Translate(b, x, y)) == Height(b)
  {
  }

  /** `inflate` by non-negative amounts grows the box around the validated original. */
  lemma GrowContains(b: Box, x: int, y: int)
    requires x >= 0 && y >= 0
    ensures Within(Normalize(b), Grow(b, x, y))
    ensures Width(Grow(b, x, y)) == Width(b) + 2 * x && Height(Grow(b, x, y)) == Height(b) + 2 * y
  {
  }

  /** `intersects` is symmetric. */
  lemma OverlapsSymmetric(a: Box, b: Box)
    ensures Overlaps(a, b) == Overlaps(b, a)
  {
  }

  /** `intersects` is strict: boxes that only share an edge do not intersect. */
  lemma SharedEdgeIsNoOverlap(a: Box, b: Box)
    requires WellFormed(a) && WellFormed(b)
    requires a.maxX == b.minX || a.maxY == b.minY || b.maxX == a.minX || b.maxY == a.minY
    ensures !Overlaps(a, b)
  {
  }

  /** `intersect` yields a valid box inside both operands, or the zero box when they do not intersect. */
  lemma IntersectionWithin(a: Box, b: Box)
    ensures !Overlaps(a, b) ==> Intersection(a, b) == Zero
    ensures Overlaps(a, b) ==> WellFormed(Intersection(a, b)) &&
                               Within(Intersection(a, b), Normalize(a)) &&
                               Within(Intersection(a, b), Normalize(b))
  {
  }

  /** A point lies in the intersection exactly when it lies in both (validated) boxes. */
  lemma IntersectionPoints(a: Box, b: Box, x: int, y: int)
    requires Overlaps(a, b)
    ensures ContainsPoint(Intersection(a, b), x, y) <==>
            ContainsPoint(Normalize(a), x, y) && ContainsPoint(Normalize(b), x, y)
  {
  }

  /** `boundWith` contains both (validated) operands. */
  lemma BoundContainsBoth(a: Box, b: Box)
    ensures WellFormed(Bound(a, b))
    ensures Within(Normalize(a), Bound(a, b)) && Within(Normalize(b), Bound(a, b))
  {
  }

  /** A valid box contains its four corners. */
  lemma ContainsCorners(b: Box)
    requires WellFormed(b)
    ensures ContainsPoint(b, b.minX, b.minY) && ContainsPoint(b, b.maxX, b.maxY)
    ensures ContainsPoint(b, b.minX, b.maxY) && ContainsPoint(b, b.maxX, b.minY)
  {
  }

  /** The mutable box of the source. */
  class AABB {
    var minX: int
    var minY: int
    var maxX: int
    var maxY: int

    function Value(): Box
      reads this
    {
      Box(minX, minY, maxX, maxY)
    }

    /** `new AABB()` followed by assignments to the four fields. */
    constructor (b: Box)
      ensures Value() == b
    {
      minX, minY, maxX, maxY := b.minX, b.minY, b.maxX, b.maxY;
    }

    /** The static factory `newAABB`; the `Failure` case is its `IllegalArgumentException`. */
    static method NewAABB(minX: int, minY: int, maxX: int, maxY: int, checkValid: bool)
      returns (r: Result<AABB, string>)
      ensures r.Failure? <==> Create(minX, minY, maxX, maxY, checkValid).Failure?
      ensures r.Success? ==> fresh(r.value) &&
                             r.value.Value() == Create(minX, minY, maxX, maxY, checkValid).value
    {
      var aabb := new AABB(Box(minX, minY, maxX, maxY));
      if checkValid && aabb.IsValid() {
        return Failure("Invalid AABB");
      }
      aabb.Validate();
      r := Success(aabb);
    }

    predicate IsValid()
      reads this
    {
      minX <= maxX && minY <= maxY
    }

    method Validate()
      modifies this
      ensures Value() == Normalize(old(Value()))
    {
      if minX > maxX {
        var tmp := minX;
        minX := maxX;
        maxX := tmp;
      }
      if minY > maxY {
        var tmp := minY;
        minY := maxY;
        maxY := tmp;
      }
    }

    method Move(x: int, y: int)
      modifies this
      ensures Value() == Translate(old(Value()), x, y)
    {
      minX := minX + x;
      minY := minY + y;
      maxX := maxX + x;
      maxY := maxY + y;
      Validate();
    }

    method Inflate(x: int, y: int)
      modifies this
      ensures Value() == Grow(old(Value()), x, y)
    {
      Validate();
      minX := minX - x;
      minY := minY - y;
      maxX := maxX + x;
      maxY := maxY + y;
      Validate();
    }

    /** `inflate(d)`. */
    method InflateBy(d: int)
      modifies this
      ensures Value() == Grow(old(Value()), d, d)
    {
      Inflate(d, d);
    }

    /** `deflate(d)`, which is `inflate(-d)`. */
    method Deflate(d: int)
      modifies this
      ensures Value() == Grow(old(Value()), -d, -d)
    {
      InflateBy(-d);
    }

    /** `intersects` validates both boxes in place before testing. */
    method Intersects(other: AABB) returns (b: bool)
      modifies this, other
      ensures b == Overlaps(old(Value()), old(other.Value()))
      ensures Value() == Normalize(old(Value())) && other.Value() == Normalize(old(other.Value()))
    {
      Validate();
      other.Validate();
      b := minX < other.maxX && maxX > other.minX && minY < other.maxY && maxY > other.minY;
    }

    method Intersect(other: AABB) returns (r: AABB)
      modifies this, other
      ensures fresh(r) && r.Value() == Intersection(old(Value()), old(other.Value()))
      ensures Value() == Normalize(old(Value())) && other.Value() == Normalize(old(other.Value()))
    {
      var hit := Intersects(other);
      if !hit {
        r := new AABB(Zero);
        return;
      }
      r := new AABB(Box(Max(minX, other.minX), Max(minY, other.minY), Min(maxX, other.maxX), Min(maxY, other.maxY)));
    }

    method BoundWith(other: AABB) returns (r: AABB)
      modifies this, other
      ensures fresh(r) && r.Value() == Bound(old(Value()), old(other.Value()))
      ensures Value() == Normalize(old(Value())) && other.Value() == Normalize(old(other.Value()))
    {
      Validate();
      other.Validate();
      r := new AABB(Box(Min(minX, other.minX), Min(minY, other.minY), Max(maxX, other.maxX), Max(maxY, other.maxY)));
    }

    predicate Contains(x: int, y: int)
      reads this
    {
      minX <= x <= maxX && minY <= y <= maxY
    }

    method GetWidth() returns (w: int)
      modifies this
      ensures w == Width(old(Value())) && Value() == Normalize(old(Value()))
    {
      Validate();
      w := maxX - minX;
    }

    method GetHeight() returns (h: int)
      modifies this
      ensures h == Height(old(Value())) && Value() == Normalize(old(Value()))
    {
      Validate();
      h := maxY - minY;
    }

    method NewCopy() returns (r: AABB)
      modifies this
      ensures fresh(r) && r.Value() == Normalize(old(Value())) && Value() == Normalize(old(Value()))
    {
      Validate();
      r := new AABB(Value());
    }

    /** `equals`: the four coordinates agree. */
    predicate Equals(other: AABB)
      reads this, other
      ensures Equals(other) <==> Value() == other.Value()
    {
      minX == other.minX && minY == other.minY && maxX == other.maxX && maxY == other.maxY
    }
  }
}
