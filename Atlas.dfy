/**
 * The glyph atlas: a guillotine packer over one 1024x1024 luminance image.
 * The free rectangles are a list of boxes searched first-fit; a placed glyph takes the
 * top-left corner of the chosen rectangle, and what is left of it goes back to the
 * list as zero, one or two rectangles. Rasterising into the image and uploading to the
 * texture are external; the model records them as events (`writes`, `uploads`).
 */
module Atlas {
  import opened Wrappers
  import opened Aabb

  /** Side of the square atlas image, in pixels. */
  const AtlasSize: int := 1024

  /** The free rectangle a fresh atlas starts with. */
  const Whole: Box := Box(0, 0, AtlasSize, AtlasSize)

  /** `FontVertexInfos`: the placed pixel rectangle and the glyph's offsets. */
  datatype GlyphInfo = GlyphInfo(atlas: FontAtlas, region: Box, leftSide: real, advanceWidth: real, topSide: real)

  /** One `copyFromFont` call: the glyph rasterised into `region` of the image. */
  datatype GlyphWrite = GlyphWrite(codepoint: int, region: Box)

  /** The lazily created `StaticTexture` and its two flags. */
  datatype TextureState = TextureState(linear: bool, clamp: bool)

  // ---------------------------------------------------------------------------
  // Choosing a free rectangle

  /** The glyph fits the rectangle, as tested in the scan of `putBitmap`. */
  predicate Fits(b: Box, w: int, h: int) {
    w <= Width(b) && h <= Height(b)
  }

  /** Index of the first rectangle that fits, or -1 when none does. */
  function FirstFit(spare: seq<Box>, w: int, h: int): (k: int)
    ensures -1 <= k < |spare|
    ensures k >= 0 ==> Fits(spare[k], w, h)
    ensures forall j :: 0 <= j < |spare| && (k < 0 || j < k) ==> !Fits(spare[j], w, h)
  {
    if |spare| == 0 then -1
    else if Fits(spare[0], w, h) then 0
    else
      var k := FirstFit(spare[1..], w, h);
      if k < 0 then -1 else k + 1
  }

  /** The placed glyph: the top-left w x h corner of the chosen rectangle. */
  function GlyphRegion(chunk: Box, w: int, h: int): Box {
    Box(chunk.minX, chunk.minY, chunk.minX + w, chunk.minY + h)
  }

  /**
   * The rectangles `putBitmap` gives back after placing a w x h glyph in `chunk`, in
   * the order it inserts them.
   */
  function Leftovers(chunk: Box, w: int, h: int): seq<Box> {
    var widthLen := Width(chunk) - w;
    var heightLen := Height(chunk) - h;
    var right := NewBox(chunk.minX + w, chunk.minY, chunk.maxX, chunk.maxY);
    var below := NewBox(chunk.minX, chunk.minY + h, chunk.maxX, chunk.maxY);
    if widthLen == 0 && heightLen == 0 then []
    else if widthLen == 0 then [below]
    else if heightLen == 0 then [right]
    else if widthLen * h > heightLen * w then
      [right, NewBox(chunk.minX, chunk.minY + h, chunk.minX + w, chunk.maxY)]
    else
      [below, NewBox(chunk.minX + w, chunk.minY, chunk.maxX, chunk.minY + h)]
  }

  /** `compareAABB`: larger by width + height, then by width, then by height. */
  predicate Greater(a: Box, b: Box) {
    var add1 := Width(a) + Height(a);
    var add2 := Width(b) + Height(b);
    if add1 != add2 then add1 > add2
    else if Width(a) != Width(b) then Width(a) > Width(b)
    else Height(a) > Height(b)
  }

  /**
   * `insertAABB`: the scan always compares against the FIRST rectangle, so the new one
   * goes to the front when that rectangle is larger, and to the back otherwise.
   */
  function Insert(spare: seq<Box>, b: Box): seq<Box> {
    if |spare| > 0 && Greater(spare[0], b) then [b] + spare else spare + [b]
  }

  function InsertAll(spare: seq<Box>, pieces: seq<Box>): seq<Box>
    decreases |pieces|
  {
    if |pieces| == 0 then spare else InsertAll(Insert(spare, pieces[0]), pieces[1..])
  }

  /** `List.remove(Object)`: drops the first element equal to `x`. */
  function RemoveFirst(s: seq<Box>, x: Box): seq<Box> {
    if |s| == 0 then []
    else if s[0] == x then s[1..]
    else [s[0]] + RemoveFirst(s[1..], x)
  }

  /** The free list after placing a w x h glyph in the rectangle at index `k`. */
  function Repack(spare: seq<Box>, k: int, w: int, h: int): seq<Box>
    requires 0 <= k < |spare|
  {
    InsertAll(RemoveFirst(spare, spare[k]), Leftovers(spare[k], w, h))
  }

  /** The bounds test of `Image.copyFromFont` for a 1024 x 1024 image; it throws when false. */
  predicate CopyInBounds(x: int, y: int, w: int, h: int) {
    !(x < 0 || x + w > AtlasSize || y < 0 || y + h > AtlasSize)
  }

  // ---------------------------------------------------------------------------
  // Pixel cells, used to state that the rectangles tile the atlas

  /** The box covers the unit pixel cell whose top-left corner is (px, py). */
  predicate Covers(b: Box, px: int, py: int) {
    b.minX <= px < b.maxX && b.minY <= py < b.maxY
  }

  function Cell(b: Box, px: int, py: int): int {
    if Covers(b, px, py) then 1 else 0
  }

  /** How many boxes of `s` cover the cell (px, py). */
  function Count(s: seq<Box>, px: int, py: int): (n: nat)
    ensures n <= |s|
  {
    if |s| == 0 then 0 else Cell(s[0], px, py) + Count(s[1..], px, py)
  }

  /**
   * The free rectangles and the placed glyphs tile the atlas: every pixel cell of the
   * image is covered by exactly one of them, and no cell outside it by any.
   */
  ghost predicate Tiles(spare: seq<Box>, placed: seq<Box>) {
    forall px, py :: Count(spare, px, py) + Count(placed, px, py) == Cell(Whole, px, py)
  }

  predicate AllInside(s: seq<Box>) {
    forall i :: 0 <= i < |s| ==> WellFormed(s[i]) && Within(s[i], Whole)
  }

  /** The rectangles of a list of glyph records, in list order. */
  function Regions<T>(xs: seq<T>, region: T -> Box): (r: seq<Box>)
    ensures |r| == |xs|
  {
    if |xs| == 0 then [] else [region(xs[0])] + Regions(xs[1..], region)
  }

  /** Where an image write went. */
  function WriteBox(w: GlyphWrite): Box { w.region }

  /** Where a queued glyph sits. */
  function InfoBox(g: GlyphInfo): Box { g.region }

  // ---------------------------------------------------------------------------
  // Lemmas

  lemma {:induction false} CountConcat(a: seq<Box>, b: seq<Box>, px: int, py: int)
    ensures Count(a + b, px, py) == Count(a, px, py) + Count(b, px, py)
    decreases |a|
  {
    if |a| > 0 {
      assert (a + b)[1..] == a[1..] + b;
      CountConcat(a[1..], b, px, py);
    } else {
      assert a + b == b;
    }
  }

  lemma {:induction false} RegionsSnoc<T>(xs: seq<T>, x: T, region: T -> Box)
    ensures Regions(xs + [x], region) == Regions(xs, region) + [region(x)]
    decreases |xs|
  {
    if |xs| == 0 {
      assert xs + [x] == [x];
    } else {
      assert (xs + [x])[1..] == xs[1..] + [x];
      RegionsSnoc(xs[1..], x, region);
    }
  }

  /** No rectangle inside the atlas is wider or taller than the atlas. */
  lemma InsideIsSmall(b: Box)
    requires WellFormed(b) && Within(b, Whole)
    ensures Width(b) <= AtlasSize && Height(b) <= AtlasSize
  {
  }

  /**
   * A fresh atlas (one free rectangle, the whole image) has room for a glyph exactly
   * when the glyph is at most 1024 pixels in each direction.
   */
  lemma FreshAtlasFits(w: int, h: int)
    ensures FirstFit([Whole], w, h) >= 0 <==> w <= AtlasSize && h <= AtlasSize
  {
  }

  /** In a list of rectangles inside the atlas, nothing larger than the atlas fits. */
  lemma FitIsSmall(spare: seq<Box>, w: int, h: int)
    requires AllInside(spare)
    ensures FirstFit(spare, w, h) >= 0 ==> w <= AtlasSize && h <= AtlasSize
  {
    var k := FirstFit(spare, w, h);
    if k >= 0 {
      InsideIsSmall(spare[k]);
    }
  }

  /** The first fit lies inside the atlas, so the `copyFromFont` bounds test never fails. */
  lemma PlacementInBounds(chunk: Box, w: int, h: int)
    requires WellFormed(chunk) && Within(chunk, Whole)
    requires 0 <= w && 0 <= h && Fits(chunk, w, h)
    ensures CopyInBounds(chunk.minX, chunk.minY, w, h)
    ensures WellFormed(GlyphRegion(chunk, w, h)) && Within(GlyphRegion(chunk, w, h), chunk)
  {
  }

  /**
   * The leftovers of a placement are valid rectangles inside the chosen one, and
   * together with the glyph they cover each of its cells exactly once.
   */
  lemma LeftoversPartition(chunk: Box, w: int, h: int, px: int, py: int)
    requires WellFormed(chunk) && 0 <= w && 0 <= h && Fits(chunk, w, h)
    ensures |Leftovers(chunk, w, h)| <= 2
    ensures forall i :: 0 <= i < |Leftovers(chunk, w, h)| ==>
              WellFormed(Leftovers(chunk, w, h)[i]) && Within(Leftovers(chunk, w, h)[i], chunk)
    ensures Count(Leftovers(chunk, w, h), px, py) + Cell(GlyphRegion(chunk, w, h), px, py) == Cell(chunk, px, py)
  {
    var l := Leftovers(chunk, w, h);
    if |l| == 2 {
      assert Count(l, px, py) == Cell(l[0], px, py) + Cell(l[1], px, py) by {
        assert l[1..][1..] == [];
      }
    } else if |l| == 1 {
      assert l[1..] == [];
    }
  }

  function Area(b: Box): int {
    Width(b) * Height(b)
  }

  function TotalArea(s: seq<Box>): int {
    if |s| == 0 then 0 else Area(s[0]) + TotalArea(s[1..])
  }

  lemma AreaOf(b: Box)
    requires WellFormed(b)
    ensures Area(b) == (b.maxX - b.minX) * (b.maxY - b.minY)
  {
  }

  lemma Distribute(a: int, b: int, c: int)
    ensures (a - b) * c == a * c - b * c
    ensures c * (a - b) == c * a - c * b
  {
  }

  /** The leftovers and the glyph together have the area of the chosen rectangle. */
  lemma LeftoversArea(chunk: Box, w: int, h: int)
    requires WellFormed(chunk) && 0 <= w && 0 <= h && Fits(chunk, w, h)
    ensures TotalArea(Leftovers(chunk, w, h)) + w * h == Area(chunk)
  {
    var W := chunk.maxX - chunk.minX;
    var H := chunk.maxY - chunk.minY;
    AreaOf(chunk);
    var l := Leftovers(chunk, w, h);
    var right := Box(chunk.minX + w, chunk.minY, chunk.maxX, chunk.maxY);
    var below := Box(chunk.minX, chunk.minY + h, chunk.maxX, chunk.maxY);
    assert NewBox(chunk.minX + w, chunk.minY, chunk.maxX, chunk.maxY) == right;
    assert NewBox(chunk.minX, chunk.minY + h, chunk.maxX, chunk.maxY) == below;
    AreaOf(right);
    AreaOf(below);
    Distribute(W, w, H);
    Distribute(H, h, W);
    Distribute(H, h, w);
    Distribute(W, w, h);
    if |l| == 2 {
      assert l[1..][1..] == [];
      assert TotalArea(l[1..][1..]) == 0;
      assert TotalArea(l[1..]) == Area(l[1]);
      assert TotalArea(l) == Area(l[0]) + Area(l[1]);
      if (W - w) * h > (H - h) * w {
        var piece := Box(chunk.minX, chunk.minY + h, chunk.minX + w, chunk.maxY);
        assert l == [right, piece];
        AreaOf(piece);
      } else {
        var piece := Box(chunk.minX + w, chunk.minY, chunk.maxX, chunk.minY + h);
        assert l == [below, piece];
        AreaOf(piece);
      }
    } else if |l| == 1 {
      assert l[1..] == [];
    }
  }

  /** Removing the first occurrence of an element that occurs nowhere earlier removes that index. */
  lemma {:induction false} RemoveFirstAt(s: seq<Box>, k: int)
    requires 0 <= k < |s|
    requires forall j :: 0 <= j < k ==> s[j] != s[k]
    ensures RemoveFirst(s, s[k]) == s[..k] + s[k + 1..]
  {
    if k > 0 {
      RemoveFirstAt(s[1..], k - 1);
      assert s[1..][..k - 1] + s[1..][k..] == s[1..k] + s[k + 1..];
      assert [s[0]] + s[1..k] == s[..k];
    }
  }

  /** Putting a rectangle in the list adds exactly that rectangle and keeps the others. */
  lemma InsertAdds(spare: seq<Box>, b: Box)
    ensures multiset(Insert(spare, b)) == multiset(spare) + multiset{b}
    ensures Insert(spare, b) == [b] + spare || Insert(spare, b) == spare + [b]
  {
  }

  /** `compareAABB` is irreflexive and asymmetric. */
  lemma GreaterStrict(a: Box, b: Box)
    ensures !Greater(a, a)
    ensures Greater(a, b) ==> !Greater(b, a)
  {
  }

  /**
   * The free list is not kept sorted: when the first rectangle is not larger than the
   * new one but the last rectangle is, the new one still goes to the end, right behind
   * a larger rectangle, so a list that was ascending no longer is.
   */
  lemma InsertIgnoresOrder(s: seq<Box>, b: Box)
    requires |s| > 0 && !Greater(s[0], b) && Greater(s[|s| - 1], b)
    ensures Insert(s, b) == s + [b]
    ensures Greater(Insert(s, b)[|s| - 1], Insert(s, b)[|s|])
  {
    InsertBehindSmaller(s, b);
  }

  /** Such lists occur: the ascending list of the 1 x 1 and 4 x 4 squares, given a 2 x 2 square. */
  lemma InsertIgnoresOrderOccurs(small: Box, middle: Box, large: Box)
    requires small == Box(0, 0, 1, 1) && middle == Box(0, 0, 2, 2) && large == Box(0, 0, 4, 4)
    ensures Greater(large, small) && !Greater(small, middle) && Greater(large, middle)
    ensures Insert([small, large], middle) == [small, large, middle]
  {
    assert Normalize(small) == small && Normalize(middle) == middle && Normalize(large) == large;
    InsertIgnoresOrder([small, large], middle);
    assert [small, large] + [middle] == [small, large, middle];
  }

  lemma InsertBehindSmaller(s: seq<Box>, b: Box)
    requires |s| > 0 && !Greater(s[0], b)
    ensures Insert(s, b) == s + [b]
  {
  }

  lemma InsertAllOne(s: seq<Box>, a: Box)
    ensures InsertAll(s, [a]) == Insert(s, a)
  {
    assert [a][1..] == [];
  }

  lemma InsertAllTwo(s: seq<Box>, a: Box, b: Box)
    ensures InsertAll(s, [a, b]) == Insert(Insert(s, a), b)
  {
    assert [a, b][1..] == [b];
    InsertAllOne(Insert(s, a), b);
  }

  lemma {:induction false} InsertAllAdds(spare: seq<Box>, pieces: seq<Box>, px: int, py: int)
    ensures multiset(InsertAll(spare, pieces)) == multiset(spare) + multiset(pieces)
    ensures Count(InsertAll(spare, pieces), px, py) == Count(spare, px, py) + Count(pieces, px, py)
    decreases |pieces|
  {
    if |pieces| > 0 {
      var s1 := Insert(spare, pieces[0]);
      InsertAllAdds(s1, pieces[1..], px, py);
      InsertAdds(spare, pieces[0]);
      if s1 == [pieces[0]] + spare {
        CountConcat([pieces[0]], spare, px, py);
      } else {
        CountConcat(spare, [pieces[0]], px, py);
      }
      assert pieces == [pieces[0]] + pieces[1..];
      assert multiset(pieces) == multiset{pieces[0]} + multiset(pieces[1..]);
    }
  }

  lemma MultisetInside(s: seq<Box>, t: seq<Box>)
    requires AllInside(t) && multiset(s) <= multiset(t)
    ensures AllInside(s)
  {
    forall i | 0 <= i < |s|
      ensures WellFormed(s[i]) && Within(s[i], Whole)
    {
      assert s[i] in multiset(s);
    }
  }

  /** The rectangle at the first fit is the first one equal to it. */
  lemma FirstFitIsFirstOccurrence(spare: seq<Box>, w: int, h: int)
    requires FirstFit(spare, w, h) >= 0
    ensures var k := FirstFit(spare, w, h);
            RemoveFirst(spare, spare[k]) == spare[..k] + spare[k + 1..]
  {
    var k := FirstFit(spare, w, h);
    RemoveFirstAt(spare, k);
  }

  /** Cutting out index k of a list takes that element's cell from the count. */
  lemma CountWithout(s: seq<Box>, k: int, px: int, py: int)
    requires 0 <= k < |s|
    ensures Count(s[..k] + s[k + 1..], px, py) + Cell(s[k], px, py) == Count(s, px, py)
  {
    assert s == s[..k] + ([s[k]] + s[k + 1..]);
    CountConcat(s[..k], [s[k]] + s[k + 1..], px, py);
    CountConcat(s[..k], s[k + 1..], px, py);
    assert ([s[k]] + s[k + 1..])[1..] == s[k + 1..];
  }

  /** Removing index k of a list takes one copy of that element from its multiset. */
  lemma MultisetWithout(s: seq<Box>, k: int)
    requires 0 <= k < |s|
    ensures multiset(s[..k] + s[k + 1..]) == multiset(s) - multiset{s[k]}
  {
    assert s == s[..k] + [s[k]] + s[k + 1..];
  }

  /** Cell by cell, repacking trades the chosen rectangle for its leftovers and the glyph. */
  lemma RepackCell(spare: seq<Box>, w: int, h: int, px: int, py: int)
    requires AllInside(spare)
    requires 0 <= w && 0 <= h && FirstFit(spare, w, h) >= 0
    ensures var k := FirstFit(spare, w, h);
            Count(Repack(spare, k, w, h), px, py) + Cell(GlyphRegion(spare[k], w, h), px, py) == Count(spare, px, py)
  {
    var k := FirstFit(spare, w, h);
    var chunk := spare[k];
    FirstFitIsFirstOccurrence(spare, w, h);
    var rest := spare[..k] + spare[k + 1..];
    var l := Leftovers(chunk, w, h);
    assert Repack(spare, k, w, h) == InsertAll(rest, l);
    InsertAllAdds(rest, l, px, py);
    LeftoversPartition(chunk, w, h, px, py);
    CountWithout(spare, k, px, py);
  }

  /** Repacking swaps the chosen rectangle for its leftovers, all inside the atlas. */
  lemma RepackContents(spare: seq<Box>, w: int, h: int)
    requires AllInside(spare)
    requires 0 <= w && 0 <= h && FirstFit(spare, w, h) >= 0
    ensures var k := FirstFit(spare, w, h);
            multiset(Repack(spare, k, w, h)) ==
              multiset(spare) - multiset{spare[k]} + multiset(Leftovers(spare[k], w, h)) &&
            AllInside(Repack(spare, k, w, h))
  {
    var k := FirstFit(spare, w, h);
    var chunk := spare[k];
    var l := Leftovers(chunk, w, h);
    FirstFitIsFirstOccurrence(spare, w, h);
    var rest := spare[..k] + spare[k + 1..];
    assert Repack(spare, k, w, h) == InsertAll(rest, l);
    MultisetWithout(spare, k);
    InsertAllAdds(rest, l, 0, 0);
    LeftoversPartition(chunk, w, h, 0, 0);
    assert AllInside(spare + l);
    assert multiset(InsertAll(rest, l)) <= multiset(spare + l);
    MultisetInside(InsertAll(rest, l), spare + l);
  }

  /**
   * Placing a glyph at the first fit keeps the tiling: the chosen rectangle leaves the
   * free list, its leftovers join it and the glyph joins the placed rectangles.
   */
  lemma RepackPreservesTiling(spare: seq<Box>, placed: seq<Box>, w: int, h: int)
    requires Tiles(spare, placed) && AllInside(spare)
    requires 0 <= w && 0 <= h && FirstFit(spare, w, h) >= 0
    ensures var k := FirstFit(spare, w, h);
            Tiles(Repack(spare, k, w, h), placed + [GlyphRegion(spare[k], w, h)])
  {
    var k := FirstFit(spare, w, h);
    var g := GlyphRegion(spare[k], w, h);
    forall px, py
      ensures Count(Repack(spare, k, w, h), px, py) + Count(placed + [g], px, py) == Cell(Whole, px, py)
    {
      RepackCell(spare, w, h, px, py);
      CountConcat(placed, [g], px, py);
      assert [g][1..] == [];
    }
  }

  /**
   * Tiling means no overlap: no pixel cell is covered by two different entries of the
   * free and placed lists, and every covered cell lies inside the atlas.
   */
  lemma TilesDisjoint(spare: seq<Box>, placed: seq<Box>, i: int, j: int, px: int, py: int)
    requires Tiles(spare, placed)
    requires 0 <= i < |spare + placed| && 0 <= j < |spare + placed| && i != j
    ensures !(Covers((spare + placed)[i], px, py) && Covers((spare + placed)[j], px, py))
    ensures Covers((spare + placed)[i], px, py) ==> Covers(Whole, px, py)
  {
    var all := spare + placed;
    CountConcat(spare, placed, px, py);
    CountAtIndex(all, i, px, py);
    if Covers(all[i], px, py) && Covers(all[j], px, py) {
      var lo := if i < j then i else j;
      var hi := if i < j then j else i;
      CountAtIndex(all[lo + 1..], hi - lo - 1, px, py);
      assert all[lo + 1..][hi - lo - 1] == all[hi];
      CountAtIndex(all, lo, px, py);
    }
  }

  /** The count at a cell is at least the count after any index plus that index's cell. */
  lemma {:induction false} CountAtIndex(s: seq<Box>, i: int, px: int, py: int)
    requires 0 <= i < |s|
    ensures Count(s, px, py) >= Cell(s[i], px, py) + Count(s[i + 1..], px, py)
  {
    if i > 0 {
      CountAtIndex(s[1..], i - 1, px, py);
      assert s[1..][i..] == s[i + 1..];
    }
  }

  /** The free and placed rectangles tile the image and lie inside it. */
  ghost predicate Packed(spare: seq<Box>, placed: seq<Box>) {
    Tiles(spare, placed) && AllInside(spare) && AllInside(placed)
  }

  /** Every placement has been uploaded or is queued, in placement order. */
  predicate Queued(uploads: seq<Box>, queue: seq<GlyphInfo>, placed: seq<Box>) {
    uploads + Regions(queue, InfoBox) == placed
  }

  /** Every recorded or queued glyph is a placement of this atlas. */
  predicate Owned(self: FontAtlas, chars: map<int, GlyphInfo>, queue: seq<GlyphInfo>, placed: seq<Box>) {
    (forall c :: c in chars ==> chars[c].atlas == self && chars[c].region in placed) &&
    (forall i :: 0 <= i < |queue| ==> queue[i].atlas == self)
  }

  /**
   * The atlas invariant over plain values: the free and placed rectangles tile the
   * image, every placement is uploaded or queued, every recorded glyph is one of this
   * atlas's placements, and nothing is uploaded before the texture exists.
   */
  ghost predicate Consistent(self: FontAtlas, spare: seq<Box>, writes: seq<GlyphWrite>, uploads: seq<Box>,
                             queue: seq<GlyphInfo>, chars: map<int, GlyphInfo>, texture: Option<TextureState>)
  {
    Packed(spare, Regions(writes, WriteBox)) &&
    Queued(uploads, queue, Regions(writes, WriteBox)) &&
    Owned(self, chars, queue, Regions(writes, WriteBox)) &&
    (texture.None? ==> uploads == [])
  }

  lemma PlaceKeepsPacked(spare: seq<Box>, placed: seq<Box>, w: int, h: int)
    requires Packed(spare, placed)
    requires 0 <= w && 0 <= h && FirstFit(spare, w, h) >= 0
    ensures var k := FirstFit(spare, w, h);
            Packed(Repack(spare, k, w, h), placed + [GlyphRegion(spare[k], w, h)])
  {
    var k := FirstFit(spare, w, h);
    RepackPreservesTiling(spare, placed, w, h);
    RepackContents(spare, w, h);
    PlacementInBounds(spare[k], w, h);
    var placed' := placed + [GlyphRegion(spare[k], w, h)];
    assert forall i :: 0 <= i < |placed| ==> placed'[i] == placed[i];
  }

  lemma PlaceKeepsQueued(uploads: seq<Box>, queue: seq<GlyphInfo>, writes: seq<GlyphWrite>, codepoint: int, info: GlyphInfo)
    requires Queued(uploads, queue, Regions(writes, WriteBox))
    ensures Queued(uploads, queue + [info], Regions(writes + [GlyphWrite(codepoint, info.region)], WriteBox))
  {
    RegionsSnoc(writes, GlyphWrite(codepoint, info.region), WriteBox);
    RegionsSnoc(queue, info, InfoBox);
  }

  lemma PlaceKeepsOwned(self: FontAtlas, chars: map<int, GlyphInfo>, queue: seq<GlyphInfo>, placed: seq<Box>,
                        codepoint: int, info: GlyphInfo)
    requires Owned(self, chars, queue, placed) && info.atlas == self
    ensures Owned(self, chars[codepoint := info], queue + [info], placed + [info.region])
  {
    var placed' := placed + [info.region];
    assert placed'[|placed|] == info.region;
    forall c | c in chars
      ensures chars[c].region in placed'
    {
      assert chars[c].region in placed;
    }
  }

  /** A placement at the first fit keeps the atlas invariant. */
  lemma PlaceKeepsConsistent(self: FontAtlas, spare: seq<Box>, writes: seq<GlyphWrite>, uploads: seq<Box>,
                             queue: seq<GlyphInfo>, chars: map<int, GlyphInfo>, texture: Option<TextureState>,
                             codepoint: int, w: int, h: int, info: GlyphInfo)
    requires Consistent(self, spare, writes, uploads, queue, chars, texture)
    requires 0 <= w && 0 <= h && FirstFit(spare, w, h) >= 0
    requires info.atlas == self && info.region == GlyphRegion(spare[FirstFit(spare, w, h)], w, h)
    ensures Consistent(self, Repack(spare, FirstFit(spare, w, h), w, h), writes + [GlyphWrite(codepoint, info.region)],
                       uploads, queue + [info], chars[codepoint := info], texture)
  {
    var write := GlyphWrite(codepoint, info.region);
    RegionsSnoc(writes, write, WriteBox);
    PlaceKeepsPacked(spare, Regions(writes, WriteBox), w, h);
    PlaceKeepsQueued(uploads, queue, writes, codepoint, info);
    PlaceKeepsOwned(self, chars, queue, Regions(writes, WriteBox), codepoint, info);
  }

  /** The state of an atlas that `putBitmap` reads and writes, as one value. */
  datatype AtlasView = AtlasView(spare: seq<Box>, chars: map<int, GlyphInfo>, queue: seq<GlyphInfo>,
                                 writes: seq<GlyphWrite>, uploads: seq<Box>, texture: Option<TextureState>)

  /** The state of a new atlas: the whole image free, nothing placed, queued or uploaded. */
  const FreshView: AtlasView := AtlasView([Whole], map[], [], [], [], None)

  /**
   * A successful `putBitmap` of a w x h glyph for `codepoint`, as a relation between the
   * atlas before and after: some free rectangle fitted, `info` holds the top-left corner of
   * the first that did, the free list is repacked around it, and the glyph is recorded,
   * queued for upload and written into the image; uploads and texture stay as they were.
   */
  predicate Took(before: AtlasView, after: AtlasView, codepoint: int, w: int, h: int, info: GlyphInfo) {
    var k := FirstFit(before.spare, w, h);
    k >= 0 &&
    info.region == GlyphRegion(before.spare[k], w, h) &&
    after == AtlasView(Repack(before.spare, k, w, h), before.chars[codepoint := info], before.queue + [info],
                       before.writes + [GlyphWrite(codepoint, info.region)], before.uploads, before.texture)
  }

  // ---------------------------------------------------------------------------
  // The atlas object

  class FontAtlas {
    /** `font.getSize()` of the owning font; it decides the texture's filtering. */
    const fontSize: int
    var spareSpace: seq<Box>
    var chars: map<int, GlyphInfo>
    /** The `toUpdates` queue of placements not yet uploaded, oldest first. */
    var toUpdates: seq<GlyphInfo>
    var texture: Option<TextureState>
    /** The rectangles passed to `texture.update`, in call order. */
    var uploads: seq<Box>
    /** The `copyFromFont` calls made into the image, in call order. */
    var writes: seq<GlyphWrite>

    /** The fields as one value. */
    function View(): AtlasView
      reads this
    {
      AtlasView(spareSpace, chars, toUpdates, writes, uploads, texture)
    }

    /** The glyph rectangles held by the image. */
    function Placed(): seq<Box>
      reads this
    {
      Regions(writes, WriteBox)
    }

    ghost predicate Valid()
      reads this
    {
      Consistent(this, spareSpace, writes, uploads, toUpdates, chars, texture)
    }

    constructor (fontSize: int)
      ensures Valid() && this.fontSize == fontSize
      ensures spareSpace == [Whole] && chars == map[] && toUpdates == []
      ensures texture == None && uploads == [] && writes == [] && View() == FreshView
    {
      this.fontSize := fontSize;
      spareSpace := [Whole];
      chars := map[];
      toUpdates := [];
      texture := None;
      uploads := [];
      writes := [];
      new;
      assert forall px, py :: Count(spareSpace, px, py) == Cell(Whole, px, py) by {
        forall px, py ensures Count(spareSpace, px, py) == Cell(Whole, px, py) {
          assert spareSpace[1..] == [];
        }
      }
    }

    /**
     * `putBitmap`: places a w x h glyph at the first free rectangle that fits, records
     * it and queues it for upload; `None` when no rectangle fits.
     */
    method PutBitmap(codepoint: int, width: int, height: int, leftSide: real, advanceWidth: real, topSide: real)
      returns (r: Option<GlyphInfo>)
      requires Valid() && 0 <= width && 0 <= height
      modifies this
      ensures Valid()
      ensures r.None? <==> FirstFit(old(spareSpace), width, height) < 0
      ensures r.None? ==> unchanged(this)
      ensures r.Some? ==>
        var k := FirstFit(old(spareSpace), width, height);
        var chunk := old(spareSpace)[k];
        r.value == GlyphInfo(this, GlyphRegion(chunk, width, height), leftSide, advanceWidth, topSide) &&
        spareSpace == Repack(old(spareSpace), k, width, height) &&
        chars == old(chars)[codepoint := r.value] &&
        toUpdates == old(toUpdates) + [r.value] &&
        writes == old(writes) + [GlyphWrite(codepoint, r.value.region)] &&
        texture == old(texture) && uploads == old(uploads)
      ensures r.Some? ==> Took(old(View()), View(), codepoint, width, height, r.value)
    {
      var k := 0;
      while k < |spareSpace| && !Fits(spareSpace[k], width, height)
        invariant 0 <= k <= |spareSpace|
        invariant forall j :: 0 <= j < k ==> !Fits(spareSpace[j], width, height)
      {
        k := k + 1;
      }
      if k == |spareSpace| {
        return None;
      }
      var chunk := spareSpace[k];
      assert k == FirstFit(spareSpace, width, height);
      var info := GlyphInfo(this, GlyphRegion(chunk, width, height), leftSide, advanceWidth, topSide);
      PlaceKeepsConsistent(this, spareSpace, writes, uploads, toUpdates, chars, texture, codepoint, width, height, info);
      chars := chars[codepoint := info];
      PlacementInBounds(chunk, width, height);
      writes := writes + [GlyphWrite(codepoint, info.region)];
      toUpdates := toUpdates + [info];
      FirstFitIsFirstOccurrence(spareSpace, width, height);
      spareSpace := RemoveFirst(spareSpace, chunk);
      GiveBack(chunk, width, height);
      r := Some(info);
    }

    /** The split step of `putBitmap`: the leftovers of the chosen rectangle go back to the free list. */
    method GiveBack(chunk: Box, width: int, height: int)
      modifies this`spareSpace
      ensures spareSpace == InsertAll(old(spareSpace), Leftovers(chunk, width, height))
    {
      ghost var rest := spareSpace;
      ghost var pieces := Leftovers(chunk, width, height);
      var widthLen := Width(chunk) - width;
      var heightLen := Height(chunk) - height;
      if widthLen == 0 && heightLen == 0 {
        assert pieces == [];
      } else if widthLen == 0 {
        var below := NewBox(chunk.minX, chunk.minY + height, chunk.maxX, chunk.maxY);
        assert pieces == [below];
        InsertAABB(below);
        InsertAllOne(rest, below);
      } else if heightLen == 0 {
        var right := NewBox(chunk.minX + width, chunk.minY, chunk.maxX, chunk.maxY);
        assert pieces == [right];
        InsertAABB(right);
        InsertAllOne(rest, right);
      } else if widthLen * height > heightLen * width {
        var right := NewBox(chunk.minX + width, chunk.minY, chunk.maxX, chunk.maxY);
        var below := NewBox(chunk.minX, chunk.minY + height, chunk.minX + width, chunk.maxY);
        assert pieces == [right, below];
        InsertAABB(right);
        InsertAABB(below);
        InsertAllTwo(rest, right, below);
      } else {
        var below := NewBox(chunk.minX, chunk.minY + height, chunk.maxX, chunk.maxY);
        var right := NewBox(chunk.minX + width, chunk.minY, chunk.maxX, chunk.minY + height);
        assert pieces == [below, right];
        InsertAABB(below);
        InsertAABB(right);
        InsertAllTwo(rest, below, right);
      }
    }

    /** `insertAABB`. */
    method InsertAABB(now: Box)
      modifies this`spareSpace
      ensures spareSpace == Insert(old(spareSpace), now)
    {
      var position := 0;
      while position < |spareSpace|
        invariant 0 <= position <= |spareSpace|
        invariant position > 0 ==> !Greater(spareSpace[0], now)
      {
        if Greater(spareSpace[0], now) {
          break;
        }
        position := position + 1;
      }
      spareSpace := spareSpace[..position] + [now] + spareSpace[position..];
    }

    /** `getChar`: the recorded placement of the codepoint, if any. */
    function GetChar(codepoint: int): (r: Option<GlyphInfo>)
      reads this
      ensures r.Some? <==> codepoint in chars
      ensures r.Some? ==> r.value == chars[codepoint]
      ensures Valid() && r.Some? ==> r.value.atlas == this && r.value.region in Placed()
    {
      if codepoint in chars then Some(chars[codepoint]) else None
    }

    /**
     * `refresh`: creates the texture on the first call (linear filtering for fonts of
     * at most 32 pixels, always clamped), then uploads every queued placement in order.
     */
    method Refresh()
      requires Valid()
      modifies this
      ensures Valid()
      ensures texture == (if old(texture).None? then Some(TextureState(fontSize <= 32, true)) else old(texture))
      ensures uploads == old(uploads) + Regions(old(toUpdates), InfoBox)
      ensures uploads == Placed() && toUpdates == []
      ensures spareSpace == old(spareSpace) && chars == old(chars) && writes == old(writes)
    {
      if texture.None? {
        texture := Some(TextureState(fontSize <= 32, true));
      }
      while |toUpdates| > 0
        invariant uploads + Regions(toUpdates, InfoBox) == old(uploads) + Regions(old(toUpdates), InfoBox)
        invariant forall i :: 0 <= i < |toUpdates| ==> toUpdates[i].atlas == this
        invariant texture.Some? && texture == (if old(texture).None? then Some(TextureState(fontSize <= 32, true)) else old(texture))
        invariant spareSpace == old(spareSpace) && chars == old(chars) && writes == old(writes)
        decreases |toUpdates|
      {
        var info := toUpdates[0];
        toUpdates := toUpdates[1..];
        uploads := uploads + [info.region];
      }
    }

    /** `getTexture`: refreshes first, so nothing is left waiting for upload. */
    method GetTexture() returns (t: TextureState)
      requires Valid()
      modifies this
      ensures Valid() && texture == Some(t) && toUpdates == [] && uploads == Placed()
      ensures t == (if old(texture).None? then TextureState(fontSize <= 32, true) else old(texture).value)
      ensures spareSpace == old(spareSpace) && chars == old(chars) && writes == old(writes)
    {
      Refresh();
      t := texture.value;
    }
  }

  /** Two refreshes with nothing placed between them upload nothing the second time. */
  method RefreshTwice(a: FontAtlas)
    requires a.Valid()
    modifies a
    ensures a.Valid() && a.uploads == a.Placed() && a.texture.Some?
    ensures a.uploads == old(a.uploads) + Regions(old(a.toUpdates), InfoBox)
  {
    a.Refresh();
    a.Refresh();
  }
}
