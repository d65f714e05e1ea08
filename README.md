# ISAM core, modelled in Dafny

This project models the sequential bookkeeping at the heart of the ISAM game engine
(Nickid2018/ISAM). Its centre is the glyph atlas. A `FontAtlas` is a guillotine
rectangle packer over a 1024 x 1024 image:

- it keeps a list of free rectangles;
- it places each w x h glyph at the top-left corner of the first free rectangle that fits;
- it gives the leftover space back as zero, one or two new free rectangles;
- it records which codepoint went where;
- it queues every placement for the texture upload that `refresh` drains.

`VertexFont.getCodepointInfo` sits in front of the atlases as a per-font cache. It does
the following:

- it answers a known codepoint from the atlas that holds it;
- it rejects an empty glyph;
- it tries the existing atlases in order;
- it falls back to one new atlas, which it keeps only when the glyph fits;
- otherwise it reports the glyph as too large.

`AABB` is the rectangle type the packer works with.

The proofs establish the properties the packer and the cache rely on:

- free rectangles and placed glyphs tile the atlas cell by cell, with no overlap;
- every placement lies inside the image (so `copyFromFont` never throws);
- every placement is uploaded exactly once, in order;
- the cache is idempotent;
- every cached codepoint belongs to an atlas in the font's list that holds it.

Around that core the project models the engine's other self-contained logic:

- version numbers (`Version`, `VersionType`, `VersionUtils`): parsing, the packed comparison, printing and range matching;
- the bounded object pool and its per-class registry (`Pool`, `Pools`);
- the `"WxH@R:C"` video-mode parser and printer, which has two identical copies;
- the monitor's mode filtering and selection;
- the growable index and vertex buffers;
- the uniform dirty-flag state machine;
- the GIF frame conversion and frame timing (`DynamicImage`, `DynamicTexture`);
- the once-only `LazyLoadedValue`.

Java's own library behaviour that the code depends on is written out in three support
modules:

- `JavaInt`: 32-bit wrap-around, the truncating `%`, `Integer.parseInt` / `toString`;
- `JavaString`: `trim`, `split` and ASCII `toLowerCase`;
- `NioBuffer`: a `java.nio` buffer with position, limit and relative puts.

There is also a `Wrappers` module for `Option`, `Result` and `Outcome`.

Objects that the source mutates are Dafny classes with `modifies` frames:

- `FontAtlas`, `VertexFont` and `AABB`;
- `Pool`, `Pools` and `Poolable`;
- `Monitor`;
- `ElementBuffer`, `VertexBuffer` and `Uniform`;
- `DynamicImage`, `DynamicTexture` and `StaticTexture`;
- `LazyLoadedValue`.

Each class method states its new state in terms of the old one: most through pure
functions of the old state (an atlas's free list after a placement is `Repack` of the old
list), and the font cache through a relation between value snapshots of each atlas
before and after (`AtlasView` and `Took`). The properties are proved about those
functions and relations. The few methods whose contracts say less than the source are
listed under "Left out".

Everything else is a value: boxes, versions, video modes, glyph records and buffer
snapshots. Work done outside the model is recorded, not performed. The recorded
effects are:

- the glyph writes into the atlas image;
- the texture updates;
- the `glUniform*` and `glBufferSubData` calls.

Source paths below are relative to the repository root.

## Model

| member | source | states |
|---|---|---|
| Aabb.Normalize | src/com/github/isam/phys/AABB.java:53-65 | the validated box is valid, a valid box is returned unchanged, and on each axis the two coordinates end up as their minimum and maximum |
| Aabb.NormalizeIdempotent | src/com/github/isam/phys/AABB.java:53-65 | validating twice is validating once; a valid box is a fixed point |
| Aabb.Create | src/com/github/isam/phys/AABB.java:38-47 | with `checkValid` the factory fails exactly when the given box is already valid (the inverted check, as written); every box it returns is valid and holds the per-axis minimum and maximum |
| Aabb.NewBox | src/com/github/isam/phys/AABB.java:34-36 | the four-argument factory never fails and equals the unchecked five-argument one |
| Aabb.Width | src/com/github/isam/phys/AABB.java:124-127 | the width is never negative, and for a valid box it is maxX - minX |
| Aabb.Height | src/com/github/isam/phys/AABB.java:129-132 | the height is never negative, and for a valid box it is maxY - minY |
| Aabb.SizeOfNormalized | src/com/github/isam/phys/AABB.java:124-132 | width and height are those of the validated box, and validation does not change them |
| Aabb.Translate | src/com/github/isam/phys/AABB.java:67-73 | `move` on values; `TranslateShifts` proves every corner moves by (x, y) |
| Aabb.Grow | src/com/github/isam/phys/AABB.java:75-82 | `inflate` on values; `GrowContains` proves the result contains the validated box |
| Aabb.Overlaps | src/com/github/isam/phys/AABB.java:92-96 | `intersects` on values; `OverlapsSymmetric` and `SharedEdgeIsNoOverlap` are about it |
| Aabb.Intersection | src/com/github/isam/phys/AABB.java:98-107 | `intersect` on values; `IntersectionWithin` and `IntersectionPoints` are about it |
| Aabb.Bound | src/com/github/isam/phys/AABB.java:109-118 | `boundWith` on values; `BoundContainsBoth` proves it contains both boxes |
| Aabb.ContainsPoint | src/com/github/isam/phys/AABB.java:120-122 | `contains` on values; `ContainsCorners` proves it inclusive on every edge |
| Aabb.TranslateShifts | src/com/github/isam/phys/AABB.java:67-73 | `move` shifts every coordinate of the validated box by (x, y) and keeps width and height |
| Aabb.GrowContains | src/com/github/isam/phys/AABB.java:75-86 | inflating by non-negative amounts yields a box containing the validated original, 2x wider and 2y taller |
| Aabb.OverlapsSymmetric | src/com/github/isam/phys/AABB.java:92-96 | `intersects` does not depend on the order of its arguments |
| Aabb.SharedEdgeIsNoOverlap | src/com/github/isam/phys/AABB.java:92-96 | `intersects` is strict: valid boxes that only touch along an edge do not intersect |
| Aabb.IntersectionWithin | src/com/github/isam/phys/AABB.java:98-107 | `intersect` gives the zero box for disjoint boxes, and otherwise a valid box inside both validated inputs |
| Aabb.IntersectionPoints | src/com/github/isam/phys/AABB.java:98-107 | for intersecting boxes a point lies in the intersection exactly when it lies in both boxes |
| Aabb.BoundContainsBoth | src/com/github/isam/phys/AABB.java:109-118 | `boundWith` gives a valid box containing both validated inputs |
| Aabb.ContainsCorners | src/com/github/isam/phys/AABB.java:120-122 | `contains` is inclusive on every edge: all four corners of a valid box are contained |
| Aabb.AABB.constructor | src/com/github/isam/phys/AABB.java:39-43 | a new box object holds exactly the four given coordinates |
| Aabb.AABB.NewAABB | src/com/github/isam/phys/AABB.java:38-47 | the object factory fails exactly when `Create` does, and otherwise returns a fresh object holding `Create`'s box |
| Aabb.AABB.IsValid | src/com/github/isam/phys/AABB.java:49-51 | `isValid` of the object's fields, used by the factory's (inverted) check |
| Aabb.AABB.Contains | src/com/github/isam/phys/AABB.java:120-122 | `contains` of the object; it is `ContainsPoint` of `Value()` |
| Aabb.AABB.Validate | src/com/github/isam/phys/AABB.java:53-65 | the fields become the validated box |
| Aabb.AABB.Move | src/com/github/isam/phys/AABB.java:67-73 | the fields become the translated box |
| Aabb.AABB.Inflate | src/com/github/isam/phys/AABB.java:75-82 | the fields become the grown box (validated before and after) |
| Aabb.AABB.InflateBy | src/com/github/isam/phys/AABB.java:84-86 | `inflate(d)` is `inflate(d, d)` |
| Aabb.AABB.Deflate | src/com/github/isam/phys/AABB.java:88-90 | `deflate(d)` is `inflate(-d, -d)` |
| Aabb.AABB.Intersects | src/com/github/isam/phys/AABB.java:92-96 | the answer is `Overlaps` of the two boxes, and both objects are left validated |
| Aabb.AABB.Intersect | src/com/github/isam/phys/AABB.java:98-107 | a fresh object holding the intersection; both operands are left validated |
| Aabb.AABB.BoundWith | src/com/github/isam/phys/AABB.java:109-118 | a fresh object holding the bounding box; both operands are left validated |
| Aabb.AABB.GetWidth | src/com/github/isam/phys/AABB.java:124-127 | the width of the box, which is left validated |
| Aabb.AABB.GetHeight | src/com/github/isam/phys/AABB.java:129-132 | the height of the box, which is left validated |
| Aabb.AABB.NewCopy | src/com/github/isam/phys/AABB.java:134-142 | a fresh object with the validated coordinates; the original is validated too |
| Aabb.AABB.Equals | src/com/github/isam/phys/AABB.java:144-146 | two boxes are equal exactly when all four coordinates agree |
| Atlas.FirstFit | src/com/github/isam/render/font/FontAtlas.java:49-58 | the index found is the first free rectangle at least w wide and h high; -1 means that no rectangle fits |
| Atlas.GlyphRegion | src/com/github/isam/render/font/FontAtlas.java:62-65 | the placed glyph's pixel rectangle (what the UV floats divide by 1024); `PlacementInBounds` proves it is the top-left corner of the chosen rectangle and inside the image |
| Atlas.Leftovers | src/com/github/isam/render/font/FontAtlas.java:76-96 | the rectangles given back after a placement, in insertion order; `LeftoversPartition` and `LeftoversArea` prove that with the glyph they tile the chosen rectangle |
| Atlas.Greater | src/com/github/isam/render/font/FontAtlas.java:108-122 | `compareAABB`; `GreaterStrict` proves it irreflexive and asymmetric |
| Atlas.Insert | src/com/github/isam/render/font/FontAtlas.java:100-106 | `insertAABB` with its first-element comparison; `InsertAdds`, `InsertBehindSmaller` and `InsertIgnoresOrder` are about it |
| Atlas.InsertAll | src/com/github/isam/render/font/FontAtlas.java:78-96 | the leftovers inserted one after the other; `InsertAllOne`, `InsertAllTwo` and `InsertAllAdds` are about it |
| Atlas.RemoveFirst | src/com/github/isam/render/font/FontAtlas.java:75 | `List.remove(Object)`; `RemoveFirstAt` and `FirstFitIsFirstOccurrence` prove it removes the chosen index |
| Atlas.Repack | src/com/github/isam/render/font/FontAtlas.java:75-96 | the free list after a placement; `RepackContents`, `RepackCell` and `RepackPreservesTiling` are about it |
| Atlas.FreshAtlasFits | src/com/github/isam/render/font/FontAtlas.java:41-58 | a new atlas has room for a glyph exactly when it is at most 1024 x 1024 |
| Atlas.FitIsSmall | src/com/github/isam/render/font/FontAtlas.java:49-58 | a glyph that fits any rectangle inside the atlas is at most 1024 x 1024 |
| Atlas.InsideIsSmall | src/com/github/isam/render/font/FontAtlas.java:42 | a valid rectangle inside the atlas is at most 1024 wide and high |
| Atlas.PlacementInBounds | src/com/github/isam/render/font/FontAtlas.java:71-72 | the glyph region is the top-left w x h corner of the chosen rectangle, and the `copyFromFont` bounds test (Image.java line 296) holds for it |
| Atlas.LeftoversPartition | src/com/github/isam/render/font/FontAtlas.java:75-96 | there are at most two leftovers, each valid and inside the chosen rectangle, and leftovers plus glyph cover every cell of the chosen rectangle exactly once |
| Atlas.LeftoversArea | src/com/github/isam/render/font/FontAtlas.java:75-96 | the areas of the leftovers plus w*h equal the area of the chosen rectangle |
| Atlas.RemoveFirstAt | src/com/github/isam/render/font/FontAtlas.java:75 | `List.remove(Object)` of the element at index k removes exactly index k when no earlier element equals it |
| Atlas.FirstFitIsFirstOccurrence | src/com/github/isam/render/font/FontAtlas.java:51-56 | the rectangle at the first fit is the first one equal to it, so removing it by value removes that index |
| Atlas.InsertAdds | src/com/github/isam/render/font/FontAtlas.java:100-106 | `insertAABB` adds exactly one copy of the rectangle, either at the front or at the back |
| Atlas.InsertBehindSmaller | src/com/github/isam/render/font/FontAtlas.java:100-106 | when the first rectangle is not larger, the new one goes to the end |
| Atlas.InsertIgnoresOrder | src/com/github/isam/render/font/FontAtlas.java:100-106 | whenever the first rectangle is not larger than the new one but the last rectangle is, the new one still goes to the end, right behind a larger rectangle, so an ascending free list does not stay sorted |
| Atlas.InsertIgnoresOrderOccurs | src/com/github/isam/render/font/FontAtlas.java:100-106 | such a list occurs: the ascending list of the 1 x 1 and 4 x 4 squares, given a 2 x 2 square, becomes 1, 4, 2 |
| Atlas.GreaterStrict | src/com/github/isam/render/font/FontAtlas.java:108-122 | `compareAABB` is irreflexive and asymmetric |
| Atlas.InsertAllTwo | src/com/github/isam/render/font/FontAtlas.java:90-96 | two leftovers are inserted in order, one after the other |
| Atlas.InsertAllOne | src/com/github/isam/render/font/FontAtlas.java:80-86 | one leftover is inserted exactly as `insertAABB` inserts it |
| Atlas.InsertAllAdds | src/com/github/isam/render/font/FontAtlas.java:79-96 | inserting the leftovers adds exactly them to the free list, cell by cell and as a multiset |
| Atlas.RepackCell | src/com/github/isam/render/font/FontAtlas.java:75-96 | cell by cell, repacking trades the chosen rectangle for its leftovers plus the glyph |
| Atlas.RepackContents | src/com/github/isam/render/font/FontAtlas.java:75-96 | the new free list is the old one minus the chosen rectangle plus its leftovers, all inside the atlas |
| Atlas.RepackPreservesTiling | src/com/github/isam/render/font/FontAtlas.java:43 | if free and placed rectangles tile the atlas before a placement, they still do afterwards |
| Atlas.TilesDisjoint | src/com/github/isam/render/font/FontAtlas.java:43 | in a tiling no cell is covered by two different free or placed rectangles, and every covered cell is inside the atlas |
| Atlas.PlaceKeepsPacked | src/com/github/isam/render/font/FontAtlas.java:60-96 | a first-fit placement keeps the tiling and keeps every rectangle inside the atlas |
| Atlas.PlaceKeepsQueued | src/com/github/isam/render/font/FontAtlas.java:69-73 | a placement keeps "uploaded then queued equals placed, in order" |
| Atlas.PlaceKeepsOwned | src/com/github/isam/render/font/FontAtlas.java:60-69 | a placement keeps every recorded and queued glyph a placement of this atlas |
| Atlas.PlaceKeepsConsistent | src/com/github/isam/render/font/FontAtlas.java:47-98 | a placement at the first fit keeps the whole atlas invariant |
| Atlas.FontAtlas.constructor | src/com/github/isam/render/font/FontAtlas.java:41-45 | a new atlas is in the fresh state: the single free rectangle (0,0)-(1024,1024), no glyphs, an empty queue, no writes or uploads, no texture; and it satisfies the invariant |
| Atlas.FontAtlas.PutBitmap | src/com/github/isam/render/font/FontAtlas.java:47-98 | it keeps the invariant and fails exactly when no free rectangle fits, changing nothing; otherwise `Took` holds of the snapshots before and after: the glyph is placed in the top-left corner of the first fit, recorded under the codepoint, queued once and written to the image once, the free list is repacked, and uploads and texture are untouched |
| Atlas.FontAtlas.GiveBack | src/com/github/isam/render/font/FontAtlas.java:75-96 | the split step inserts exactly the leftovers of the chosen rectangle, in the source's order |
| Atlas.FontAtlas.InsertAABB | src/com/github/isam/render/font/FontAtlas.java:100-106 | the loop inserts the new rectangle where `Insert` says, for the front or the back |
| Atlas.FontAtlas.GetChar | src/com/github/isam/render/font/FontAtlas.java:128-130 | the lookup finds exactly the recorded codepoints, and each hit is a placement of this atlas |
| Atlas.FontAtlas.Refresh | src/com/github/isam/render/font/FontAtlas.java:132-143 | the texture is created only if absent (linear iff font size at most 32, clamped); every queued placement is uploaded once, in order; the queue ends empty; uploads equal placements |
| Atlas.FontAtlas.GetTexture | src/com/github/isam/render/font/FontAtlas.java:145-148 | after the refresh the texture exists, nothing is queued and everything placed is uploaded |
| Atlas.RefreshTwice | src/com/github/isam/render/font/FontAtlas.java:132-143 | two refreshes in a row upload each queued placement exactly once: the second, with nothing newly queued, uploads nothing more |
| GlyphCache.CacheAgreesHoldings | src/com/github/isam/render/font/VertexFont.java:97 | the cache invariant, restated in terms of a snapshot of what each atlas holds |
| GlyphCache.CachePlaced | src/com/github/isam/render/font/VertexFont.java:124 | recording a codepoint under the one atlas that just gained it keeps the cache invariant |
| GlyphCache.VertexFont.constructor | src/com/github/isam/render/font/VertexFont.java:46-67 | a new font has no atlases and an empty cache |
| GlyphCache.VertexFont.GetCodepointInfo | src/com/github/isam/render/font/VertexFont.java:95-138 | a cache hit answers from its atlas and changes nothing; "unrecorded" happens exactly for a zero-size glyph and "too large" exactly for a glyph over 1024 on a side, and errors change nothing; a success is cached; a miss is `Placed`: the glyph, with its converted metrics, went either to the first existing atlas with room (every earlier one had none), which took it exactly as `putBitmap` places it while every other atlas stayed unchanged, or, when no atlas had room, to one new atlas of the font size appended at the end, which took it from its fresh state |
| GlyphCache.VertexFont.Miss | src/com/github/isam/render/font/VertexFont.java:98-137 | for an uncached codepoint: the zero-size and too-large errors exactly when they occur, changing nothing; otherwise the glyph is `Placed` and cached |
| GlyphCache.VertexFont.Place | src/com/github/isam/render/font/VertexFont.java:120-135 | the existing atlases in order, then one new atlas: it fails, changing nothing, exactly when the glyph is over 1024 on a side; a success is cached and is either a placement in the first existing atlas with room or in a new atlas appended at the end |
| GlyphCache.VertexFont.PlaceInExisting | src/com/github/isam/render/font/VertexFont.java:120-127 | the existing atlases are tried in order; failure means no atlas had room and nothing changed; a success is at index i: atlases 0 to i-1 had no room, atlas i took the glyph as `putBitmap` does (new free list, record, queue entry and image write), the codepoint is cached under atlas i, and every other atlas is unchanged |
| GlyphCache.VertexFont.TryAtlas | src/com/github/isam/render/font/VertexFont.java:121-126 | one atlas fails exactly when its free list has no first fit, and then nothing changes; a success means it took the glyph as `putBitmap` does and the codepoint is cached under it; no other atlas changes either way |
| GlyphCache.VertexFont.PlaceInNew | src/com/github/isam/render/font/VertexFont.java:128-135 | the new atlas succeeds exactly for a glyph at most 1024 x 1024; only then is it appended and the codepoint cached under it, and it is an atlas of the font size that took the glyph from the fresh state (the whole image free); the existing atlases never change |
| GlyphCache.VertexFont.AddAtlas | src/com/github/isam/render/font/VertexFont.java:132-133 | appending a new atlas that holds only the codepoint, and caching it, keeps the font invariant |
| GlyphCache.VertexFont.CacheIn | src/com/github/isam/render/font/VertexFont.java:124 | recording the codepoint under the atlas that has just taken it keeps the font invariant |
| Version.Create | src/com/github/isam/util/Version.java:28-39 | the constructor succeeds exactly when major < 100, minor < 100 and revision < 10000, and fails with "invalid version" otherwise |
| Version.QuickParse | src/com/github/isam/util/Version.java:57-59 | the packed value is an `int` (computed with wrap-around) |
| Version.SameAs | src/com/github/isam/util/Version.java:66-69 | `equals(ver, ignoretype)`; `EqualsIsIdentity` proves that without ignoring the type it is equality of versions |
| Version.IsLessThan | src/com/github/isam/util/Version.java:53-55 | `isLessThan(ver, equal)`; `NotBothStrict` and `MoreMirrorsLess` are about it |
| Version.IsMoreThan | src/com/github/isam/util/Version.java:45-47 | `isMoreThan(ver, equal)`; `MoreMirrorsLess` proves it mirrors `IsLessThan` |
| Version.ToString | src/com/github/isam/util/Version.java:71-73 | `toString`; `FromStringToString` proves that reading it back gives the version |
| Version.QuickParseExact | src/com/github/isam/util/Version.java:57-59 | for components in range nothing wraps: the packed value is major*1000000 + minor*10000 + revision |
| Version.QuickParseOrder | src/com/github/isam/util/Version.java:41-59 | for components in range, the packed order is the lexicographic order of (major, minor, revision) |
| Version.QuickParseInjective | src/com/github/isam/util/Version.java:57-69 | for components in range, equal packed values mean equal components (`equals` ignoring the type) |
| Version.EqualsIsIdentity | src/com/github/isam/util/Version.java:61-69 | `equals` with the type compared is value equality |
| Version.NotBothStrict | src/com/github/isam/util/Version.java:46-54 | strict `isLessThan` and strict `isMoreThan` are never both true |
| Version.MoreMirrorsLess | src/com/github/isam/util/Version.java:41-55 | `v.isMoreThan(w, e)` is `w.isLessThan(v, e)` |
| Version.GetOrZero | src/com/github/isam/util/Version.java:90-92 | a missing component is 0; a present one succeeds exactly when it parses as an `int` |
| Version.GetType | src/com/github/isam/util/Version.java:86-88 | the type comes from the second token when there are exactly two tokens, and is STABLE otherwise |
| Version.FromParts | src/com/github/isam/util/Version.java:79-83 | every version built from components is a valid version of the given type |
| Version.FromTokens | src/com/github/isam/util/Version.java:77-83 | every version built from the space-separated tokens is valid |
| Version.FromString | src/com/github/isam/util/Version.java:75-84 | every version read is a valid version |
| Version.FromPrintedParts | src/com/github/isam/util/Version.java:79-83 | printed components read back as the constructor's result, with missing minor or revision defaulting to 0 |
| Version.FromStringToString | src/com/github/isam/util/Version.java:71-84 | round trip: reading the printed form of a valid version gives the version back |
| Version.FromStringMajorOnly | src/com/github/isam/util/Version.java:75-92 | "M" alone reads as M.0.0 STABLE |
| Version.FromStringNoRevision | src/com/github/isam/util/Version.java:75-92 | "M.m" reads as M.m.0 STABLE |
| Version.NumberHasNoSeparator | src/com/github/isam/util/Version.java:71-79 | a printed number contains no '.' or ' ', so `split` recovers the components |
| Version.ToStringTextual | src/com/github/isam/util/Version.java:71-73 | the printed form holds only digits, '-', '.', ' ' and lower-case letters |
| Version.NumberIsTrimmed | src/com/github/isam/util/Version.java:76 | a printed number neither starts nor ends with a character `trim` removes |
| VersionType.Name | src/com/github/isam/util/VersionType.java:21-31 | every name is non-empty, lower-case ASCII, with no space |
| VersionType.FromString | src/com/github/isam/util/VersionType.java:33-45 | the result is a non-STABLE constant exactly for "indev", "alpha", "beta" and "trial" in any case, and then it is the constant of that name |
| VersionType.NamesDistinct | src/com/github/isam/util/VersionType.java:21 | the five names are pairwise distinct |
| VersionType.FromStringName | src/com/github/isam/util/VersionType.java:21-45 | reading a constant's name gives the constant back |
| VersionType.FromStringIgnoresCase | src/com/github/isam/util/VersionType.java:34 | reading is insensitive to letter case |
| VersionUtils.Split | src/com/github/isam/util/VersionUtils.java:55-75 | the scanning loop produces exactly the trimmed pieces between commas outside brackets |
| VersionUtils.SplitRange | src/com/github/isam/util/VersionUtils.java:55-75 | the pieces of `split`; `Split` proves the loop computes them |
| VersionUtils.NoCutsOnePiece | src/com/github/isam/util/VersionUtils.java:55-75 | a text without a top-level comma is one trimmed piece (none when empty) |
| VersionUtils.PiecesShorter | src/com/github/isam/util/VersionUtils.java:55-75 | with several pieces, each is shorter than the text, so the recursion of `isInRange` ends |
| VersionUtils.NoTrailingPiece | src/com/github/isam/util/VersionUtils.java:70-71 | a trailing top-level comma adds no empty last piece |
| VersionUtils.IsInRange | src/com/github/isam/util/VersionUtils.java:29-53 | an empty range is rejected with "range is null!" |
| VersionUtils.AnyInRangeMeaning | src/com/github/isam/util/VersionUtils.java:33-39 | with several pieces the answer is true exactly when some piece contains the version, and the first error met in order is propagated |
| VersionUtils.AnyInRange | src/com/github/isam/util/VersionUtils.java:33-39 | the loop over several pieces; `AnyInRangeMeaning` states what it answers |
| VersionUtils.InPiece | src/com/github/isam/util/VersionUtils.java:40-52 | a piece with three or more comma parts is rejected as "invalid range statement" |
| VersionUtils.IsInRangeText | src/com/github/isam/util/VersionUtils.java:25-27 | the text form reads the version first and passes on its failure |
| VersionUtils.OnePiece | src/com/github/isam/util/VersionUtils.java:40-43 | a range without a comma is a single trimmed piece |
| VersionUtils.SingleVersion | src/com/github/isam/util/VersionUtils.java:42-43 | a single version matches exactly the versions equal to it ignoring type, and a failing read propagates |
| VersionUtils.IntervalPieces | src/com/github/isam/util/VersionUtils.java:44-47 | an interval text is one piece whose two comma parts are the bracketed bounds |
| VersionUtils.IntervalRange | src/com/github/isam/util/VersionUtils.java:44-52 | an interval needs lower < upper; '[' includes the lower bound and ']' the upper bound, otherwise the bounds are strict |
| VersionUtils.InInterval | src/com/github/isam/util/VersionUtils.java:44-52 | an interval piece: both bounds read first, then "invalid range", then the bracket checks; `IntervalRange` states what it answers |
| Pool.Poolable.constructor | src/com/github/isam/util/pool/Poolable.java:1-12 | a new object has not been reset |
| Pool.Poolable.Reset | src/com/github/isam/util/pool/Poolable.java:1-12 | each `reset` is counted once |
| Pool.PushCapped | src/com/github/isam/util/pool/Pool.java:76-77 | an object is pushed exactly when the stack is below the maximum |
| Pool.PushAllKeepsPrefix | src/com/github/isam/util/pool/Pool.java:94-98 | capped pushes keep the old stack as a prefix and add as many objects as there is room for, in order |
| Pool.NonNullMembers | src/com/github/isam/util/pool/Pool.java:94-96 | skipping nulls keeps exactly the non-null entries |
| Pool.Pool.constructor | src/com/github/isam/util/pool/Pool.java:52-57 | a new pool has no free objects and peak 0 |
| Pool.Pool.Obtain | src/com/github/isam/util/pool/Pool.java:65-67 | the most recently freed object is popped (LIFO), or a fresh one is made when the pool is empty |
| Pool.Pool.Free | src/com/github/isam/util/pool/Pool.java:74-81 | null is rejected and changes nothing; otherwise the object is pushed only below the maximum, the peak follows the count, and the object is reset in every case |
| Pool.Pool.FreeAll | src/com/github/isam/util/pool/Pool.java:89-102 | a null stack is rejected; nulls are skipped; the rest are pushed under the cap and each reset once per occurrence; the peak is updated once at the end |
| Pool.Pool.FreeEntry | src/com/github/isam/util/pool/Pool.java:93-100 | one step of the `freeAll` loop: a null entry is skipped, any other is pushed under the cap and reset, and the peak is left for the end |
| Pool.Pool.Clear | src/com/github/isam/util/pool/Pool.java:107-109 | the pool becomes empty |
| Pool.Pool.GetFree | src/com/github/isam/util/pool/Pool.java:114-116 | the number of free objects |
| Pool.FreeThenObtain | src/com/github/isam/util/pool/Pool.java:65-81 | an object freed into a pool with room comes straight back, and the stack is as before |
| Pools.Chosen | src/com/github/isam/util/pool/Pools.java:102-108 | an object goes to the held pool, or else to the pool registered for its class |
| Pools.HeldRegistered | src/com/github/isam/util/pool/Pools.java:102-112 | the pool held between iterations is always a registered one, and without `samePool` no pool is held |
| Pools.OwnPool | src/com/github/isam/util/pool/Pools.java:102-112 | without `samePool` every object goes to the pool of its own class, if there is one |
| Pools.SamePoolSticks | src/com/github/isam/util/pool/Pools.java:106-112 | with `samePool`, once a pool is found every later object goes to it |
| Pools.HeldFromThenOn | src/com/github/isam/util/pool/Pools.java:106-112 | with `samePool`, the pool found at one object is held at every later iteration |
| Pools.DeliveredCountBound | src/com/github/isam/util/pool/Pools.java:100-113 | an object is freed at most as often as it occurs in the stack |
| Pools.FreeList | src/com/github/isam/util/pool/Pools.java:100-113 | the loop gives each pool the capped pushes of exactly the objects routed to it, and resets each object once per delivery |
| Pools.FreeEntry | src/com/github/isam/util/pool/Pools.java:102-114 | one iteration of the loop keeps "each pool holds the capped pushes of what was routed to it" and "each object is reset once per delivery", and computes the next held pool |
| Pools.Deliver | src/com/github/isam/util/pool/Pools.java:111 | freeing one object into its target pool extends that pool's deliveries by it and resets it once |
| Pools.Pools.constructor | src/com/github/isam/util/pool/Pools.java:25 | the registry starts empty |
| Pools.Pools.Get | src/com/github/isam/util/pool/Pools.java:35-43 | a registered pool is returned as it is, whatever the max; otherwise a new empty pool with this max is registered |
| Pools.Pools.GetDefault | src/com/github/isam/util/pool/Pools.java:49-51 | as `Get`, with max 100 |
| Pools.Pools.Set | src/com/github/isam/util/pool/Pools.java:57-59 | the registry entry is overwritten |
| Pools.Pools.Obtain | src/com/github/isam/util/pool/Pools.java:64-66 | a missing pool is registered as a side effect; then the object comes from that pool, by `obtain`'s rules |
| Pools.Pools.Free | src/com/github/isam/util/pool/Pools.java:72-79 | null is rejected; an object of an unregistered class is ignored; otherwise it is freed into its pool |
| Pools.Pools.FreeAll | src/com/github/isam/util/pool/Pools.java:98-115 | a null stack is rejected; otherwise each pool receives exactly the objects routed to it, under its cap; the registry is unchanged |
| Pools.Pools.ClearAll | src/com/github/isam/util/pool/Pools.java:117-122 | every registered pool is emptied, and then the registry is |
| VideoMode.Read | src/com/github/isam/render/window/VideoMode.java:63-81 | null reads as empty; a text read is one the grammar matches, and the three channels get the same bits |
| VideoMode.MatchComplete | src/com/github/isam/render/window/VideoMode.java:28 | the grammar matcher accepts every well-formed `W x H [@R [:C]]` text and recovers its groups |
| VideoMode.MatchSound | src/com/github/isam/render/window/VideoMode.java:28 | everything the matcher accepts is well-formed and is the text of the groups found |
| VideoMode.Match | src/com/github/isam/render/window/VideoMode.java:28 | the matcher of `PATTERN`; `MatchComplete` and `MatchSound` prove it accepts exactly the grammar |
| VideoMode.ReadGroups | src/com/github/isam/render/window/VideoMode.java:67-76 | a matched text whose numbers fit in an `int` reads as those numbers, with colour bits / 3 per channel |
| VideoMode.ReadDefaults | src/com/github/isam/render/window/VideoMode.java:71-75 | a missing refresh rate defaults to 60 and missing colour bits to 24 (8 per channel) |
| VideoMode.ReadOverflow | src/com/github/isam/render/window/VideoMode.java:78-80 | a number too large for an `int` makes the read empty, not an error |
| VideoMode.ReadRejects | src/com/github/isam/render/window/VideoMode.java:67-80 | a text that is not of the grammar's form reads as empty |
| VideoMode.WriteText | src/com/github/isam/render/window/VideoMode.java:126-128 | `write` prints exactly the grammar's text of the four numbers |
| VideoMode.Write | src/com/github/isam/render/window/VideoMode.java:126-128 | `write`; `WriteText` and `ReadWrite` are about it |
| VideoMode.ReadWrite | src/com/github/isam/render/window/VideoMode.java:63-128 | round trip: reading what `write` prints gives the mode back, for non-negative fields with equal channel bits; the copy in render/VideoMode.java (lines 94-116) is the same code |
| VideoMode.Equals | src/com/github/isam/render/window/VideoMode.java:107-116 | two modes are equal exactly when all six fields agree; render/VideoMode.java lines 75-84 are the same |
| Monitor.KeptIsReversedFilter | src/com/github/isam/render/window/Monitor.java:46-51 | the reverse loop keeps the deep-colour modes in the reverse of the reported order |
| Monitor.KeptMembers | src/com/github/isam/render/window/Monitor.java:49-50 | a mode is kept exactly when it was reported and has at least 8 bits in each of red, green and blue |
| Monitor.KeptModes | src/com/github/isam/render/window/Monitor.java:46-51 | the modes the reverse loop keeps; `KeptIsReversedFilter` and `KeptMembers` are about it |
| Monitor.IndexOf | src/com/github/isam/render/window/Monitor.java:72-74 | `List.indexOf`: -1 exactly for an absent mode, otherwise the first index holding it |
| Monitor.Monitor.constructor | src/com/github/isam/render/window/Monitor.java:37-41 | a new monitor holds the kept modes, its position and its current mode |
| Monitor.Monitor.RefreshVideoModes | src/com/github/isam/render/window/Monitor.java:43-59 | the list is cleared and refilled with exactly the kept modes; position and current mode are those reported |
| Monitor.Monitor.GetPreferredVidMode | src/com/github/isam/render/window/Monitor.java:61-70 | a requested mode that is stored is returned; with no request or no match, the current mode is returned |
| Monitor.Monitor.GetVideoModeIndex | src/com/github/isam/render/window/Monitor.java:72-74 | `indexOf`: the first index holding the mode, or -1 exactly when it is absent |
| NioBuffer.Allocate | src/com/github/isam/render/vertex/ElementBuffer.java:37 | a new buffer has the capacity asked for, zero position, the limit at the capacity and zero contents |
| NioBuffer.Put | src/com/github/isam/render/vertex/ElementBuffer.java:56 | a relative put succeeds exactly below the limit |
| NioBuffer.PutAllEffect | src/com/github/isam/render/vertex/ElementBuffer.java:56 | chained puts write as many values as there is room for, in order, from the position; they overflow exactly when there is not room for all |
| NioBuffer.PutAllCons | src/com/github/isam/render/vertex/ElementBuffer.java:56 | chained puts stop at the first put that overflows |
| NioBuffer.EnsureSize | src/com/github/isam/render/vertex/ElementBuffer.java:40-51 | the corrected `ensureSize` always gives a well-formed buffer |
| NioBuffer.EnsureSizeKeeps | src/com/github/isam/render/vertex/ElementBuffer.java:40-51 | the corrected `ensureSize` keeps position and contents, does nothing when there is room, and otherwise doubles the capacity |
| NioBuffer.EnsureSizeRoom | src/com/github/isam/render/vertex/ElementBuffer.java:40-51 | one doubling of a non-empty buffer leaves room for an addition no larger than the capacity |
| NioBuffer.ZeroCapacityOverflows | src/com/github/isam/render/vertex/ElementBuffer.java:37-56 | with capacity 0 doubling stays at 0, so the next put overflows |
| NioBuffer.Reallocated | src/com/github/isam/render/vertex/ElementBuffer.java:42-46 | copying a buffer into a new one of a given capacity succeeds exactly when the written part fits |
| NioBuffer.AsWrittenOverflows | src/com/github/isam/render/vertex/ElementBuffer.java:42-46 | as written, the reallocation holds half the elements, so copying a full buffer of capacity at least 1 always overflows |
| NioBuffer.AppendFits | src/com/github/isam/render/vertex/VertexBuffer.java:64-114 | appending no more values than the capacity never overflows and writes them right after the old contents |
| NioBuffer.Flip | src/com/github/isam/render/vertex/ElementBuffer.java:68-73 | `upload` sends exactly the written prefix |
| NioBuffer.GrowArray | src/com/github/isam/render/vertex/ElementBuffer.java:42-49 | the new array is twice as long, starts with the old contents up to the limit, and is zero after that |
| ElementBuffer.ElementBuffer.constructor | src/com/github/isam/render/vertex/ElementBuffer.java:30-38 | the initial buffer holds 3 * size ints at position 0, with no triangles |
| ElementBuffer.ElementBuffer.EnsureSize | src/com/github/isam/render/vertex/ElementBuffer.java:40-51 | the buffer becomes the corrected `ensureSize` of the old one |
| ElementBuffer.ElementBuffer.PutTriangle | src/com/github/isam/render/vertex/ElementBuffer.java:53-58 | on the corrected `ensureSize` (see Findings): the triangle count goes up by one, and a, b, c are appended in order; with room guaranteed, it never overflows and the position stays 3 * triangles |
| ElementBuffer.ElementBuffer.PutEach | src/com/github/isam/render/vertex/ElementBuffer.java:56 | the chained `put` calls on the array have the effect of the buffer's `PutAll` |
| ElementBuffer.ElementBuffer.Upload | src/com/github/isam/render/vertex/ElementBuffer.java:68-75 | exactly the first 3 * triangles indices are sent |
| ElementBuffer.ElementBuffer.GetTriangles | src/com/github/isam/render/vertex/ElementBuffer.java:60-62 | `getTriangles`; `PutTriangle` states how the count grows |
| ElementBuffer.AppendingStep | src/com/github/isam/render/vertex/ElementBuffer.java:53-58 | each triangle keeps position = 3 * triangles without overflow |
| ElementBuffer.SecondTriangleOverflows | src/com/github/isam/render/vertex/ElementBuffer.java:40-56 | as written, `ElementBuffer(1)` takes one triangle and overflows on the second |
| ElementBuffer.SecondTriangleFits | src/com/github/isam/render/vertex/ElementBuffer.java:40-56 | with the corrected doubling, the second triangle fits |
| VertexBuffer.Channel | src/com/github/isam/render/vertex/VertexBuffer.java:83-101 | a channel extracted by shift and mask lies in 0..255 |
| VertexBuffer.RgbOfPacked | src/com/github/isam/render/vertex/VertexBuffer.java:83-88 | `color(int)` reads red, green and blue back from 0xRRGGBB |
| VertexBuffer.RgbaOfPacked | src/com/github/isam/render/vertex/VertexBuffer.java:96-102 | `colorAlpha(int)` reads red, green, blue and alpha back from 0xRRGGBBAA (a negative `int` included) |
| VertexBuffer.VertexBuffer.constructor | src/com/github/isam/render/vertex/VertexBuffer.java:48-62 | the initial buffer holds vertexes * size / 4 floats; the constructors that take fewer arguments use GL_STATIC_DRAW and 32 bytes |
| VertexBuffer.VertexBuffer.EnsureSize | src/com/github/isam/render/vertex/VertexBuffer.java:64-75 | the buffer becomes the corrected `ensureSize` of the old one |
| VertexBuffer.VertexBuffer.Append | src/com/github/isam/render/vertex/VertexBuffer.java:77-114 | on the corrected `ensureSize` (see Findings): an append writes the values in order after making room, and leaves the vertex count alone; with room guaranteed it never overflows |
| VertexBuffer.VertexBuffer.PutEach | src/com/github/isam/render/vertex/VertexBuffer.java:77-114 | the chained `put` calls on the array have the effect of the buffer's `PutAll` |
| VertexBuffer.VertexBuffer.Pos | src/com/github/isam/render/vertex/VertexBuffer.java:77-81 | x, y and z are appended |
| VertexBuffer.VertexBuffer.Color | src/com/github/isam/render/vertex/VertexBuffer.java:90-94 | r, g and b are appended |
| VertexBuffer.VertexBuffer.ColorPacked | src/com/github/isam/render/vertex/VertexBuffer.java:83-88 | the three unpacked channels are appended |
| VertexBuffer.VertexBuffer.ColorAlpha | src/com/github/isam/render/vertex/VertexBuffer.java:104-108 | r, g, b and a are appended |
| VertexBuffer.VertexBuffer.ColorAlphaPacked | src/com/github/isam/render/vertex/VertexBuffer.java:96-102 | the four unpacked channels are appended |
| VertexBuffer.VertexBuffer.Uv | src/com/github/isam/render/vertex/VertexBuffer.java:110-114 | u and v are appended |
| VertexBuffer.VertexBuffer.EndVertex | src/com/github/isam/render/vertex/VertexBuffer.java:116-118 | only this changes the vertex count, by one |
| VertexBuffer.VertexBuffer.UpdateVertex | src/com/github/isam/render/vertex/VertexBuffer.java:128-181 | an update is accepted exactly when `vertex < nowVertexes`, and it writes its values at byte vertex * size + offset |
| VertexBuffer.VertexBuffer.GetVertexes | src/com/github/isam/render/vertex/VertexBuffer.java:120-122 | `getVertexes`; `EndVertex` states how the count grows |
| VertexBuffer.VertexBuffer.UpdateVertexPos | src/com/github/isam/render/vertex/VertexBuffer.java:124-133 | `updateVertexPos`: three values at offset 0 by default, through `UpdateVertex` |
| VertexBuffer.VertexBuffer.UpdateVertexColor | src/com/github/isam/render/vertex/VertexBuffer.java:142-151 | `updateVertexColor` of three floats: offset 12 by default, through `UpdateVertex` |
| VertexBuffer.VertexBuffer.UpdateVertexColorPacked | src/com/github/isam/render/vertex/VertexBuffer.java:135-140 | `updateVertexColor(vertex, color)`: the channels of bits 16-23, 8-15 and 0-7 over 255 (see `RgbOfPacked`) |
| VertexBuffer.VertexBuffer.UpdateVertexColorAlpha | src/com/github/isam/render/vertex/VertexBuffer.java:161-170 | `updateVertexColorAlpha` of four floats: offset 12 by default, through `UpdateVertex` |
| VertexBuffer.VertexBuffer.UpdateVertexColorAlphaPacked | src/com/github/isam/render/vertex/VertexBuffer.java:153-159 | `updateVertexColorAlpha(vertex, color)`: the channels of bits 24-31, 16-23, 8-15 and 0-7 over 255 (see `RgbaOfPacked`) |
| VertexBuffer.VertexBuffer.UpdateVertexUv | src/com/github/isam/render/vertex/VertexBuffer.java:172-181 | `updateVertexUV`: two values at offset 24 by default, through `UpdateVertex` |
| VertexBuffer.VertexBuffer.DefaultUpdatesInVertex | src/com/github/isam/render/vertex/VertexBuffer.java:124-181 | in the default layout, position, colour and uv updates fill one vertex's 32 bytes back to back, from byte vertex * 32 |
| VertexBuffer.VertexBuffer.Upload | src/com/github/isam/render/vertex/VertexBuffer.java:183-190 | exactly the written prefix is sent |
| Uniform.CountTable | src/com/github/isam/render/shader/Uniform.java:28-38 | INT_n and FLOAT_n hold n values; MATRIX_n holds n*n |
| Uniform.Count | src/com/github/isam/render/shader/Uniform.java:29-37 | `Type.count`; `CountTable` states it |
| Uniform.IntBufferTypes | src/com/github/isam/render/shader/Uniform.java:56-59 | exactly the INT_n types use the int buffer |
| Uniform.CallFor | src/com/github/isam/render/shader/Uniform.java:103-146 | each type issues one call: `glUniform{n}iv` for INT_n, `glUniformMatrix{n}fv` without transpose for MATRIX_n, `glUniform{n}fv` otherwise, with the type's n and the buffer |
| Uniform.OnlyShorterAccepted | src/com/github/isam/render/shader/Uniform.java:84-95 | as written, only data shorter than the count is accepted; a full set never is |
| Uniform.Uniform.constructor | src/com/github/isam/render/shader/Uniform.java:51-61 | exactly one buffer of the type's count, of the type's kind, and the uniform starts dirty |
| Uniform.Uniform.UpdateUniformLocation | src/com/github/isam/render/shader/Uniform.java:63-65 | the location becomes what GL reports |
| Uniform.Uniform.SetInt | src/com/github/isam/render/shader/Uniform.java:83-89 | it fails on a length equal to the count, on a float uniform, or on overflow, in that order; it succeeds exactly for a shorter length on an int uniform, writing the prefix and marking dirty; a failure writes nothing |
| Uniform.Uniform.SetFloat | src/com/github/isam/render/shader/Uniform.java:91-97 | the same for floats |
| Uniform.Uniform.Upload | src/com/github/isam/render/shader/Uniform.java:99-147 | clean: nothing is issued; dirty: the flag is cleared and exactly the type's one call is issued with the whole buffer |
| Uniform.UploadTwice | src/com/github/isam/render/shader/Uniform.java:100-102 | two uploads with no set between them issue one call in total, and none when clean |
| DynamicImage.SwizzleChannels | src/com/github/isam/render/texture/DynamicImage.java:50-54 | the conversion keeps alpha and green and swaps red and blue |
| DynamicImage.Swizzle | src/com/github/isam/render/texture/DynamicImage.java:52-53 | the per-pixel conversion; `SwizzleChannels` and `SwizzleTwice` are about it |
| DynamicImage.SwizzleTwice | src/com/github/isam/render/texture/DynamicImage.java:52-53 | converting a pixel twice gives it back |
| DynamicImage.SwizzledTwice | src/com/github/isam/render/texture/DynamicImage.java:50-54 | converting a frame twice gives it back |
| DynamicImage.SwizzleInPlace | src/com/github/isam/render/texture/DynamicImage.java:50-54 | the loop converts every pixel of the array in place, in order |
| DynamicImage.ConvertFrame | src/com/github/isam/render/texture/DynamicImage.java:47-59 | a frame becomes an image of the same size with converted pixels |
| DynamicImage.TotalTimeIsSum | src/com/github/isam/render/texture/DynamicImage.java:43-46 | the accumulated `totalTime` is the sum of the delays, wrapped to an `int` |
| DynamicImage.TotalTime | src/com/github/isam/render/texture/DynamicImage.java:43-46 | `totalTime += delay` in `int` arithmetic; `TotalTimeIsSum` relates it to the plain sum |
| DynamicImage.DynamicImage.constructor | src/com/github/isam/render/texture/DynamicImage.java:43-61 | one converted image per frame and one delay per frame, in order; the total is the delays accumulated |
| DynamicImage.DynamicImage.GetFrames | src/com/github/isam/render/texture/DynamicImage.java:68-70 | the number of delays is the number of images |
| DynamicImage.DynamicImage.GetImage | src/com/github/isam/render/texture/DynamicImage.java:72-74 | the frame's image, and an index error exactly for a frame out of range |
| DynamicImage.Open | src/com/github/isam/render/texture/DynamicImage.java:37-62 | a status other than OK throws an `IOException`, whose message tells an open error from a format error; otherwise the frames load |
| DynamicTexture.FrameAtPrefix | src/com/github/isam/render/texture/DynamicTexture.java:56-62 | the frame chosen for r is the first i whose delays up to and including i add up to at least r; no frame is chosen when no prefix does |
| DynamicTexture.FrameAt | src/com/github/isam/render/texture/DynamicTexture.java:56-62 | the frame `bind` chooses; a chosen frame is an index of the delays, and `FrameAtPrefix` and `FrameAtCovers` say which one |
| DynamicTexture.FrameAtCovers | src/com/github/isam/render/texture/DynamicTexture.java:56-61 | with non-negative delays, every time below their sum falls in some frame |
| DynamicTexture.AlwaysSomeFrame | src/com/github/isam/render/texture/DynamicTexture.java:47-61 | with non-negative delays whose sum is the positive total, every non-negative time binds some frame |
| DynamicTexture.StaticTexture.constructor | src/com/github/isam/render/texture/DynamicTexture.java:39 | a frame texture holds its image and level and starts neither linear nor clamped |
| DynamicTexture.StaticTexture.SetLinear | src/com/github/isam/render/texture/DynamicTexture.java:78 | the frame's flag is set |
| DynamicTexture.StaticTexture.SetClamp | src/com/github/isam/render/texture/DynamicTexture.java:89 | the frame's flag is set |
| DynamicTexture.DynamicTexture.FromImage | src/com/github/isam/render/texture/DynamicTexture.java:35-42 | the image's delays and total, and one new texture per frame, in order |
| DynamicTexture.DynamicTexture.constructor | src/com/github/isam/render/texture/DynamicTexture.java:44-51 | the total is the delays summed in `int` arithmetic |
| DynamicTexture.DynamicTexture.Bind | src/com/github/isam/render/texture/DynamicTexture.java:53-64 | nothing happens when the total is 0; otherwise the frame chosen for `now % totalTime` is bound, or the list access throws when that frame is missing |
| DynamicTexture.DynamicTexture.SetLinear | src/com/github/isam/render/texture/DynamicTexture.java:75-80 | the flag is set here and on every frame, and nothing else changes |
| DynamicTexture.DynamicTexture.SetClamp | src/com/github/isam/render/texture/DynamicTexture.java:86-91 | the flag is set here and on every frame, and nothing else changes |
| DynamicTexture.DynamicTexture.UpdateRegion | src/com/github/isam/render/texture/DynamicTexture.java:99-101 | the region update always throws `UnsupportedOperationException("update")` |
| DynamicTexture.DynamicTexture.GetFrame | src/com/github/isam/render/texture/DynamicTexture.java:103-105 | the frame, and an index error exactly for a frame out of range |
| LazyLoadedValue.LazyLoadedValue.constructor | src/com/github/isam/util/LazyLoadedValue.java:11-13 | the supplier is stored and no value yet |
| LazyLoadedValue.LazyLoadedValue.Get | src/com/github/isam/util/LazyLoadedValue.java:15-22 | while the supplier is set it is called exactly once per `get`; a value is stored and the supplier dropped; a throw leaves both and propagates; afterwards the stored value is returned with no call |
| LazyLoadedValue.GetThenGetAgain | src/com/github/isam/util/LazyLoadedValue.java:15-22 | after a successful `get`, the next one returns the same value without calling the supplier |
| LazyLoadedValue.ThrowThenRetry | src/com/github/isam/util/LazyLoadedValue.java:17-19 | a throwing supplier stays set, so the next `get` calls it again |
| JavaInt.Wrap32 | src/com/github/isam/util/Version.java:58 | `int` arithmetic: the wrapped value is an `int` congruent to the exact one, and an `int` is unchanged |
| JavaInt.JavaRem | src/com/github/isam/render/texture/DynamicTexture.java:56 | Java's `%` truncates: the remainder has the sign of the dividend and is smaller than the divisor in magnitude |
| JavaInt.ParseIntToString | src/com/github/isam/util/Version.java:71-91 | `Integer.parseInt` reads back every printed `int` |
| JavaInt.ParseDigits | src/com/github/isam/render/window/VideoMode.java:69-74 | a digit string parses exactly when its value fits in an `int` |
| JavaInt.ParseInt | src/com/github/isam/util/Version.java:91 | `Integer.parseInt` on ASCII text: an optional sign and decimal digits whose value fits in an `int`; `ParseIntToString` and `ParseDigits` are about it |
| JavaInt.IntToString | src/com/github/isam/util/Version.java:72 | `Integer.toString`: non-empty, digits with a leading '-' exactly for negatives; `ParseIntToString` proves `ParseInt` reads it back |
| JavaString.Trim | src/com/github/isam/util/Version.java:76 | the trimmed text starts and ends with no character `trim` removes |
| JavaString.TrimUnchanged | src/com/github/isam/util/Version.java:76 | a text that neither starts nor ends with a trimmable character is its own trim |
| JavaString.TrimKeepsAbsent | src/com/github/isam/util/VersionUtils.java:66-71 | trimming adds no character |
| JavaString.SplitTwo | src/com/github/isam/util/Version.java:77 | splitting "a d b" gives [a, b] |
| JavaString.SplitThree | src/com/github/isam/util/Version.java:79 | splitting "a d b d c" gives [a, b, c] |
| JavaString.Split | src/com/github/isam/util/VersionUtils.java:40 | no piece contains the delimiter, and trailing empty pieces are dropped |
| JavaString.ToLower | src/com/github/isam/util/VersionType.java:34 | each character is lower-cased in place |

## Left out

- Floating point:
  - real-valued colours, vertex values, scales and metrics are exact reals;
  - `float` rounding is not modelled;
  - the atlas's double pixel coordinates are `int`, since they are always whole pixels.
- The glyph's UV floats (`region / 1024`) are not computed. A placement is its integer pixel rectangle, and `refresh` uploads that rectangle.
- Pixels and the GPU are effects passed in or recorded, not performed:
  - `copyFromFont`, `texture.update`, `glBufferData`, `glBufferSubData`, `glUniform*` and `glBindTexture`;
  - the STB rasteriser's bitmap box and metrics, `glGetUniformLocation` and the GLFW monitor queries are parameters.
- `DynamicImage`: the GIF decoder's status and decoded frames are inputs. `MemoryUtil.memAlloc` and `Image` native memory are left out.
- `DynamicTexture.DynamicTexture.Bind`: the clock (`System.currentTimeMillis`) is the parameter `now`. Binding the chosen frame is returned as its index.
- DynamicTexture omits three operations as GPU calls: `unbind`, `update()` and the frame's own `bind`.
- DynamicTexture: the delays list is copied as a value, so the sharing of one `IntList` between `DynamicImage` and `DynamicTexture` is not modelled.
- `FontAtlas.toUpdates` is a `ConcurrentLinkedQueue`. Here it is a sequential queue, and thread safety is not modelled.
- `VideoMode.Read`: the regex `PATTERN` is a hand-written matcher proved complete and sound for the grammar. The regex engine is not modelled.
- VideoMode: the GLFW constructors, the getters, `hashCode` and `toString` are left out.
- Version: `hashCode` is left out.
- `Version.GetOrZero` reads digits with `JavaInt.ParseInt`, which accepts only the ASCII digits 0-9. `Integer.parseInt` also accepts other Unicode decimal digits (say "١"), so the model rejects some components that Java reads.
- `JavaInt.ParseInt` accepts only the ASCII digits 0-9, while `Integer.parseInt` accepts every Unicode decimal digit; Unicode digit classes are not modelled.
- `VersionType.FromString` lower-cases with `JavaString.ToLower`, which maps only A-Z and ignores the default locale. Under a Turkish locale Java reads "TRIAL" and "INDEV" as STABLE (dotless i), and the model does not.
- `JavaString.ToLower` maps only A-Z to a-z: `String.toLowerCase()` with its default locale and full Unicode case mapping is not modelled.
- `Version.Create`: the null `type` check is not modelled, because a type here is never null. The three-argument constructor is `Create` with STABLE.
- `VersionUtils.IsInRange`: the null checks on the version and the range are not modelled. The empty range takes the "range is null!" path.
- `GlyphCache.VertexFont.GetCodepointInfo` requires left <= right and bottom <= top of the bitmap box. The rasteriser always returns such a box.
- `Atlas.FontAtlas.PutBitmap` requires a non-negative width and height. Its one caller establishes this.
- `ElementBuffer.ElementBuffer.constructor` requires that size * 12 fits in an `int`. The `int` overflow of that product is not modelled.
- `VertexBuffer.VertexBuffer.constructor` requires that vertexes * size fits in an `int`. The `int` overflow of that product is not modelled.
- `ElementBuffer.ElementBuffer.constructor` takes the size as a `nat`, so the `IllegalArgumentException` that `allocateDirect` throws for a negative capacity is not modelled.
- `VertexBuffer.VertexBuffer.constructor` takes vertexes and size as `nat`, so the `IllegalArgumentException` that `allocateDirect` throws for a negative capacity is not modelled.
- `ElementBuffer.ElementBuffer.PutTriangle` grows the buffer with the corrected `ensureSize`; the as-written growth is `NioBuffer.EnsureSizeAsWritten` (see Findings).
- `VertexBuffer.VertexBuffer.Append`, and the append methods `Pos`, `Color`, `ColorPacked`, `ColorAlpha`, `ColorAlphaPacked` and `Uv` built on it, grow the buffer with the corrected `ensureSize`; the as-written growth is `NioBuffer.EnsureSizeAsWritten` (see Findings).
- `VertexBuffer.VertexBuffer.constructor`: the pointer-setter callback is not modelled.
- VertexBuffer: `setPointers` and `destroy` are GL calls and are left out.
- `Uniform.Uniform.constructor`: `memAllocInt`/`memAllocFloat` give uninitialised memory. Here the memory starts at zero.
- Uniform: the null-argument checks are left out.
- `Pool.Pool.constructor`: the initial capacity has no effect after `setSize` plus `clear`. A negative capacity, which makes `setSize` throw, is not modelled.
- Pool: the default constructors (capacity 16, no maximum) are not modelled separately.
- `ReflectionPool.newObject` makes a new `Poolable` of the pool's class. A class is an `int` kind, and reflection is left out.
- `Pools.Pools.Set` requires the pool to serve the given kind, as the Java generics enforce.
- `Pools.freeAll(objects)` is `freeAll(objects, false)` (Pools.java lines 86-88). It has no member of its own.
- `Pools.DeliveredCountBound` bounds how often an object is freed by how often it occurs. The exact count is `DeliveredCount`, and `Pools.Pools.FreeAll` states it.
- `LazyLoadedValue.LazyLoadedValue.Get`: the supplier is passed in as the value or exception it would give. A supplier that returns Java `null` is not distinguished from a value.
- AABB: the inverted `checkValid` of `newAABB` and the constant `AABB_NULL` (the zero box) are modelled as written.
- FontAtlas: the first-element comparison of `insertAABB` is modelled as written.
- Uniform: the inverted length check of `setInt`/`setFloat` is modelled as written.

## Findings

| source | as written | input that shows it | evidently intended | confidence | as-written member | corrected member |
|---|---|---|---|---|---|---|
| src/com/github/isam/render/vertex/ElementBuffer.java:40-51 | `ensureSize` allocates `capacity() * 2` bytes and views them as an `IntBuffer`. That is capacity / 2 ints, so copying the full old buffer into it throws `BufferOverflowException` (the same holds for `VertexBuffer.java` lines 64-75 with floats) | `new ElementBuffer(1)`, then `putTriangle` twice: the second call needs room, and the copy of 3 ints into a 1-int buffer overflows | double the element capacity (`capacity() * 2 * 4` bytes), keeping contents and position | not executed | NioBuffer.AsWrittenOverflows | NioBuffer.EnsureSize |
| src/com/github/isam/render/vertex/ElementBuffer.java:53-58 | the second triangle of a one-triangle buffer overflows | `new ElementBuffer(1)`, two `putTriangle` calls | the second triangle is stored after one doubling | not executed | ElementBuffer.SecondTriangleOverflows | ElementBuffer.SecondTriangleFits |
