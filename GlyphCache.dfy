/**
 * `VertexFont.getCodepointInfo`: the per-font glyph cache over a list of atlases.
 * A codepoint seen before is answered from the cache; otherwise its bitmap box (given
 * by the rasteriser, an input here) is placed in the first atlas with room, or in a
 * new atlas that is kept only when the glyph fits it.
 */
module GlyphCache {
  import opened Wrappers
  import opened Aabb
  import opened Atlas

  /** What the rasteriser reports for a codepoint: its bitmap box and horizontal metrics. */
  datatype RasterMetrics = RasterMetrics(left: int, bottom: int, right: int, top: int,
                                         advanceWidth: int, leftSideBearing: int)

  /** The two `IllegalArgumentException`s of `getCodepointInfo`. */
  datatype GlyphError = UnrecordedCharacter | TooLarge

  /** The bitmap size of a glyph: right - left by top - bottom. */
  function GlyphWidth(g: RasterMetrics): int { g.right - g.left }
  function GlyphHeight(g: RasterMetrics): int { g.top - g.bottom }

  /** No atlas in the list has room for a w x h glyph. */
  ghost predicate NoRoom(list: seq<FontAtlas>, w: int, h: int)
    reads list
  {
    forall j :: 0 <= j < |list| ==> FirstFit(list[j].spareSpace, w, h) < 0
  }

  predicate Distinct(list: seq<FontAtlas>) {
    forall i, j :: 0 <= i < j < |list| ==> list[i] != list[j]
  }

  ghost predicate AtlasesValid(list: seq<FontAtlas>, size: int)
    reads list
  {
    forall i :: 0 <= i < |list| ==> list[i].Valid() && list[i].fontSize == size
  }

  ghost predicate CacheAgrees(list: seq<FontAtlas>, cache: map<int, FontAtlas>)
    reads list
  {
    (forall c :: c in cache ==> cache[c] in list && c in cache[c].chars) &&
    (forall i, c :: 0 <= i < |list| && c in list[i].chars ==> c in cache && cache[c] == list[i])
  }

  /** The codepoints each atlas of the list holds. */
  ghost function Holdings(list: seq<FontAtlas>): (held: seq<set<int>>)
    reads list
    ensures |held| == |list| && forall j :: 0 <= j < |list| ==> held[j] == list[j].chars.Keys
  {
    seq(|list|, j requires 0 <= j < |list| reads list => list[j].chars.Keys)
  }

  /** `CacheAgrees`, with what each atlas holds given as a value. */
  predicate AgreesWith(list: seq<FontAtlas>, held: seq<set<int>>, cache: map<int, FontAtlas>)
    requires |held| == |list|
  {
    (forall c :: c in cache ==> cache[c] in list) &&
    (forall j, c :: 0 <= j < |list| && c in cache && cache[c] == list[j] ==> c in held[j]) &&
    (forall j, c :: 0 <= j < |list| && c in held[j] ==> c in cache && cache[c] == list[j])
  }

  lemma CacheAgreesHoldings(list: seq<FontAtlas>, cache: map<int, FontAtlas>)
    requires CacheAgrees(list, cache)
    ensures AgreesWith(list, Holdings(list), cache)
  {
  }

  /**
   * Caching a codepoint with one atlas of the list that has just taken it, while the
   * other atlases keep their glyphs, keeps the cache in agreement with the list.
   */
  lemma CachePlaced(list: seq<FontAtlas>, held: seq<set<int>>, cache: map<int, FontAtlas>, i: int, codepoint: int)
    requires 0 <= i < |list| == |held| && codepoint !in cache && Distinct(list)
    requires AgreesWith(list, held, cache)
    requires forall j :: 0 <= j < |list| && j != i ==> list[j].chars.Keys == held[j]
    requires list[i].chars.Keys == held[i] + {codepoint}
    ensures CacheAgrees(list, cache[codepoint := list[i]])
  {
    forall c | c in cache
      ensures c in cache[c].chars
    {
      var j :| 0 <= j < |list| && list[j] == cache[c];
      assert c in held[j];
    }
    forall j, c | 0 <= j < |list| && c in list[j].chars && c != codepoint
      ensures c in cache && cache[c] == list[j]
    {
      assert c in held[j];
    }
  }

  class VertexFont {
    const size: int
    /** `stbtt_ScaleForPixelHeight(font, size)`: from the font file, an input here. */
    const scale: real
    /** The scaled ascent of the font, an input here. */
    const ascent: real
    var atlases: seq<FontAtlas>
    /** Codepoint to the atlas holding its glyph. */
    var chars: map<int, FontAtlas>

    /**
     * The atlases are distinct and sound, and the cache agrees with them both ways: a
     * cached codepoint is held by its atlas, and a codepoint any atlas holds is cached
     * with that atlas.
     */
    ghost predicate Valid()
      reads this, atlases
    {
      Distinct(atlases) && AtlasesValid(atlases, size) && CacheAgrees(atlases, chars)
    }

    /** The state after loading the font: no atlases and nothing cached. */
    constructor (size: int, scale: real, ascent: real)
      ensures Valid() && this.size == size && this.scale == scale && this.ascent == ascent
      ensures atlases == [] && chars == map[]
    {
      this.size := size;
      this.scale := scale;
      this.ascent := ascent;
      atlases := [];
      chars := map[];
    }

    /**
     * `getCodepointInfo`. `g` is what `stbtt_GetCodepointBitmapBox` and
     * `stbtt_GetCodepointHMetrics` report for the codepoint.
     */
    method GetCodepointInfo(codepoint: int, g: RasterMetrics) returns (r: Result<GlyphInfo, GlyphError>)
      requires Valid()
      requires g.left <= g.right && g.bottom <= g.top
      modifies this, atlases
      ensures Valid()
      ensures |old(atlases)| <= |atlases| <= |old(atlases)| + 1
      // a cache hit answers from the atlas and changes nothing
      ensures old(codepoint in chars) ==>
                r == Success(old(chars[codepoint].chars[codepoint])) &&
                atlases == old(atlases) && chars == old(chars) &&
                forall i :: 0 <= i < |atlases| ==> unchanged(atlases[i])
      // the two errors, exactly when they occur
      ensures r == Failure(UnrecordedCharacter) <==>
                codepoint !in old(chars) && (GlyphWidth(g) == 0 || GlyphHeight(g) == 0)
      ensures r == Failure(TooLarge) <==>
                codepoint !in old(chars) && GlyphWidth(g) != 0 && GlyphHeight(g) != 0 &&
                (GlyphWidth(g) > AtlasSize || GlyphHeight(g) > AtlasSize)
      ensures r.Failure? ==>
                atlases == old(atlases) && chars == old(chars) &&
                forall i :: 0 <= i < |atlases| ==> unchanged(atlases[i])
      // a success is cached, so asking again answers the same
      ensures r.Success? ==> codepoint in chars && chars[codepoint].chars[codepoint] == r.value
      // a miss goes to the first atlas with room, or to one new atlas appended at the end;
      // that atlas takes the glyph as `putBitmap` places it, and no other atlas changes
      ensures r.Success? && codepoint !in old(chars) ==> Placed(old(atlases), codepoint, g, r.value)
    {
      if codepoint in chars {
        var info := chars[codepoint].GetChar(codepoint);
        return Success(info.value);
      }
      r := Miss(codepoint, g);
    }

    /**
     * The meaning of a successful miss: the glyph went to the atlas its record names,
     * with the converted metrics, and that atlas is either the first existing one with
     * room or a new one appended at the end.
     */
    twostate predicate Placed(before: seq<FontAtlas>, codepoint: int, g: RasterMetrics, new info: GlyphInfo)
      reads this, atlases, before
    {
      codepoint in chars && info.atlas == chars[codepoint] &&
      info.leftSide == g.leftSideBearing as real * scale &&
      info.advanceWidth == g.advanceWidth as real * scale &&
      info.topSide == ascent + g.bottom as real &&
      (PlacedInExisting(before, codepoint, GlyphWidth(g), GlyphHeight(g), info) ||
       PlacedInNew(before, codepoint, GlyphWidth(g), GlyphHeight(g), info))
    }

    /**
     * The glyph went to the first existing atlas with room, which took it as `putBitmap`
     * does, while every other atlas stayed as it was.
     */
    twostate predicate PlacedInExisting(before: seq<FontAtlas>, codepoint: int, w: int, h: int, new info: GlyphInfo)
      reads this, atlases, before
    {
      atlases == before &&
      exists i :: 0 <= i < |atlases| && atlases[i] == info.atlas &&
                  old(NoRoom(before[..i], w, h)) &&
                  Took(old(before[i].View()), atlases[i].View(), codepoint, w, h, info) &&
                  forall j :: 0 <= j < |atlases| && j != i ==> unchanged(atlases[j])
    }

    /**
     * No existing atlas had room: the glyph went to a new atlas of this font size,
     * appended at the end, which took it from its fresh state, and no existing atlas changed.
     */
    twostate predicate PlacedInNew(before: seq<FontAtlas>, codepoint: int, w: int, h: int, new info: GlyphInfo)
      reads this, atlases, before
    {
      atlases == before + [info.atlas] && fresh(info.atlas) &&
      old(NoRoom(before, w, h)) && atlases[|before|].fontSize == size &&
      Took(FreshView, atlases[|before|].View(), codepoint, w, h, info) &&
      forall j :: 0 <= j < |before| ==> unchanged(before[j])
    }

    /** `getCodepointInfo` for a codepoint that is not cached yet. */
    method Miss(codepoint: int, g: RasterMetrics) returns (r: Result<GlyphInfo, GlyphError>)
      requires Valid() && codepoint !in chars
      requires g.left <= g.right && g.bottom <= g.top
      modifies this, atlases
      ensures Valid()
      ensures |old(atlases)| <= |atlases| <= |old(atlases)| + 1
      ensures r == Failure(UnrecordedCharacter) <==> GlyphWidth(g) == 0 || GlyphHeight(g) == 0
      ensures r == Failure(TooLarge) <==>
                GlyphWidth(g) != 0 && GlyphHeight(g) != 0 && (GlyphWidth(g) > AtlasSize || GlyphHeight(g) > AtlasSize)
      ensures r.Failure? ==>
                atlases == old(atlases) && chars == old(chars) &&
                forall i :: 0 <= i < |atlases| ==> unchanged(atlases[i])
      ensures r.Success? ==> Placed(old(atlases), codepoint, g, r.value) && chars[codepoint].chars[codepoint] == r.value
    {
      var width := GlyphWidth(g);
      var height := GlyphHeight(g);
      var convertL := g.leftSideBearing as real * scale;
      var convertA := g.advanceWidth as real * scale;
      if width == 0 || height == 0 {
        return Failure(UnrecordedCharacter);
      }
      var optional := Place(codepoint, width, height, convertL, convertA, ascent + g.bottom as real);
      if optional.Some? {
        return Success(optional.value);
      }
      return Failure(TooLarge);
    }

    /** The placement of `getCodepointInfo`: the existing atlases in list order, then one new atlas. */
    method Place(codepoint: int, width: int, height: int, leftSide: real, advanceWidth: real, topSide: real)
      returns (r: Option<GlyphInfo>)
      requires Valid() && codepoint !in chars && 0 <= width && 0 <= height
      modifies this, atlases
      ensures Valid()
      ensures |old(atlases)| <= |atlases| <= |old(atlases)| + 1
      ensures r.Some? <==> width <= AtlasSize && height <= AtlasSize
      ensures r.None? ==> atlases == old(atlases) && chars == old(chars) &&
                          forall j :: 0 <= j < |atlases| ==> unchanged(atlases[j])
      ensures r.Some? ==> codepoint in chars && chars == old(chars)[codepoint := r.value.atlas] &&
                          chars[codepoint].chars[codepoint] == r.value &&
                          r.value.leftSide == leftSide && r.value.advanceWidth == advanceWidth &&
                          r.value.topSide == topSide &&
                          (PlacedInExisting(old(atlases), codepoint, width, height, r.value) ||
                           PlacedInNew(old(atlases), codepoint, width, height, r.value))
    {
      var index;
      r, index := PlaceInExisting(codepoint, width, height, leftSide, advanceWidth, topSide);
      if r.None? {
        r := PlaceInNew(codepoint, width, height, leftSide, advanceWidth, topSide);
        if r.Some? {
          assert PlacedInNew(old(atlases), codepoint, width, height, r.value);
        }
      }
    }

    /** The loop of `getCodepointInfo` over the existing atlases, in list order. */
    method PlaceInExisting(codepoint: int, width: int, height: int, leftSide: real, advanceWidth: real, topSide: real)
      returns (r: Option<GlyphInfo>, index: int)
      requires Valid() && codepoint !in chars && 0 <= width && 0 <= height
      modifies this, atlases
      ensures Valid() && atlases == old(atlases)
      ensures r.None? ==> chars == old(chars) && old(NoRoom(atlases, width, height)) &&
                          forall j :: 0 <= j < |atlases| ==> unchanged(atlases[j])
      ensures r.Some? ==> width <= AtlasSize && height <= AtlasSize
      ensures r.Some? ==> codepoint in chars && chars == old(chars)[codepoint := r.value.atlas] &&
                          chars[codepoint].chars[codepoint] == r.value &&
                          r.value.leftSide == leftSide && r.value.advanceWidth == advanceWidth &&
                          r.value.topSide == topSide &&
                          0 <= index < |atlases| && r.value.atlas == atlases[index] &&
                          old(NoRoom(atlases[..index], width, height)) &&
                          Took(old(atlases[index].View()), atlases[index].View(), codepoint, width, height, r.value) &&
                          forall j :: 0 <= j < |atlases| && j != index ==> unchanged(atlases[j])
      ensures r.Some? ==> PlacedInExisting(old(atlases), codepoint, width, height, r.value)
    {
      var i := 0;
      r := None;
      while i < |atlases|
        invariant 0 <= i <= |atlases| && r.None?
        invariant Valid() && atlases == old(atlases) && chars == old(chars)
        invariant forall j :: 0 <= j < |atlases| ==> unchanged(atlases[j])
        invariant forall j :: 0 <= j < i ==> FirstFit(old(atlases[j].spareSpace), width, height) < 0
      {
        r := TryAtlas(i, codepoint, width, height, leftSide, advanceWidth, topSide);
        if r.Some? {
          break;
        }
        i := i + 1;
      }
      if r.Some? {
        index := i;
      } else {
        index := -1;
      }
    }

    /** One step of the scan: offer the glyph to atlas i and cache it there if it fits. */
    method TryAtlas(i: int, codepoint: int, width: int, height: int, leftSide: real, advanceWidth: real, topSide: real)
      returns (r: Option<GlyphInfo>)
      requires Valid() && codepoint !in chars && 0 <= width && 0 <= height && 0 <= i < |atlases|
      modifies this, atlases[i]
      ensures Valid() && atlases == old(atlases)
      ensures r.None? <==> FirstFit(old(atlases[i].spareSpace), width, height) < 0
      ensures r.None? ==> chars == old(chars) && unchanged(atlases[i])
      ensures r.Some? ==> width <= AtlasSize && height <= AtlasSize
      ensures r.Some? ==> chars == old(chars)[codepoint := atlases[i]] && r.value.atlas == atlases[i] &&
                          codepoint in atlases[i].chars && atlases[i].chars[codepoint] == r.value &&
                          r.value.leftSide == leftSide && r.value.advanceWidth == advanceWidth &&
                          r.value.topSide == topSide &&
                          Took(old(atlases[i].View()), atlases[i].View(), codepoint, width, height, r.value)
      ensures forall j :: 0 <= j < |atlases| && j != i ==> unchanged(atlases[j])
    {
      var atlas := atlases[i];
      CacheAgreesHoldings(atlases, chars);
      ghost var held := Holdings(atlases);
      FitIsSmall(atlas.spareSpace, width, height);
      r := atlas.PutBitmap(codepoint, width, height, leftSide, advanceWidth, topSide);
      if r.Some? {
        forall j | 0 <= j < |atlases| && j != i
          ensures atlases[j].Valid() && atlases[j].chars == old(atlases[j].chars)
        {
          assert old(atlases[j].Valid());
        }
        CacheIn(i, codepoint, held);
      } else {
        assert Valid();
      }
    }

    /** Record that atlas i, which has just taken `codepoint`, holds it. */
    method CacheIn(i: int, codepoint: int, ghost held: seq<set<int>>)
      requires 0 <= i < |atlases| == |held| && codepoint !in chars && Distinct(atlases)
      requires forall j :: 0 <= j < |atlases| ==> atlases[j].Valid() && atlases[j].fontSize == size
      requires AgreesWith(atlases, held, chars)
      requires forall j :: 0 <= j < |atlases| && j != i ==> atlases[j].chars.Keys == held[j]
      requires atlases[i].chars.Keys == held[i] + {codepoint}
      modifies this`chars
      ensures Valid() && chars == old(chars)[codepoint := atlases[i]]
    {
      CachePlaced(atlases, held, chars, i, codepoint);
      chars := chars[codepoint := atlases[i]];
    }

    /** The fallback of `getCodepointInfo`: one new atlas, kept only when the glyph fits it. */
    method PlaceInNew(codepoint: int, width: int, height: int, leftSide: real, advanceWidth: real, topSide: real)
      returns (r: Option<GlyphInfo>)
      requires Valid() && codepoint !in chars && 0 <= width && 0 <= height
      modifies this
      ensures Valid()
      ensures r.Some? <==> width <= AtlasSize && height <= AtlasSize
      ensures r.None? ==> atlases == old(atlases) && chars == old(chars)
      ensures forall j :: 0 <= j < |old(atlases)| ==> unchanged(old(atlases)[j])
      ensures r.Some? ==> atlases == old(atlases) + [r.value.atlas] && fresh(r.value.atlas) &&
                          chars == old(chars)[codepoint := r.value.atlas] &&
                          chars[codepoint].chars[codepoint] == r.value &&
                          r.value.leftSide == leftSide && r.value.advanceWidth == advanceWidth &&
                          r.value.topSide == topSide && r.value.atlas.fontSize == size &&
                          Took(FreshView, r.value.atlas.View(), codepoint, width, height, r.value)
    {
      var atlas := new FontAtlas(size);
      FreshAtlasFits(width, height);
      r := atlas.PutBitmap(codepoint, width, height, leftSide, advanceWidth, topSide);
      if r.Some? {
        AddAtlas(atlas, codepoint);
      }
    }

    /** Append an atlas holding only `codepoint` and cache the codepoint with it. */
    method AddAtlas(atlas: FontAtlas, codepoint: int)
      requires Valid() && codepoint !in chars && atlas !in atlases
      requires atlas.Valid() && atlas.fontSize == size && atlas.chars.Keys == {codepoint}
      modifies this`atlases, this`chars
      ensures Valid()
      ensures atlases == old(atlases) + [atlas] && chars == old(chars)[codepoint := atlas]
    {
      ghost var list := atlases;
      atlases := atlases + [atlas];
      chars := chars[codepoint := atlas];
      forall j, c | 0 <= j < |atlases| && c in atlases[j].chars
        ensures c in chars && chars[c] == atlases[j]
      {
        if j < |list| {
          assert atlases[j] == list[j];
        }
      }
      forall c | c in old(chars)
        ensures chars[c] in atlases && c in chars[c].chars
      {
        var j :| 0 <= j < |list| && list[j] == old(chars)[c];
        assert atlases[j] == list[j];
      }
    }
  }
}
