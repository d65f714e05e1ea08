/**
 * `DynamicTexture`: an animated texture made of one static texture per frame. `bind`
 * picks the frame showing at the current time within the animation's period; the
 * filtering flags are set on every frame. The clock is an input.
 */
module DynamicTexture {
  import opened Wrappers
  import JavaInt
  import DI = DynamicImage

  /** A frame texture: its image and mipmap level, and the two flags `upload` uses. */
  class StaticTexture {
    const image: DI.Image
    const level: int
    var linear: bool
    var clamp: bool

    constructor (image: DI.Image, level: int)
      ensures this.image == image && this.level == level && !linear && !clamp
    {
      this.image := image;
      this.level := level;
      linear := false;
      clamp := false;
    }

    method SetLinear(linear: bool)
      modifies this`linear
      ensures this.linear == linear
    {
      this.linear := linear;
    }

    method SetClamp(clamp: bool)
      modifies this`clamp
      ensures this.clamp == clamp
    {
      this.clamp := clamp;
    }
  }

  datatype Thrown = IndexOutOfBounds | UnsupportedOperation(message: string)

  /**
   * The frame `bind` chooses for the remaining time `r`: after subtracting the delays in
   * order, the first frame at which nothing remains.
   */
  function FrameAt(delays: seq<int>, r: int): (f: Option<nat>)
    ensures f.Some? ==> f.value < |delays|
  {
    if delays == [] then None
    else if r - delays[0] <= 0 then Some(0)
    else
      var rest := FrameAt(delays[1..], r - delays[0]);
      if rest.Some? then Some(rest.value + 1) else None
  }

  /** The delays of the first `n` frames added up. */
  function Prefix(delays: seq<int>, n: nat): int
    requires n <= |delays|
  {
    DI.Sum(delays[..n])
  }

  lemma PrefixCons(delays: seq<int>, n: nat)
    requires 0 < n <= |delays|
    ensures Prefix(delays, n) == delays[0] + Prefix(delays[1..], n - 1)
  {
    assert delays[..n][1..] == delays[1..][..n - 1];
  }

  /**
   * The chosen frame, as prefix sums: frame `i` is chosen exactly when the delays up to
   * and including it add up to at least `r` and no shorter prefix does; no frame is
   * chosen when no prefix does.
   */
  lemma {:induction false} FrameAtPrefix(delays: seq<int>, r: int)
    ensures var f := FrameAt(delays, r);
            (f.Some? ==> Prefix(delays, f.value + 1) >= r && forall n :: 1 <= n <= f.value ==> Prefix(delays, n) < r) &&
            (f.None? ==> forall n :: 1 <= n <= |delays| ==> Prefix(delays, n) < r)
  {
    if delays != [] {
      PrefixCons(delays, 1);
      assert delays[1..][..0] == [];
      FrameAtPrefix(delays[1..], r - delays[0]);
      forall n | 1 <= n <= |delays| {
        PrefixCons(delays, n);
      }
    }
  }

  /** With no negative delay, every time in `[0, sum)` falls in some frame. */
  lemma {:induction false} FrameAtCovers(delays: seq<int>, r: int)
    requires forall i :: 0 <= i < |delays| ==> delays[i] >= 0
    requires 0 <= r < DI.Sum(delays) || (delays != [] && r <= 0)
    ensures FrameAt(delays, r).Some?
  {
    if delays != [] && r - delays[0] > 0 {
      FrameAtCovers(delays[1..], r - delays[0]);
    }
  }

  /**
   * The promise `bind` keeps when the total is the exact sum of non-negative delays:
   * at any non-negative time some frame is chosen.
   */
  lemma AlwaysSomeFrame(delays: seq<int>, time: int)
    requires forall i :: 0 <= i < |delays| ==> delays[i] >= 0
    requires DI.Sum(delays) > 0 && time >= 0
    ensures FrameAt(delays, JavaInt.JavaRem(time, DI.Sum(delays))).Some?
  {
    FrameAtCovers(delays, JavaInt.JavaRem(time, DI.Sum(delays)));
  }

  class DynamicTexture {
    const delays: seq<int>
    const totalTime: int
    const textures: seq<StaticTexture>
    var linear: bool
    var clamp: bool

    /** `DynamicTexture(image, level)`: the image's delays and total, and one texture per frame. */
    constructor FromImage(image: DI.DynamicImage, level: int)
      requires image.Valid()
      ensures delays == image.delays && totalTime == image.totalTime && !linear && !clamp
      ensures |textures| == |image.textures|
      ensures forall i :: 0 <= i < |textures| ==>
                fresh(textures[i]) && textures[i].image == image.textures[i] && textures[i].level == level &&
                !textures[i].linear && !textures[i].clamp
    {
      var made: seq<StaticTexture> := [];
      var now := 0;
      while now < image.GetFrames()
        invariant 0 <= now <= |image.textures| && |made| == now
        invariant forall i :: 0 <= i < now ==>
                    fresh(made[i]) && made[i].image == image.textures[i] && made[i].level == level &&
                    !made[i].linear && !made[i].clamp
      {
        var frame := image.GetImage(now).value;
        var texture := new StaticTexture(frame, level);
        made := made + [texture];
        now := now + 1;
      }
      delays := image.delays;
      totalTime := image.totalTime;
      textures := made;
      linear := false;
      clamp := false;
    }

    /** `DynamicTexture(textures, delays)`: the total is the delays summed in `int` arithmetic. */
    constructor (textures: seq<StaticTexture>, delays: seq<int>)
      ensures this.textures == textures && this.delays == delays && totalTime == DI.TotalTime(delays)
      ensures !linear && !clamp
    {
      var time := 0;
      var i := 0;
      while i < |delays|
        invariant 0 <= i <= |delays| && time == DI.TotalTime(delays[..i])
      {
        assert delays[..i + 1][..i] == delays[..i];
        time := JavaInt.Wrap32(time + delays[i]);
        i := i + 1;
      }
      assert delays[..i] == delays;
      this.textures := textures;
      this.delays := delays;
      totalTime := time;
      linear := false;
      clamp := false;
    }

    /**
     * `bind` at time `now` (in milliseconds): nothing when the total is 0; otherwise the
     * frame `FrameAt` picks for `now % totalTime` is bound, and a picked frame beyond the
     * textures throws.
     */
    method Bind(now: int) returns (r: Result<Option<nat>, Thrown>)
      ensures totalTime == 0 ==> r == Success(None)
      ensures totalTime != 0 ==>
                var f := FrameAt(delays, JavaInt.JavaRem(now, totalTime));
                r == if f.Some? && f.value >= |textures| then Failure(IndexOutOfBounds) else Success(f)
    {
      if totalTime == 0 {
        return Success(None);
      }
      ghost var start := JavaInt.JavaRem(now, totalTime);
      var remaining := JavaInt.JavaRem(now, totalTime);
      var i := 0;
      while i < |delays|
        invariant 0 <= i <= |delays|
        invariant FrameAt(delays, start) ==
                  (var f := FrameAt(delays[i..], remaining); if f.Some? then Some(f.value + i) else None)
      {
        assert delays[i..][1..] == delays[i + 1..];
        remaining := remaining - delays[i];
        if remaining <= 0 {
          if i >= |textures| {
            return Failure(IndexOutOfBounds);
          }
          return Success(Some(i));
        }
        i := i + 1;
      }
      r := Success(None);
    }

    /** `setLinear`: the flag, here and on every frame; nothing else changes. */
    method SetLinear(linear: bool)
      modifies this`linear, textures
      ensures this.linear == linear
      ensures forall i :: 0 <= i < |textures| ==> textures[i].linear == linear && textures[i].clamp == old(textures[i].clamp)
    {
      this.linear := linear;
      var i := 0;
      while i < |textures|
        invariant 0 <= i <= |textures|
        invariant this.linear == linear
        invariant forall j :: 0 <= j < i ==> textures[j].linear == linear
        invariant forall j :: 0 <= j < |textures| ==> textures[j].clamp == old(textures[j].clamp)
      {
        textures[i].SetLinear(linear);
        i := i + 1;
      }
    }

    /** `setClamp`: the flag, here and on every frame; nothing else changes. */
    method SetClamp(clamp: bool)
      modifies this`clamp, textures
      ensures this.clamp == clamp
      ensures forall i :: 0 <= i < |textures| ==> textures[i].clamp == clamp && textures[i].linear == old(textures[i].linear)
    {
      this.clamp := clamp;
      var i := 0;
      while i < |textures|
        invariant 0 <= i <= |textures|
        invariant this.clamp == clamp
        invariant forall j :: 0 <= j < i ==> textures[j].clamp == clamp
        invariant forall j :: 0 <= j < |textures| ==> textures[j].linear == old(textures[j].linear)
      {
        textures[i].SetClamp(clamp);
        i := i + 1;
      }
    }

    /** `update(x, y, sizeX, sizeY)`: a region update is not supported. */
    method UpdateRegion(x: int, y: int, sizeX: int, sizeY: int) returns (r: Outcome<Thrown>)
      ensures r == Fail(UnsupportedOperation("update"))
    {
      r := Fail(UnsupportedOperation("update"));
    }

    /** `getFrame(frame)`, which throws for an index out of range. */
    function GetFrame(frame: int): (r: Result<StaticTexture, Thrown>)
      ensures r.Success? <==> 0 <= frame < |textures|
      ensures r.Success? ==> r.value == textures[frame]
    {
      if 0 <= frame < |textures| then Success(textures[frame]) else Failure(IndexOutOfBounds)
    }
  }
}
