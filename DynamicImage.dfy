/**
 * `DynamicImage`: the frames of a decoded GIF as RGBA images, with their delays and the
 * total animation time. The GIF decoder is not part of this model: its status and its
 * decoded frames are the inputs.
 */
module DynamicImage {
  import opened Wrappers
  import JavaInt

  /** What the decoder's `read` reports. */
  datatype Status = StatusOk | FormatError | OpenError

  /** One decoded frame: its delay, its size, and its pixels as `BufferedImage.getRGB` gives them (ARGB). */
  datatype GifFrame = GifFrame(delay: int, width: int, height: int, argb: seq<bv32>)

  /** An RGBA `Image`: its size and its pixel ints, written to memory in native order. */
  datatype Image = Image(width: int, height: int, pixels: seq<bv32>)

  datatype IOException = IOException(message: string)

  /** The exception `getImage` throws for a frame that does not exist. */
  datatype Thrown = IndexOutOfBounds

  /**
   * The per-pixel conversion: alpha and green stay, red (bits 16-23) and blue (bits 0-7)
   * trade places, so that the little-endian bytes of the int read R, G, B, A.
   */
  function Swizzle(color: bv32): bv32 {
    (color & 0xFF00_0000) | ((color & 0x00FF_0000) >> 16) | (color & 0x0000_FF00) | ((color & 0x0000_00FF) << 16)
  }

  function Alpha(color: bv32): bv32 { (color >> 24) & 0xFF }
  function Red(color: bv32): bv32 { (color >> 16) & 0xFF }
  function Green(color: bv32): bv32 { (color >> 8) & 0xFF }
  function Blue(color: bv32): bv32 { color & 0xFF }

  /** The swizzle keeps alpha and green and swaps red and blue. */
  lemma SwizzleChannels(color: bv32)
    ensures Alpha(Swizzle(color)) == Alpha(color) && Green(Swizzle(color)) == Green(color)
    ensures Red(Swizzle(color)) == Blue(color) && Blue(Swizzle(color)) == Red(color)
  {
  }

  /** Swizzling twice gives the original pixel back. */
  lemma SwizzleTwice(color: bv32)
    ensures Swizzle(Swizzle(color)) == color
  {
  }

  /** Every pixel swizzled, in order. */
  function Swizzled(pixels: seq<bv32>): (r: seq<bv32>)
    ensures |r| == |pixels|
  {
    if pixels == [] then [] else [Swizzle(pixels[0])] + Swizzled(pixels[1..])
  }

  lemma {:induction false} SwizzledAt(pixels: seq<bv32>, k: int)
    requires 0 <= k < |pixels|
    ensures Swizzled(pixels)[k] == Swizzle(pixels[k])
  {
    if k > 0 {
      SwizzledAt(pixels[1..], k - 1);
    }
  }

  /** Swizzling a whole frame twice gives the frame back. */
  lemma SwizzledTwice(pixels: seq<bv32>)
    ensures Swizzled(Swizzled(pixels)) == pixels
  {
    forall k | 0 <= k < |pixels|
      ensures Swizzled(Swizzled(pixels))[k] == pixels[k]
    {
      SwizzledAt(Swizzled(pixels), k);
      SwizzledAt(pixels, k);
      SwizzleTwice(pixels[k]);
    }
  }

  /** The conversion loop, in place on the array `getRGB` returned. */
  method SwizzleInPlace(data: array<bv32>)
    modifies data
    ensures data[..] == Swizzled(old(data[..]))
  {
    var now := 0;
    while now < data.Length
      invariant 0 <= now <= data.Length
      invariant forall k :: 0 <= k < now ==> data[k] == Swizzle(old(data[k]))
      invariant forall k :: now <= k < data.Length ==> data[k] == old(data[k])
    {
      var color := data[now];
      data[now] := Swizzle(color);
      now := now + 1;
    }
    forall k | 0 <= k < data.Length
      ensures data[k] == Swizzled(old(data[..]))[k]
    {
      SwizzledAt(old(data[..]), k);
    }
  }

  /** The image a frame becomes. */
  function Converted(frame: GifFrame): Image {
    Image(frame.width, frame.height, Swizzled(frame.argb))
  }

  /** Copy a frame's pixels (`getRGB` returns a fresh array) and convert them in place. */
  method ConvertFrame(frame: GifFrame) returns (image: Image)
    ensures image == Converted(frame)
  {
    var data := new bv32[|frame.argb|](k requires 0 <= k < |frame.argb| => frame.argb[k]);
    assert data[..] == frame.argb;
    SwizzleInPlace(data);
    image := Image(frame.width, frame.height, data[..]);
  }

  /** The exact sum of a list of delays. */
  function Sum(delays: seq<int>): int {
    if delays == [] then 0 else delays[0] + Sum(delays[1..])
  }

  lemma {:induction false} SumSnoc(delays: seq<int>, d: int)
    ensures Sum(delays + [d]) == Sum(delays) + d
  {
    if delays != [] {
      assert (delays + [d])[1..] == delays[1..] + [d];
      SumSnoc(delays[1..], d);
    }
  }

  /** `totalTime += delay` over the delays in order, in Java `int` arithmetic. */
  function TotalTime(delays: seq<int>): int {
    if delays == [] then 0 else JavaInt.Wrap32(TotalTime(delays[..|delays| - 1]) + delays[|delays| - 1])
  }

  /** The accumulated total is the sum of the delays, wrapped to an `int`. */
  lemma {:induction false} TotalTimeIsSum(delays: seq<int>)
    ensures TotalTime(delays) == JavaInt.Wrap32(Sum(delays))
  {
    if delays != [] {
      var init, last := delays[..|delays| - 1], delays[|delays| - 1];
      assert delays == init + [last];
      TotalTimeIsSum(init);
      SumSnoc(init, last);
      JavaInt.WrapAdd(Sum(init), last);
    }
  }

  /** The delays of the frames, in order. */
  function Delays(frames: seq<GifFrame>): (r: seq<int>)
    ensures |r| == |frames| && forall i :: 0 <= i < |frames| ==> r[i] == frames[i].delay
  {
    seq(|frames|, i requires 0 <= i < |frames| => frames[i].delay)
  }

  class DynamicImage {
    var textures: seq<Image>
    var delays: seq<int>
    var totalTime: int

    /** One image per delay. */
    ghost predicate Valid()
      reads this
    {
      |textures| == |delays|
    }

    /**
     * The frame loop of `DynamicImage(gifStream)` once the decoder reported OK: record
     * each delay, add it to the total, and convert the frame's pixels.
     */
    constructor (frames: seq<GifFrame>)
      ensures Valid() && delays == Delays(frames) && totalTime == TotalTime(delays)
      ensures forall i :: 0 <= i < |frames| ==> textures[i] == Converted(frames[i])
    {
      var images: seq<Image> := [];
      var ds: seq<int> := [];
      var time := 0;
      var i := 0;
      while i < |frames|
        invariant 0 <= i <= |frames| && |images| == |ds| == i
        invariant forall j :: 0 <= j < i ==> ds[j] == frames[j].delay
        invariant forall j :: 0 <= j < i ==> images[j] == Converted(frames[j])
        invariant time == TotalTime(ds)
      {
        var frame := frames[i];
        assert (ds + [frame.delay])[..i] == ds;
        ds := ds + [frame.delay];
        time := JavaInt.Wrap32(time + frame.delay);
        var image := ConvertFrame(frame);
        images := images + [image];
        i := i + 1;
      }
      textures := images;
      delays := ds;
      totalTime := time;
    }

    /** `getFrames`: the number of delays, which is the number of images. */
    function GetFrames(): (n: int)
      reads this
      requires Valid()
      ensures n == |textures|
    {
      |delays|
    }

    /** `getImage(frame)`, which throws for an index out of range. */
    function GetImage(frame: int): (r: Result<Image, Thrown>)
      reads this
      ensures r.Success? <==> 0 <= frame < |textures|
      ensures r.Success? ==> r.value == textures[frame]
    {
      if 0 <= frame < |textures| then Success(textures[frame]) else Failure(IndexOutOfBounds)
    }
  }

  /**
   * `DynamicImage(gifStream)`: a decoder status other than OK throws an `IOException`
   * whose message tells an open error from a format error; otherwise the frames load.
   */
  method Open(status: Status, frames: seq<GifFrame>) returns (r: Result<DynamicImage, IOException>)
    ensures r.Failure? <==> status != StatusOk
    ensures status == OpenError ==> r == Failure(IOException("Error in opening gif data"))
    ensures status == FormatError ==> r == Failure(IOException("Invalid GIF Format"))
    ensures r.Success? ==>
              fresh(r.value) && r.value.Valid() && r.value.delays == Delays(frames) &&
              r.value.totalTime == TotalTime(r.value.delays) &&
              forall i :: 0 <= i < |frames| ==> r.value.textures[i] == Converted(frames[i])
  {
    if status != StatusOk {
      return Failure(IOException(if status == OpenError then "Error in opening gif data" else "Invalid GIF Format"));
    }
    var image := new DynamicImage(frames);
    r := Success(image);
  }
}
