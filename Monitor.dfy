/**
 * `Monitor`: the video modes a monitor reports, filtered to those with at least 8 bits
 * per channel and stored in reverse of the reported order, plus the current mode and
 * position. What GLFW reports (`glfwGetVideoModes`, `glfwGetMonitorPos`,
 * `glfwGetVideoMode`) is passed in.
 */
module Monitor {
  import opened Wrappers
  import opened VideoMode

  /** The modes `refreshVideoModes` keeps: at least 8 bits in each of red, green and blue. */
  predicate Deep(m: VideoMode) {
    m.redBits >= 8 && m.greenBits >= 8 && m.blueBits >= 8
  }

  /** What the refresh loop, running from the last reported mode down to the first, appends. */
  function KeptModes(reported: seq<VideoMode>): seq<VideoMode> {
    if reported == [] then []
    else
      var last := reported[|reported| - 1];
      (if Deep(last) then [last] else []) + KeptModes(reported[..|reported| - 1])
  }

  /** An independent statement of the same list: the deep modes, in order, then reversed. */
  function Filter(modes: seq<VideoMode>): seq<VideoMode> {
    if modes == [] then [] else (if Deep(modes[0]) then [modes[0]] else []) + Filter(modes[1..])
  }

  function Reverse<T>(s: seq<T>): (r: seq<T>)
    ensures |r| == |s|
  {
    if s == [] then [] else Reverse(s[1..]) + [s[0]]
  }

  lemma {:induction false} FilterSnoc(modes: seq<VideoMode>, m: VideoMode)
    ensures Filter(modes + [m]) == Filter(modes) + (if Deep(m) then [m] else [])
  {
    var tail := if Deep(m) then [m] else [];
    if modes == [] {
      assert [m][1..] == [];
    } else {
      var head := if Deep(modes[0]) then [modes[0]] else [];
      assert (modes + [m])[0] == modes[0];
      assert (modes + [m])[1..] == modes[1..] + [m];
      FilterSnoc(modes[1..], m);
      calc {
        Filter(modes + [m]);
        head + Filter(modes[1..] + [m]);
        head + (Filter(modes[1..]) + tail);
        (head + Filter(modes[1..])) + tail;
      }
    }
  }

  lemma {:induction false} ReverseAppend<T>(a: seq<T>, b: seq<T>)
    ensures Reverse(a + b) == Reverse(b) + Reverse(a)
  {
    if a == [] {
      assert a + b == b;
    } else {
      assert (a + b)[1..] == a[1..] + b;
      ReverseAppend(a[1..], b);
    }
  }

  /** The refresh keeps the deep modes in reverse of the reported order. */
  lemma {:induction false} KeptIsReversedFilter(reported: seq<VideoMode>)
    ensures KeptModes(reported) == Reverse(Filter(reported))
  {
    if reported != [] {
      var init, last := reported[..|reported| - 1], reported[|reported| - 1];
      assert reported == init + [last];
      KeptIsReversedFilter(init);
      FilterSnoc(init, last);
      var tail := if Deep(last) then [last] else [];
      ReverseAppend(Filter(init), tail);
      assert Reverse(tail) == tail;
    }
  }

  /** One step of the refresh loop: the mode at `i` is considered before the ones below it. */
  lemma KeptStep(reported: seq<VideoMode>, kept: seq<VideoMode>, i: int)
    requires 0 <= i < |reported|
    ensures kept + KeptModes(reported[..i + 1]) ==
            (kept + if Deep(reported[i]) then [reported[i]] else []) + KeptModes(reported[..i])
  {
    assert reported[..i + 1][..i] == reported[..i];
  }

  /** Exactly the deep reported modes are kept. */
  lemma {:induction false} KeptMembers(reported: seq<VideoMode>)
    ensures forall m :: m in KeptModes(reported) <==> m in reported && Deep(m)
  {
    if reported != [] {
      var init := reported[..|reported| - 1];
      KeptMembers(init);
      assert reported == init + [reported[|reported| - 1]];
    }
  }

  /** `List.indexOf` with `VideoMode.equals`: the first index of an equal mode, or -1. */
  function IndexOf(modes: seq<VideoMode>, m: VideoMode): (i: int)
    ensures -1 <= i < |modes|
    ensures i == -1 <==> m !in modes
    ensures 0 <= i ==> modes[i] == m && m !in modes[..i]
  {
    if modes == [] then -1
    else if Equals(modes[0], m) then 0
    else
      var j := IndexOf(modes[1..], m);
      if j == -1 then -1
      else
        assert modes[..j + 1] == [modes[0]] + modes[1..][..j];
        j + 1
  }

  class Monitor {
    /** The GLFW monitor handle. */
    const monitor: int
    var videoModes: seq<VideoMode>
    var currentMode: VideoMode
    var x: int
    var y: int

    /** Every stored mode is a deep one. */
    ghost predicate Valid()
      reads this
    {
      forall i :: 0 <= i < |videoModes| ==> Deep(videoModes[i])
    }

    /** `Monitor(l)`: the handle, then a first refresh. */
    constructor (l: int, reported: seq<VideoMode>, posX: int, posY: int, current: VideoMode)
      ensures Valid() && monitor == l
      ensures videoModes == KeptModes(reported) && x == posX && y == posY && currentMode == current
    {
      monitor := l;
      videoModes := [];
      currentMode := current;
      new;
      RefreshVideoModes(reported, posX, posY, current);
    }

    /**
     * `refreshVideoModes`: clear the list, walk the reported modes from the last to the
     * first appending the deep ones, then take the position and the current mode.
     */
    method RefreshVideoModes(reported: seq<VideoMode>, posX: int, posY: int, current: VideoMode)
      modifies this
      ensures Valid()
      ensures videoModes == KeptModes(reported) && x == posX && y == posY && currentMode == current
    {
      videoModes := [];
      var i := |reported| - 1;
      assert reported[..i + 1] == reported;
      while i >= 0
        invariant -1 <= i < |reported|
        invariant KeptModes(reported) == videoModes + KeptModes(reported[..i + 1])
      {
        var mode := reported[i];
        KeptStep(reported, videoModes, i);
        if Deep(mode) {
          videoModes := videoModes + [mode];
        }
        i := i - 1;
      }
      assert reported[..0] == [];
      KeptMembers(reported);
      x := posX;
      y := posY;
      currentMode := current;
    }

    /**
     * `getPreferredVidMode`: the first stored mode equal to the requested one, or the
     * current mode when none is requested or none matches.
     */
    method GetPreferredVidMode(requested: Option<VideoMode>) returns (m: VideoMode)
      ensures requested.Some? && requested.value in videoModes ==> m == requested.value
      ensures requested.None? || requested.value !in videoModes ==> m == currentMode
    {
      if requested.Some? {
        var wanted := requested.value;
        var i := 0;
        while i < |videoModes|
          invariant 0 <= i <= |videoModes|
          invariant wanted !in videoModes[..i]
        {
          if Equals(videoModes[i], wanted) {
            return videoModes[i];
          }
          assert videoModes[..i + 1] == videoModes[..i] + [videoModes[i]];
          i := i + 1;
        }
        assert videoModes[..i] == videoModes;
      }
      return currentMode;
    }

    /** `getVideoModeIndex`: `indexOf` on the stored modes. */
    function GetVideoModeIndex(m: VideoMode): (i: int)
      reads this
      ensures -1 <= i < |videoModes|
      ensures i == -1 <==> m !in videoModes
      ensures 0 <= i ==> videoModes[i] == m && m !in videoModes[..i]
    {
      IndexOf(videoModes, m)
    }
  }
}
