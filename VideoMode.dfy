/**
 * `VideoMode`: a display mode and its `"WxH@R:C"` text form. `read` accepts exactly
 * `digits 'x' digits`, optionally followed by `'@' digits` and then optionally by
 * `':' digits` (ASCII digits, the whole string); a missing refresh rate is 60, missing
 * colour bits are 24, and each channel gets a third of the colour bits. Anything else,
 * including a number too large for an `int`, reads as empty. The same class exists in
 * two packages with the same `read`, `write` and `equals`; this module models both.
 */
module VideoMode {
  import opened Wrappers
  import opened JavaInt

  datatype VideoMode = VideoMode(width: int, height: int, redBits: int, greenBits: int, blueBits: int,
                                 refreshRate: int)

  const DefaultRefreshRate := 60
  const DefaultColorBits := 24

  /** The four capture groups of the pattern; the colour group only follows a refresh group. */
  datatype Groups = Groups(width: string, height: string, refresh: Option<string>, color: Option<string>)

  /** The groups are what the pattern's `\d+` can capture: non-empty digit strings. */
  predicate WellFormed(g: Groups) {
    g.width != [] && AllDigits(g.width) && g.height != [] && AllDigits(g.height) &&
    (g.refresh.Some? ==> g.refresh.value != [] && AllDigits(g.refresh.value)) &&
    (g.color.Some? ==> g.refresh.Some? && g.color.value != [] && AllDigits(g.color.value))
  }

  /** The text the pattern matches with these groups. */
  function Text(g: Groups): string {
    g.width + "x" + g.height + TailText(g.refresh, g.color)
  }

  /** The text of the optional `@R` and `:C` parts. */
  function TailText(refresh: Option<string>, color: Option<string>): string {
    if refresh.None? then ""
    else if color.None? then "@" + refresh.value
    else "@" + refresh.value + ":" + color.value
  }

  /** The longest prefix of decimal digits, and the rest. */
  function DigitPrefix(s: string): (r: (string, string))
    ensures r.0 + r.1 == s && AllDigits(r.0)
    ensures r.1 == [] || !IsDigit(r.1[0])
  {
    if s == [] || !IsDigit(s[0]) then ([], s)
    else
      var d, rest := DigitPrefix(s[1..]).0, DigitPrefix(s[1..]).1;
      assert s == [s[0]] + s[1..];
      ([s[0]] + d, rest)
  }

  /** The digits in front of a non-digit (or of the end) are exactly the longest digit prefix. */
  lemma {:induction false} DigitPrefixOf(d: string, rest: string)
    requires AllDigits(d) && (rest == [] || !IsDigit(rest[0]))
    ensures DigitPrefix(d + rest) == (d, rest)
  {
    if d != [] {
      assert (d + rest)[1..] == d[1..] + rest;
      DigitPrefixOf(d[1..], rest);
      assert [d[0]] + d[1..] == d;
    } else {
      assert d + rest == rest;
    }
  }

  /** The last two groups of the pattern, after the height: `(?:@(\d+)(?::(\d+))?)?`. */
  function MatchTail(s: string): (r: Option<(Option<string>, Option<string>)>)
  {
    if s == [] then Some((None, None))
    else if s[0] != '@' then None
    else
      var refresh, rest := DigitPrefix(s[1..]).0, DigitPrefix(s[1..]).1;
      if refresh == [] then None
      else if rest == [] then Some((Some(refresh), None))
      else if rest[0] != ':' then None
      else
        var color, end := DigitPrefix(rest[1..]).0, DigitPrefix(rest[1..]).1;
        if color == [] || end != [] then None
        else Some((Some(refresh), Some(color)))
  }

  /** `PATTERN.matcher(s).matches()` and its groups: a hand-written matcher for the pattern. */
  function Match(s: string): Option<Groups>
  {
    var width, rest := DigitPrefix(s).0, DigitPrefix(s).1;
    if width == [] || rest == [] || rest[0] != 'x' then None
    else
      var height, tail := DigitPrefix(rest[1..]).0, DigitPrefix(rest[1..]).1;
      if height == [] then None
      else
        var t := MatchTail(tail);
        if t.None? then None
        else Some(Groups(width, height, t.value.0, t.value.1))
  }

  /** The tail matcher finds the optional groups of any tail the pattern describes. */
  lemma MatchTailComplete(refresh: Option<string>, color: Option<string>)
    requires refresh.Some? ==> refresh.value != [] && AllDigits(refresh.value)
    requires color.Some? ==> refresh.Some? && color.value != [] && AllDigits(color.value)
    ensures MatchTail(TailText(refresh, color)) == Some((refresh, color))
  {
    if refresh.Some? {
      var t := TailText(refresh, color);
      var more := if color.Some? then ":" + color.value else "";
      assert t == "@" + (refresh.value + more);
      assert t[1..] == refresh.value + more;
      DigitPrefixOf(refresh.value, more);
      if color.Some? {
        assert more[1..] == color.value + [];
        DigitPrefixOf(color.value, []);
      }
    }
  }

  /** The matcher finds the groups of any text the pattern describes. */
  lemma MatchComplete(g: Groups)
    requires WellFormed(g)
    ensures Match(Text(g)) == Some(g)
  {
    var tail := TailText(g.refresh, g.color);
    var rest := "x" + (g.height + tail);
    assert Text(g) == g.width + rest;
    DigitPrefixOf(g.width, rest);
    assert rest[1..] == g.height + tail;
    assert tail == [] || tail[0] == '@';
    DigitPrefixOf(g.height, tail);
    MatchTailComplete(g.refresh, g.color);
  }

  /** Whatever the tail matcher accepts is a tail the pattern describes. */
  lemma MatchTailSound(s: string)
    requires MatchTail(s).Some?
    ensures var (refresh, color) := MatchTail(s).value;
            (refresh.Some? ==> refresh.value != [] && AllDigits(refresh.value)) &&
            (color.Some? ==> refresh.Some? && color.value != [] && AllDigits(color.value)) &&
            TailText(refresh, color) == s
  {
    if s != [] {
      var refresh, rest := DigitPrefix(s[1..]).0, DigitPrefix(s[1..]).1;
      assert s == "@" + s[1..];
      if rest != [] {
        var color, end := DigitPrefix(rest[1..]).0, DigitPrefix(rest[1..]).1;
        assert rest == ":" + rest[1..];
        assert s == "@" + refresh + ":" + color;
      }
    }
  }

  /** Whatever the matcher accepts is text the pattern describes, with those groups. */
  lemma MatchSound(s: string)
    requires Match(s).Some?
    ensures WellFormed(Match(s).value) && Text(Match(s).value) == s
  {
    var width, rest := DigitPrefix(s).0, DigitPrefix(s).1;
    var height, tail := DigitPrefix(rest[1..]).0, DigitPrefix(rest[1..]).1;
    MatchTailSound(tail);
    var t := MatchTail(tail).value;
    assert Match(s).value == Groups(width, height, t.0, t.1);
    assert rest == "x" + rest[1..];
    assert s == width + "x" + height + tail;
  }

  /**
   * `read`: `None` for a null string, a string the pattern does not match, or a group too
   * large for an `int` (the caught `NumberFormatException`).
   */
  function Read(s: Option<string>): (r: Option<VideoMode>)
    ensures s.None? ==> r.None?
    ensures r.Some? ==> Match(s.value).Some?
    ensures r.Some? ==> r.value.redBits == r.value.greenBits == r.value.blueBits
  {
    if s.None? then None
    else
      var m := Match(s.value);
      if m.None? then None
      else
        var g := m.value;
        var width := ParseInt(g.width);
        var height := ParseInt(g.height);
        var refresh := if g.refresh.None? then Some(DefaultRefreshRate) else ParseInt(g.refresh.value);
        var colorBits := if g.color.None? then Some(DefaultColorBits) else ParseInt(g.color.value);
        if width.None? || height.None? || refresh.None? || colorBits.None? then None
        else
          var colorBit := colorBits.value / 3;
          Some(VideoMode(width.value, height.value, colorBit, colorBit, colorBit, refresh.value))
  }

  /** `write`: `"%sx%s@%s:%s"` of width, height, refresh rate and the `int` sum of the channel bits. */
  function Write(m: VideoMode): string {
    IntToString(m.width) + "x" + IntToString(m.height) + "@" + IntToString(m.refreshRate) + ":" +
    IntToString(Wrap32(m.redBits + m.greenBits + m.blueBits))
  }

  /** `equals`: all six fields agree. */
  function Equals(m: VideoMode, n: VideoMode): (r: bool)
    ensures r <==> m == n
  {
    m.width == n.width && m.height == n.height && m.redBits == n.redBits &&
    m.greenBits == n.greenBits && m.blueBits == n.blueBits && m.refreshRate == n.refreshRate
  }

  /** Reading a well-formed text: each group parsed, the defaults for missing ones, and a third of the colour bits per channel. */
  lemma ReadGroups(g: Groups)
    requires WellFormed(g)
    requires DecimalValue(g.width) <= MaxInt && DecimalValue(g.height) <= MaxInt
    requires g.refresh.Some? ==> DecimalValue(g.refresh.value) <= MaxInt
    requires g.color.Some? ==> DecimalValue(g.color.value) <= MaxInt
    ensures var refresh := if g.refresh.Some? then DecimalValue(g.refresh.value) else DefaultRefreshRate;
            var bits := (if g.color.Some? then DecimalValue(g.color.value) else DefaultColorBits) / 3;
            Read(Some(Text(g))) == Some(VideoMode(DecimalValue(g.width), DecimalValue(g.height), bits, bits, bits, refresh))
  {
    MatchComplete(g);
    ParseDigits(g.width);
    ParseDigits(g.height);
    if g.refresh.Some? {
      ParseDigits(g.refresh.value);
    }
    if g.color.Some? {
      ParseDigits(g.color.value);
    }
  }

  /** `"WxH"` alone reads with refresh rate 60 and 8 bits per channel. */
  lemma ReadDefaults(width: string, height: string)
    requires width != [] && AllDigits(width) && height != [] && AllDigits(height)
    requires DecimalValue(width) <= MaxInt && DecimalValue(height) <= MaxInt
    ensures Read(Some(width + "x" + height)) == Some(VideoMode(DecimalValue(width), DecimalValue(height), 8, 8, 8, 60))
  {
    var g := Groups(width, height, None, None);
    assert Text(g) == width + "x" + height;
    ReadGroups(g);
  }

  /** A group too large for an `int` makes the whole read empty rather than throw. */
  lemma ReadOverflow(g: Groups)
    requires WellFormed(g)
    requires DecimalValue(g.width) > MaxInt || DecimalValue(g.height) > MaxInt ||
             (g.refresh.Some? && DecimalValue(g.refresh.value) > MaxInt) ||
             (g.color.Some? && DecimalValue(g.color.value) > MaxInt)
    ensures Read(Some(Text(g))).None?
  {
    MatchComplete(g);
    ParseDigits(g.width);
    ParseDigits(g.height);
    if g.refresh.Some? {
      ParseDigits(g.refresh.value);
    }
    if g.color.Some? {
      ParseDigits(g.color.value);
    }
  }

  /** A string the pattern does not match reads as empty. */
  lemma ReadRejects(s: string)
    requires forall g :: WellFormed(g) ==> Text(g) != s
    ensures Read(Some(s)).None?
  {
    if Match(s).Some? {
      MatchSound(s);
    }
  }

  /** A non-negative `int` is printed as digits whose value it is. */
  lemma PrintedValue(n: int)
    requires 0 <= n
    ensures IntToString(n) != [] && AllDigits(IntToString(n)) && DecimalValue(IntToString(n)) == n
  {
    DecimalValueOfNatToString(n);
  }

  /** `write` prints the pattern with all four groups. */
  lemma WriteText(m: VideoMode, g: Groups)
    requires g == Groups(IntToString(m.width), IntToString(m.height), Some(IntToString(m.refreshRate)),
                         Some(IntToString(Wrap32(m.redBits + m.greenBits + m.blueBits))))
    ensures Text(g) == Write(m)
  {
    var w, h, r, c := g.width, g.height, g.refresh.value, g.color.value;
    assert Text(g) == w + "x" + h + ("@" + r + ":" + c);
    assert w + "x" + h + ("@" + r + ":" + c) == w + "x" + h + "@" + r + ":" + c;
  }

  /**
   * What `write` prints, `read` reads back: for non-negative fields with equal channel
   * bits whose sum is an `int`.
   */
  lemma ReadWrite(m: VideoMode)
    requires 0 <= m.width <= MaxInt && 0 <= m.height <= MaxInt && 0 <= m.refreshRate <= MaxInt
    requires 0 <= m.redBits && m.redBits == m.greenBits == m.blueBits && 3 * m.redBits <= MaxInt
    ensures Read(Some(Write(m))) == Some(m)
  {
    var bits := m.redBits + m.greenBits + m.blueBits;
    assert Wrap32(bits) == bits;
    var g := Groups(IntToString(m.width), IntToString(m.height), Some(IntToString(m.refreshRate)), Some(IntToString(bits)));
    WriteText(m, g);
    PrintedValue(m.width);
    PrintedValue(m.height);
    PrintedValue(m.refreshRate);
    PrintedValue(bits);
    assert bits / 3 == m.redBits;
    assert WellFormed(g);
    ReadGroups(g);
  }
}
