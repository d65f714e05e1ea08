/**
 * `VersionUtils.isInRange`: a range is a comma-separated list of alternatives (commas
 * inside brackets do not separate), each either a single version, matched ignoring the
 * channel, or an interval such as "[1.0.0,2.0.0)".
 */
module VersionUtils {
  import opened Wrappers
  import opened JavaString
  import opened Version

  predicate Opens(c: char) { c == '(' || c == '[' }
  predicate Closes(c: char) { c == ')' || c == ']' }

  /** Whether the scan of `split` is inside brackets after reading the first n characters. */
  function RoundAfter(s: string, n: nat): bool
    requires n <= |s|
  {
    if n == 0 then false
    else if Opens(s[n - 1]) then true
    else if Closes(s[n - 1]) then false
    else RoundAfter(s, n - 1)
  }

  /** Position i is a separating comma: a comma read while outside brackets. */
  predicate IsCut(s: string, i: int) {
    0 <= i < |s| && s[i] == ',' && !RoundAfter(s, i)
  }

  /** Where the piece holding position n starts: just after the last separating comma before n. */
  function PieceStart(s: string, n: nat): (start: nat)
    requires n <= |s|
    ensures start <= n
    ensures start > 0 ==> IsCut(s, start - 1)
  {
    if n == 0 then 0 else if IsCut(s, n - 1) then n else PieceStart(s, n - 1)
  }

  /** The trimmed pieces ending at a separating comma before position n, in order. */
  function PiecesBelow(s: string, n: nat): (pieces: seq<string>)
    requires n <= |s|
  {
    if n == 0 then []
    else if IsCut(s, n - 1) then PiecesBelow(s, n - 1) + [Trim(s[PieceStart(s, n - 1)..n - 1])]
    else PiecesBelow(s, n - 1)
  }

  /**
   * What `split` computes: the trimmed text between consecutive separating commas, and
   * the trimmed rest after the last one unless that rest is empty.
   */
  function SplitRange(s: string): (r: seq<string>)
  {
    var last := PieceStart(s, |s|);
    PiecesBelow(s, |s|) + (if last != |s| then [Trim(s[last..])] else [])
  }

  /** The state of the scan of `split` after reading the first i characters. */
  ghost predicate Scanned(s: string, i: int, begin: int, isRound: bool, pieces: seq<string>) {
    0 <= i <= |s| && isRound == RoundAfter(s, i) && begin == PieceStart(s, i) &&
    pieces == PiecesBelow(s, i)
  }

  /** `split`: the scan that cuts the range at separating commas. */
  method Split(s: string) returns (pieces: seq<string>)
    ensures pieces == SplitRange(s)
  {
    pieces := [];
    var isRound := false;
    var begin := 0;
    var i := 0;
    while i < |s|
      invariant Scanned(s, i, begin, isRound, pieces)
    {
      var at := s[i];
      if at == '(' || at == '[' {
        isRound := true;
      }
      if at == ')' || at == ']' {
        isRound := false;
      }
      if at == ',' && !isRound {
        pieces := pieces + [Trim(s[begin..i])];
        begin := i + 1;
      }
      i := i + 1;
    }
    if begin != |s| {
      pieces := pieces + [Trim(s[begin..])];
    }
  }

  // ---- properties of the split ----

  /** A piece that ends at a cut before n is shorter than n. */
  lemma {:induction false} PiecesBounded(s: string, n: nat)
    requires n <= |s|
    ensures forall k :: 0 <= k < |PiecesBelow(s, n)| ==> |PiecesBelow(s, n)[k]| < n
  {
    if n > 0 {
      PiecesBounded(s, n - 1);
      var prev := PiecesBelow(s, n - 1);
      if IsCut(s, n - 1) {
        var last := Trim(s[PieceStart(s, n - 1)..n - 1]);
        assert PiecesBelow(s, n) == prev + [last];
        assert |last| < n;
      } else {
        assert PiecesBelow(s, n) == prev;
      }
    }
  }

  /** Once a piece has been cut off, the next piece starts after position 0. */
  lemma {:induction false} StartAfterPiece(s: string, n: nat)
    requires n <= |s| && PiecesBelow(s, n) != []
    ensures PieceStart(s, n) > 0
  {
    if !IsCut(s, n - 1) {
      StartAfterPiece(s, n - 1);
    }
  }

  /** A range with no separating comma is one piece: itself, trimmed (or none if empty). */
  lemma {:induction false} NoCutsOnePiece(s: string)
    requires forall i :: 0 <= i < |s| ==> !IsCut(s, i)
    ensures SplitRange(s) == if s == [] then [] else [Trim(s)]
  {
    NoCutsBelow(s, |s|);
    assert s[0..] == s;
  }

  lemma {:induction false} NoCutsBelow(s: string, n: nat)
    requires n <= |s| && forall i :: 0 <= i < n ==> !IsCut(s, i)
    ensures PiecesBelow(s, n) == [] && PieceStart(s, n) == 0
  {
    if n > 0 {
      NoCutsBelow(s, n - 1);
    }
  }

  /** Several pieces only arise from a separating comma, and each is shorter than the range. */
  lemma PiecesShorter(s: string)
    requires |SplitRange(s)| > 1
    ensures forall k :: 0 <= k < |SplitRange(s)| ==> |SplitRange(s)[k]| < |s|
  {
    PiecesBounded(s, |s|);
    if PiecesBelow(s, |s|) != [] {
      StartAfterPiece(s, |s|);
    }
  }

  /** A range ending in a separating comma gets no empty piece after it. */
  lemma NoTrailingPiece(s: string)
    requires s != [] && IsCut(s, |s| - 1)
    ensures SplitRange(s) == PiecesBelow(s, |s|)
  {
  }

  // ---- isInRange ----

  /**
   * `isInRange(Version, String)`. The range is split; several pieces are tried in order,
   * the first piece in range answering true and the first exception propagating;
   * a single piece is a version or an interval.
   */
  function IsInRange(v: Version, range: string): (r: Result<bool, Exception>)
    ensures range == [] ==> r == Failure(IllegalArgument("range is null!"))
    decreases |range|, 1
  {
    if range == [] then Failure(IllegalArgument("range is null!"))
    else
      var splits := SplitRange(range);
      if |splits| > 1 then
        PiecesShorter(range);
        AnyInRange(v, splits, |range|)
      else if splits == [] then Failure(IndexOutOfBounds)
      else InPiece(v, splits[0])
  }

  /** The loop over several pieces: true at the first piece in range, false after all. */
  function AnyInRange(v: Version, pieces: seq<string>, bound: nat): (r: Result<bool, Exception>)
    requires forall k :: 0 <= k < |pieces| ==> |pieces[k]| < bound
    decreases bound, 0, |pieces|
  {
    if pieces == [] then Success(false)
    else
      match IsInRange(v, pieces[0])
      case Failure(e) => Failure(e)
      case Success(true) => Success(true)
      case Success(false) => AnyInRange(v, pieces[1..], bound)
  }

  /** One piece: a version matched ignoring the channel, or a bracketed interval. */
  function InPiece(v: Version, piece: string): (r: Result<bool, Exception>)
    ensures |JavaString.Split(piece, ',')| >= 3 ==> r == Failure(IllegalArgument("invalid range statement"))
  {
    var vrange := JavaString.Split(piece, ',');
    if |vrange| >= 3 then Failure(IllegalArgument("invalid range statement"))
    else if vrange == [] then Failure(IndexOutOfBounds)
    else if |vrange| == 1 then
      match FromString(vrange[0])
      case Failure(e) => Failure(e)
      case Success(w) => Success(SameAs(w, v, true))
    else InInterval(v, vrange[0], vrange[1])
  }

  /**
   * An interval "down,up": both bounds are read first, then the bounds are checked in
   * order, then the brackets; '[' and ']' admit the bound itself.
   */
  function InInterval(v: Version, down: string, up: string): (r: Result<bool, Exception>)
  {
    if down == [] then Failure(IndexOutOfBounds)
    else
      match FromString(down[1..])
      case Failure(e) => Failure(e)
      case Success(lower) =>
        if up == [] then Failure(IndexOutOfBounds)
        else
          match FromString(up[..|up| - 1])
          case Failure(e) => Failure(e)
          case Success(upper) =>
            if !IsLessThan(lower, upper, false) then Failure(IllegalArgument("invalid range"))
            else if !Opens(down[0]) || !Closes(up[|up| - 1]) then
              Failure(IllegalArgument("invalid range statement"))
            else Success(IsLessThan(lower, v, down[0] == '[') && IsMoreThan(upper, v, up[|up| - 1] == ']'))
  }

  /** `isInRange(String, String)`: the version is read with `fromString` first. */
  function IsInRangeText(ver: string, range: string): (r: Result<bool, Exception>)
    ensures FromString(ver).Failure? ==> r == Failure(FromString(ver).error)
    ensures FromString(ver).Success? ==> r == IsInRange(FromString(ver).value, range)
  {
    match FromString(ver)
    case Failure(e) => Failure(e)
    case Success(v) => IsInRange(v, range)
  }

  // ---- properties of isInRange ----

  /**
   * Several pieces: true exactly when some piece is in range, provided no piece throws;
   * the first piece in range wins over later failures.
   */
  lemma {:induction false} AnyInRangeMeaning(v: Version, pieces: seq<string>, bound: nat)
    requires forall k :: 0 <= k < |pieces| ==> |pieces[k]| < bound
    ensures AnyInRange(v, pieces, bound) == Success(true) ==>
              exists k :: 0 <= k < |pieces| && IsInRange(v, pieces[k]) == Success(true)
    ensures (forall k :: 0 <= k < |pieces| ==> IsInRange(v, pieces[k]).Success?) ==>
              AnyInRange(v, pieces, bound) ==
              Success(exists k :: 0 <= k < |pieces| && IsInRange(v, pieces[k]) == Success(true))
    ensures forall k :: 0 <= k < |pieces| && IsInRange(v, pieces[k]) == Success(true) &&
                        (forall j :: 0 <= j < k ==> IsInRange(v, pieces[j]).Success?) ==>
              AnyInRange(v, pieces, bound) == Success(true)
  {
    if pieces != [] {
      AnyInRangeMeaning(v, pieces[1..], bound);
      forall k | 1 <= k < |pieces|
        ensures pieces[1..][k - 1] == pieces[k]
      {
      }
      if IsInRange(v, pieces[0]) == Success(false) {
        forall k | 0 <= k < |pieces| && IsInRange(v, pieces[k]) == Success(true) &&
                   (forall j :: 0 <= j < k ==> IsInRange(v, pieces[j]).Success?)
          ensures AnyInRange(v, pieces[1..], bound) == Success(true)
        {
          assert k > 0 && pieces[1..][k - 1] == pieces[k];
          forall j | 0 <= j < k - 1 ensures IsInRange(v, pieces[1..][j]).Success? {
            assert pieces[1..][j] == pieces[j + 1];
          }
        }
      }
    }
  }

  /** A range that is one bracketed interval of two valid versions. */
  function Interval(open: char, lower: Version, upper: Version, close: char): string {
    [open] + ToString(lower) + "," + ToString(upper) + [close]
  }

  /** The scan stays inside brackets after an opening bracket until a bracket is read. */
  lemma {:induction false} RoundStaysOpen(s: string, n: nat)
    requires 1 <= n <= |s| && Opens(s[0])
    requires forall j :: 1 <= j < n ==> !Opens(s[j]) && !Closes(s[j])
    ensures RoundAfter(s, n)
  {
    if n > 1 {
      RoundStaysOpen(s, n - 1);
    }
  }

  /** A range with no comma is one piece: itself, trimmed. */
  lemma OnePiece(v: Version, range: string)
    requires range != [] && ',' !in range
    ensures IsInRange(v, range) == InPiece(v, Trim(range))
  {
    forall i | 0 <= i < |range| ensures !IsCut(range, i) {
      assert range[i] != ',';
    }
    NoCutsOnePiece(range);
  }

  /** A piece with no comma at all is matched as one version, ignoring the channel. */
  lemma SingleVersion(v: Version, range: string)
    requires range != [] && ',' !in range
    ensures var parsed := FromString(Trim(range));
            IsInRange(v, range) ==
            if parsed.Failure? then Failure(parsed.error) else Success(SameAs(parsed.value, v, true))
  {
    OnePiece(v, range);
    TrimKeepsAbsent(range, ',');
    assert JavaString.Split(Trim(range), ',') == [Trim(range)];
  }

  /** An interval has no separating comma, and its one comma parts the two bounds. */
  lemma IntervalPieces(open: char, lower: Version, upper: Version, close: char)
    requires Opens(open) && Closes(close)
    ensures SplitRange(Interval(open, lower, upper, close)) == [Interval(open, lower, upper, close)]
    ensures JavaString.Split(Interval(open, lower, upper, close), ',') ==
            [[open] + ToString(lower), ToString(upper) + [close]]
  {
    var a, b := ToString(lower), ToString(upper);
    var down, up := [open] + a, b + [close];
    var r := Interval(open, lower, upper, close);
    assert r == down + [','] + up;
    ToStringTextual(lower);
    ToStringTextual(upper);
    assert ',' !in down && ',' !in up by {
      forall i | 0 <= i < |a| ensures a[i] != ',' { assert TextChar(a[i]); }
      forall i | 0 <= i < |b| ensures b[i] != ',' { assert TextChar(b[i]); }
    }
    forall i | 0 <= i < |r|
      ensures !IsCut(r, i)
    {
      if r[i] == ',' {
        assert i == |down|;
        forall j | 1 <= j < i ensures !Opens(r[j]) && !Closes(r[j]) {
          assert r[j] == a[j - 1] && TextChar(a[j - 1]);
        }
        RoundStaysOpen(r, i);
      }
    }
    NoCutsOnePiece(r);
    TrimUnchanged(r);
    SplitTwo(down, up, ',');
  }

  /**
   * An interval of two printed versions: "invalid range" unless the lower bound is
   * strictly below the upper one; otherwise '[' admits the lower bound itself, ']' the
   * upper bound itself, and the other brackets exclude them.
   */
  lemma IntervalRange(v: Version, open: char, lower: Version, upper: Version, close: char)
    requires Valid(lower) && Valid(upper) && Opens(open) && Closes(close)
    ensures IsInRange(v, Interval(open, lower, upper, close)) ==
            if IsLessThan(lower, upper, false) then
              Success(IsLessThan(lower, v, open == '[') && IsMoreThan(upper, v, close == ']'))
            else Failure(IllegalArgument("invalid range"))
  {
    var a, b := ToString(lower), ToString(upper);
    var down, up := [open] + a, b + [close];
    var r := Interval(open, lower, upper, close);
    IntervalPieces(open, lower, upper, close);
    assert IsInRange(v, r) == InPiece(v, r);
    assert InPiece(v, r) == InInterval(v, down, up);
    assert down[1..] == a && up[..|up| - 1] == b;
    FromStringToString(lower);
    FromStringToString(upper);
  }
}
