/**
 * The `java.lang.String` operations the source relies on: `trim`, `split` by a
 * single literal character, and `toLowerCase` (on ASCII letters).
 */
module JavaString {

  /** The characters `String.trim` removes: every code point up to and including the space. */
  predicate IsTrimmable(c: char) {
    c <= ' '
  }

  function TrimStart(s: string): (r: string)
    ensures |r| <= |s| && r == s[|s| - |r|..]
    ensures r == [] || !IsTrimmable(r[0])
  {
    if s != [] && IsTrimmable(s[0]) then TrimStart(s[1..]) else s
  }

  function TrimEnd(s: string): (r: string)
    ensures |r| <= |s| && r == s[..|r|]
    ensures r == [] || !IsTrimmable(r[|r| - 1])
    ensures s == [] || !IsTrimmable(s[0]) ==> r == [] || !IsTrimmable(r[0])
  {
    if s != [] && IsTrimmable(s[|s| - 1]) then TrimEnd(s[..|s| - 1]) else s
  }

  /** `String.trim`: the input without its leading and trailing trimmable characters. */
  function Trim(s: string): (r: string)
    ensures |r| <= |s|
    ensures r == [] || (!IsTrimmable(r[0]) && !IsTrimmable(r[|r| - 1]))
  {
    TrimEnd(TrimStart(s))
  }

  /** A string that neither starts nor ends with a trimmable character is its own trim. */
  lemma TrimUnchanged(s: string)
    requires s == [] || (!IsTrimmable(s[0]) && !IsTrimmable(s[|s| - 1]))
    ensures Trim(s) == s
  {
  }

  /** Trimming removes characters, so it adds none. */
  lemma TrimKeepsAbsent(s: string, c: char)
    requires c !in s
    ensures c !in Trim(s)
  {
    var u := TrimStart(s);
    assert u == s[|s| - |u|..];
    assert TrimEnd(u) == u[..|TrimEnd(u)|];
  }

  /** The pieces of `s` between consecutive occurrences of `d`, including empty ones. */
  function Segments(s: string, d: char): (r: seq<string>)
    ensures |r| >= 1
    ensures forall i :: 0 <= i < |r| ==> d !in r[i]
  {
    if s == [] then [[]]
    else
      var rest := Segments(s[1..], d);
      if s[0] == d then [[]] + rest else [[s[0]] + rest[0]] + rest[1..]
  }

  function DropTrailingEmpty(ss: seq<string>): (r: seq<string>)
    ensures |r| <= |ss| && r == ss[..|r|]
    ensures r == [] || r[|r| - 1] != []
  {
    if ss != [] && ss[|ss| - 1] == [] then DropTrailingEmpty(ss[..|ss| - 1]) else ss
  }

  /**
   * `s.split(d)` for a delimiter that is a single literal character (the fast path of
   * `String.split` with limit 0): an input without the delimiter gives itself;
   * otherwise the segments without the trailing empty ones.
   */
  function Split(s: string, d: char): (r: seq<string>)
    ensures forall i :: 0 <= i < |r| ==> d !in r[i]
    ensures d in s ==> r == [] || r[|r| - 1] != []
  {
    if d !in s then [s] else DropTrailingEmpty(Segments(s, d))
  }

  lemma {:induction false} SegmentsWithout(a: string, d: char)
    requires d !in a
    ensures Segments(a, d) == [a]
  {
    if a != [] {
      SegmentsWithout(a[1..], d);
      assert a[0] != d;
      assert [a[0]] + a[1..] == a;
    }
  }

  lemma {:induction false} SegmentsAfter(a: string, b: string, d: char)
    requires d !in a
    ensures Segments(a + [d] + b, d) == [a] + Segments(b, d)
  {
    if a == [] {
      assert a + [d] + b == [d] + b;
      assert ([d] + b)[1..] == b;
    } else {
      SegmentsAfter(a[1..], b, d);
      assert (a + [d] + b)[1..] == a[1..] + [d] + b;
      assert [a[0]] + a[1..] == a;
    }
  }

  /** Splitting `a d b` at `d`, where neither part holds `d` and `b` is not empty. */
  lemma SplitTwo(a: string, b: string, d: char)
    requires d !in a && d !in b && b != []
    ensures Split(a + [d] + b, d) == [a, b]
  {
    assert (a + [d] + b)[|a|] == d;
    SegmentsAfter(a, b, d);
    SegmentsWithout(b, d);
  }

  /** Splitting `a d b d c` at `d`, where no part holds `d` and `c` is not empty. */
  lemma SplitThree(a: string, b: string, c: string, d: char)
    requires d !in a && d !in b && d !in c && c != []
    ensures Split(a + [d] + b + [d] + c, d) == [a, b, c]
  {
    var s := a + [d] + b + [d] + c;
    assert s[|a|] == d;
    assert s == a + [d] + (b + [d] + c);
    SegmentsAfter(a, b + [d] + c, d);
    SegmentsAfter(b, c, d);
    SegmentsWithout(c, d);
  }

  function LowerChar(c: char): char {
    if 'A' <= c <= 'Z' then ((c as int) + 32) as char else c
  }

  /** `String.toLowerCase` restricted to ASCII upper-case letters. */
  function ToLower(s: string): (r: string)
    ensures |r| == |s|
    ensures forall i :: 0 <= i < |s| ==> r[i] == LowerChar(s[i])
  {
    seq(|s|, i requires 0 <= i < |s| => LowerChar(s[i]))
  }

  /** True of strings with no ASCII upper-case letter. */
  predicate IsLower(s: string) {
    forall i :: 0 <= i < |s| ==> !('A' <= s[i] <= 'Z')
  }

  lemma LowerOfLower(s: string)
    requires IsLower(s)
    ensures ToLower(s) == s
  {
  }
}
