/**
 * `Version`: a major.minor.revision triple with a release channel, compared through a
 * packed integer, printed as "M.m.r name" and read back by `fromString`.
 */
module Version {
  import opened Wrappers
  import opened JavaInt
  import opened JavaString
  import VT = VersionType

  /** The exceptions the parsing code can raise. */
  datatype Exception = IllegalArgument(message: string) | NumberFormat | IndexOutOfBounds

  datatype Version = Version(major: int, minor: int, revision: int, vtype: VT.VersionType)

  /** The constructor's check on the components (each is a Java `int`). */
  predicate Accepted(major: int, minor: int, revision: int) {
    major < 100 && minor < 100 && revision < 10000
  }

  /** Versions the constructor can produce. */
  predicate Valid(v: Version) {
    IsInt32(v.major) && IsInt32(v.minor) && IsInt32(v.revision) &&
    Accepted(v.major, v.minor, v.revision)
  }

  /** The four-argument constructor: "invalid version" unless the components pass the check. */
  function Create(major: int, minor: int, revision: int, t: VT.VersionType): (r: Result<Version, Exception>)
    requires IsInt32(major) && IsInt32(minor) && IsInt32(revision)
    ensures r.Success? <==> Accepted(major, minor, revision)
    ensures r.Success? ==> Valid(r.value) && r.value == Version(major, minor, revision, t)
    ensures r.Failure? ==> r.error == IllegalArgument("invalid version")
  {
    if Accepted(major, minor, revision) then Success(Version(major, minor, revision, t))
    else Failure(IllegalArgument("invalid version"))
  }

  /** `quickParse`: major * 1000000 + minor * 10000 + revision in `int` arithmetic. */
  function QuickParse(v: Version): (n: int)
    ensures IsInt32(n)
  {
    Wrap32(Wrap32(Wrap32(v.major * 1000000) + Wrap32(v.minor * 10000)) + v.revision)
  }

  /** `equals(ver, ignoretype)`. */
  predicate SameAs(v: Version, w: Version, ignoreType: bool) {
    v.major == w.major && v.minor == w.minor && v.revision == w.revision &&
    (ignoreType || v.vtype == w.vtype)
  }

  /** `isLessThan(ver, equal)`. */
  predicate IsLessThan(v: Version, w: Version, equal: bool) {
    QuickParse(v) < QuickParse(w) || (equal && SameAs(v, w, true))
  }

  /** `isMoreThan(ver, equal)`. */
  predicate IsMoreThan(v: Version, w: Version, equal: bool) {
    QuickParse(v) > QuickParse(w) || (equal && SameAs(v, w, true))
  }

  /** `toString`: "major.minor.revision name". */
  function ToString(v: Version): (s: string)
  {
    IntToString(v.major) + "." + IntToString(v.minor) + "." + IntToString(v.revision) + " " +
    VT.Name(v.vtype)
  }

  /** `getOrZero`: component `index` parsed, or 0 when there is none. */
  function GetOrZero(parts: seq<string>, index: nat): (r: Result<int, Exception>)
    ensures index >= |parts| ==> r == Success(0)
    ensures index < |parts| ==> (r.Success? <==> ParseInt(parts[index]).Some?)
    ensures r.Success? ==> IsInt32(r.value)
  {
    if |parts| > index then
      match ParseInt(parts[index])
      case Some(n) => Success(n)
      case None => Failure(NumberFormat)
    else Success(0)
  }

  /** `getType`: the second token names the channel only when there are exactly two tokens. */
  function GetType(tokens: seq<string>): (t: VT.VersionType)
    ensures |tokens| != 2 ==> t == VT.Stable
    ensures |tokens| == 2 ==> t == VT.FromString(tokens[1])
  {
    if |tokens| == 2 then VT.FromString(tokens[1]) else VT.Stable
  }

  /** The components read by `getOrZero` from the dot-separated parts, then the constructor. */
  function FromParts(parts: seq<string>, t: VT.VersionType): (r: Result<Version, Exception>)
    ensures r.Success? ==> Valid(r.value) && r.value.vtype == t
  {
    match GetOrZero(parts, 0)
    case Failure(e) => Failure(e)
    case Success(major) =>
      match GetOrZero(parts, 1)
      case Failure(e) => Failure(e)
      case Success(minor) =>
        match GetOrZero(parts, 2)
        case Failure(e) => Failure(e)
        case Success(revision) => Create(major, minor, revision, t)
  }

  /** The space-separated tokens: the channel from them, the components from the first. */
  function FromTokens(tokens: seq<string>): (r: Result<Version, Exception>)
    ensures r.Success? ==> Valid(r.value)
  {
    if tokens == [] then Failure(IndexOutOfBounds)
    else FromParts(Split(tokens[0], '.'), GetType(tokens))
  }

  /**
   * `fromString`: trim, split at spaces, take the channel from the tokens and the
   * components from the dot-separated first token; a missing component is 0.
   */
  function FromString(s: string): (r: Result<Version, Exception>)
    ensures r.Success? ==> Valid(r.value)
  {
    FromTokens(Split(Trim(s), ' '))
  }

  /** Printed components are read back exactly. */
  lemma FromPrintedParts(major: int, minor: int, revision: int, t: VT.VersionType)
    requires IsInt32(major) && IsInt32(minor) && IsInt32(revision)
    ensures FromParts([IntToString(major), IntToString(minor), IntToString(revision)], t) ==
            Create(major, minor, revision, t)
    ensures FromParts([IntToString(major), IntToString(minor)], t) == Create(major, minor, 0, t)
    ensures FromParts([IntToString(major)], t) == Create(major, 0, 0, t)
  {
    ParseIntToString(major);
    ParseIntToString(minor);
    ParseIntToString(revision);
  }

  // ---- properties ----

  /** `equals(Object)` compares the channel too, so it is plain equality of versions. */
  lemma EqualsIsIdentity(v: Version, w: Version)
    ensures SameAs(v, w, false) <==> v == w
  {
  }

  /** Strictly less and strictly more never hold together. */
  lemma NotBothStrict(v: Version, w: Version)
    ensures !(IsLessThan(v, w, false) && IsMoreThan(v, w, false))
  {
  }

  /** `isMoreThan` mirrors `isLessThan` */
  lemma MoreMirrorsLess(v: Version, w: Version, equal: bool)
    ensures IsMoreThan(v, w, equal) <==> IsLessThan(w, v, equal)
  {
  }

  /** The components of a conventional version: non-negative and within the checked bounds. */
  predicate Conventional(v: Version) {
    0 <= v.major < 100 && 0 <= v.minor < 100 && 0 <= v.revision < 10000
  }

  /** The lexicographic order of (major, minor, revision). */
  predicate LexLess(v: Version, w: Version) {
    v.major < w.major ||
    (v.major == w.major && (v.minor < w.minor || (v.minor == w.minor && v.revision < w.revision)))
  }

  /** On conventional versions nothing wraps, and packing keeps major first. */
  lemma QuickParseExact(v: Version)
    requires Conventional(v)
    ensures QuickParse(v) == v.major * 1000000 + (v.minor * 10000 + v.revision)
    ensures 0 <= v.minor * 10000 + v.revision < 1000000
  {
    assert 0 <= v.major * 1000000 <= 99000000;
    assert 0 <= v.minor * 10000 <= 990000;
  }

  /** On conventional versions the packed order is exactly the lexicographic order. */
  lemma QuickParseOrder(v: Version, w: Version)
    requires Conventional(v) && Conventional(w)
    ensures QuickParse(v) < QuickParse(w) <==> LexLess(v, w)
  {
    QuickParseExact(v);
    QuickParseExact(w);
    var lv, lw := v.minor * 10000 + v.revision, w.minor * 10000 + w.revision;
    if v.major < w.major {
      assert v.major * 1000000 + 1000000 <= w.major * 1000000;
    } else if v.major > w.major {
      assert w.major * 1000000 + 1000000 <= v.major * 1000000;
    } else if v.minor < w.minor {
      assert v.minor * 10000 + 10000 <= w.minor * 10000;
    } else if v.minor > w.minor {
      assert w.minor * 10000 + 10000 <= v.minor * 10000;
    }
  }

  /** Two conventional versions with the same components compare as equal both ways. */
  lemma QuickParseInjective(v: Version, w: Version)
    requires Conventional(v) && Conventional(w)
    ensures QuickParse(v) == QuickParse(w) <==> SameAs(v, w, true)
  {
    QuickParseOrder(v, w);
    QuickParseOrder(w, v);
  }

  /** A printed component holds neither a dot nor a space. */
  lemma NumberHasNoSeparator(n: int)
    ensures '.' !in IntToString(n) && ' ' !in IntToString(n)
  {
    var s := IntToString(n);
    if n < 0 {
      assert s == [s[0]] + s[1..];
      forall i | 0 <= i < |s[1..]| ensures s[1..][i] != '.' && s[1..][i] != ' ' {
        assert IsDigit(s[1..][i]);
      }
    } else {
      forall i | 0 <= i < |s| ensures s[i] != '.' && s[i] != ' ' {
        assert IsDigit(s[i]);
      }
    }
  }

  /** The round trip: reading back a printed version gives the same version. */
  lemma FromStringToString(v: Version)
    requires Valid(v)
    ensures FromString(ToString(v)) == Success(v)
  {
    var a, b, c := IntToString(v.major), IntToString(v.minor), IntToString(v.revision);
    var name := VT.Name(v.vtype);
    var numbers := a + "." + b + "." + c;
    var s := ToString(v);
    assert s == numbers + [' '] + name;
    NumberHasNoSeparator(v.major);
    NumberHasNoSeparator(v.minor);
    NumberHasNoSeparator(v.revision);
    NumberIsTrimmed(v.major);
    assert s[0] == a[0] && s[|s| - 1] == name[|name| - 1];
    TrimUnchanged(s);
    assert numbers == a + ['.'] + b + ['.'] + c;
    AbsentConcat(a, ['.'] + b + ['.'] + c, ' ');
    SplitTwo(numbers, name, ' ');
    SplitThree(a, b, c, '.');
    FromPrintedParts(v.major, v.minor, v.revision, v.vtype);
    VT.FromStringName(v.vtype);
  }

  lemma AbsentConcat(x: string, y: string, c: char)
    requires c !in x && c !in y
    ensures c !in x + y
  {
  }

  /** The characters `toString` can print. */
  predicate TextChar(c: char) {
    IsDigit(c) || c == '-' || c == '.' || c == ' ' || 'a' <= c <= 'z'
  }

  predicate Textual(s: string) {
    forall i :: 0 <= i < |s| ==> TextChar(s[i])
  }

  lemma TextualConcat(x: string, y: string)
    requires Textual(x) && Textual(y)
    ensures Textual(x + y)
  {
    forall i | 0 <= i < |x + y| ensures TextChar((x + y)[i]) {
      if i >= |x| {
        assert (x + y)[i] == y[i - |x|];
      }
    }
  }

  lemma NumberTextual(n: int)
    ensures Textual(IntToString(n))
  {
    var s := IntToString(n);
    if n < 0 {
      forall i | 0 <= i < |s| ensures TextChar(s[i]) {
        if i > 0 {
          assert s[i] == s[1..][i - 1];
        }
      }
    }
  }

  /** A printed version is made of digits, signs, dots, one space and a lower-case name. */
  lemma ToStringTextual(v: Version)
    ensures Textual(ToString(v))
  {
    NumberTextual(v.major);
    NumberTextual(v.minor);
    NumberTextual(v.revision);
    var a, b, c := IntToString(v.major), IntToString(v.minor), IntToString(v.revision);
    TextualConcat(a, ".");
    TextualConcat(a + ".", b);
    TextualConcat(a + "." + b, ".");
    TextualConcat(a + "." + b + ".", c);
    TextualConcat(a + "." + b + "." + c, " ");
    TextualConcat(a + "." + b + "." + c + " ", VT.Name(v.vtype));
  }

  /** A printed component neither starts nor ends with a trimmable character. */
  lemma NumberIsTrimmed(n: int)
    ensures !IsTrimmable(IntToString(n)[0]) && !IsTrimmable(IntToString(n)[|IntToString(n)| - 1])
  {
    var a := IntToString(n);
    if n < 0 {
      assert IsDigit(a[1..][|a| - 2]);
    } else {
      assert IsDigit(a[0]) && IsDigit(a[|a| - 1]);
    }
  }

  /** Without a channel the version is stable, and missing components are 0. */
  lemma FromStringMajorOnly(major: int)
    requires IsInt32(major) && major < 100
    ensures FromString(IntToString(major)) == Success(Version(major, 0, 0, VT.Stable))
  {
    var a := IntToString(major);
    NumberHasNoSeparator(major);
    NumberIsTrimmed(major);
    TrimUnchanged(a);
    assert Split(a, ' ') == [a];
    assert Split(a, '.') == [a];
    FromPrintedParts(major, 0, 0, VT.Stable);
  }

  /** A missing revision is 0. */
  lemma FromStringNoRevision(major: int, minor: int)
    requires IsInt32(major) && IsInt32(minor) && major < 100 && minor < 100
    ensures FromString(IntToString(major) + "." + IntToString(minor)) ==
            Success(Version(major, minor, 0, VT.Stable))
  {
    var a, b := IntToString(major), IntToString(minor);
    NumberHasNoSeparator(major);
    NumberHasNoSeparator(minor);
    NumberIsTrimmed(major);
    NumberIsTrimmed(minor);
    var s := a + "." + b;
    assert s == a + ['.'] + b;
    assert s[0] == a[0] && s[|s| - 1] == b[|b| - 1];
    TrimUnchanged(s);
    AbsentConcat(a, ['.'] + b, ' ');
    assert Split(s, ' ') == [s];
    SplitTwo(a, b, '.');
    FromPrintedParts(major, minor, 0, VT.Stable);
  }
}
