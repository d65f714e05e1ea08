/** `VersionType`: the five release channels and their lower-case names. */
module VersionType {
  import opened JavaString

  datatype VersionType = InDevelop | Alpha | Beta | Trial | Stable

  /** `getName`. */
  function Name(t: VersionType): (name: string)
    ensures name != [] && IsLower(name) && ' ' !in name
    ensures forall i :: 0 <= i < |name| ==> 'a' <= name[i] <= 'z'
  {
    match t
    case InDevelop => "indev"
    case Alpha => "alpha"
    case Beta => "beta"
    case Trial => "trial"
    case Stable => "stable"
  }

  /**
   * `fromString`: the lower-cased input is matched against four of the names; anything
   * else, "stable" included, is `Stable`.
   */
  function FromString(s: string): (t: VersionType)
    ensures t != Stable <==> ToLower(s) in {"indev", "alpha", "beta", "trial"}
    ensures t != Stable ==> ToLower(s) == Name(t)
  {
    match ToLower(s)
    case "indev" => InDevelop
    case "alpha" => Alpha
    case "beta" => Beta
    case "trial" => Trial
    case _ => Stable
  }

  /** The names are pairwise distinct. */
  lemma NamesDistinct(t: VersionType, u: VersionType)
    ensures Name(t) == Name(u) <==> t == u
  {
  }

  /** Every channel reads back from its own name. */
  lemma FromStringName(t: VersionType)
    ensures FromString(Name(t)) == t
  {
    LowerOfLower(Name(t));
  }

  /** The match ignores ASCII case. */
  lemma FromStringIgnoresCase(s: string)
    ensures FromString(ToLower(s)) == FromString(s)
  {
    assert ToLower(ToLower(s)) == ToLower(s);
  }
}
