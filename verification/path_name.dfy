/**
  The part of `pathlib.PurePath` the gallery relies on: `suffix` and `stem`
  of a directory-entry name.  pathlib splits at the LAST dot, and only when
  that dot is neither the first nor the last character of the name, so
  ".jpg" and "photo." have no suffix at all.  This is the rule of CPython
  3.13 and earlier.
 */
module PathName {
  import opened Wrappers

  /** Position of the last '.' in `name` (Python's `str.rfind`). */
  function LastDot(name: string): (r: Option<nat>)
    ensures r.None? ==> forall j :: 0 <= j < |name| ==> name[j] != '.'
    ensures r.Some? ==> r.value < |name| && name[r.value] == '.'
    ensures r.Some? ==> forall j :: r.value < j < |name| ==> name[j] != '.'
  {
    if |name| == 0 then None
    else if name[|name| - 1] == '.' then Some(|name| - 1)
    else LastDot(name[..|name| - 1])
  }

  /** The dot that starts the suffix, if the name has one. */
  function SuffixDot(name: string): Option<nat>
  {
    match LastDot(name)
    case Some(i) => if 0 < i < |name| - 1 then Some(i) else None
    case None => None
  }

  /** `PurePath.suffix`: the final extension, dot included, or "". */
  function Suffix(name: string): (r: string)
    ensures |r| <= |name| && r == name[|name| - |r|..]
    ensures r == "" || (2 <= |r| < |name| && r[0] == '.')
    ensures forall k :: 1 <= k < |r| ==> r[k] != '.'
  {
    match SuffixDot(name)
    case Some(i) => name[i..]
    case None => ""
  }

  /** `PurePath.stem`: the name without its final extension. */
  function Stem(name: string): (r: string)
    ensures r + Suffix(name) == name
    ensures Suffix(name) != "" ==> |r| > 0
  {
    match SuffixDot(name)
    case Some(i) => name[..i]
    case None => name
  }

  /** A name has no suffix exactly when no dot sits strictly inside it, or it ends in a dot. */
  lemma SuffixEmptyIff(name: string)
    ensures Suffix(name) == "" <==>
              (forall k :: 0 < k < |name| - 1 ==> name[k] != '.') ||
              (|name| > 0 && name[|name| - 1] == '.')
  {
    if Suffix(name) == "" {
      match LastDot(name)
      case None =>
      case Some(i) =>
        assert i == 0 || i == |name| - 1;
    }
  }

  /** The suffix starts at position `k` inside the name exactly when `k` holds
      the name's last dot. */
  lemma SuffixAt(name: string, k: nat)
    requires 0 < k < |name| - 1
    ensures Suffix(name) == name[k..] <==>
              name[k] == '.' && forall j :: k < j < |name| ==> name[j] != '.'
  {
    if name[k] == '.' && forall j :: k < j < |name| ==> name[j] != '.' {
      var d := LastDot(name);
      assert d.Some? && d.value == k;
    }
  }
}
