/** The naming heuristics that pick out profile folders and their layers. */
module Locator {
  import opened Results
  import opened Text
  import opened Tree

  /** A name counts as a custom-profile folder name when it is longer than this. */
  const LongNameLimit := 20

  predicate IsLongName(name: string)
  {
    |name| > LongNameLimit
  }

  /** A child the backup copies and the restore may select: a directory with a
      long name. */
  predicate IsProfileDir(c: Named)
  {
    c.entry.Dir? && IsLongName(c.name)
  }

  /** A saved colour layer (or the placeholder the application creates): a
      directory whose name is all digits. */
  predicate IsPlaceholder(c: Named)
  {
    c.entry.Dir? && IsDigits(c.name)
  }

  /** Entry `i` is the first of the listing whose name is long. */
  predicate IsFirstLongNamed(ls: Listing, i: nat)
  {
    i < |ls| && IsLongName(ls[i].name) && forall j :: 0 <= j < i ==> !IsLongName(ls[j].name)
  }

  /** The position of the restore target: `[f for f in listdir(dir) if len(f) > 20][0]`.
      Only the name is tested, so a long-named file is selected as well. */
  function FirstLongNamed(ls: Listing): (r: Option<nat>)
    ensures r.Some? ==> IsFirstLongNamed(ls, r.value)
    ensures r.None? <==> forall j :: 0 <= j < |ls| ==> !IsLongName(ls[j].name)
    decreases |ls|
  {
    if |ls| == 0 then None
    else if IsLongName(ls[0].name) then Some(0)
    else
      match FirstLongNamed(ls[1..])
      case None => None
      case Some(k) => Some(k + 1)
  }
}
