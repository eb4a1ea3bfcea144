/** Generic facts about sequences: filtering and the subsequence order. */
module Seqs {

  /** `a` can be obtained from `b` by deleting elements, keeping the order. */
  ghost predicate Subsequence<T>(a: seq<T>, b: seq<T>)
    decreases |b|
  {
    |a| == 0 || (|b| > 0 && ((a[0] == b[0] && Subsequence(a[1..], b[1..])) || Subsequence(a, b[1..])))
  }

  /** The elements of `s` satisfying `p`, in their original order
      (a Python list comprehension with an `if` clause). */
  function Filter<T>(p: T -> bool, s: seq<T>): (r: seq<T>)
    ensures |r| <= |s|
    ensures forall i :: 0 <= i < |r| ==> r[i] in s && p(r[i])
    ensures forall i :: 0 <= i < |s| && p(s[i]) ==> s[i] in r
    ensures Subsequence(r, s)
    decreases |s|
  {
    if |s| == 0 then []
    else
      var rest := Filter(p, s[1..]);
      assert s == [s[0]] + s[1..];
      if p(s[0]) then
        assert ([s[0]] + rest)[1..] == rest;
        [s[0]] + rest
      else
        rest
  }

  /** Filtering a sequence whose elements all pass changes nothing; in particular
      filtering twice with the same predicate is the same as filtering once. */
  lemma {:induction false} FilterKeepsAll<T>(p: T -> bool, s: seq<T>)
    requires forall i :: 0 <= i < |s| ==> p(s[i])
    ensures Filter(p, s) == s
    decreases |s|
  {
    if |s| > 0 {
      FilterKeepsAll(p, s[1..]);
      assert s == [s[0]] + s[1..];
    }
  }

  /** One step of `Filter`: the first element, if kept, then the rest. */
  lemma FilterUnfold<T>(p: T -> bool, s: seq<T>)
    requires |s| > 0
    ensures Filter(p, s) == (if p(s[0]) then [s[0]] else []) + Filter(p, s[1..])
  {
  }

  /** A second copy of `Filter`'s recursion, without its postconditions.
      It exists only for `KeepPosition`: every `Filter` term brings its
      quantified postconditions along, and a proof about positions that
      mentions five of them is too expensive. `FilterIsKeep` proves the two
      equal, so nothing else uses `Keep`. */
  function Keep<T>(p: T -> bool, s: seq<T>): seq<T>
    decreases |s|
  {
    if |s| == 0 then [] else (if p(s[0]) then [s[0]] else []) + Keep(p, s[1..])
  }

  lemma {:induction false} FilterIsKeep<T>(p: T -> bool, s: seq<T>)
    ensures Filter(p, s) == Keep(p, s)
    decreases |s|
  {
    if |s| > 0 {
      FilterIsKeep(p, s[1..]);
      FilterUnfold(p, s);
    }
  }

  /** Where the `k`-th kept element sits in `s`: a position holding it, with
      exactly the `k` kept elements before it in front of it. */
  function KeptPosition<T>(p: T -> bool, s: seq<T>, k: nat): (i: nat)
    requires k < |Filter(p, s)|
    ensures i < |s| && p(s[i]) && s[i] == Filter(p, s)[k]
    ensures Filter(p, s[..i]) == Filter(p, s)[..k]
  {
    FilterIsKeep(p, s);
    var i := KeepPosition(p, s, k);
    FilterIsKeep(p, s[..i]);
    i
  }

  function KeepPosition<T>(p: T -> bool, s: seq<T>, k: nat): (i: nat)
    requires k < |Keep(p, s)|
    ensures i < |s| && p(s[i]) && s[i] == Keep(p, s)[k]
    ensures Keep(p, s[..i]) == Keep(p, s)[..k]
    decreases |s|
  {
    if p(s[0]) && k == 0 then
      assert Keep(p, s[..0]) == [];
      0
    else
      var head: seq<T> := if p(s[0]) then [s[0]] else [];
      var i' := KeepPosition(p, s[1..], k - |head|);
      KeepPrefixShift(p, s, i');
      KeptShift(head, Keep(p, s[1..]), Keep(p, s[1..][..i']), Keep(p, s), Keep(p, s[..i' + 1]), k);
      i' + 1
  }

  /** The step of `KeepPosition`, on the kept sequences alone: the `k`-th
      kept element of `s` is the `(k - |head|)`-th of `s[1..]`, and the
      prefixes before them differ by `head`. */
  lemma KeptShift<T>(head: seq<T>, rest: seq<T>, shorter: seq<T>, all: seq<T>, longer: seq<T>, k: nat)
    requires all == head + rest && longer == head + shorter
    requires |head| <= k < |head| + |rest| && shorter == rest[..k - |head|]
    ensures all[k] == rest[k - |head|] && longer == all[..k]
  {
    PrefixOfConcat(head, rest, k);
  }

  lemma PrefixOfConcat<T>(h: seq<T>, r: seq<T>, k: nat)
    requires |h| <= k < |h| + |r|
    ensures (h + r)[..k] == h + r[..k - |h|] && (h + r)[k] == r[k - |h|]
  {
  }

  /** A prefix of `s` one longer than a prefix of `s[1..]` keeps the first
      element, if kept, followed by what the shorter prefix keeps. */
  lemma KeepPrefixShift<T>(p: T -> bool, s: seq<T>, i': nat)
    requires i' < |s|
    ensures Keep(p, s[..i' + 1]) == (if p(s[0]) then [s[0]] else []) + Keep(p, s[1..][..i'])
  {
    var t := s[..i' + 1];
    assert t[0] == s[0] && t[1..] == s[1..][..i'];
  }

  /** A kept element that stands before the `k`-th kept one in `s` is one of
      the first `k` kept elements. */
  lemma KeptBefore<T>(p: T -> bool, s: seq<T>, k: nat, j: nat)
    requires k < |Filter(p, s)|
    requires j < KeptPosition(p, s, k) && p(s[j])
    ensures exists m :: 0 <= m < k && Filter(p, s)[m] == s[j]
  {
    var i := KeptPosition(p, s, k);
    assert s[..i][j] == s[j];
  }
}
