/** `get_most_recent_backup`: `max` over the long-named backup directories,
    keyed on `name.split('_')[1]`. */
module Latest {
  import opened Results
  import opened Seqs
  import opened Text
  import opened Tree
  import opened Locator
  import opened Backup

  const Underscore := '_'

  /** `name.split('_')[1]` exists. */
  predicate HasKey(name: string)
  {
    Underscore in name
  }

  /** `name.split('_')[1]`: the text between the first and the second
      underscore (or the end of the name). */
  function KeyOf(name: string): (key: string)
    requires HasKey(name)
    ensures IsSecondField(name, Underscore, key)
  {
    SplitSecondField(name, Underscore);
    Split(name, Underscore)[1]
  }

  /** The first `n` names all have a key. */
  predicate KeyedUpTo(names: seq<string>, n: nat)
    requires n <= |names|
  {
    forall j :: 0 <= j < n ==> HasKey(names[j])
  }

  /** Among the first `n` names, `k` has the greatest key and every name
      before it has a strictly smaller one: the element `max` keeps, since it
      only replaces its candidate by a strictly greater one. */
  predicate IsFirstMaxUpTo(names: seq<string>, n: nat, k: nat)
    requires k < n <= |names| && KeyedUpTo(names, n)
  {
    && (forall j :: 0 <= j < k ==> Less(KeyOf(names[j]), KeyOf(names[k])))
    && (forall j :: k < j < n ==> !Less(KeyOf(names[k]), KeyOf(names[j])))
  }

  /** A name that is taken over by a later, strictly greater key. */
  lemma NewMaximum(names: seq<string>, i: nat, best: nat)
    requires best < i < |names| && KeyedUpTo(names, i + 1)
    requires IsFirstMaxUpTo(names, i, best)
    requires Less(KeyOf(names[best]), KeyOf(names[i]))
    ensures IsFirstMaxUpTo(names, i + 1, i)
  {
    var kb := KeyOf(names[best]);
    var ki := KeyOf(names[i]);
    forall j | 0 <= j < i
      ensures Less(KeyOf(names[j]), ki)
    {
      var kj := KeyOf(names[j]);
      if j < best {
        LessTransitive(kj, kb, ki);
      } else if best < j {
        LessTotal(kj, kb);
        if kj != kb {
          LessTransitive(kj, kb, ki);
        }
      }
    }
  }

  /** CPython's `max(names, key=KeyOf)` from position `i` on, with `best`
      the element kept so far: every key is evaluated in order, so the first
      name without an underscore raises. */
  function MaxFrom(names: seq<string>, i: nat, best: nat): (r: Result<nat, Error>)
    requires best < i <= |names| && KeyedUpTo(names, i)
    requires IsFirstMaxUpTo(names, i, best)
    ensures r.Success? <==> KeyedUpTo(names, |names|)
    ensures r.Success? ==> r.value < |names| && IsFirstMaxUpTo(names, |names|, r.value)
    ensures r.Failure? ==>
      exists k :: i <= k < |names| && !HasKey(names[k]) && KeyedUpTo(names, k) && r.error == NoSecondSegment(names[k])
    decreases |names| - i
  {
    if i == |names| then Success(best)
    else if !HasKey(names[i]) then Failure(NoSecondSegment(names[i]))
    else if Less(KeyOf(names[best]), KeyOf(names[i])) then
      NewMaximum(names, i, best);
      MaxFrom(names, i + 1, i)
    else
      MaxFrom(names, i + 1, best)
  }

  /** `max(names, key=lambda folder: folder.split('_')[1])`: an empty
      argument raises, as does any name without an underscore (the first such
      name in order); otherwise the result is the first name with the
      greatest key. */
  function MaxByKey(names: seq<string>): (r: Result<nat, Error>)
    ensures r.Success? <==> |names| > 0 && KeyedUpTo(names, |names|)
    ensures r.Success? ==> r.value < |names| && IsFirstMaxUpTo(names, |names|, r.value)
    ensures |names| == 0 ==> r == Failure(EmptyMax)
    ensures |names| > 0 && r.Failure? ==>
      exists k :: 0 <= k < |names| && !HasKey(names[k]) && KeyedUpTo(names, k) && r.error == NoSecondSegment(names[k])
  {
    if |names| == 0 then Failure(EmptyMax)
    else if !HasKey(names[0]) then Failure(NoSecondSegment(names[0]))
    else MaxFrom(names, 1, 0)
  }

  /** The backup candidates of a listing, by name, in listing order: one
      name per long-named directory. */
  function CandidateNames(root: Listing): (names: seq<string>)
    ensures |names| == |Filter(IsProfileDir, root)|
    ensures forall k :: 0 <= k < |names| ==> names[k] == Filter(IsProfileDir, root)[k].name
    ensures forall k :: 0 <= k < |names| ==> exists c :: c in root && IsProfileDir(c) && c.name == names[k]
    ensures forall c :: c in root && IsProfileDir(c) ==> c.name in names
  {
    var cands := Filter(IsProfileDir, root);
    var names := seq(|cands|, k requires 0 <= k < |cands| => cands[k].name);
    assert forall k :: 0 <= k < |names| ==> cands[k] in root && IsProfileDir(cands[k]) && cands[k].name == names[k];
    assert forall c :: c in root && IsProfileDir(c) ==> c in cands;
    names
  }

  /** The element `max` keeps is a maximum: no key is greater than its key. */
  lemma FirstMaxIsMaximum(names: seq<string>, k: nat)
    requires k < |names| && KeyedUpTo(names, |names|)
    requires IsFirstMaxUpTo(names, |names|, k)
    ensures forall j :: 0 <= j < |names| ==> !Less(KeyOf(names[k]), KeyOf(names[j]))
  {
    forall j | 0 <= j < |names|
      ensures !Less(KeyOf(names[k]), KeyOf(names[j]))
    {
      if j < k {
        LessAsymmetric(KeyOf(names[j]), KeyOf(names[k]));
      } else if j == k {
        LessIrreflexive(KeyOf(names[k]));
      }
    }
  }

  /** A long-named directory listed before the `k`-th candidate is one of the
      first `k` candidates. */
  lemma EarlierCandidate(root: Listing, k: nat, j: nat) returns (m: nat)
    requires k < |CandidateNames(root)|
    requires j < KeptPosition(IsProfileDir, root, k) && IsProfileDir(root[j])
    ensures m < k && CandidateNames(root)[m] == root[j].name
  {
    KeptBefore(IsProfileDir, root, k, j);
    m :| 0 <= m < k && Filter(IsProfileDir, root)[m] == root[j];
  }

  /** The candidate `max` keeps, found in the listing: a long-named directory
      such that every long-named directory listed before it has a strictly
      smaller key. */
  lemma FirstMaxInListing(root: Listing, k: nat)
    requires k < |CandidateNames(root)| && KeyedUpTo(CandidateNames(root), |CandidateNames(root)|)
    requires IsFirstMaxUpTo(CandidateNames(root), |CandidateNames(root)|, k)
    ensures
      exists i :: 0 <= i < |root| && IsProfileDir(root[i]) && root[i].name == CandidateNames(root)[k]
        && HasKey(root[i].name)
        && forall j :: 0 <= j < i && IsProfileDir(root[j]) ==>
             HasKey(root[j].name) && Less(KeyOf(root[j].name), KeyOf(root[i].name))
  {
    var i := FirstMaxPosition(root, k);
  }

  lemma FirstMaxPosition(root: Listing, k: nat) returns (i: nat)
    requires k < |CandidateNames(root)| && KeyedUpTo(CandidateNames(root), |CandidateNames(root)|)
    requires IsFirstMaxUpTo(CandidateNames(root), |CandidateNames(root)|, k)
    ensures i < |root| && IsProfileDir(root[i]) && root[i].name == CandidateNames(root)[k] && HasKey(root[i].name)
    ensures forall j :: 0 <= j < i && IsProfileDir(root[j]) ==>
              HasKey(root[j].name) && Less(KeyOf(root[j].name), KeyOf(root[i].name))
  {
    var names := CandidateNames(root);
    i := KeptPosition(IsProfileDir, root, k);
    assert root[i].name == names[k];
    forall j | 0 <= j < i && IsProfileDir(root[j])
      ensures HasKey(root[j].name) && Less(KeyOf(root[j].name), KeyOf(root[i].name))
    {
      var m := EarlierCandidate(root, k, j);
      assert Less(KeyOf(names[m]), KeyOf(names[k]));
    }
  }

  /** The candidate `max` raises on, found in the listing: a long-named
      directory without an underscore such that every long-named directory
      listed before it has one. */
  lemma FirstKeylessInListing(root: Listing)
    requires |CandidateNames(root)| > 0 && MaxByKey(CandidateNames(root)).Failure?
    ensures
      exists i :: 0 <= i < |root| && IsProfileDir(root[i]) && !HasKey(root[i].name)
        && MaxByKey(CandidateNames(root)).error == NoSecondSegment(root[i].name)
        && forall j :: 0 <= j < i && IsProfileDir(root[j]) ==> HasKey(root[j].name)
  {
    var names := CandidateNames(root);
    var k :| 0 <= k < |names| && !HasKey(names[k]) && KeyedUpTo(names, k)
             && MaxByKey(names).error == NoSecondSegment(names[k]);
    var i := FirstKeylessPosition(root, k);
  }

  lemma FirstKeylessPosition(root: Listing, k: nat) returns (i: nat)
    requires k < |CandidateNames(root)| && KeyedUpTo(CandidateNames(root), k)
    ensures i < |root| && IsProfileDir(root[i]) && root[i].name == CandidateNames(root)[k]
    ensures forall j :: 0 <= j < i && IsProfileDir(root[j]) ==> HasKey(root[j].name)
  {
    var names := CandidateNames(root);
    i := KeptPosition(IsProfileDir, root, k);
    assert root[i].name == names[k];
    forall j | 0 <= j < i && IsProfileDir(root[j])
      ensures HasKey(root[j].name)
    {
      var m := EarlierCandidate(root, k, j);
      assert HasKey(names[m]);
    }
  }

  /** `get_most_recent_backup(backup_dir)`: the result is always a long-named
      directory of the listing whose key is not smaller than any other
      candidate's; it raises when there is no candidate or some candidate
      has no underscore. */
  function GetMostRecentBackup(root: Listing): (r: Result<string, Error>)
    ensures r.Success? ==> exists c :: c in root && IsProfileDir(c) && c.name == r.value
    ensures r.Success? ==> (HasKey(r.value) &&
      forall c :: c in root && IsProfileDir(c) ==> HasKey(c.name) && !Less(KeyOf(r.value), KeyOf(c.name)))
    ensures r == Failure(EmptyMax) <==> forall c :: c in root ==> !IsProfileDir(c)
    ensures r.Failure? <==>
      (forall c :: c in root ==> !IsProfileDir(c)) || (exists c :: c in root && IsProfileDir(c) && !HasKey(c.name))
    ensures r.Success? ==>
      exists i :: 0 <= i < |root| && IsProfileDir(root[i]) && root[i].name == r.value
        && forall j :: 0 <= j < i && IsProfileDir(root[j]) ==>
             HasKey(root[j].name) && Less(KeyOf(root[j].name), KeyOf(r.value))
    ensures r.Failure? && r != Failure(EmptyMax) ==>
      exists i :: 0 <= i < |root| && IsProfileDir(root[i]) && !HasKey(root[i].name)
        && r.error == NoSecondSegment(root[i].name)
        && forall j :: 0 <= j < i && IsProfileDir(root[j]) ==> HasKey(root[j].name)
  {
    var names := CandidateNames(root);
    match MaxByKey(names)
    case Failure(e) =>
      FailedSelection(root, e);
      if |names| > 0 then
        FirstKeylessInListing(root);
        Failure(e)
      else
        Failure(e)
    case Success(k) =>
      SelectedCandidate(root, k);
      FirstMaxInListing(root, k);
      Success(names[k])
  }

  /** What a successful `max` over the candidates says about the listing:
      the kept candidate is a long-named directory whose key no candidate
      exceeds, and every candidate has a key. */
  lemma SelectedCandidate(root: Listing, k: nat)
    requires MaxByKey(CandidateNames(root)) == Success(k)
    ensures k < |CandidateNames(root)| && HasKey(CandidateNames(root)[k])
    ensures exists c :: c in root && IsProfileDir(c) && c.name == CandidateNames(root)[k]
    ensures forall c :: c in root && IsProfileDir(c) ==>
              HasKey(c.name) && !Less(KeyOf(CandidateNames(root)[k]), KeyOf(c.name))
  {
    var names := CandidateNames(root);
    FirstMaxIsMaximum(names, k);
    forall c | c in root && IsProfileDir(c)
      ensures HasKey(c.name) && !Less(KeyOf(names[k]), KeyOf(c.name))
    {
      var j :| 0 <= j < |names| && names[j] == c.name;
    }
  }

  /** What a failing `max` over the candidates says about the listing: it
      found no candidate (and raised `EmptyMax`) or a candidate without an
      underscore. */
  lemma FailedSelection(root: Listing, e: Error)
    requires MaxByKey(CandidateNames(root)) == Failure(e)
    ensures e == EmptyMax <==> forall c :: c in root ==> !IsProfileDir(c)
    ensures (forall c :: c in root ==> !IsProfileDir(c)) || (exists c :: c in root && IsProfileDir(c) && !HasKey(c.name))
  {
    var names := CandidateNames(root);
    assert |names| == 0 <==> forall c :: c in root ==> !IsProfileDir(c);
    if |names| > 0 {
      var k :| 0 <= k < |names| && !HasKey(names[k]) && e == NoSecondSegment(names[k]);
    }
  }

  // ---------------------------------------------------------------------
  // What the key is for the names the backup creates
  // ---------------------------------------------------------------------

  /** `datetime.now().strftime('%Y%m%d_%H%M%S')`: eight date digits, an
      underscore, six time digits. */
  predicate ValidTimestamp(ts: string)
  {
    |ts| == 15 && AllDigits(ts[..8]) && ts[8] == Underscore && AllDigits(ts[9..])
  }

  lemma DigitsHaveNoUnderscore(s: string)
    requires AllDigits(s)
    ensures Underscore !in s
  {
  }

  /** For a backup of a profile whose name has no underscore, the key is the
      date part of the timestamp only: the time of day plays no part. */
  lemma KeyOfBackupName(f: string, ts: string)
    requires Underscore !in f && ValidTimestamp(ts)
    ensures HasKey(BackupName(f, ts)) && KeyOf(BackupName(f, ts)) == ts[..8]
  {
    var date, time := ts[..8], ts[9..];
    DigitsHaveNoUnderscore(date);
    DigitsHaveNoUnderscore(time);
    assert ts == date + [Underscore] + time;
    assert BackupName(f, ts) == f + [Underscore] + ts;
    SplitConcat(f, ts, Underscore);
    SplitConcat(date, time, Underscore);
    SplitWithoutSeparator(f, Underscore);
    SplitWithoutSeparator(date, Underscore);
    SplitWithoutSeparator(time, Underscore);
    assert Split(BackupName(f, ts), Underscore) == [f, date, time];
  }

  /** For a backup of a profile whose name contains an underscore, the key is
      taken from the profile name and does not depend on the timestamp. */
  lemma KeyOfBackupNameFromProfile(f: string, ts: string)
    requires HasKey(f)
    ensures HasKey(BackupName(f, ts)) && KeyOf(BackupName(f, ts)) == KeyOf(f)
  {
    assert BackupName(f, ts) == f + [Underscore] + ts;
    SplitConcat(f, ts, Underscore);
  }

  /** A name the backup creates from a profile name without underscores:
      `<profile>_<YYYYMMDD>_<HHMMSS>`. */
  predicate IsStampedName(n: string)
  {
    |n| >= 16 && Underscore !in n[..|n| - 16] && n[|n| - 16] == Underscore && ValidTimestamp(n[|n| - 15..])
  }

  /** The `YYYYMMDD_HHMMSS` part of a stamped name. */
  function TimestampOf(n: string): (ts: string)
    requires IsStampedName(n)
    ensures ValidTimestamp(ts)
  {
    n[|n| - 15..]
  }

  /** The `YYYYMMDD` part of a stamped name. */
  function DateOf(n: string): (d: string)
    requires IsStampedName(n)
    ensures |d| == 8 && AllDigits(d)
  {
    TimestampOf(n)[..8]
  }

  lemma StampedKeyIsDate(n: string)
    requires IsStampedName(n)
    ensures HasKey(n) && KeyOf(n) == DateOf(n)
  {
    var f, ts := n[..|n| - 16], n[|n| - 15..];
    assert n == BackupName(f, ts);
    KeyOfBackupName(f, ts);
  }

  /** Between stamped names, a key that is not smaller is a date that is not
      earlier. */
  lemma NotLessKeyIsLaterDate(n: string, m: string)
    requires IsStampedName(n) && IsStampedName(m)
    requires !Less(KeyOf(n), KeyOf(m))
    ensures Value(DateOf(m)) <= Value(DateOf(n))
  {
    StampedKeyIsDate(n);
    StampedKeyIsDate(m);
    LessIsNumericOrder(DateOf(n), DateOf(m));
  }

  /** When every candidate is a stamped name, the selection succeeds and picks
      a backup of the latest date: comparing the fixed-width date strings is
      comparing the dates as numbers. */
  lemma LatestHasLatestDate(root: Listing)
    requires exists c :: c in root && IsProfileDir(c)
    requires forall c :: c in root && IsProfileDir(c) ==> IsStampedName(c.name)
    ensures GetMostRecentBackup(root).Success?
    ensures var n := GetMostRecentBackup(root).value;
            IsStampedName(n) && forall c :: c in root && IsProfileDir(c) ==> Value(DateOf(c.name)) <= Value(DateOf(n))
  {
    forall c | c in root && IsProfileDir(c)
      ensures HasKey(c.name)
    {
      StampedKeyIsDate(c.name);
    }
    var r := GetMostRecentBackup(root);
    assert r.Success?;
    var n := r.value;
    var cn :| cn in root && IsProfileDir(cn) && cn.name == n;
    assert IsStampedName(n);
    forall c | c in root && IsProfileDir(c)
      ensures Value(DateOf(c.name)) <= Value(DateOf(n))
    {
      NotLessKeyIsLaterDate(n, c.name);
    }
  }

  /** Ties go to the entry listed first: of two long-named directories with
      equal keys, the one listed later is never the one selected. */
  lemma TiesGoToFirstListed(root: Listing, a: nat, b: nat)
    requires DistinctNames(root)
    requires a < b < |root| && IsProfileDir(root[a]) && IsProfileDir(root[b])
    requires HasKey(root[a].name) && HasKey(root[b].name) && KeyOf(root[a].name) == KeyOf(root[b].name)
    ensures GetMostRecentBackup(root).Success? ==> GetMostRecentBackup(root).value != root[b].name
  {
    var names := CandidateNames(root);
    var r := GetMostRecentBackup(root);
    if r.Success? {
      var k := MaxByKey(names).value;
      assert r.value == names[k];
      var i := FirstMaxPosition(root, k);
      LessIrreflexive(KeyOf(root[b].name));
      assert a < i ==> Less(KeyOf(root[a].name), KeyOf(root[i].name));
      assert root[i].name == root[b].name ==> i == b;
    }
  }

  /** Two candidates with equal keys in a backup directory holding only
      those two: `max` keeps the one listed first. */
  lemma EqualKeysKeepFirstListed(n1: string, n2: string, e1: Listing, e2: Listing)
    requires IsLongName(n1) && IsLongName(n2)
    requires HasKey(n1) && HasKey(n2) && KeyOf(n1) == KeyOf(n2)
    ensures GetMostRecentBackup([Named(n1, Dir(e1)), Named(n2, Dir(e2))]) == Success(n1)
  {
    var root := [Named(n1, Dir(e1)), Named(n2, Dir(e2))];
    assert Filter(IsProfileDir, root[1..]) == [root[1]];
    assert Filter(IsProfileDir, root) == root;
    var names := CandidateNames(root);
    assert names == [n1, n2];
    LessIrreflexive(KeyOf(n1));
    assert MaxFrom(names, 2, 0) == Success(0);
    assert MaxByKey(names) == Success(0);
  }

  /** Two backups of one profile taken on the same day: the one listed first
      is restored even when the other one is later, because the key stops at
      the date. */
  lemma SameDayKeepsFirstListed(f: string, ts1: string, ts2: string, e1: Listing, e2: Listing)
    requires Underscore !in f && |f| >= 5
    requires ValidTimestamp(ts1) && ValidTimestamp(ts2) && ts1[..8] == ts2[..8]
    ensures GetMostRecentBackup([Named(BackupName(f, ts1), Dir(e1)), Named(BackupName(f, ts2), Dir(e2))])
            == Success(BackupName(f, ts1))
  {
    KeyOfBackupName(f, ts1);
    KeyOfBackupName(f, ts2);
    EqualKeysKeepFirstListed(BackupName(f, ts1), BackupName(f, ts2), e1, e2);
  }

  /** Two backups of a profile whose name contains an underscore: the one
      listed first is restored whatever the timestamps, because the key comes
      from the profile name. */
  lemma UnderscoreProfileKeepsFirstListed(f: string, ts1: string, ts2: string, e1: Listing, e2: Listing)
    requires HasKey(f) && |f| >= 20
    ensures GetMostRecentBackup([Named(BackupName(f, ts1), Dir(e1)), Named(BackupName(f, ts2), Dir(e2))])
            == Success(BackupName(f, ts1))
  {
    KeyOfBackupNameFromProfile(f, ts1);
    KeyOfBackupNameFromProfile(f, ts2);
    EqualKeysKeepFirstListed(BackupName(f, ts1), BackupName(f, ts2), e1, e2);
  }
}
