/** `backup_folders_with_long_names`: copy every long-named directory of the
    profile root into the backup directory under a timestamped name. */
module Backup {
  import opened Results
  import opened Seqs
  import opened Tree
  import opened Locator

  /** `f'{folder}_{timestamp}'`: the folder name and the timestamp can both
      be read back, and the backup of a long-named folder is long-named too,
      so it is a candidate when a restore looks for the most recent backup. */
  function BackupName(name: string, ts: string): (r: string)
    ensures |r| == |name| + 1 + |ts| && r[..|name|] == name && r[|name|] == '_' && r[|name| + 1..] == ts
    ensures IsLongName(name) ==> IsLongName(r)
  {
    name + "_" + ts
  }

  /** The entry a backup of `c` creates: the same subtree under the
      timestamped name. */
  function Renamed(c: Named, ts: string): Named
  {
    Named(BackupName(c.name, ts), c.entry)
  }

  /** Within one run (one timestamp) different folders get different backup
      names. */
  lemma BackupNameInjective(a: string, b: string, ts: string)
    requires BackupName(a, ts) == BackupName(b, ts)
    ensures a == b
  {
    assert |a| == |b|;
    assert a == BackupName(a, ts)[..|a|];
    assert b == BackupName(b, ts)[..|b|];
  }

  /** The loop over `os.listdir(source_dir)`: each profile directory is copied
      with `copytree`, in listing order, until one copy raises. Entries already
      in the backup directory stay as they are, and a tree of well-formed
      directories stays well formed. */
  function BackupFolders(source: Listing, backup: Listing, ts: string): (r: Run)
    ensures |r.dir| >= |backup| && r.dir[..|backup|] == backup
    ensures DistinctNames(backup) ==> DistinctNames(r.dir)
    ensures WellFormed(Dir(source)) && WellFormed(Dir(backup)) ==> WellFormed(Dir(r.dir))
    decreases |source|
  {
    if |source| == 0 then Completed(backup)
    else
      assert WellFormed(Dir(source)) ==> WellFormed(Dir(source[1..]));
      if IsProfileDir(source[0]) then
        match CopyTree(backup, BackupName(source[0].name, ts), source[0].entry)
        case Failure(e) => Raised(backup, e)
        case Success(backup') =>
          var r := BackupFolders(source[1..], backup', ts);
          assert r.dir[..|backup|] == r.dir[..|backup'|][..|backup|];
          r
      else
        BackupFolders(source[1..], backup, ts)
  }

  /** A completed backup adds exactly one entry per profile directory, in
      listing order: the directory's subtree under its timestamped name. */
  lemma {:induction false} BackupAddsRenamedCopies(source: Listing, backup: Listing, ts: string)
    requires BackupFolders(source, backup, ts).Completed?
    ensures |BackupFolders(source, backup, ts).dir| == |backup| + |Filter(IsProfileDir, source)|
    ensures forall k :: 0 <= k < |Filter(IsProfileDir, source)| ==>
              BackupFolders(source, backup, ts).dir[|backup| + k] == Renamed(Filter(IsProfileDir, source)[k], ts)
    decreases |source|, 1
  {
    if |source| > 0 {
      if IsProfileDir(source[0]) {
        BackupAddsRenamedCopiesFirst(source, backup, ts);
      } else {
        assert BackupFolders(source, backup, ts) == BackupFolders(source[1..], backup, ts);
        assert Filter(IsProfileDir, source) == Filter(IsProfileDir, source[1..]);
        BackupAddsRenamedCopies(source[1..], backup, ts);
      }
    }
  }

  /** `BackupAddsRenamedCopies` when the first child is a profile directory. */
  lemma {:induction false} BackupAddsRenamedCopiesFirst(source: Listing, backup: Listing, ts: string)
    requires |source| > 0 && IsProfileDir(source[0])
    requires BackupFolders(source, backup, ts).Completed?
    ensures |BackupFolders(source, backup, ts).dir| == |backup| + |Filter(IsProfileDir, source)|
    ensures forall k :: 0 <= k < |Filter(IsProfileDir, source)| ==>
              BackupFolders(source, backup, ts).dir[|backup| + k] == Renamed(Filter(IsProfileDir, source)[k], ts)
    decreases |source|, 0
  {
    var r := BackupFolders(source, backup, ts);
    var sel' := Filter(IsProfileDir, source[1..]);
    var backup' := backup + [Renamed(source[0], ts)];
    BackupFoldersFirstCopied(source, backup, ts);
    BackupAddsRenamedCopies(source[1..], backup', ts);
    assert Filter(IsProfileDir, source) == [source[0]] + sel';
    RenamedCopiesShift(r.dir, backup, source[0], backup', sel', ts);
  }

  /** A completed backup whose first child is a profile directory copied it
      first and carried on with the rest. */
  lemma BackupFoldersFirstCopied(source: Listing, backup: Listing, ts: string)
    requires |source| > 0 && IsProfileDir(source[0])
    requires BackupFolders(source, backup, ts).Completed?
    ensures BackupFolders(source, backup, ts)
            == BackupFolders(source[1..], backup + [Renamed(source[0], ts)], ts)
  {
    var backup' := backup + [Renamed(source[0], ts)];
    assert CopyTree(backup, BackupName(source[0].name, ts), source[0].entry) == Success(backup');
  }

  /** Sequence bookkeeping for one more copy in front of the others. */
  lemma RenamedCopiesShift(d: Listing, backup: Listing, first: Named, backup': Listing, sel: Listing, ts: string)
    requires backup' == backup + [Renamed(first, ts)]
    requires |d| == |backup'| + |sel| && d[..|backup'|] == backup'
    requires forall k :: 0 <= k < |sel| ==> d[|backup'| + k] == Renamed(sel[k], ts)
    ensures |d| == |backup| + |[first] + sel|
    ensures forall k :: 0 <= k < |[first] + sel| ==> d[|backup| + k] == Renamed(([first] + sel)[k], ts)
  {
    forall k | 0 <= k < |[first] + sel|
      ensures d[|backup| + k] == Renamed(([first] + sel)[k], ts)
    {
      if k == 0 {
        assert d[|backup|] == d[..|backup'|][|backup|];
      } else {
        assert d[|backup| + k] == d[|backup'| + (k - 1)];
      }
    }
  }

  /** `e` is the backup entry of one of the profile directories of `source`. */
  ghost predicate IsBackupOf(e: Named, source: Listing, ts: string)
  {
    exists c :: c in source && IsProfileDir(c) && e == Renamed(c, ts)
  }

  /** Whether or not the run completes, everything it adds is the
      timestamped copy of a profile directory: files and directories with a
      name of 20 characters or fewer are never copied, even by a run that
      raises part-way. */
  lemma {:induction false} BackupAddsOnlyProfileDirs(source: Listing, backup: Listing, ts: string)
    ensures forall k :: |backup| <= k < |BackupFolders(source, backup, ts).dir| ==>
              IsBackupOf(BackupFolders(source, backup, ts).dir[k], source, ts)
    decreases |source|
  {
    var r := BackupFolders(source, backup, ts);
    if |source| == 0 {
      assert r.dir == backup;
    } else {
      var name := BackupName(source[0].name, ts);
      if IsProfileDir(source[0]) && !HasName(backup, name) {
        var backup' := backup + [Renamed(source[0], ts)];
        assert CopyTree(backup, name, source[0].entry) == Success(backup');
        assert r == BackupFolders(source[1..], backup', ts);
        BackupAddsOnlyProfileDirs(source[1..], backup', ts);
        CopiesFromRest(source, r.dir, |backup'|, ts);
        assert r.dir[|backup|] == r.dir[..|backup'|][|backup|] == Renamed(source[0], ts);
        assert source[0] in source;
      } else if !IsProfileDir(source[0]) {
        assert r == BackupFolders(source[1..], backup, ts);
        BackupAddsOnlyProfileDirs(source[1..], backup, ts);
        CopiesFromRest(source, r.dir, |backup|, ts);
      } else {
        assert CopyTree(backup, name, source[0].entry).Failure?;
        assert r.dir == backup;
      }
    }
  }

  /** Copies of profile directories of `source[1..]` are copies of profile
      directories of `source`. */
  lemma CopiesFromRest(source: Listing, d: Listing, from: nat, ts: string)
    requires |source| > 0
    requires forall k :: from <= k < |d| ==> IsBackupOf(d[k], source[1..], ts)
    ensures forall k :: from <= k < |d| ==> IsBackupOf(d[k], source, ts)
  {
    forall k | from <= k < |d|
      ensures IsBackupOf(d[k], source, ts)
    {
      assert IsBackupOf(d[k], source[1..], ts);
      var c :| c in source[1..] && IsProfileDir(c) && d[k] == Renamed(c, ts);
      assert c in source;
    }
  }

  /** The backup stops exactly when some profile directory's timestamped name
      is already taken in the backup directory: `copytree` does not merge. */
  lemma {:induction false} BackupCompletesIff(source: Listing, backup: Listing, ts: string)
    requires DistinctNames(source)
    ensures BackupFolders(source, backup, ts).Completed? <==>
      forall i :: 0 <= i < |source| && IsProfileDir(source[i]) ==> !HasName(backup, BackupName(source[i].name, ts))
    ensures BackupFolders(source, backup, ts).Raised? ==>
      exists i :: 0 <= i < |source| && IsProfileDir(source[i]) && HasName(backup, BackupName(source[i].name, ts))
                  && BackupFolders(source, backup, ts).error == FileExists(BackupName(source[i].name, ts))
    decreases |source|
  {
    if |source| > 0 {
      var r := BackupFolders(source, backup, ts);
      assert forall i :: 1 <= i < |source| ==> source[i] == source[1..][i - 1];
      if IsProfileDir(source[0]) {
        var name := BackupName(source[0].name, ts);
        if !HasName(backup, name) {
          var backup' := backup + [Renamed(source[0], ts)];
          assert CopyTree(backup, name, source[0].entry) == Success(backup');
          assert r == BackupFolders(source[1..], backup', ts);
          BackupCompletesIff(source[1..], backup', ts);
          forall i | 1 <= i < |source| && IsProfileDir(source[i])
            ensures HasName(backup', BackupName(source[i].name, ts)) <==> HasName(backup, BackupName(source[i].name, ts))
          {
            if BackupName(source[i].name, ts) == name {
              BackupNameInjective(source[i].name, source[0].name, ts);
            }
          }
        }
      } else {
        BackupCompletesIff(source[1..], backup, ts);
      }
    }
  }

  /** Only profile directories are backed up: a completed backup holds the
      copy of every directory with a long name, and no new entry bears the
      timestamped name of a file or of a directory with a name of 20
      characters or fewer. */
  lemma BackedUpIffProfileDir(source: Listing, backup: Listing, ts: string)
    requires DistinctNames(source)
    requires BackupFolders(source, backup, ts).Completed?
    ensures var added := BackupFolders(source, backup, ts).dir[|backup|..];
            forall i :: 0 <= i < |source| ==>
              (HasName(added, BackupName(source[i].name, ts)) <==> IsProfileDir(source[i]))
              && (IsProfileDir(source[i]) ==> Renamed(source[i], ts) in added)
  {
    var r := BackupFolders(source, backup, ts);
    var added := r.dir[|backup|..];
    var sel := Filter(IsProfileDir, source);
    BackupAddsRenamedCopies(source, backup, ts);
    assert forall k :: 0 <= k < |sel| ==> added[k] == Renamed(sel[k], ts);
    forall i | 0 <= i < |source|
      ensures HasName(added, BackupName(source[i].name, ts)) <==> IsProfileDir(source[i])
      ensures IsProfileDir(source[i]) ==> Renamed(source[i], ts) in added
    {
      if IsProfileDir(source[i]) {
        assert source[i] in sel;
        var k :| 0 <= k < |sel| && sel[k] == source[i];
        assert added[k] == Renamed(source[i], ts);
      }
      if HasName(added, BackupName(source[i].name, ts)) {
        var k :| 0 <= k < |added| && added[k].name == BackupName(source[i].name, ts);
        BackupNameInjective(sel[k].name, source[i].name, ts);
        assert sel[k] in source;
        var j :| 0 <= j < |source| && source[j] == sel[k];
        assert j == i;
      }
    }
  }
}
