/** The restore side: clearing the placeholder layers of the freshly created
    profile, copying the layers of the most recent backup into it, and the
    locate/clear/copy sequence of `restore_evga_profiles`. */
module Restore {
  import opened Results
  import opened Seqs
  import opened Text
  import opened Tree
  import opened Locator
  import opened Latest

  // ---------------------------------------------------------------------
  // delete_new_profile_subdir
  // ---------------------------------------------------------------------

  predicate Survives(c: Named)
  {
    !IsPlaceholder(c)
  }

  /** `delete_new_profile_subdir`: `rmtree` every child directory whose name
      is all digits. Exactly those children go; files (digit-named or not) and
      other directories stay, unchanged and in their order. */
  function DeleteNewProfileSubdirs(children: Listing): (r: Listing)
    ensures forall i :: 0 <= i < |r| ==> r[i] in children && !IsPlaceholder(r[i])
    ensures forall i :: 0 <= i < |children| && !IsPlaceholder(children[i]) ==> children[i] in r
    ensures Subsequence(r, children)
    ensures DistinctNames(children) ==> DistinctNames(r)
    ensures WellFormed(Dir(children)) ==> WellFormed(Dir(r))
  {
    FilterWellFormed(Survives, children);
    Filter(Survives, children)
  }

  /** Clearing twice is clearing once. */
  lemma DeleteIdempotent(children: Listing)
    ensures DeleteNewProfileSubdirs(DeleteNewProfileSubdirs(children)) == DeleteNewProfileSubdirs(children)
  {
    var once := DeleteNewProfileSubdirs(children);
    FilterKeepsAll(Survives, once);
  }

  // ---------------------------------------------------------------------
  // copy_backed_up_folders
  // ---------------------------------------------------------------------

  /** The loop of `copy_backed_up_folders` over the listing `src` of the
      selected backup: each digit-named directory is copied into `target` with
      `copytree`, in listing order, until one copy raises. The entries of
      `target` stay in place and the result stays well formed. */
  function CopyDigitDirs(src: Listing, target: Listing): (r: Run)
    ensures |r.dir| >= |target| && r.dir[..|target|] == target
    ensures DistinctNames(target) ==> DistinctNames(r.dir)
    ensures WellFormed(Dir(src)) && WellFormed(Dir(target)) ==> WellFormed(Dir(r.dir))
    decreases |src|
  {
    if |src| == 0 then Completed(target)
    else
      assert WellFormed(Dir(src)) ==> WellFormed(Dir(src[1..]));
      if IsPlaceholder(src[0]) then
        match CopyTree(target, src[0].name, src[0].entry)
        case Failure(e) => Raised(target, e)
        case Success(target') =>
          var r := CopyDigitDirs(src[1..], target');
          assert r.dir[..|target|] == r.dir[..|target'|][..|target|];
          r
      else
        CopyDigitDirs(src[1..], target)
  }

  /** Everything the copy adds is a digit-named directory of the backup, with
      its subtree unchanged: non-numeric backup entries are never copied. */
  lemma {:induction false} CopyAddsOnlyLayers(src: Listing, target: Listing)
    ensures forall k :: |target| <= k < |CopyDigitDirs(src, target).dir| ==>
              CopyDigitDirs(src, target).dir[k] in src && IsPlaceholder(CopyDigitDirs(src, target).dir[k])
    decreases |src|
  {
    if |src| > 0 {
      var r := CopyDigitDirs(src, target);
      if IsPlaceholder(src[0]) && !HasName(target, src[0].name) {
        var target' := target + [src[0]];
        assert CopyTree(target, src[0].name, src[0].entry) == Success(target');
        assert r == CopyDigitDirs(src[1..], target');
        CopyAddsOnlyLayers(src[1..], target');
        forall k | |target| <= k < |r.dir|
          ensures r.dir[k] in src && IsPlaceholder(r.dir[k])
        {
          if k == |target| {
            assert r.dir[k] == r.dir[..|target'|][k];
          } else {
            assert r.dir[k] in src[1..];
          }
        }
      } else if !IsPlaceholder(src[0]) {
        assert r == CopyDigitDirs(src[1..], target);
        CopyAddsOnlyLayers(src[1..], target);
        forall k | |target| <= k < |r.dir|
          ensures r.dir[k] in src && IsPlaceholder(r.dir[k])
        {
          assert r.dir[k] in src[1..];
        }
      }
    }
  }

  /** The copy completes exactly when no digit-named directory of the backup
      shares its name with an entry of the target; then every one of them is
      in the result. Otherwise it raises on such a clash. */
  lemma {:induction false} CopyCompletesIff(src: Listing, target: Listing)
    requires DistinctNames(src)
    ensures var r := CopyDigitDirs(src, target);
            && (r.Completed? <==> forall i :: 0 <= i < |src| && IsPlaceholder(src[i]) ==> !HasName(target, src[i].name))
            && (r.Completed? ==> forall i :: 0 <= i < |src| && IsPlaceholder(src[i]) ==> src[i] in r.dir)
            && (r.Raised? ==> exists i :: 0 <= i < |src| && IsPlaceholder(src[i]) && HasName(target, src[i].name)
                                          && r.error == FileExists(src[i].name))
    decreases |src|
  {
    if |src| > 0 {
      var r := CopyDigitDirs(src, target);
      assert forall i :: 1 <= i < |src| ==> src[i] == src[1..][i - 1];
      if IsPlaceholder(src[0]) {
        if !HasName(target, src[0].name) {
          var target' := target + [src[0]];
          assert CopyTree(target, src[0].name, src[0].entry) == Success(target');
          assert r == CopyDigitDirs(src[1..], target');
          CopyCompletesIff(src[1..], target');
          assert forall i :: 1 <= i < |src| ==> src[i].name != src[0].name;
          assert forall i :: 1 <= i < |src| ==> (HasName(target', src[i].name) <==> HasName(target, src[i].name));
          if r.Completed? {
            assert src[0] == r.dir[..|target'|][|target|];
          }
        }
      } else {
        CopyCompletesIff(src[1..], target);
      }
    }
  }

  /** `os.listdir(os.path.join(backup_dir, get_most_recent_backup(backup_dir)))`:
      the listing of the selected backup directory. */
  function MostRecentBackupListing(backupRoot: Listing): (r: Result<Listing, Error>)
    requires DistinctNames(backupRoot)
    ensures r.Failure? <==> GetMostRecentBackup(backupRoot).Failure?
    ensures r.Failure? ==> r.error == GetMostRecentBackup(backupRoot).error
    ensures r.Success? ==> Named(GetMostRecentBackup(backupRoot).value, Dir(r.value)) in backupRoot
  {
    match GetMostRecentBackup(backupRoot)
    case Failure(e) => Failure(e)
    case Success(name) =>
      var c :| c in backupRoot && IsProfileDir(c) && c.name == name;
      Success(c.entry.children)
  }

  /** `copy_backed_up_folders`: the digit-named directories of the most
      recent backup are copied into the profile folder, whose own entries stay
      in place; a failing selection raises before anything is copied. */
  function CopyBackedUpFolders(backupRoot: Listing, profile: Listing): (r: Run)
    requires DistinctNames(backupRoot)
    ensures |r.dir| >= |profile| && r.dir[..|profile|] == profile
    ensures var sel := MostRecentBackupListing(backupRoot);
            && (sel.Failure? ==> r == Raised(profile, sel.error))
            && (sel.Success? ==> forall k :: |profile| <= k < |r.dir| ==> r.dir[k] in sel.value && IsPlaceholder(r.dir[k]))
    ensures var sel := MostRecentBackupListing(backupRoot);
            sel.Success? && DistinctNames(sel.value) ==>
              && (r.Completed? <==> forall i :: 0 <= i < |sel.value| && IsPlaceholder(sel.value[i]) ==> !HasName(profile, sel.value[i].name))
              && (r.Completed? ==> forall i :: 0 <= i < |sel.value| && IsPlaceholder(sel.value[i]) ==> sel.value[i] in r.dir)
              && (r.Raised? ==> exists i :: 0 <= i < |sel.value| && IsPlaceholder(sel.value[i]) && HasName(profile, sel.value[i].name)
                                            && r.error == FileExists(sel.value[i].name))
  {
    var sel := MostRecentBackupListing(backupRoot);
    if sel.Failure? then Raised(profile, sel.error)
    else
      var copied := CopyDigitDirs(sel.value, profile);
      CopyAddsOnlyLayers(sel.value, profile);
      assert forall k :: |profile| <= k < |copied.dir| ==> copied.dir[k] in sel.value && IsPlaceholder(copied.dir[k]);
      if DistinctNames(sel.value) then
        CopyCompletesIff(sel.value, profile);
        copied
      else
        copied
  }

  /** Clear-then-copy: if the profile folder holds no digit-named file, the
      copy cannot clash, and afterwards its digit-named entries are exactly
      the digit-named directories of the backup, while its other entries are
      exactly the ones it had. */
  lemma ClearThenCopy(profile: Listing, backup: Listing)
    requires DistinctNames(profile) && DistinctNames(backup)
    requires forall c :: c in profile && IsDigits(c.name) ==> c.entry.Dir?
    ensures var r := CopyDigitDirs(backup, DeleteNewProfileSubdirs(profile));
            && r.Completed?
            && (forall c :: c in r.dir && IsDigits(c.name) <==> c in backup && IsPlaceholder(c))
            && (forall c :: c in r.dir && !IsDigits(c.name) <==> c in profile && !IsDigits(c.name))
  {
    var cleared := DeleteNewProfileSubdirs(profile);
    assert forall k :: 0 <= k < |cleared| ==> !IsDigits(cleared[k].name);
    assert forall i :: 0 <= i < |backup| && IsPlaceholder(backup[i]) ==> !HasName(cleared, backup[i].name);
    CopyCompletesIff(backup, cleared);
    CopyAddsOnlyLayers(backup, cleared);
    var r := CopyDigitDirs(backup, cleared);
    forall c | c in r.dir
      ensures c in cleared || (c in backup && IsPlaceholder(c))
    {
      var k :| 0 <= k < |r.dir| && r.dir[k] == c;
      if k < |cleared| {
        assert c == r.dir[..|cleared|][k];
      }
    }
    forall c | c in cleared
      ensures c in r.dir
    {
      var k :| 0 <= k < |cleared| && cleared[k] == c;
      assert r.dir[..|cleared|][k] == c;
    }
  }

  // ---------------------------------------------------------------------
  // restore_evga_profiles: locate, clear, copy
  // ---------------------------------------------------------------------

  /** The two conditions the restore reports and stops at, changing nothing. */
  datatype Notice = TargetMissing | NoLongNamedFolder

  /** How the locate/clear/copy sequence ends: stopped with a notice before
      any change, finished, or interrupted by an uncaught error with the
      profile root as the error left it. */
  datatype RestoreOutcome =
    | Stopped(notice: Notice)
    | Restored(root: Listing)
    | Interrupted(root: Listing, error: Error)

  /** `after` is `before` with at most entry `i` changed, and that one keeps
      its name. */
  predicate OnlyEntryChanged(before: Listing, after: Listing, i: nat)
  {
    && |after| == |before| && i < |before| && after[i].name == before[i].name
    && forall j :: 0 <= j < |before| && j != i ==> after[j] == before[j]
  }

  /** Lines 95-105 of `restore_evga_profiles`. `target` is the profile-manager
      root (`None` when it does not exist) and `backupRoot` the backup
      directory (`None` when it does not exist). The restore stops with a
      notice, changing nothing, when the root is missing or has no long-named
      entry; otherwise the first long-named entry, file or not, is restored. */
  function RestoreProfiles(target: Option<Listing>, backupRoot: Option<Listing>): (r: RestoreOutcome)
    requires backupRoot.Some? ==> DistinctNames(backupRoot.value)
    ensures r == Stopped(TargetMissing) <==> target.None?
    ensures target.Some? ==>
      (r == Stopped(NoLongNamedFolder) <==> forall j :: 0 <= j < |target.value| ==> !IsLongName(target.value[j].name))
    ensures target.Some? && (exists j :: 0 <= j < |target.value| && IsLongName(target.value[j].name)) ==>
      exists i: nat :: IsFirstLongNamed(target.value, i) && r == RestoreFolder(target.value, i, backupRoot)
  {
    match target
    case None => Stopped(TargetMissing)
    case Some(root) =>
      match FirstLongNamed(root)
      case None => Stopped(NoLongNamedFolder)
      case Some(i) => RestoreFolder(root, i, backupRoot)
  }

  /** Lines 107-109 of `restore_evga_profiles` on the located entry
      `root[i]`: its digit-named directories are removed, then the layers of
      the most recent backup are copied in. Only that entry changes. Listing
      a file raises before anything changes; a missing backup directory
      raises after the folder was cleared. */
  function RestoreFolder(root: Listing, i: nat, backupRoot: Option<Listing>): (r: RestoreOutcome)
    requires i < |root|
    requires backupRoot.Some? ==> DistinctNames(backupRoot.value)
    ensures !r.Stopped? && OnlyEntryChanged(root, r.root, i)
    ensures root[i].entry.File? ==> r == Interrupted(root, NotADirectory(root[i].name))
    ensures root[i].entry.Dir? && backupRoot.None? ==>
      r == Interrupted(root[i := Named(root[i].name, Dir(DeleteNewProfileSubdirs(root[i].entry.children)))], FileNotFound)
  {
    var folder := root[i];
    if folder.entry.File? then Interrupted(root, NotADirectory(folder.name))
    else
      var cleared := DeleteNewProfileSubdirs(folder.entry.children);
      match backupRoot
      case None => Interrupted(root[i := Named(folder.name, Dir(cleared))], FileNotFound)
      case Some(b) =>
        match CopyBackedUpFolders(b, cleared)
        case Completed(d) => Restored(root[i := Named(folder.name, Dir(d))])
        case Raised(d, e) => Interrupted(root[i := Named(folder.name, Dir(d))], e)
  }

  /** The end-to-end promise of a restore: when the profile root and the
      backup directory are well-formed trees, the first long-named entry is a
      directory with no digit-named file, and a backup can be selected, the
      restore finishes; the folder's digit-named entries are then exactly the
      digit-named directories of the selected backup, with identical subtrees,
      and its other entries are exactly the ones it had. */
  lemma RestoredLayersMatchBackup(root: Listing, backupRoot: Listing, i: nat)
    requires WellFormed(Dir(root)) && WellFormed(Dir(backupRoot))
    requires IsFirstLongNamed(root, i) && root[i].entry.Dir?
    requires forall c :: c in root[i].entry.children && IsDigits(c.name) ==> c.entry.Dir?
    requires MostRecentBackupListing(backupRoot).Success?
    ensures var r := RestoreProfiles(Some(root), Some(backupRoot));
            var backup := MostRecentBackupListing(backupRoot).value;
            var before := root[i].entry.children;
            && r.Restored? && OnlyEntryChanged(root, r.root, i) && r.root[i].entry.Dir?
            && (forall c :: c in r.root[i].entry.children && IsDigits(c.name) <==> c in backup && IsPlaceholder(c))
            && (forall c :: c in r.root[i].entry.children && !IsDigits(c.name) <==> c in before && !IsDigits(c.name))
  {
    var backup := MostRecentBackupListing(backupRoot).value;
    var name := GetMostRecentBackup(backupRoot).value;
    assert Named(name, Dir(backup)) in backupRoot;
    assert WellFormed(Dir(backup));
    assert WellFormed(root[i].entry);
    var before := root[i].entry.children;
    ClearThenCopy(before, backup);
    assert FirstLongNamed(root) == Some(i);
  }

  /** A restore whose backup selection fails is interrupted after the
      placeholder layers were already removed: the folder is left cleared
      and everything else is as it was. */
  lemma FailedSelectionLeavesFolderCleared(root: Listing, backupRoot: Listing, i: nat)
    requires DistinctNames(backupRoot)
    requires IsFirstLongNamed(root, i) && root[i].entry.Dir?
    requires GetMostRecentBackup(backupRoot).Failure?
    ensures RestoreProfiles(Some(root), Some(backupRoot))
            == Interrupted(root[i := Named(root[i].name, Dir(DeleteNewProfileSubdirs(root[i].entry.children)))],
                           GetMostRecentBackup(backupRoot).error)
  {
    assert FirstLongNamed(root) == Some(i);
    var cleared := DeleteNewProfileSubdirs(root[i].entry.children);
    assert CopyBackedUpFolders(backupRoot, cleared) == Raised(cleared, GetMostRecentBackup(backupRoot).error);
  }
}
