# unleash_backup, modelled in Dafny

`unleash_backup.py` backs up and restores the custom key-colour profiles of the
EVGA Unleash RGB keyboard application. A backup copies every "long-named"
profile folder (a directory whose name is longer than 20 characters) of the
application's `ProfileManager` directory to `<name>_<YYYYMMDD_HHMMSS>` in a
backup directory. A restore finds the freshly created long-named profile
folder, deletes its all-digit layer directories (the placeholders the
application created), selects the most recent backup and copies that backup's
digit-named layer directories into the folder. It also decides where the
executable lives before it restarts the application.

This project models those decisions over an abstract directory tree:

- `Tree`: an `Entry` is a `File` with its bytes or a `Dir` with a listing.
  A listing is a sequence of `Named(name, entry)` in `os.listdir` order.
  `WellFormed` says that every directory has distinct names.
  `CopyTree` is `shutil.copytree`: it refuses an existing destination and appends one identical subtree.
  An uncaught Python exception becomes `Run.Raised(dir, error)`, which keeps the state the loop left behind.
- `Text`: Python's `str.isdigit` (ASCII), `str.split` and `str` ordering (`Less`).
  `isdigit` is characterised as the zero-padded decimal texts (`ZeroPadded`).
  `Less` is proved equal to the textbook lexicographic order (`LexLess`).
  It also has the round trips between `Split` and `Join`, and the fact that fixed-width digit strings sort like their numeric values.
- `Locator`: the length-20 threshold (`LongNameLimit`), the profile-folder and layer-directory tests, and the restore's target search.
- `Backup`: `backup_folders_with_long_names`.
- `Latest`: `get_most_recent_backup`, with CPython's `max(…, key=…)` written out.
- `Restore`: `delete_new_profile_subdir`, `copy_backed_up_folders`, and the locate/clear/copy sequence of `restore_evga_profiles`.
- `Resolve`: `find_unleash_executable` and `get_unleash_path`, parameterised by an abstract `pathExists` predicate.

Behaviour the model makes explicit:

- The selection key `folder.split('_')[1]` is only the date of a backup named
  `<profile>_<YYYYMMDD>_<HHMMSS>`. Two backups from the same day tie, and `max`
  keeps the one listed first, even when the other is later
  (`Latest.SameDayKeepsFirstListed`).
- When the profile name itself contains `_`, the key comes from the profile
  name and the timestamps play no part at all
  (`Latest.KeyOfBackupNameFromProfile`, `Latest.UnderscoreProfileKeepsFirstListed`).
- The restore target is the first long-named entry, with no directory check.
  A long-named file there makes the clearing step raise `NotADirectory`.
- A failing backup selection interrupts the restore after the placeholder layers were already deleted
  (`Restore.FailedSelectionLeavesFolderCleared`).

## Model

| member | source | states |
|---|---|---|
| Tree.CopyTree | unleash_backup.py:33 | `copytree` fails with `FileExists` exactly when the destination name is taken. Otherwise it adds one entry with an identical subtree, keeps every existing entry in place, and keeps names distinct and the tree well formed. |
| Locator.FirstLongNamed | unleash_backup.py:99-105 | The restore target is the first entry in listing order whose name is longer than 20 characters, whether file or directory. There is none exactly when no name is that long. |
| Backup.BackupName | unleash_backup.py:29 | The backup name consists of the folder name, `_` and the timestamp, and both parts can be read back from it. The backup of a long-named folder is long-named too, so a restore finds it among the candidates. |
| Backup.BackupNameInjective | unleash_backup.py:28-30 | Within one run, different folder names give different backup names. |
| Backup.BackupFolders | unleash_backup.py:18-34 | The backup loop leaves the entries already in the backup directory unchanged and in place, and it keeps names distinct and the tree well formed. |
| Backup.BackupAddsRenamedCopies | unleash_backup.py:22-33 | A completed backup adds exactly one entry per long-named directory, in listing order. Each entry is named `name + "_" + ts` and holds that directory's subtree. |
| Backup.BackupCompletesIff | unleash_backup.py:28-33 | The backup completes if and only if no long-named directory's backup name already exists. Otherwise it raises `FileExists` on such a name, because `copytree` does not merge. |
| Backup.BackupAddsOnlyProfileDirs | unleash_backup.py:22-33 | In every run, completed or raising part-way, each entry the backup adds is the copy of a directory with a name longer than 20 characters, under its timestamped name. Files and short-named directories are never copied. |
| Backup.BackedUpIffProfileDir | unleash_backup.py:22-26 | In a completed backup, a child gets a backup entry if and only if it is a directory with a name longer than 20 characters, and that entry holds its subtree. Files and directories with names of 20 characters or fewer never get one. |
| Restore.DeleteNewProfileSubdirs | unleash_backup.py:52-58 | Removes exactly the children that are directories whose name passes `isdigit` (`Text.IsDigits`: non-empty, ASCII digits `0`-`9` only). Files (even digit-named ones) and other directories stay unchanged and in their original order. |
| Restore.DeleteIdempotent | unleash_backup.py:55-58 | Clearing twice is the same as clearing once. |
| Restore.CopyDigitDirs | unleash_backup.py:67-71 | The restore copy loop keeps the target's entries in place, and it keeps names distinct and the tree well formed. |
| Restore.CopyAddsOnlyLayers | unleash_backup.py:67-71 | Every added entry is a digit-named directory of the backup with its subtree unchanged. Non-numeric backup entries are never copied. |
| Restore.CopyCompletesIff | unleash_backup.py:67-71 | The copy completes if and only if no digit-named backup directory shares its name with a target entry, and then all of them are present. Otherwise it raises `FileExists` on such a clash. |
| Restore.MostRecentBackupListing | unleash_backup.py:64-67 | Lists the directory that `get_most_recent_backup` selected. Its errors are the selection's errors. |
| Restore.CopyBackedUpFolders | unleash_backup.py:60-71 | The profile folder's entries stay in place, and everything added is a digit-named directory of the selected backup. A failing selection raises before anything is copied. When a backup is selected and its entry names are distinct, the copy completes exactly when no digit-named directory of the backup shares a name with an entry of the folder, and then all of them are in the result. Otherwise it raises `FileExists` on such a name. |
| Restore.ClearThenCopy | unleash_backup.py:108-109 | If the folder has no digit-named file, clear-then-copy cannot clash. Afterwards its digit-named entries are exactly the backup's digit-named directories, and its other entries are exactly the ones it had. |
| Restore.RestoreProfiles | unleash_backup.py:95-105 | The restore stops with `TargetMissing` exactly when the profile root is missing. An existing root stops with `NoLongNamedFolder` exactly when no entry name is longer than 20 characters. Otherwise the first long-named entry, file or directory, is the one restored. |
| Restore.RestoreFolder | unleash_backup.py:105-109 | Restoring the located entry never stops with a notice, and it changes only that entry, keeping its name. If the entry is a file, listing it raises `NotADirectory` before anything changes. If the backup directory is missing, the restore raises `FileNotFound` after the folder was already cleared of its layer directories. |
| Restore.RestoredLayersMatchBackup | unleash_backup.py:95-109 | Suppose the target is a directory without digit-named files and a backup can be selected. Then the restore finishes and only that folder changes. Its layers become exactly the selected backup's layers, and its other entries are kept. |
| Restore.FailedSelectionLeavesFolderCleared | unleash_backup.py:108-109 | When no backup can be selected, the restore is interrupted with the selection's error. The target folder has already been cleared of its layer directories, and nothing else has changed. |
| Latest.MaxFrom | unleash_backup.py:77 | From position `i` on, `max` raises on the first name without `_`. Otherwise it returns the first name whose key is greatest. |
| Latest.MaxByKey | unleash_backup.py:77 | `max` raises `EmptyMax` on no candidates and `NoSecondSegment` on the first candidate without `_`. Otherwise it returns the first candidate with the greatest key, since ties keep the earlier element. |
| Latest.FirstMaxIsMaximum | unleash_backup.py:77 | No candidate's key is greater than the key of the element `max` keeps. |
| Latest.CandidateNames | unleash_backup.py:75-76 | The candidates are the names of the directories whose names are longer than 20 characters, one per directory, in listing order. |
| Latest.GetMostRecentBackup | unleash_backup.py:73-77 | The result is always a long-named directory whose key is not smaller than any candidate's. Every long-named directory listed before it has a strictly smaller key, so ties go to the first listed. The selection fails if and only if there are no candidates (`EmptyMax`) or some candidate has no `_`. In the second case the error is `NoSecondSegment` on the first candidate in listing order without `_`. |
| Latest.FirstMaxInListing | unleash_backup.py:75-77 | The candidate `max` keeps stands at a position of the listing where every long-named directory listed before it has a strictly smaller key. |
| Latest.FirstKeylessInListing | unleash_backup.py:75-77 | When `max` raises on candidates, it raises on a long-named directory without `_`, and every long-named directory listed before it has one. |
| Latest.TiesGoToFirstListed | unleash_backup.py:75-77 | In any backup directory, of two long-named directories with equal keys, the one listed later is never selected. |
| Latest.KeyOf | unleash_backup.py:77 | The key `folder.split('_')[1]` is the text between the first and the second `_` of the name, or between the first `_` and the end. It contains no `_`. |
| Latest.KeyOfBackupName | unleash_backup.py:28-29 | For `f_YYYYMMDD_HHMMSS` with no `_` in `f`, the selection key is the date `YYYYMMDD` only. |
| Latest.KeyOfBackupNameFromProfile | unleash_backup.py:29 | When `f` contains `_`, the key of `f_ts` is the key of `f`, whatever the timestamp. |
| Latest.StampedKeyIsDate | unleash_backup.py:77 | The key of a stamped backup name is its date field. |
| Latest.NotLessKeyIsLaterDate | unleash_backup.py:77 | Between stamped names, a key that is not smaller belongs to a date that is not earlier. |
| Latest.LatestHasLatestDate | unleash_backup.py:73-77 | When there is at least one candidate and every candidate is a stamped name, the selection succeeds. It picks a backup whose date is numerically at least every candidate's date. |
| Latest.EqualKeysKeepFirstListed | unleash_backup.py:77 | In a backup directory holding only two long-named directories with equal keys, the one listed first is selected. |
| Latest.SameDayKeepsFirstListed | unleash_backup.py:77 | In a backup directory holding only two backups of one profile from the same day, the first listed is selected even if the other is later. |
| Latest.UnderscoreProfileKeepsFirstListed | unleash_backup.py:77 | In a backup directory holding only two backups of a profile whose name contains `_`, the first listed is selected, whatever the timestamps. |
| Text.Less | unleash_backup.py:77 | `max` compares keys with Python's `<` on `str`. The character-by-character comparison is exactly lexicographic order: a proper prefix is smaller, and otherwise the first differing character decides. |
| Text.IsDigitsIffZeroPadded | unleash_backup.py:57 | `folder.isdigit()` holds exactly for the names of `w >= 1` characters that are the `w`-digit zero-padded decimal text of some number below `10^w` (such as the layer names `001`, `002`, …). |
| Text.ZeroPaddedValue | unleash_backup.py:57 | Every name `isdigit` accepts is recovered from its number by zero-padding to its own width, leading zeros included. |
| Text.ValueZeroPadded | unleash_backup.py:57 | Reading back the zero-padded text of a number that fits the width gives the number. |
| Text.Split | unleash_backup.py:77 | `split('_')` gives at least one piece, and more than one exactly when `_` occurs, so `[1]` exists exactly then. |
| Text.SplitSecondField | unleash_backup.py:77 | When `_` occurs, `split('_')[1]` is the text between the first `_` and the next one, or the end of the string. |
| Text.LessIsNumericOrder | unleash_backup.py:28 | For zero-padded fixed-width digit fields such as `%Y%m%d`, string order equals numeric order. |
| Text.JoinSplit | unleash_backup.py:77 | Joining the pieces of `split('_')` with `_` gives the name back. |
| Text.SplitJoin | unleash_backup.py:77 | Splitting a join of `_`-free pieces gives back the pieces. |
| Text.SplitConcat | unleash_backup.py:77 | `(a + "_" + b).split('_')` equals `a.split('_') + b.split('_')`. |
| Text.SplitPiecesHaveNoSeparator | unleash_backup.py:77 | No piece of `split('_')` contains `_`. |
| Resolve.FindUnleashExecutable | unleash_backup.py:116-125 | Returns the first existing path of the two install paths, the `Program Files (x86)` one first. There is none exactly when neither exists. |
| Resolve.PromptUntilFound | unleash_backup.py:138-143 | The prompt loop returns the first typed answer that exists. It keeps prompting, here `None`, while none has. |
| Resolve.GetUnleashPath | unleash_backup.py:127-143 | Any result exists, and an existing user-supplied path is returned as is. |
| Resolve.ResolutionOrder | unleash_backup.py:127-143 | The result is the first existing path among the user path, the x86 install path, the other install path, and then the typed answers, in that order. |
| Resolve.PromptIsFirstExisting | unleash_backup.py:138-143 | The prompt loop is the first-existing search over the typed answers. |

## Left out

- Process control is not modelled: `is_unleash_running`, `terminate`/`wait` and the detached restart with `subprocess.Popen` (unleash_backup.py:8-16, 85-89, 114). These are OS process operations with no pure behaviour.
- The "create a new profile and press Enter" prompt is not modelled (unleash_backup.py:81-82). It only waits for the user.
- The re-prompt loop of `get_unleash_path` takes the user's answers as a finite sequence (unleash_backup.py:138-143). `None` stands for "still prompting" because the real loop never gives up.
- `main`, `argparse`, the `APPDATA` lookup and `backup_evga_profiles` are not modelled (unleash_backup.py:36-50, 92, 145-157). They are configuration and I/O plumbing: a source-existence check followed by `os.makedirs`. The restore's profile root is passed in as an optional listing.
- Backup.BackupFolders: one timestamp `ts` is used for the whole run, but the source reads `datetime.now()` once per folder inside the loop. Folders backed up across a second boundary would get different timestamps.
- Clock formatting is not modelled: `ts` is opaque to the backup. The selection lemmas describe its `%Y%m%d_%H%M%S` shape with `ValidTimestamp`.
- File contents are abstract byte sequences. Permissions, metadata and symbolic links are not modelled. Neither are I/O failures of `copytree`/`rmtree` such as permission denied or a full disk. Only the errors the code's own logic produces are modelled: `FileExists`, `NotADirectory`, a missing backup directory, an empty `max` and a missing `_`.
- Entries created by `copytree` are appended at the end of a listing. The real `os.listdir` order is filesystem-defined.
- `str.isdigit` is modelled for ASCII `'0'..'9'` only. Python also accepts other Unicode digit characters.
- `print` messages are not modelled. The two messages on which the restore stops become the `Notice` values `TargetMissing` and `NoLongNamedFolder`.
- Tree.CopyTree: names compare case-sensitively. On Windows, where the script runs, NTFS compares names case-insensitively. There `copytree` onto a name that differs from an existing one only in case raises `FileExistsError`, but the model counts it as a success. `DistinctNames` likewise allows two names that differ only in case.
- Backup.BackupCompletesIff: a clash is an exact name match, so a clash that differs only in case is not modelled (see `Tree.CopyTree`).
- Restore.CopyCompletesIff: a clash is an exact name match, so a clash that differs only in case is not modelled (see `Tree.CopyTree`).
- Restore.RestoreProfiles: the profile root and the backup directory are each a listing or missing. A path that exists but is a file cannot be expressed. There `os.listdir` raises `NotADirectoryError`: at line 100 for the profile root, and in `get_most_recent_backup` for the backup directory.
- Restore.RestoreProfiles: requires the backup listing to have distinct names, and `Restore.RestoredLayersMatchBackup` requires well-formed trees. Both always hold for real directories, whose entries have unique names.
