# auto-extract, modelled in Dafny

`transmission/auto-extract.py` is a Transmission post-download hook. It runs as follows:

1. It looks up the `unrar` executable. On win32 it searches `PROGRAMFILES/unrar` first, then every `PATH` entry.
2. It settles on a download directory: the first argument when that names a directory, otherwise `TR_TORRENT_DIR`.
3. It takes a global lock by creating `.auto-extract.locked` there exclusively.
4. It walks the directory tree. In each directory it sorts the listing case-insensitively. It stops at the first entry that is either a bookkeeping file (`.unrared`, `.auto-extract.locked`) or a supported archive (`.rar`, `.r01`, `.zip`, by `os.path.splitext`).
5. If that entry is an archive, it runs `unrar e -idq -y <dir>/<archive> <download dir>` and leaves `.unrared` in the directory.
6. At the end it runs the perl re-indexer `update-syno.pl` on the download directory, and the lock file is removed at exit.

The model has the script exit with status 1 in six cases: `unrar` is not found; the download directory is not a directory; the lock is held; `os.spawnv` raises `OSError` for `unrar`; perl is not found; `os.spawnv` raises for perl, which is not caught. The exit statuses of `unrar` and perl are ignored. Failures of the file-system calls themselves are listed under "## Left out".

The model follows the script's own structure:

- `CaseKeys`: Python 2's `str.lower` and string order on byte strings. `SortByKey` is an insertion sort that stands for `sorted(..., key=str.lower)`. Any listing sorted by that key, and containing exactly the directory's entries, is admissible. The lemmas never depend on which one `sorted` picks.
- `PathRules`: the POSIX rules of `os.path.splitext`, `os.path.join` and the base name.
- `Selection`: the constants of `__init__`, and the decision `scan_for_archives` takes for one directory. That decision is written twice:
  - `Decision`, the first-decisive-entry scan over a sorted listing;
  - `WillExtract`, an order-free statement over the set of entries.

  They are proved equivalent.
- `TreeState`: the file system as a map from directory to the set of its entry names. It also holds what a mark, a lock, an unlock, a scan and a whole walk do to that map, as values. `WalkExample` runs the walk on a small download directory.
- `Lookup`: the environment the script reads, and the search `find_exe` performs.
- `AutoExtract`:
  - The `Host` class: the directory tree, the executable paths for which `os.spawnv` does not raise `OSError`, and the log of the command lines spawned.
  - The `Unrar` class, whose methods update `Host` in place, each proved against the functions above.
  - `Run`, which models `__main__` up to the lock, and `ExtractAndReindex`, which models the rest of it.

The lock file lies in the download directory during every walk, so the scan of that directory stops at it:

- an archive directly in the download directory is extracted only when its name sorts before `.auto-extract.locked` (`Selection.LockedDirectoryStillExtracts`);
- otherwise it is skipped (`Selection.LockedDirectorySkipsArchive`).

## Model

| member | source | states |
|---|---|---|
| CaseKeys.Lower | transmission/auto-extract.py:122 | `str.lower` keeps the length, maps A-Z to a-z and leaves every other character as it is; no upper-case letter is left |
| CaseKeys.LowerIdempotent | transmission/auto-extract.py:122 | lower-casing an already lower-cased key changes nothing |
| CaseKeys.LexLe | transmission/auto-extract.py:122 | Python 2's order on byte strings, a proper prefix first; a definition, whose order properties are the three lemmas below |
| CaseKeys.LexLeTotal | transmission/auto-extract.py:122 | any two keys are comparable in Python's string order |
| CaseKeys.LexLeAntisymmetric | transmission/auto-extract.py:122 | two keys each at most the other are equal |
| CaseKeys.LexLeTransitive | transmission/auto-extract.py:122 | the string order is transitive, so a sorted listing is ordered pairwise |
| CaseKeys.InsertByKey | transmission/auto-extract.py:122 | inserting a name into a key-sorted listing keeps it sorted and adds exactly that name to its multiset |
| CaseKeys.SortByKey | transmission/auto-extract.py:122 | the listing `sorted(os.listdir(d), key=str.lower)` returns is ordered by lower-cased name and holds each entry of the directory exactly once |
| PathRules.SplitExt | transmission/auto-extract.py:130 | `splitext` splits the name into root and extension that concatenate back to it; the extension is empty or one dot followed by neither a dot nor a slash |
| PathRules.HasExtensionIff | transmission/auto-extract.py:130 | a name has an extension iff a dot follows a non-dot character in its last path component, so leading dots do not count |
| PathRules.ExtIsLastDotSuffix | transmission/auto-extract.py:130 | the extension is exactly the suffix from the last dot when a non-dot precedes it in the component |
| PathRules.Ext | transmission/auto-extract.py:130 | `os.path.splitext(filename)[1]`, the second half of `SplitExt`; a definition, characterised by `HasExtensionIff` and `ExtIsLastDotSuffix` |
| PathRules.Join | transmission/auto-extract.py:144 | `os.path.join` keeps an absolute second part alone, and otherwise extends the first part; the result ends with the second part |
| PathRules.JoinThenBasename | transmission/auto-extract.py:144 | joining a directory and a plain file name gives a path whose base name is that file name |
| PathRules.Basename | transmission/auto-extract.py:144 | `os.path.basename`: the longest suffix of the path holding no '/', so what follows the last '/' or the whole path when it has none |
| Selection.DecisiveIndex | transmission/auto-extract.py:125-134 | the scan stops at the first entry that is a marker, a lock name or an archive: it skips iff that entry is a marker or lock name, extracts exactly that entry iff it is an archive, and does nothing iff there is none |
| Selection.IsMarkOrLock | transmission/auto-extract.py:126 | the exact, case-sensitive test for `.unrared` and `.auto-extract.locked`; a definition |
| Selection.IsArchive | transmission/auto-extract.py:130 | the extension `splitext` finds is, case-sensitively, one of `.rar`, `.r01`, `.zip`; a definition, pinned down by the example lemmas below |
| Selection.Decision | transmission/auto-extract.py:125-134 | the first decisive entry of the sorted listing decides; an extraction names a listed archive, a skip needs a listed marker or lock name, and doing nothing means no listed entry is decisive |
| Selection.WillExtract | transmission/auto-extract.py:119-134 | the order-free reading of the scan: some archive sorts strictly before every marker and lock name present; a definition, equal to `Decision`'s extraction by `DecisionOnSortedListing` |
| Selection.ChosenWithoutBookkeeping | transmission/auto-extract.py:125-134 | an archive the scan picks with a marker or lock file present is also the one it picks without it (the converse fails: adding `.unrared` can stop an extraction) |
| Selection.ArchiveKeyIsNoMarkerKey | transmission/auto-extract.py:126-130 | no archive name equals `.unrared` or `.auto-extract.locked` up to case, so a listing never ties an archive with a bookkeeping name |
| Selection.DecisionOnSortedListing | transmission/auto-extract.py:119-134 | on every admissible sorted listing: nothing happens iff no entry is decisive; an archive is extracted iff some archive sorts strictly before every marker and lock name present; the one extracted is an archive of the directory that sorts before every marker present and has the least key among its archives (`ChosenArchive`) |
| Selection.DecisionIgnoresListingOrder | transmission/auto-extract.py:122 | two listings sorted by the same key skip, extract or do nothing alike, and extract archives equal up to case, whatever order `os.listdir` gave |
| Selection.DotRarIsNoArchive | transmission/auto-extract.py:130 | `.rar` has no extension under `splitext`, so it is not an archive |
| Selection.UpperCaseRarIsNoArchive | transmission/auto-extract.py:130 | extensions are compared case-sensitively: `MOVIE.RAR` is not an archive |
| Selection.LastDotDecides | transmission/auto-extract.py:130 | `a.b.rar` is an archive: only the suffix from the last dot counts |
| Selection.MarkersAreNoArchives | transmission/auto-extract.py:126-130 | neither bookkeeping name is an archive |
| Selection.ArchiveBeforeMarker | transmission/auto-extract.py:125-134 | in a directory holding one bookkeeping name and one archive, the archive is extracted when it sorts strictly before that name |
| Selection.NameAfterMarker | transmission/auto-extract.py:125-128 | in a directory holding one bookkeeping name and one other entry sorting after it, nothing is extracted |
| Selection.MarkedDirectoryStillExtracts | transmission/auto-extract.py:125-134 | a directory holding `.unrared` and `(2009) movie.rar` is extracted again |
| Selection.MarkedExampleRescanned | transmission/auto-extract.py:125-134 | on every listing of a directory holding `.unrared` and `(2009) movie.rar`, the scan as written extracts the archive again, while the scan the header describes passes the directory over |
| Selection.IntendedDecision | transmission/auto-extract.py:11-14 | the scan the header describes: a directory listing `.unrared` is skipped, any other is scanned as `Decision` scans it; a definition |
| Selection.IntendedMarkedNeverExtracted | transmission/auto-extract.py:11-14 | under the intended scan a directory holding `.unrared` is never extracted again, on every listing |
| Selection.IntendedAgreesWhenUnmarked | transmission/auto-extract.py:119-134 | on a directory without `.unrared` the intended scan does what the script's scan does, and extracts iff `WillExtract` holds |
| Selection.LockedDirectorySkipsArchive | transmission/auto-extract.py:125-128 | a directory holding the lock file and `movie.rar` is not extracted |
| Selection.LockedDirectoryStillExtracts | transmission/auto-extract.py:125-134 | a directory holding the lock file and `(2009) movie.rar` is extracted |
| Selection.R01IsArchive | transmission/auto-extract.py:52 | `.r01` volumes are archives too |
| Selection.R01SortsFirst | transmission/auto-extract.py:122 | lower-cased, `a.r01` sorts before `B.rar` and before `a.rar` |
| Selection.StrictlyLeastArchiveExtracted | transmission/auto-extract.py:122-134 | an archive sorting before every marker present and strictly before every other entry is the one extracted, whatever the listing order |
| Selection.FirstSortedArchiveExample | transmission/auto-extract.py:122-134 | in a directory of `B.rar`, `a.r01`, `a.rar` the scan always extracts `a.r01` |
| TreeState.Marked | transmission/auto-extract.py:158-163 | marking adds `.unrared` to that directory and changes no other directory |
| TreeState.MarkIdempotent | transmission/auto-extract.py:158-163 | marking twice is marking once, since the file is created or truncated |
| TreeState.TryLock | transmission/auto-extract.py:165-172 | the exclusive create succeeds iff the lock file is absent, and then adds it to the download directory alone |
| TreeState.Unlocked | transmission/auto-extract.py:174-177 | unlocking removes the lock file from the download directory, keeps that directory's other entries, and changes no other directory |
| TreeState.SecondLockFails | transmission/auto-extract.py:165-172 | once the lock is taken, a second attempt on the same directory fails |
| TreeState.UnlockUndoesLock | transmission/auto-extract.py:165-177 | unlocking after a successful lock restores the tree as it was |
| TreeState.ScanResult | transmission/auto-extract.py:119-134 | `scan_for_archives(d)` when the unrar spawn does not raise: the directory is marked iff `WillExtract` holds of it; no directory appears or disappears |
| TreeState.WalkResult | transmission/auto-extract.py:112-117 | `traverse_directories`: the scans applied in walk order; no directory appears or disappears |
| TreeState.ExtractedDirs | transmission/auto-extract.py:112-134 | the walked directories whose scan extracts, in walk order; each is a walked directory, and there are at most as many as walked directories |
| TreeState.ChosenBeforeWalk | transmission/auto-extract.py:112-134 | the archive a scan picks part-way through a walk is the one the directory's entries before the walk give |
| TreeState.ArchivesChosenBeforeLock | transmission/auto-extract.py:165-172 | archives chosen in the locked tree are those chosen in the tree before the lock |
| TreeState.WalkOnlyMarks | transmission/auto-extract.py:112-117 | a walk only ever adds `.unrared`: directories outside the walk, and directories already marked, keep their entries |
| TreeState.SettledScanIsNoop | transmission/auto-extract.py:119-134 | scanning a directory that is marked, or whose scan would not extract, leaves the tree unchanged |
| TreeState.WalkSettles | transmission/auto-extract.py:112-117 | after a walk every walked directory is marked or would not be extracted |
| TreeState.WalkIdempotent | transmission/auto-extract.py:112-117 | walking the same directories again leaves the tree as the first walk did; the second walk may still spawn unrar again, for a marked directory whose archive sorts before `.unrared` |
| WalkExample.OnlyUnmarkedDirectoryExtracted | transmission/auto-extract.py:112-134 | in a locked download directory with one marked and one fresh sub-directory, only the fresh one is extracted and marked |
| Lookup.FirstMatchIndex | transmission/auto-extract.py:76-102 | the lookup returns `join(d, name)` for the first candidate directory `d` that exists and lists the name, and nothing iff no candidate does |
| Lookup.GetUnrarExe | transmission/auto-extract.py:68-74 | the unrar executable's name, `UnRAR.exe` on win32 and `unrar` elsewhere, is a plain file name |
| Lookup.ExeCandidates | transmission/auto-extract.py:78-96 | the directories `find_exe` tries: `PROGRAMFILES/unrar` first on win32, then the `PATH` entries in order; a definition, used by `FindExe` |
| Lookup.FirstContaining | transmission/auto-extract.py:76-102 | the path of the name in the first candidate that exists and lists it; a definition, characterised by `FirstMatchIndex` and computed by `FindExe` |
| AutoExtract.Host.Spawn | transmission/auto-extract.py:149-153 | `os.spawnv` raises `OSError` iff the path is not in `launchable`; otherwise its command line is recorded and the tree is unchanged |
| AutoExtract.UnrarArgs | transmission/auto-extract.py:139-146 | the unrar command line; a definition, whose shape `UnrarArgsShape` states |
| AutoExtract.ReindexArgs | transmission/auto-extract.py:213-221 | the re-index command line: perl, `update-syno.pl` beside the script, the download directory; a definition used by `ExtractAndReindex` |
| AutoExtract.ReindexSpawns | transmission/auto-extract.py:210-224 | the re-index command when perl is found and its spawn does not raise, and nothing otherwise; a definition used by `ExtractAndReindex` |
| AutoExtract.UnrarArgsShape | transmission/auto-extract.py:139-146 | the unrar command line has six words: the executable, `e -idq -y`, a path inside the scanned directory naming the archive, and the download directory |
| AutoExtract.Unrar.constructor | transmission/auto-extract.py:47-56 | a new object supports `.rar`, `.r01`, `.zip` in that order, with an empty download directory |
| AutoExtract.Unrar.ExtensionsList | transmission/auto-extract.py:63-66 | the supported list is extended by the unrar extensions and then the unzip ones |
| AutoExtract.Unrar.FindExe | transmission/auto-extract.py:76-102 | the search over `PROGRAMFILES/unrar` (win32 only) and then `PATH` returns the first match |
| AutoExtract.Unrar.UnrarCheck | transmission/auto-extract.py:104-110 | the platform's unrar name is looked up; the script exits with status 1 iff it is not found |
| AutoExtract.Unrar.MarkDir | transmission/auto-extract.py:158-163 | the directory gains `.unrared`; nothing is spawned |
| AutoExtract.Unrar.Lock | transmission/auto-extract.py:165-172 | the lock is taken iff the lock file was absent, and the tree then holds it |
| AutoExtract.Unrar.Unlock | transmission/auto-extract.py:174-177 | the lock file is removed from the download directory |
| AutoExtract.Unrar.StartUnrar | transmission/auto-extract.py:136-156 | when `os.spawnv` raises for unrar, the script exits with status 1 with nothing marked; otherwise exactly the unrar command line is spawned and the directory is marked, whatever the child did |
| AutoExtract.Unrar.ScanForArchives | transmission/auto-extract.py:119-134 | the listing is sorted by key; the directory is marked and exactly one unrar command is spawned iff its scan extracts; the archive in that command is the one `ChosenArchive` names for the directory's entries; it exits with status 1 iff it extracts and the spawn raises |
| AutoExtract.Unrar.TraverseDirectories | transmission/auto-extract.py:112-117 | the walked directories are scanned in order until one exits; the tree is the walk's result, and the spawn log holds one unrar command per extracted directory, each naming the archive that directory's scan picks among the entries it held before the walk |
| AutoExtract.ExtractAndReindex | transmission/auto-extract.py:206-224 | entered holding the lock: the tree ends as the walk left it with the lock file removed; each unrar command in the spawn log names the archive its directory's scan picks among the entries it held before the walk; a walk cut short exits with status 1 because the unrar spawn raised; after a full walk the status is 0 iff perl is found and its spawn does not raise, and the re-index command follows the unrar commands in the spawn log |
| AutoExtract.Run | transmission/auto-extract.py:179-224 | the exit status is 0 or 1. It is 1 with nothing changed when unrar is missing, the target (the argument when it names a directory, else `TR_TORRENT_DIR`) is not a directory, or the lock is held. Otherwise the tree is the walk's result with the lock file removed, and each unrar command in the spawn log names the archive its directory's scan picks among the entries it held before the run. It is 1 after a partial walk, when the unrar spawn raised. After a full walk it is 0 iff perl is found and its spawn does not raise, and the spawn log ends with the unrar commands and then the re-index command |

## Left out

- What `unrar` and the re-indexer do is not modelled: the files they write and their exit statuses. The script ignores both exit statuses. The model records only the command lines.
- Spawning itself is abstracted. `os.spawnv` raising `OSError` is modelled as the path not being in `Host.launchable`.
- `AutoExtract.Host.Spawn`: `launchable` means only that `os.spawnv` does not raise. On POSIX, Python 2's `os.spawnv` forks, and a child whose exec fails exits with status 127 without raising. So an `unrar` that cannot be executed is a path in `launchable`, and its directory is still marked. Only a failed fork, or win32's native `spawnv`, raises `OSError` there. Which paths raise is an input of the model, not derived from the platform.
- The walk is an input. `os.walk`'s own order and its discovery of sub-directories are not modelled; the walk need only name directories of the tree.
- Inputs taken as given rather than computed:
  - `os.path.abspath` of the argument;
  - `os.path.realpath(__file__)`, for which only the resolved directory is an input;
  - the reading of `PATH`, `PROGRAMFILES` and `TR_TORRENT_DIR`;
  - the splitting of `PATH` at `os.pathsep`.

  A missing `PATH` or `PROGRAMFILES`, which makes the script raise, is not modelled.
- The file system has no distinction between files and directories. A `PATH` entry that is a file, for which `os.listdir` raises, is not modelled.
- On win32, paths are joined by the POSIX rule: `ntpath`'s separators and drive letters are not modelled.
- Logging and the usage text are not modelled.
- `atexit` and signals are not modelled directly. The lock release is modelled as running on every exit after the lock is taken, and a signal is not modelled.
- Concurrency is left out: `O_CREAT | O_EXCL` is a check-and-insert on a set, so races between processes are not modelled.
- `AutoExtract.Unrar.StartUnrar`: the error branch names `self.unrar_name`, which is never set. The `AttributeError` it raises ends the script with status 1, as `sys.exit(1)` would. The model exits with status 1 and does not distinguish the two.
- `mark_dir`, `lock`, `unlock` and `os.listdir` are modelled as never failing, except that `lock` fails when the lock file exists. Any other error they raise ends the script with status 1, and none of those paths is modelled. Examples: `open` on a read-only directory after `unrar` has run, which leaves the directory unmarked; `os.listdir` on an unreadable directory; `os.open` failing with EACCES or EROFS, which the bare `except:` also reports as an unobtainable lock.
- `PathRules.SplitExt` follows Python 2.6 and later, where leading dots do not start an extension. Python 2.4 and 2.5, which the script's header also accepts, return `('', '.rar')` for `.rar`. Under those versions a hidden file such as `.rar` counts as an archive, and `DotRarIsNoArchive` does not hold.
- `.zip` archives are handed to `unrar` like the others, as the script does. Whether `unrar` can read them is outside the model.
- `Run` calls `UnrarCheck` right after constructing `Unrar`, where `__init__` itself calls it. No observable step lies between the two, so nothing is lost.

## Findings

| source | as written | input that shows it | evidently intended | confidence | as-written member | corrected member |
|---|---|---|---|---|---|---|
| transmission/auto-extract.py:125-134 | the scan stops at `.unrared` only when no archive sorts before it, so a marked directory is extracted again | a directory holding `.unrared` and `(2009) movie.rar`: `(` sorts before `.` | the header at lines 11-14: `.unrared` tells later scans that the directory's archive was extracted, so a marked directory is passed over | medium, not executed | Selection.MarkedExampleRescanned | Selection.IntendedMarkedNeverExtracted |

The rest of the model follows the script as written. `Selection.IntendedDecision` is the corrected scan. `Selection.IntendedAgreesWhenUnmarked` shows that it differs from the script's scan only on directories that hold `.unrared`.
