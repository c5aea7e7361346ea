/**
 * The script itself: the `Unrar` object and the start-up flow of
 * `__main__`, run against a `Host` that stands for the file system and the
 * process table.
 */
module AutoExtract {
  import opened Wrappers
  import opened CaseKeys
  import opened PathRules
  import opened Selection
  import opened TreeState
  import opened Lookup

  /** Whether the script goes on or leaves through `sys.exit(code)`. */
  datatype Status = Continue | Exit(code: int)

  /**
   * The machine the script runs on: its directories and their entries, the
   * executable paths for which `os.spawnv` does not raise `OSError`, and the
   * argument vectors of the spawns that did not raise. What a spawned
   * process writes, and whether its exec succeeded, is not recorded.
   */
  class Host {
    var dirs: Tree
    const launchable: set<string>
    var spawned: seq<seq<string>>

    constructor (dirs: Tree, launchable: set<string>)
      ensures this.dirs == dirs && this.launchable == launchable && spawned == []
    {
      this.dirs := dirs;
      this.launchable := launchable;
      spawned := [];
    }

    /** `os.spawnv(os.P_WAIT, path, args)`; the child's exit status is not looked at by the script. */
    method Spawn(path: string, args: seq<string>) returns (raised: bool)
      modifies this
      ensures raised <==> path !in launchable
      ensures dirs == old(dirs)
      ensures spawned == if raised then old(spawned) else old(spawned) + [args]
    {
      raised := path !in launchable;
      if !raised {
        spawned := spawned + [args];
      }
    }
  }

  /** The command line of the re-index step: perl runs `update-syno.pl`, found beside the script, on the download directory. */
  function ReindexArgs(perl: string, scriptDir: string, downloadDir: string): seq<string>
  {
    [perl, Join(scriptDir, "update-syno.pl"), downloadDir]
  }

  /** What the re-index step adds to the spawn log: one command when perl is found and its spawn does not raise. */
  function ReindexSpawns(perl: Option<string>, launchable: set<string>, scriptDir: string, downloadDir: string): seq<seq<string>>
  {
    if perl.Some? && perl.value in launchable then [ReindexArgs(perl.value, scriptDir, downloadDir)] else []
  }

  /** The command line `start_unrar` hands to `os.spawnv`. */
  function UnrarArgs(unrarExe: string, dirname: string, archiveName: string, downloadDir: string): seq<string>
  {
    [unrarExe, "e", "-idq", "-y", Join(dirname, archiveName), downloadDir]
  }

  /**
   * `unrar e -idq -y <archive> <destination>`: extract without paths, quietly,
   * answering yes; the archive operand names the archive found in `dirname`,
   * and the destination is the download directory whichever directory the
   * archive was found in.
   */
  lemma UnrarArgsShape(unrarExe: string, dirname: string, archiveName: string, downloadDir: string)
    requires archiveName != [] && '/' !in archiveName
    ensures var argv := UnrarArgs(unrarExe, dirname, archiveName, downloadDir);
      && |argv| == 6 && argv[0] == unrarExe && argv[1..4] == ["e", "-idq", "-y"]
      && Basename(argv[4]) == archiveName
      && argv[4][..|dirname|] == dirname
      && argv[5] == downloadDir
  {
    var path := Join(dirname, archiveName);
    assert archiveName[0] != '/';
    assert path[..|dirname|] == dirname;
    JoinThenBasename(dirname, archiveName);
    var argv := UnrarArgs(unrarExe, dirname, archiveName, downloadDir);
    assert argv == [unrarExe, "e", "-idq", "-y", path, downloadDir];
    assert argv[1..4] == ["e", "-idq", "-y"];
  }

  /** The command lines of the extractions of a walk, one per extracted directory. */
  function UnrarArgvs(unrarExe: string, dirnames: seq<string>, archives: seq<string>, downloadDir: string): seq<seq<string>>
    requires |dirnames| == |archives|
  {
    seq(|dirnames|, k requires 0 <= k < |dirnames| => UnrarArgs(unrarExe, dirnames[k], archives[k], downloadDir))
  }

  /** One more extraction extends the list of chosen archives and the spawn log in step. */
  lemma ExtractionRecorded(start: Tree, unrarExe: string, dirnames: seq<string>, archives: seq<string>,
                           dirname: string, archive: string, downloadDir: string, base: seq<seq<string>>)
    requires ArchivesChosen(start, dirnames, archives)
    requires dirname in start && ChosenArchive(archive, start[dirname])
    ensures ArchivesChosen(start, dirnames + [dirname], archives + [archive])
    ensures base + UnrarArgvs(unrarExe, dirnames, archives, downloadDir) + [UnrarArgs(unrarExe, dirname, archive, downloadDir)]
      == base + UnrarArgvs(unrarExe, dirnames + [dirname], archives + [archive], downloadDir)
  {
    UnrarArgvsSnoc(unrarExe, dirnames, archives, dirname, archive, downloadDir);
    var argvs := UnrarArgvs(unrarExe, dirnames, archives, downloadDir);
    var last := [UnrarArgs(unrarExe, dirname, archive, downloadDir)];
    assert (base + argvs) + last == base + (argvs + last);
    var grown := archives + [archive];
    var grownDirs := dirnames + [dirname];
    forall k | 0 <= k < |grown| ensures grownDirs[k] in start && ChosenArchive(grown[k], start[grownDirs[k]]) {
      if k < |archives| {
        assert grown[k] == archives[k] && grownDirs[k] == dirnames[k];
      }
    }
  }

  /** The command line a scan with this outcome starts, if any. */
  function ExtractionArgv(outcome: Outcome, unrarExe: string, dirname: string, downloadDir: string): seq<seq<string>>
  {
    match outcome
    case Extract(a) => [UnrarArgs(unrarExe, dirname, a, downloadDir)]
    case _ => []
  }

  lemma UnrarArgvsSnoc(unrarExe: string, dirnames: seq<string>, archives: seq<string>,
                       dirname: string, archive: string, downloadDir: string)
    requires |dirnames| == |archives|
    ensures UnrarArgvs(unrarExe, dirnames + [dirname], archives + [archive], downloadDir)
      == UnrarArgvs(unrarExe, dirnames, archives, downloadDir) + [UnrarArgs(unrarExe, dirname, archive, downloadDir)]
  {
  }

  /**
   * The download directory `__main__` settles on: the first argument when it
   * names a directory, otherwise `TR_TORRENT_DIR` (possibly empty, possibly
   * not a directory).
   */
  function TargetDir(dirs: Tree, arg: Option<string>, torrentDir: string): string
  {
    if arg.Some? && arg.value in dirs then arg.value else torrentDir
  }

  class Unrar {
    var supportedFiletypes: seq<string>
    var downloadDir: string
    /** Python's `self.unrar_exe`, None where the script holds `False`. */
    var unrarExe: Option<string>

    ghost predicate Valid()
      reads this
    {
      supportedFiletypes == SUPPORTED_FILETYPES
    }

    /** `__init__` up to the sanity check, which `Run` performs right after construction. */
    constructor ()
      ensures Valid()
      ensures supportedFiletypes == [".rar", ".r01", ".zip"]
      ensures downloadDir == "" && unrarExe == None
    {
      supportedFiletypes := [];
      downloadDir := "";
      unrarExe := None;
      new;
      ExtensionsList();
    }

    /** `extensions_list`: extends the list with the unrar extensions, then the unzip ones. */
    method ExtensionsList()
      modifies this
      ensures supportedFiletypes == old(supportedFiletypes) + EXTENSIONS_UNRAR + EXTENSIONS_UNZIP
      ensures downloadDir == old(downloadDir) && unrarExe == old(unrarExe)
    {
      supportedFiletypes := supportedFiletypes + EXTENSIONS_UNRAR;
      supportedFiletypes := supportedFiletypes + EXTENSIONS_UNZIP;
    }

    /**
     * `find_exe`: on win32 `PROGRAMFILES/unrar` is searched first, then each
     * `PATH` entry in order; a directory that does not exist is passed over.
     */
    method FindExe(host: Host, env: Env, exeName: string) returns (r: Option<string>)
      ensures r == FirstContaining(host.dirs, ExeCandidates(env), exeName)
    {
      var candidates := ExeCandidates(env);
      if env.win32 {
        var winUnrarDir := Join(env.programFiles, "unrar");
        if winUnrarDir in host.dirs {
          var files := host.dirs[winUnrarDir];
          if exeName in files {
            return Some(Join(winUnrarDir, exeName));
          }
        }
        assert candidates[1..] == env.path;
      } else {
        assert candidates == env.path;
      }
      var i := 0;
      while i < |env.path|
        invariant 0 <= i <= |env.path|
        invariant FirstContaining(host.dirs, candidates, exeName) == FirstContaining(host.dirs, env.path[i..], exeName)
      {
        var dirname := env.path[i];
        if dirname in host.dirs {
          var files := host.dirs[dirname];
          if exeName in files {
            return Some(Join(dirname, exeName));
          }
        }
        assert env.path[i..][1..] == env.path[i + 1..];
        i := i + 1;
      }
      return None;
    }

    /** `unrar_check`: look up the unrar executable; the script exits with status 1 when it is missing. */
    method UnrarCheck(host: Host, env: Env) returns (status: Status)
      modifies this
      ensures unrarExe == FirstContaining(host.dirs, ExeCandidates(env), GetUnrarExe(env.win32))
      ensures status == if unrarExe.None? then Exit(1) else Continue
      ensures supportedFiletypes == old(supportedFiletypes) && downloadDir == old(downloadDir)
    {
      var unrarName := GetUnrarExe(env.win32);
      unrarExe := FindExe(host, env, unrarName);
      if unrarExe.None? {
        return Exit(1);
      }
      return Continue;
    }

    /** `mark_dir`: creates, or truncates, `.unrared` in the directory. */
    method MarkDir(host: Host, dirname: string)
      requires dirname in host.dirs
      modifies host
      ensures host.dirs == Marked(old(host.dirs), dirname)
      ensures host.spawned == old(host.spawned)
    {
      host.dirs := host.dirs[dirname := host.dirs[dirname] + {MARK_FILE_NAME}];
    }

    /** `lock`: exclusive creation of the lock file in the download directory; false where Python raises. */
    method Lock(host: Host) returns (ok: bool)
      requires downloadDir in host.dirs
      modifies host
      ensures ok == TryLock(old(host.dirs), downloadDir).Some?
      ensures host.dirs == if ok then TryLock(old(host.dirs), downloadDir).value else old(host.dirs)
      ensures host.spawned == old(host.spawned)
    {
      if LOCK_FILE_NAME in host.dirs[downloadDir] {
        return false;
      }
      host.dirs := host.dirs[downloadDir := host.dirs[downloadDir] + {LOCK_FILE_NAME}];
      ok := true;
    }

    /** `unlock`: removes the lock file from the download directory. */
    method Unlock(host: Host)
      requires downloadDir in host.dirs
      modifies host
      ensures host.dirs == Unlocked(old(host.dirs), downloadDir)
      ensures host.spawned == old(host.spawned)
    {
      host.dirs := host.dirs[downloadDir := host.dirs[downloadDir] - {LOCK_FILE_NAME}];
    }

    /**
     * `start_unrar`: runs `unrar` on the archive with the download directory
     * as destination, then marks the directory whatever `unrar` did; only a
     * spawn that raises ends the script, with status 1 and nothing marked.
     */
    method StartUnrar(host: Host, dirname: string, archiveName: string) returns (status: Status)
      requires unrarExe.Some? && dirname in host.dirs
      modifies host
      ensures unrarExe.value !in host.launchable ==>
        status == Exit(1) && host.dirs == old(host.dirs) && host.spawned == old(host.spawned)
      ensures unrarExe.value in host.launchable ==>
        && status == Continue
        && host.dirs == Marked(old(host.dirs), dirname)
        && host.spawned == old(host.spawned) + [UnrarArgs(unrarExe.value, dirname, archiveName, downloadDir)]
    {
      var cmdArgs := UnrarArgs(unrarExe.value, dirname, archiveName, downloadDir);
      var raised := host.Spawn(unrarExe.value, cmdArgs);
      if raised {
        return Exit(1);
      }
      MarkDir(host, dirname);
      status := Continue;
    }

    /**
     * `scan_for_archives`: walks the directory's sorted listing and stops at
     * the first marker or lock name, or at the first archive, which it
     * extracts. `listing` is the order `sorted` produced.
     */
    method ScanForArchives(host: Host, dirname: string) returns (status: Status, ghost listing: seq<string>)
      requires Valid() && unrarExe.Some? && dirname in host.dirs
      modifies host
      ensures IsSortedListing(listing, old(host.dirs)[dirname])
      ensures status.Exit? <==> WillExtract(old(host.dirs)[dirname]) && unrarExe.value !in host.launchable
      ensures status.Exit? ==>
        status == Exit(1) && host.dirs == old(host.dirs) && host.spawned == old(host.spawned)
      ensures status.Continue? ==> host.dirs == ScanResult(old(host.dirs), dirname)
      ensures Decision(listing).Extract? <==> WillExtract(old(host.dirs)[dirname])
      ensures Decision(listing).Extract? ==> ChosenArchive(Decision(listing).archive, old(host.dirs)[dirname])
      ensures status.Continue? ==>
        host.spawned == old(host.spawned) + ExtractionArgv(Decision(listing), unrarExe.value, dirname, downloadDir)
    {
      var dirListing := SortByKey(host.dirs[dirname]);
      listing := dirListing;
      status := Continue;
      var i := 0;
      while i < |dirListing|
        invariant 0 <= i <= |dirListing|
        invariant Decision(dirListing) == Decision(dirListing[i..])
        invariant host.dirs == old(host.dirs) && host.spawned == old(host.spawned) && status == Continue
      {
        var filename := dirListing[i];
        if filename == MARK_FILE_NAME || filename == LOCK_FILE_NAME {
          assert Decision(dirListing) == Skipped;
          break;
        }
        if Ext(filename) in supportedFiletypes {
          assert Decision(dirListing) == Extract(filename);
          status := StartUnrar(host, dirname, filename);
          break;
        }
        assert dirListing[i..][1..] == dirListing[i + 1..];
        i := i + 1;
      }
      DecisionOnSortedListing(listing, old(host.dirs)[dirname]);
    }

    /**
     * One turn of `traverse_directories`: the scan of `walk[i]` after the
     * first `i` directories, extending the walk's results by one directory.
     */
    method ScanNext(host: Host, ghost start: Tree, walk: seq<string>, i: nat,
                    ghost spawnedBefore: seq<seq<string>>, ghost archives: seq<string>)
      returns (status: Status, ghost grown: seq<string>)
      requires Valid() && unrarExe.Some? && i < |walk| && InTree(start, walk)
      requires InTree(start, walk[..i]) && host.dirs == WalkResult(start, walk[..i])
      requires ArchivesChosen(start, ExtractedDirs(start, walk[..i]), archives)
      requires host.spawned == spawnedBefore +
        UnrarArgvs(unrarExe.value, ExtractedDirs(start, walk[..i]), archives, downloadDir)
      modifies host
      ensures status.Exit? ==>
        && status == Exit(1) && unrarExe.value !in host.launchable
        && host.dirs == old(host.dirs) && host.spawned == old(host.spawned)
        && WillExtract(host.dirs[walk[i]])
      ensures status.Continue? ==>
        && InTree(start, walk[..i + 1]) && host.dirs == WalkResult(start, walk[..i + 1])
        && ArchivesChosen(start, ExtractedDirs(start, walk[..i + 1]), grown)
        && host.spawned == spawnedBefore +
             UnrarArgvs(unrarExe.value, ExtractedDirs(start, walk[..i + 1]), grown, downloadDir)
    {
      assert walk[i] in start;
      ghost var dirsBefore := host.dirs;
      ghost var spawnedMid := host.spawned;
      ghost var doneDirs := ExtractedDirs(start, walk[..i]);
      ghost var doneArgvs := UnrarArgvs(unrarExe.value, doneDirs, archives, downloadDir);
      assert spawnedMid == spawnedBefore + doneArgvs;
      ghost var listing;
      status, listing := ScanForArchives(host, walk[i]);
      if status.Exit? {
        return status, archives;
      }
      WalkStep(start, walk, i);
      ghost var outcome := Decision(listing);
      if outcome.Extract? {
        ghost var argv := UnrarArgs(unrarExe.value, walk[i], outcome.archive, downloadDir);
        assert host.spawned == spawnedMid + [argv];
        assert WillExtract(dirsBefore[walk[i]]);
        assert ExtractedDirs(start, walk[..i + 1]) == doneDirs + [walk[i]];
        ChosenBeforeWalk(start, walk[..i], walk[i], outcome.archive);
        ExtractionRecorded(start, unrarExe.value, doneDirs, archives, walk[i], outcome.archive, downloadDir, spawnedBefore);
        grown := archives + [outcome.archive];
      } else {
        assert host.spawned == spawnedMid;
        assert !WillExtract(dirsBefore[walk[i]]);
        assert ExtractedDirs(start, walk[..i + 1]) == doneDirs;
        grown := archives;
      }
    }

    /**
     * `traverse_directories`: scans the directories `os.walk` yields, in
     * order, until one scan ends the script. `scanned` directories were
     * scanned completely; `archives` are the archives extracted.
     */
    method TraverseDirectories(host: Host, walk: seq<string>)
      returns (status: Status, ghost scanned: nat, ghost archives: seq<string>)
      requires Valid() && unrarExe.Some? && InTree(host.dirs, walk)
      modifies host
      ensures scanned <= |walk|
      ensures InTree(old(host.dirs), walk[..scanned])
      ensures host.dirs == WalkResult(old(host.dirs), walk[..scanned])
      ensures status.Continue? <==> scanned == |walk|
      ensures status.Exit? ==>
        && status == Exit(1) && unrarExe.value !in host.launchable
        && WillExtract(host.dirs[walk[scanned]])
      ensures ArchivesChosen(old(host.dirs), ExtractedDirs(old(host.dirs), walk[..scanned]), archives)
      ensures host.spawned == old(host.spawned) +
        UnrarArgvs(unrarExe.value, ExtractedDirs(old(host.dirs), walk[..scanned]), archives, downloadDir)
    {
      var i := 0;
      archives := [];
      assert walk[..0] == [];
      while i < |walk|
        invariant 0 <= i <= |walk|
        invariant InTree(old(host.dirs), walk[..i])
        invariant host.dirs == WalkResult(old(host.dirs), walk[..i])
        invariant ArchivesChosen(old(host.dirs), ExtractedDirs(old(host.dirs), walk[..i]), archives)
        invariant host.spawned == old(host.spawned) +
          UnrarArgvs(unrarExe.value, ExtractedDirs(old(host.dirs), walk[..i]), archives, downloadDir)
      {
        var st;
        ghost var grown;
        st, grown := ScanNext(host, old(host.dirs), walk, i, old(host.spawned), archives);
        if st.Exit? {
          return st, i, archives;
        }
        archives := grown;
        i := i + 1;
      }
      assert walk[..i] == walk;
      return Continue, i, archives;
    }
  }

  /**
   * The second half of `__main__`, entered holding the lock: the walk, the
   * perl lookup and the re-index run, and the release of the lock at exit.
   */
  method ExtractAndReindex(unrar: Unrar, host: Host, env: Env, walk: seq<string>)
    returns (exitCode: int, ghost scanned: nat, ghost archives: seq<string>)
    requires unrar.Valid() && unrar.unrarExe.Some? && InTree(host.dirs, walk)
    requires unrar.downloadDir in host.dirs
    modifies host
    ensures
      var root := unrar.downloadDir;
      var exe := unrar.unrarExe.value;
      && scanned <= |walk|
      && InTree(old(host.dirs), walk[..scanned])
      && host.dirs == Unlocked(WalkResult(old(host.dirs), walk[..scanned]), root)
      && ArchivesChosen(old(host.dirs), ExtractedDirs(old(host.dirs), walk[..scanned]), archives)
      && (scanned < |walk| ==>
           && exitCode == 1
           && exe !in host.launchable
           && host.spawned == old(host.spawned) +
                UnrarArgvs(exe, ExtractedDirs(old(host.dirs), walk[..scanned]), archives, root))
      && (scanned == |walk| ==>
           var perl := FirstContaining(WalkResult(old(host.dirs), walk), ExeCandidates(env), "perl");
           && walk[..scanned] == walk
           && (exitCode == 0 <==> perl.Some? && perl.value in host.launchable)
           && (exitCode == 0 || exitCode == 1)
           && host.spawned == old(host.spawned) +
                UnrarArgvs(exe, ExtractedDirs(old(host.dirs), walk), archives, root) +
                ReindexSpawns(perl, host.launchable, env.scriptDir, root))
  {
    var status;
    status, scanned, archives := unrar.TraverseDirectories(host, walk);
    if status.Exit? {
      unrar.Unlock(host);
      return status.code, scanned, archives;
    }
    assert walk[..scanned] == walk;
    ghost var afterWalk := host.spawned;
    var perl := unrar.FindExe(host, env, "perl");
    if perl.None? {
      unrar.Unlock(host);
      assert host.spawned == afterWalk + ReindexSpawns(perl, host.launchable, env.scriptDir, unrar.downloadDir);
      return 1, scanned, archives;
    }
    var raised := host.Spawn(perl.value, ReindexArgs(perl.value, env.scriptDir, unrar.downloadDir));
    unrar.Unlock(host);
    assert host.spawned == afterWalk + ReindexSpawns(perl, host.launchable, env.scriptDir, unrar.downloadDir);
    exitCode := if raised then 1 else 0;
  }

  /**
   * `__main__`: the unrar check, the choice of the download directory, the
   * global lock, and then the walk and the re-index run, after which the lock
   * is released at exit. `walk` is what `os.walk` yields for the chosen
   * directory.
   */
  method Run(host: Host, env: Env, arg: Option<string>, walk: seq<string>)
    returns (exitCode: int, ghost scanned: nat, ghost archives: seq<string>)
    requires InTree(host.dirs, walk)
    modifies host
    ensures exitCode == 0 || exitCode == 1
    ensures
      var unrarExe := FirstContaining(old(host.dirs), ExeCandidates(env), GetUnrarExe(env.win32));
      var root := TargetDir(old(host.dirs), arg, env.torrentDir);
      if unrarExe.None? || root !in old(host.dirs) || LOCK_FILE_NAME in old(host.dirs)[root] then
        exitCode == 1 && host.dirs == old(host.dirs) && host.spawned == old(host.spawned)
      else
        var locked := TryLock(old(host.dirs), root).value;
        && scanned <= |walk|
        && InTree(locked, walk[..scanned])
        && host.dirs == Unlocked(WalkResult(locked, walk[..scanned]), root)
        && ArchivesChosen(old(host.dirs), ExtractedDirs(locked, walk[..scanned]), archives)
        && (scanned < |walk| ==>
             && exitCode == 1
             && unrarExe.value !in host.launchable
             && host.spawned == old(host.spawned) +
                  UnrarArgvs(unrarExe.value, ExtractedDirs(locked, walk[..scanned]), archives, root))
        && (scanned == |walk| ==>
             var perl := FirstContaining(WalkResult(locked, walk), ExeCandidates(env), "perl");
             && walk[..scanned] == walk
             && (exitCode == 0 <==> perl.Some? && perl.value in host.launchable)
             && host.spawned == old(host.spawned) +
                  UnrarArgvs(unrarExe.value, ExtractedDirs(locked, walk), archives, root) +
                  ReindexSpawns(perl, host.launchable, env.scriptDir, root))
  {
    scanned, archives := 0, [];
    var unrar := new Unrar();
    var checked := unrar.UnrarCheck(host, env);
    if checked.Exit? {
      return 1, scanned, archives;
    }
    if arg.Some? && arg.value in host.dirs {
      unrar.downloadDir := arg.value;
    } else {
      unrar.downloadDir := env.torrentDir;
    }
    if unrar.downloadDir !in host.dirs {
      return 1, scanned, archives;
    }
    ghost var before := host.dirs;
    var ok := unrar.Lock(host);
    if !ok {
      return 1, scanned, archives;
    }
    ghost var locked := host.dirs;
    exitCode, scanned, archives := ExtractAndReindex(unrar, host, env, walk);
    ArchivesChosenBeforeLock(before, unrar.downloadDir, ExtractedDirs(locked, walk[..scanned]), archives);
  }
}
