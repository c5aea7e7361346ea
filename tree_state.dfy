/**
 * What the script does to the download tree, as values: the tree maps each
 * directory path to the set of its entry names. Marking, locking, the scan
 * of one directory and the walk over many are functions of the old tree.
 */
module TreeState {
  import opened Wrappers
  import opened Selection

  /** Directory path to the names of its entries. */
  type Tree = map<string, set<string>>

  /** `mark_dir(d)`: `d/.unrared` is created or truncated. */
  function Marked(dirs: Tree, d: string): (r: Tree)
    requires d in dirs
    ensures r.Keys == dirs.Keys
    ensures r[d] == dirs[d] + {MARK_FILE_NAME}
    ensures forall e :: e in dirs && e != d ==> r[e] == dirs[e]
  {
    dirs[d := dirs[d] + {MARK_FILE_NAME}]
  }

  /** Creating or truncating the marker twice leaves the tree as once. */
  lemma MarkIdempotent(dirs: Tree, d: string)
    requires d in dirs
    ensures Marked(Marked(dirs, d), d) == Marked(dirs, d)
  {
    var once := Marked(dirs, d);
    assert once[d] + {MARK_FILE_NAME} == once[d];
  }

  /** `lock()`: an exclusive create of the lock file in the download directory; None when it exists. */
  function TryLock(dirs: Tree, root: string): (r: Option<Tree>)
    requires root in dirs
    ensures r.Some? <==> LOCK_FILE_NAME !in dirs[root]
    ensures r.Some? ==> r.value.Keys == dirs.Keys && r.value[root] == dirs[root] + {LOCK_FILE_NAME}
    ensures r.Some? ==> forall e :: e in dirs && e != root ==> r.value[e] == dirs[e]
  {
    if LOCK_FILE_NAME in dirs[root] then None
    else Some(dirs[root := dirs[root] + {LOCK_FILE_NAME}])
  }

  /** `unlock()`: the lock file is removed from the download directory. */
  function Unlocked(dirs: Tree, root: string): (r: Tree)
    requires root in dirs
    ensures r.Keys == dirs.Keys && LOCK_FILE_NAME !in r[root]
    ensures r[root] == dirs[root] - {LOCK_FILE_NAME}
    ensures forall e :: e in dirs && e != root ==> r[e] == dirs[e]
  {
    dirs[root := dirs[root] - {LOCK_FILE_NAME}]
  }

  /** Once one run holds the lock, a second attempt on the same tree fails. */
  lemma SecondLockFails(dirs: Tree, root: string)
    requires root in dirs && TryLock(dirs, root).Some?
    ensures TryLock(TryLock(dirs, root).value, root).None?
  {
  }

  /** Unlocking undoes a successful lock. */
  lemma UnlockUndoesLock(dirs: Tree, root: string)
    requires root in dirs && TryLock(dirs, root).Some?
    ensures Unlocked(TryLock(dirs, root).value, root) == dirs
  {
    var locked := TryLock(dirs, root).value;
    assert locked[root] - {LOCK_FILE_NAME} == dirs[root];
  }

  /** `scan_for_archives(d)` when `unrar` starts: the directory is marked iff its scan extracts. */
  function ScanResult(dirs: Tree, d: string): (r: Tree)
    requires d in dirs
    ensures r.Keys == dirs.Keys
  {
    if WillExtract(dirs[d]) then Marked(dirs, d) else dirs
  }

  predicate InTree(dirs: Tree, walk: seq<string>)
  {
    forall d :: d in walk ==> d in dirs
  }

  /** `traverse_directories` over the directories `os.walk` yields, in order. */
  function WalkResult(dirs: Tree, walk: seq<string>): (r: Tree)
    requires InTree(dirs, walk)
    ensures r.Keys == dirs.Keys
  {
    if walk == [] then dirs
    else ScanResult(WalkResult(dirs, walk[..|walk| - 1]), walk[|walk| - 1])
  }

  /** The directories, in walk order, whose scan hands an archive to `unrar`. */
  function ExtractedDirs(dirs: Tree, walk: seq<string>): (r: seq<string>)
    requires InTree(dirs, walk)
    ensures |r| <= |walk|
    ensures forall d :: d in r ==> d in walk
  {
    if walk == [] then []
    else
      var before := WalkResult(dirs, walk[..|walk| - 1]);
      var d := walk[|walk| - 1];
      ExtractedDirs(dirs, walk[..|walk| - 1]) + (if WillExtract(before[d]) then [d] else [])
  }

  /**
   * The archives of a walk's extractions, one per extracted directory, each
   * the archive that directory's scan picks among the entries it has in `dirs`.
   */
  predicate ArchivesChosen(dirs: Tree, extracted: seq<string>, archives: seq<string>)
  {
    && |archives| == |extracted|
    && forall k :: 0 <= k < |archives| ==> extracted[k] in dirs && ChosenArchive(archives[k], dirs[extracted[k]])
  }

  /**
   * The archive a scan picks part-way through a walk is the one the
   * directory's entries before the walk give: the walk has added at most the
   * marker.
   */
  lemma ChosenBeforeWalk(dirs: Tree, walk: seq<string>, d: string, a: string)
    requires InTree(dirs, walk) && d in dirs && ChosenArchive(a, WalkResult(dirs, walk)[d])
    ensures ChosenArchive(a, dirs[d])
  {
    WalkOnlyMarks(dirs, walk);
    if WalkResult(dirs, walk)[d] != dirs[d] {
      ChosenWithoutBookkeeping(a, dirs[d], MARK_FILE_NAME);
    }
  }

  /** The archives chosen in the locked tree are those chosen in the tree before the lock. */
  lemma ArchivesChosenBeforeLock(dirs: Tree, root: string, extracted: seq<string>, archives: seq<string>)
    requires root in dirs && TryLock(dirs, root).Some?
    requires ArchivesChosen(TryLock(dirs, root).value, extracted, archives)
    ensures ArchivesChosen(dirs, extracted, archives)
  {
    var locked := TryLock(dirs, root).value;
    forall k | 0 <= k < |archives| ensures extracted[k] in dirs && ChosenArchive(archives[k], dirs[extracted[k]]) {
      if extracted[k] == root {
        ChosenWithoutBookkeeping(archives[k], dirs[root], LOCK_FILE_NAME);
      }
    }
  }

  /** One more directory of the walk: its scan is applied to the tree the walk so far left. */
  lemma WalkStep(dirs: Tree, walk: seq<string>, i: nat)
    requires i < |walk| && InTree(dirs, walk[..i]) && walk[i] in dirs
    ensures InTree(dirs, walk[..i + 1])
    ensures WalkResult(dirs, walk[..i + 1]) == ScanResult(WalkResult(dirs, walk[..i]), walk[i])
    ensures ExtractedDirs(dirs, walk[..i + 1]) == ExtractedDirs(dirs, walk[..i]) +
      (if WillExtract(WalkResult(dirs, walk[..i])[walk[i]]) then [walk[i]] else [])
  {
    assert walk[..i + 1][..i] == walk[..i] && walk[..i + 1][i] == walk[i];
  }

  /**
   * The walk adds `.unrared` and nothing else: every directory keeps its
   * entries or gains exactly the marker, directories outside the walk keep
   * theirs, and a directory already holding the marker keeps its entries.
   */
  lemma {:induction false} WalkOnlyMarks(dirs: Tree, walk: seq<string>)
    requires InTree(dirs, walk)
    ensures var r := WalkResult(dirs, walk);
      forall d :: d in dirs ==>
        && (r[d] == dirs[d] || r[d] == dirs[d] + {MARK_FILE_NAME})
        && (d !in walk ==> r[d] == dirs[d])
        && (MARK_FILE_NAME in dirs[d] ==> r[d] == dirs[d])
  {
    if walk != [] {
      var prefix := walk[..|walk| - 1];
      assert forall d :: d in prefix ==> d in walk;
      WalkOnlyMarks(dirs, prefix);
      var mid := WalkResult(dirs, prefix);
      var last := walk[|walk| - 1];
      forall d | d in dirs && MARK_FILE_NAME in mid[d]
        ensures mid[d] + {MARK_FILE_NAME} == mid[d]
      {
      }
    }
  }

  /**
   * A directory whose scan leaves the tree unchanged: it holds the marker,
   * so a scan can at most re-create it, or its scan would not extract. Its
   * scan may still spawn `unrar` again.
   */
  predicate Settled(dirs: Tree, d: string)
    requires d in dirs
  {
    MARK_FILE_NAME in dirs[d] || !WillExtract(dirs[d])
  }

  lemma SettledScanIsNoop(dirs: Tree, d: string)
    requires d in dirs && Settled(dirs, d)
    ensures ScanResult(dirs, d) == dirs
  {
    if MARK_FILE_NAME in dirs[d] {
      assert dirs[d] + {MARK_FILE_NAME} == dirs[d];
      assert Marked(dirs, d) == dirs;
    }
  }

  lemma ScanKeepsSettled(dirs: Tree, d: string, e: string)
    requires d in dirs && e in dirs && Settled(dirs, d)
    ensures Settled(ScanResult(dirs, e), d)
  {
    if e == d {
      SettledScanIsNoop(dirs, d);
    }
  }

  /** After the walk, every walked directory is settled. */
  lemma {:induction false} WalkSettles(dirs: Tree, walk: seq<string>)
    requires InTree(dirs, walk)
    ensures forall d :: d in walk ==> Settled(WalkResult(dirs, walk), d)
  {
    if walk != [] {
      var prefix := walk[..|walk| - 1];
      var last := walk[|walk| - 1];
      assert InTree(dirs, prefix);
      WalkSettles(dirs, prefix);
      var mid := WalkResult(dirs, prefix);
      forall d | d in walk ensures Settled(WalkResult(dirs, walk), d) {
        if d == last {
          assert ScanResult(mid, last) == WalkResult(dirs, walk);
        } else {
          assert d in prefix;
          ScanKeepsSettled(mid, d, last);
        }
      }
    }
  }

  lemma {:induction false} SettledWalkIsNoop(dirs: Tree, walk: seq<string>)
    requires InTree(dirs, walk)
    requires forall d :: d in walk ==> Settled(dirs, d)
    ensures WalkResult(dirs, walk) == dirs
  {
    if walk != [] {
      var prefix := walk[..|walk| - 1];
      assert forall d :: d in prefix ==> d in walk;
      SettledWalkIsNoop(dirs, prefix);
      SettledScanIsNoop(dirs, walk[|walk| - 1]);
    }
  }

  /** Walking the same directories again changes no directory's entries. */
  lemma WalkIdempotent(dirs: Tree, walk: seq<string>)
    requires InTree(dirs, walk)
    ensures WalkResult(WalkResult(dirs, walk), walk) == WalkResult(dirs, walk)
  {
    WalkSettles(dirs, walk);
    SettledWalkIsNoop(WalkResult(dirs, walk), walk);
  }
}

/**
 * A walk over a download directory that holds the lock file, a directory
 * already marked, and a directory with one archive.
 */
module WalkExample {
  import opened CaseKeys
  import opened PathRules
  import opened Selection
  import opened TreeState

  const ROOT: string := "/dl"
  const DONE: string := "/dl/done"
  const FRESH: string := "/dl/fresh"

  function ExampleTree(): Tree
  {
    map[ROOT := {LOCK_FILE_NAME, "done", "fresh"},
        DONE := {MARK_FILE_NAME, "x.rar"},
        FRESH := {"movie.rar"}]
  }

  /** A name without a dot has no extension. */
  lemma DotlessIsNoArchive(name: string)
    requires '.' !in name
    ensures !IsArchive(name)
  {
    HasExtensionIff(name);
  }

  lemma NoArchiveInRoot()
    ensures !WillExtract({LOCK_FILE_NAME, "done", "fresh"})
  {
    var entries := {LOCK_FILE_NAME, "done", "fresh"};
    forall a | a in entries
      ensures !IsArchive(a)
    {
      if a == LOCK_FILE_NAME {
        MarkersAreNoArchives();
      } else {
        DotlessIsNoArchive(a);
      }
    }
    NoArchiveNoExtraction(entries);
  }

  lemma NoArchiveNoExtraction(entries: set<string>)
    requires forall a :: a in entries ==> !IsArchive(a)
    ensures !WillExtract(entries)
  {
  }

  /** `.unrared` sorts before `x.rar`, so the marked directory is skipped. */
  lemma MarkedDirectorySkipped()
    ensures !WillExtract({MARK_FILE_NAME, "x.rar"})
  {
    KeyDecidedByFirst(MARK_FILE_NAME, "x.rar");
    NameAfterMarker(MARK_FILE_NAME, "x.rar");
  }

  lemma FreshDirectoryExtracted()
    ensures WillExtract({"movie.rar"})
  {
    ExtIsLastDotSuffix("movie", ".rar", 0);
    assert "movie" + ".rar" == "movie.rar";
    ExtractsWitness({"movie.rar"}, "movie.rar");
  }

  /** The scan of the locked download directory changes nothing. */
  lemma RootScanIdle()
    ensures InTree(ExampleTree(), [ROOT])
    ensures WalkResult(ExampleTree(), [ROOT]) == ExampleTree()
    ensures ExtractedDirs(ExampleTree(), [ROOT]) == []
  {
    var walk := [ROOT];
    NoArchiveInRoot();
    assert walk[..0] == [];
    WalkStep(ExampleTree(), walk, 0);
    assert walk[..1] == walk;
  }

  /** Then the scan of the marked directory changes nothing either. */
  lemma FirstTwoScansIdle()
    ensures InTree(ExampleTree(), [ROOT, DONE])
    ensures WalkResult(ExampleTree(), [ROOT, DONE]) == ExampleTree()
    ensures ExtractedDirs(ExampleTree(), [ROOT, DONE]) == []
  {
    var walk := [ROOT, DONE];
    RootScanIdle();
    MarkedDirectorySkipped();
    assert walk[..1] == [ROOT];
    WalkStep(ExampleTree(), walk, 1);
    assert walk[..2] == walk;
  }

  /** One run extracts only the unmarked directory's archive, and marks only that directory. */
  lemma OnlyUnmarkedDirectoryExtracted()
    ensures ExtractedDirs(ExampleTree(), [ROOT, DONE, FRESH]) == [FRESH]
    ensures WalkResult(ExampleTree(), [ROOT, DONE, FRESH]) == Marked(ExampleTree(), FRESH)
  {
    var dirs := ExampleTree();
    var walk := [ROOT, DONE, FRESH];
    FirstTwoScansIdle();
    assert walk[..2] == [ROOT, DONE];
    FreshDirectoryExtracted();
    WalkStep(dirs, walk, 2);
    assert walk[..3] == walk;
  }
}
