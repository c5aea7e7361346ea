/**
 * The constants of `Unrar.__init__` and the decision `scan_for_archives`
 * takes for one directory, on a sorted listing and on the set of entries.
 */
module Selection {
  import opened CaseKeys
  import opened PathRules

  /** Left in a directory once its archive has been handed to `unrar`. */
  const MARK_FILE_NAME: string := ".unrared"
  /** Created in the download directory while a run holds the global lock. */
  const LOCK_FILE_NAME: string := ".auto-extract.locked"
  const EXTENSIONS_UNRAR: seq<string> := [".rar", ".r01"]
  const EXTENSIONS_UNZIP: seq<string> := [".zip"]
  /** What `extensions_list` leaves in the initially empty list: the unrar extensions, then the unzip ones. */
  const SUPPORTED_FILETYPES: seq<string> := EXTENSIONS_UNRAR + EXTENSIONS_UNZIP

  /** Exact, case-sensitive comparison with the two bookkeeping names. */
  predicate IsMarkOrLock(name: string)
  {
    name == MARK_FILE_NAME || name == LOCK_FILE_NAME
  }

  /** The extension `os.path.splitext` finds is, case-sensitively, a supported one. */
  predicate IsArchive(name: string)
  {
    Ext(name) in SUPPORTED_FILETYPES
  }

  /** An entry at which the scan of a directory stops. */
  predicate IsDecisive(name: string)
  {
    IsMarkOrLock(name) || IsArchive(name)
  }

  /** How the scan of one directory ends. */
  datatype Outcome = Skipped | Extract(archive: string) | NothingToDo

  /**
   * The scan over a sorted listing: the first decisive entry decides. It
   * extracts one of the listed archives, skips only when a marker or lock
   * name is listed, and does nothing only when no entry is decisive.
   */
  function Decision(listing: seq<string>): (r: Outcome)
    ensures r.Extract? ==> r.archive in listing && IsArchive(r.archive)
    ensures r.Skipped? ==> exists s :: s in listing && IsMarkOrLock(s)
    ensures r.NothingToDo? ==> forall n :: n in listing ==> !IsDecisive(n)
  {
    if listing == [] then NothingToDo
    else if IsMarkOrLock(listing[0]) then Skipped
    else if IsArchive(listing[0]) then Extract(listing[0])
    else Decision(listing[1..])
  }

  /**
   * The decisive entry is the first entry that is a marker, a lock name or an
   * archive; the scan skips the directory iff it is a marker or lock name,
   * extracts exactly that entry iff it is an archive, and does nothing iff
   * there is none.
   */
  lemma {:induction false} DecisiveIndex(listing: seq<string>) returns (i: nat)
    ensures i <= |listing|
    ensures forall j :: 0 <= j < i ==> !IsDecisive(listing[j])
    ensures i < |listing| ==> IsDecisive(listing[i])
    ensures Decision(listing) ==
      if i == |listing| then NothingToDo
      else if IsMarkOrLock(listing[i]) then Skipped
      else Extract(listing[i])
  {
    if listing == [] || IsDecisive(listing[0]) {
      return 0;
    }
    var k := DecisiveIndex(listing[1..]);
    i := k + 1;
  }

  /**
   * No archive shares its lower-cased key with `.unrared` or
   * `.auto-extract.locked`: its fourth character from the end is a '.',
   * theirs is a letter.
   */
  lemma ArchiveKeyIsNoMarkerKey(a: string, s: string)
    requires IsArchive(a) && IsMarkOrLock(s)
    ensures Lower(a) != Lower(s)
  {
    var root := SplitExt(a).0;
    assert a == root + Ext(a) && |Ext(a)| == 4;
    assert a[|a| - 4] == '.';
    if |a| == |s| {
      assert Lower(a)[|a| - 4] == '.';
      assert Lower(s)[|s| - 4] == s[|s| - 4] != '.';
    }
  }

  /** A marker or lock name blocks extraction only if it sorts before this archive. */
  predicate SortsBeforeMarkers(a: string, entries: set<string>)
  {
    forall s :: s in entries && IsMarkOrLock(s) ==> !KeyLe(s, a)
  }

  /** The scan of a directory with these entries extracts something. */
  predicate WillExtract(entries: set<string>)
  {
    exists a :: a in entries && IsArchive(a) && SortsBeforeMarkers(a, entries)
  }

  /**
   * `a` is what the scan of a directory with these entries hands to `unrar`:
   * an archive of the directory, sorting before every marker and lock name
   * present, whose key is least among the directory's archives.
   */
  predicate ChosenArchive(a: string, entries: set<string>)
  {
    && a in entries && IsArchive(a) && SortsBeforeMarkers(a, entries)
    && forall b :: b in entries && IsArchive(b) ==> KeyLe(a, b)
  }

  /**
   * A marker or lock file added to a directory never changes which archive
   * its scan picks: the archive chosen with it present is the one chosen
   * without it.
   */
  lemma ChosenWithoutBookkeeping(a: string, entries: set<string>, s: string)
    requires IsMarkOrLock(s) && ChosenArchive(a, entries + {s})
    ensures ChosenArchive(a, entries)
  {
    MarkersAreNoArchives();
    assert a != s;
  }

  /** A sorted listing holds exactly the directory's entries. */
  lemma ListingMembers(listing: seq<string>, entries: set<string>)
    requires IsSortedListing(listing, entries)
    ensures forall n :: n in listing <==> n in entries
  {
    forall n ensures n in listing <==> n in entries {
      assert n in listing <==> n in multiset(listing);
    }
  }

  /** When a marker or lock name comes first, no archive sorts before every marker present. */
  lemma SkippedMeansNoExtraction(listing: seq<string>, entries: set<string>, i: nat)
    requires IsSortedListing(listing, entries)
    requires i < |listing| && IsMarkOrLock(listing[i])
    requires forall j :: 0 <= j < i ==> !IsDecisive(listing[j])
    ensures !WillExtract(entries)
  {
    ListingMembers(listing, entries);
    var s := listing[i];
    if WillExtract(entries) {
      var a :| a in entries && IsArchive(a) && SortsBeforeMarkers(a, entries);
      var k :| 0 <= k < |listing| && listing[k] == a;
      ArchiveKeyIsNoMarkerKey(a, s);
      assert false;
    }
  }

  /** When an archive comes first, it sorts before every marker present. */
  lemma FirstArchiveBeforeMarkers(listing: seq<string>, entries: set<string>, i: nat)
    requires IsSortedListing(listing, entries)
    requires i < |listing| && IsArchive(listing[i])
    requires forall j :: 0 <= j < i ==> !IsDecisive(listing[j])
    ensures SortsBeforeMarkers(listing[i], entries)
  {
    ListingMembers(listing, entries);
    var a := listing[i];
    forall s | s in entries && IsMarkOrLock(s) ensures !KeyLe(s, a) {
      var k :| 0 <= k < |listing| && listing[k] == s;
      ArchiveKeyIsNoMarkerKey(a, s);
      assert listing[k] != a && IsDecisive(listing[k]);
      if KeyLe(s, a) {
        LexLeAntisymmetric(Lower(a), Lower(s));
      }
    }
  }

  /** When an archive comes first, its key is least among the archives. */
  lemma FirstArchiveIsLeast(listing: seq<string>, entries: set<string>, i: nat)
    requires IsSortedListing(listing, entries)
    requires i < |listing| && IsArchive(listing[i])
    requires forall j :: 0 <= j < i ==> !IsDecisive(listing[j])
    ensures forall b :: b in entries && IsArchive(b) ==> KeyLe(listing[i], b)
  {
    ListingMembers(listing, entries);
    var a := listing[i];
    forall b | b in entries && IsArchive(b) ensures KeyLe(a, b) {
      var k :| 0 <= k < |listing| && listing[k] == b;
      if k == i {
        LexLeReflexive(Lower(a));
      }
    }
  }

  /**
   * On every order `sorted` may produce: nothing happens iff no entry is a
   * marker, lock name or archive; an archive is extracted iff some archive
   * sorts strictly before every marker and lock name present; and the one
   * extracted is an archive of the directory, sorting before every marker
   * present, whose key is least among its archives.
   */
  lemma DecisionOnSortedListing(listing: seq<string>, entries: set<string>)
    requires IsSortedListing(listing, entries)
    ensures Decision(listing).NothingToDo? <==> forall n :: n in entries ==> !IsDecisive(n)
    ensures Decision(listing).Extract? <==> WillExtract(entries)
    ensures Decision(listing).Extract? ==> ChosenArchive(Decision(listing).archive, entries)
  {
    ListingMembers(listing, entries);
    var i := DecisiveIndex(listing);
    if i == |listing| {
      forall n | n in entries ensures !IsDecisive(n) {
        var k :| 0 <= k < |listing| && listing[k] == n;
      }
    } else if IsMarkOrLock(listing[i]) {
      SkippedMeansNoExtraction(listing, entries, i);
    } else {
      FirstArchiveBeforeMarkers(listing, entries, i);
      FirstArchiveIsLeast(listing, entries, i);
    }
  }

  /**
   * The order `os.listdir` returns names in does not change what the scan
   * does: two admissible sorted listings skip, extract or do nothing alike,
   * and extract archives that are equal up to case.
   */
  lemma DecisionIgnoresListingOrder(l1: seq<string>, l2: seq<string>, entries: set<string>)
    requires IsSortedListing(l1, entries) && IsSortedListing(l2, entries)
    ensures Decision(l1).Extract? == Decision(l2).Extract?
    ensures Decision(l1).Skipped? == Decision(l2).Skipped?
    ensures Decision(l1).Extract? ==> Lower(Decision(l1).archive) == Lower(Decision(l2).archive)
  {
    DecisionOnSortedListing(l1, entries);
    DecisionOnSortedListing(l2, entries);
    if Decision(l1).Extract? {
      LexLeAntisymmetric(Lower(Decision(l1).archive), Lower(Decision(l2).archive));
    }
  }

  /** A name that is one dot and an extension has no extension: leading dots do not count. */
  lemma DotRarIsNoArchive()
    ensures !IsArchive(".rar")
  {
    HasExtensionIff(".rar");
  }

  /** The extension is compared case-sensitively. */
  lemma UpperCaseRarIsNoArchive()
    ensures !IsArchive("MOVIE.RAR")
  {
    ExtIsLastDotSuffix("MOVIE", ".RAR", 0);
    assert "MOVIE" + ".RAR" == "MOVIE.RAR";
  }

  /** Only the suffix from the last dot is the extension. */
  lemma LastDotDecides()
    ensures IsArchive("a.b.rar")
  {
    ExtIsLastDotSuffix("a.b", ".rar", 2);
    assert "a.b" + ".rar" == "a.b.rar";
  }

  /** `.unrared` is all leading dot: it has no extension. */
  lemma MarkIsNoArchive()
    ensures !IsArchive(MARK_FILE_NAME)
  {
    HasExtensionIff(MARK_FILE_NAME);
  }

  /** The extension of `.auto-extract.locked` is `.locked`. */
  lemma LockIsNoArchive()
    ensures !IsArchive(LOCK_FILE_NAME)
  {
    ExtIsLastDotSuffix(".auto-extract", ".locked", 1);
    assert ".auto-extract" + ".locked" == LOCK_FILE_NAME;
  }

  /** Neither bookkeeping name is an archive. */
  lemma MarkersAreNoArchives()
    ensures !IsArchive(MARK_FILE_NAME) && !IsArchive(LOCK_FILE_NAME)
  {
    MarkIsNoArchive();
    LockIsNoArchive();
  }

  lemma ExtractsWitness(entries: set<string>, a: string)
    requires a in entries && IsArchive(a) && SortsBeforeMarkers(a, entries)
    ensures WillExtract(entries)
  {
  }

  /** A directory holding one bookkeeping name and one archive that sorts before it extracts that archive. */
  lemma ArchiveBeforeMarker(m: string, a: string)
    requires IsMarkOrLock(m) && !IsMarkOrLock(a) && IsArchive(a) && !KeyLe(m, a)
    ensures WillExtract({m, a})
  {
    var entries := {m, a};
    forall s | s in entries && IsMarkOrLock(s) ensures !KeyLe(s, a) {
      assert s == m;
    }
    ExtractsWitness(entries, a);
  }

  /** A directory holding one bookkeeping name and one other name that sorts after it extracts nothing. */
  lemma NameAfterMarker(m: string, a: string)
    requires IsMarkOrLock(m) && KeyLe(m, a)
    ensures !WillExtract({m, a})
  {
    MarkersAreNoArchives();
  }

  /** `(2009) movie.rar` is an archive whose key starts with '(', which sorts before '.'. */
  lemma ParenthesisedArchive()
    ensures IsArchive("(2009) movie.rar")
    ensures !KeyLe(MARK_FILE_NAME, "(2009) movie.rar") && !KeyLe(LOCK_FILE_NAME, "(2009) movie.rar")
  {
    ExtIsLastDotSuffix("(2009) movie", ".rar", 0);
    assert "(2009) movie" + ".rar" == "(2009) movie.rar";
    KeyDecidedByFirst("(2009) movie.rar", MARK_FILE_NAME);
    KeyDecidedByFirst("(2009) movie.rar", LOCK_FILE_NAME);
  }

  /**
   * A directory that already holds `.unrared` is scanned again when one of
   * its archives sorts before it.
   */
  lemma MarkedDirectoryStillExtracts()
    ensures WillExtract({MARK_FILE_NAME, "(2009) movie.rar"})
  {
    ParenthesisedArchive();
    ArchiveBeforeMarker(MARK_FILE_NAME, "(2009) movie.rar");
  }

  /**
   * The scan the script's header promises: a directory holding `.unrared`
   * has had its archive extracted and is passed over, whatever sorts first
   * in it; any other directory is scanned as `Decision` scans it.
   */
  function IntendedDecision(listing: seq<string>): Outcome
  {
    if MARK_FILE_NAME in listing then Skipped else Decision(listing)
  }

  /** Under the intended scan, a directory holding `.unrared` is never extracted again. */
  lemma IntendedMarkedNeverExtracted(listing: seq<string>, entries: set<string>)
    requires IsSortedListing(listing, entries) && MARK_FILE_NAME in entries
    ensures IntendedDecision(listing) == Skipped
  {
    ListingMembers(listing, entries);
  }

  /** In a directory without `.unrared` the intended scan does what the script's scan does. */
  lemma IntendedAgreesWhenUnmarked(listing: seq<string>, entries: set<string>)
    requires IsSortedListing(listing, entries) && MARK_FILE_NAME !in entries
    ensures IntendedDecision(listing) == Decision(listing)
    ensures IntendedDecision(listing).Extract? <==> WillExtract(entries)
  {
    ListingMembers(listing, entries);
    DecisionOnSortedListing(listing, entries);
  }

  /**
   * The marked directory of `MarkedDirectoryStillExtracts`: on every listing
   * the script's scan extracts `(2009) movie.rar` again, where the intended
   * scan passes the directory over.
   */
  lemma MarkedExampleRescanned(listing: seq<string>)
    requires IsSortedListing(listing, {MARK_FILE_NAME, "(2009) movie.rar"})
    ensures Decision(listing) == Extract("(2009) movie.rar")
    ensures IntendedDecision(listing) == Skipped
  {
    MarkedDirectoryStillExtracts();
    MarkIsNoArchive();
    OtherEntryExtracted(listing, MARK_FILE_NAME, "(2009) movie.rar");
    IntendedMarkedNeverExtracted(listing, {MARK_FILE_NAME, "(2009) movie.rar"});
  }

  /** In a directory of a non-archive and one other entry, an extraction can only name the other entry. */
  lemma OtherEntryExtracted(listing: seq<string>, m: string, a: string)
    requires IsSortedListing(listing, {m, a}) && !IsArchive(m) && WillExtract({m, a})
    ensures Decision(listing) == Extract(a)
  {
    DecisionOnSortedListing(listing, {m, a});
  }

  /**
   * While a run holds the lock, the download directory itself contains
   * `.auto-extract.locked`; an archive there whose name sorts after it is
   * not extracted ...
   */
  lemma LockedDirectorySkipsArchive()
    ensures !WillExtract({LOCK_FILE_NAME, "movie.rar"})
  {
    KeyDecidedByFirst(LOCK_FILE_NAME, "movie.rar");
    NameAfterMarker(LOCK_FILE_NAME, "movie.rar");
  }

  /** ... but one that sorts before it is. */
  lemma LockedDirectoryStillExtracts()
    ensures WillExtract({LOCK_FILE_NAME, "(2009) movie.rar"})
  {
    ParenthesisedArchive();
    ArchiveBeforeMarker(LOCK_FILE_NAME, "(2009) movie.rar");
  }

  lemma R01IsArchive()
    ensures IsArchive("a.r01")
  {
    ExtIsLastDotSuffix("a", ".r01", 0);
    assert "a" + ".r01" == "a.r01";
  }

  /** Lower-cased, `a.r01` sorts before both `B.rar` and `a.rar`. */
  lemma R01SortsFirst()
    ensures !KeyLe("B.rar", "a.r01") && !KeyLe("a.rar", "a.r01")
  {
    var y := Lower("a.r01");
    assert y[0] == 'a' && y[1] == '.' && y[2] == 'r' && y[3] == '0';
    LexLeDecidedAt(Lower("B.rar"), y, 0);
    var x := Lower("a.rar");
    assert x[0] == 'a' && x[1] == '.' && x[2] == 'r' && x[3] == 'a';
    LexLeDecidedAt(x, y, 3);
  }

  /**
   * An archive that sorts before every marker present, and strictly before
   * every other entry, is the one extracted whatever the listing order.
   */
  lemma StrictlyLeastArchiveExtracted(listing: seq<string>, entries: set<string>, a: string)
    requires IsSortedListing(listing, entries)
    requires a in entries && IsArchive(a) && SortsBeforeMarkers(a, entries)
    requires forall b :: b in entries && b != a ==> !KeyLe(b, a)
    ensures Decision(listing) == Extract(a)
  {
    DecisionOnSortedListing(listing, entries);
  }

  /** Of `B.rar`, `a.r01`, `a.rar`, the archive `a.r01` sorts strictly first, and none is a bookkeeping name. */
  lemma R01LeastOfThree()
    ensures IsArchive("a.r01") && SortsBeforeMarkers("a.r01", {"B.rar", "a.r01", "a.rar"})
    ensures forall b :: b in {"B.rar", "a.r01", "a.rar"} && b != "a.r01" ==> !KeyLe(b, "a.r01")
  {
    R01IsArchive();
    R01SortsFirst();
    var entries := {"B.rar", "a.r01", "a.rar"};
    forall s | s in entries ensures !IsMarkOrLock(s) {
    }
    forall b | b in entries && b != "a.r01" ensures !KeyLe(b, "a.r01") {
      assert b == "B.rar" || b == "a.rar";
    }
  }

  /** `B.rar`, `a.r01`, `a.rar`: whatever order `os.listdir` gives, `a.r01` is the one extracted. */
  lemma FirstSortedArchiveExample(listing: seq<string>)
    requires IsSortedListing(listing, {"B.rar", "a.r01", "a.rar"})
    ensures Decision(listing) == Extract("a.r01")
  {
    R01LeastOfThree();
    StrictlyLeastArchiveExtracted(listing, {"B.rar", "a.r01", "a.rar"}, "a.r01");
  }
}
