/**
 * `find_include_dir`: the search for the system directory holding a library's headers.
 * Each include root is tried in turn, and under it each directory base name; the first
 * candidate that is a directory holding every header file is the answer.
 */
module IncludeSearch {
  import opened Common

  /** The file system as the search sees it: which paths are directories
      (`os.path.isdir`), which paths exist (`os.path.exists`), and `os.path.join`. */
  datatype FileSystem = FileSystem(dirs: set<Path>, entries: set<Path>, join: (Path, Path) -> Path)

  /** What the search raises. */
  datatype SearchError =
    | DirNamesEmpty                       // ValueError('directory search list is empty')
    | IncludeFilesEmpty                   // ValueError('header file list is empty')
    | FoundUnbound                        // UnboundLocalError: `found` read before it was assigned
    | NotLocated(includeFiles: seq<Path>) // ValueError('unable to locate include directory ...')

  /** The roots searched when the caller gives none. */
  const DefaultIncludeRoots: seq<Path> := ["/usr/include", "/usr/local/include"]

  /** The roots actually searched: the caller's, unless they are `None` or empty. */
  function SearchRoots(includeRoots: Option<seq<Path>>): (roots: seq<Path>)
    ensures |roots| > 0
    ensures includeRoots.Some? && includeRoots.value != [] ==> roots == includeRoots.value
    ensures includeRoots.None? || includeRoots.value == [] ==> roots == DefaultIncludeRoots
  {
    if includeRoots.None? || includeRoots.value == [] then DefaultIncludeRoots else includeRoots.value
  }

  /** `dir` holds every one of the header files. */
  predicate HoldsAll(fs: FileSystem, dir: Path, includeFiles: seq<Path>)
  {
    forall k :: 0 <= k < |includeFiles| ==> fs.join(dir, includeFiles[k]) in fs.entries
  }

  /** `dir` is a directory holding every one of the header files. */
  predicate Qualifies(fs: FileSystem, dir: Path, includeFiles: seq<Path>)
  {
    dir in fs.dirs && HoldsAll(fs, dir, includeFiles)
  }

  /** Candidate (a, b) — root `a` joined with name `b` — is examined before (i, j):
      roots are the outer loop, names the inner one. */
  predicate Earlier(a: int, b: int, i: int, j: int)
  {
    a < i || (a == i && b < j)
  }

  /** No candidate examined before (i, j) qualifies. */
  predicate NoneQualifyBefore(fs: FileSystem, roots: seq<Path>, names: seq<Path>, includeFiles: seq<Path>, i: int, j: int)
  {
    forall a, b :: 0 <= a < |roots| && 0 <= b < |names| && Earlier(a, b, i, j) ==>
      !Qualifies(fs, fs.join(roots[a], names[b]), includeFiles)
  }

  /** `dir` is the first qualifying candidate in search order. */
  predicate FirstQualifying(fs: FileSystem, roots: seq<Path>, names: seq<Path>, includeFiles: seq<Path>, dir: Path)
  {
    exists a, b :: 0 <= a < |roots| && 0 <= b < |names| && dir == fs.join(roots[a], names[b]) &&
      Qualifies(fs, dir, includeFiles) && NoneQualifyBefore(fs, roots, names, includeFiles, a, b)
  }

  /** The first candidate examined: the first root joined with the first name. */
  function FirstCandidate(fs: FileSystem, includeRoots: Option<seq<Path>>, dirNames: seq<Path>): Path
    requires dirNames != []
  {
    fs.join(SearchRoots(includeRoots)[0], dirNames[0])
  }

  /** `find_include_dir(dir_names, include_files, include_roots)`. The empty-list checks
      come first, names before files. If the first candidate is not a directory, `found`
      is read unassigned. Otherwise the result is the first qualifying candidate, or
      `NotLocated` when there is none. */
  method FindIncludeDir(fs: FileSystem, dirNames: seq<Path>, includeFiles: seq<Path>, includeRoots: Option<seq<Path>>)
    returns (r: Result<Path, SearchError>)
    ensures r == Failure(DirNamesEmpty) <==> dirNames == []
    ensures r == Failure(IncludeFilesEmpty) <==> dirNames != [] && includeFiles == []
    ensures r == Failure(FoundUnbound) <==>
              dirNames != [] && includeFiles != [] && FirstCandidate(fs, includeRoots, dirNames) !in fs.dirs
    ensures r == Failure(NotLocated(includeFiles)) <==>
              dirNames != [] && includeFiles != [] && FirstCandidate(fs, includeRoots, dirNames) in fs.dirs &&
              NoneQualifyBefore(fs, SearchRoots(includeRoots), dirNames, includeFiles, |SearchRoots(includeRoots)|, 0)
    ensures r.Failure? && r.error.NotLocated? ==> r.error.includeFiles == includeFiles
    ensures r.Success? ==> FirstQualifying(fs, SearchRoots(includeRoots), dirNames, includeFiles, r.value)
  {
    var roots := DefaultIncludeRoots;
    if includeRoots.Some? && includeRoots.value != [] {
      roots := includeRoots.value;
    }
    assert roots == SearchRoots(includeRoots);
    if |dirNames| == 0 {
      return Failure(DirNamesEmpty);
    }
    if |includeFiles| == 0 {
      return Failure(IncludeFilesEmpty);
    }
    ghost var first := fs.join(roots[0], dirNames[0]);

    var found: Option<bool> := None;  // unbound until the first directory is examined
    var i := 0;
    while i < |roots|
      invariant 0 <= i <= |roots|
      invariant found.None? <==> i == 0
      invariant found.Some? ==> found == Some(false) && first in fs.dirs
      invariant NoneQualifyBefore(fs, roots, dirNames, includeFiles, i, 0)
    {
      var j := 0;
      while j < |dirNames|
        invariant 0 <= j <= |dirNames|
        invariant found.None? <==> i == 0 && j == 0
        invariant found.Some? ==> found == Some(false) && first in fs.dirs
        invariant NoneQualifyBefore(fs, roots, dirNames, includeFiles, i, j)
      {
        var includeDir := fs.join(roots[i], dirNames[j]);
        if includeDir in fs.dirs {
          var holds := HoldsAllFiles(fs, includeDir, includeFiles);
          found := Some(holds);
        }
        if found.None? {
          return Failure(FoundUnbound);
        }
        if found.value {
          return Success(includeDir);
        }
        j := j + 1;
      }
      assert NoneQualifyBefore(fs, roots, dirNames, includeFiles, i + 1, 0) by {
        forall a, b | 0 <= a < |roots| && 0 <= b < |dirNames| && Earlier(a, b, i + 1, 0)
          ensures !Qualifies(fs, fs.join(roots[a], dirNames[b]), includeFiles)
        {
          assert Earlier(a, b, i, |dirNames|);
        }
      }
      i := i + 1;
    }
    return Failure(NotLocated(includeFiles));
  }

  /** The loop over the header files: `found` is set `True` on each turn and `False`
      at the first missing file, where the loop stops; so it ends `True` exactly when every
      file exists. The caller has already rejected an empty list, so the loop assigns
      `found` at least once. */
  method HoldsAllFiles(fs: FileSystem, includeDir: Path, includeFiles: seq<Path>) returns (found: bool)
    requires includeFiles != []
    ensures found == HoldsAll(fs, includeDir, includeFiles)
  {
    found := false;
    var m := 0;
    while m < |includeFiles|
      invariant 0 <= m <= |includeFiles|
      invariant forall k :: 0 <= k < m ==> fs.join(includeDir, includeFiles[k]) in fs.entries
      invariant m > 0 ==> found
    {
      found := true;
      var filePath := fs.join(includeDir, includeFiles[m]);
      if filePath !in fs.entries {
        found := false;
        break;
      }
      m := m + 1;
    }
  }

  // ---------------------------------------------------------------------------
  // The search, stated per candidate
  // ---------------------------------------------------------------------------

  /** The first qualifying candidate is unique: two candidates that are both first in
      search order are the same path. */
  lemma FirstQualifyingIsUnique(fs: FileSystem, roots: seq<Path>, names: seq<Path>, includeFiles: seq<Path>,
                                d1: Path, d2: Path)
    requires FirstQualifying(fs, roots, names, includeFiles, d1)
    requires FirstQualifying(fs, roots, names, includeFiles, d2)
    ensures d1 == d2
  {
    var a1, b1 :| 0 <= a1 < |roots| && 0 <= b1 < |names| && d1 == fs.join(roots[a1], names[b1]) &&
      Qualifies(fs, d1, includeFiles) && NoneQualifyBefore(fs, roots, names, includeFiles, a1, b1);
    var a2, b2 :| 0 <= a2 < |roots| && 0 <= b2 < |names| && d2 == fs.join(roots[a2], names[b2]) &&
      Qualifies(fs, d2, includeFiles) && NoneQualifyBefore(fs, roots, names, includeFiles, a2, b2);
    assert !Earlier(a1, b1, a2, b2) && !Earlier(a2, b2, a1, b1);
  }

  /** A qualifying first candidate is always the answer, whatever follows it. */
  lemma FirstCandidateQualifying(fs: FileSystem, roots: seq<Path>, names: seq<Path>, includeFiles: seq<Path>)
    requires roots != [] && names != []
    requires Qualifies(fs, fs.join(roots[0], names[0]), includeFiles)
    ensures FirstQualifying(fs, roots, names, includeFiles, fs.join(roots[0], names[0]))
  {
    assert NoneQualifyBefore(fs, roots, names, includeFiles, 0, 0);
  }
}
