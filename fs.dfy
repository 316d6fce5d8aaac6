/** The two `std::fs` operations the organize functions change the disk with,
    `create_dir_all` and `rename`, as transitions of an abstract file system: a map from
    the path of each regular file to its contents, and the set of directory paths. */
module Fs {
  import opened Options
  import opened Paths

  /** What a regular file holds (its bytes and metadata), kept whole by a rename. */
  type Contents = nat

  datatype FsState = FsState(files: map<Path, Contents>, dirs: set<Path>)

  /** What the operations' outcome depends on beyond the tree itself. */
  datatype Platform = Platform(
    denied: set<Path>,     // directories whose entries the process may not add or remove
    replaceExisting: bool  // whether `rename` onto an existing file replaces it
  )

  datatype Error = NotFound | NotADirectory | AlreadyExists | IsADirectory | PermissionDenied

  datatype FsResult = FsResult(state: FsState, error: Option<Error>)

  /** The root directory exists, nothing is both a file and a directory, and everything
      but the root sits in an existing directory. */
  predicate WellFormed(s: FsState) {
    && [] in s.dirs
    && (forall p :: p in s.files ==> p != [] && p !in s.dirs && Parent(p) in s.dirs)
    && (forall p :: p in s.dirs && p != [] ==> Parent(p) in s.dirs)
  }

  /** `Path::exists`. */
  predicate Exists(s: FsState, p: Path) {
    p in s.files || p in s.dirs
  }

  /** `fs::create_dir_all`: make `p` and every missing directory above it, top down. An
      existing directory is success; a file in the way, or a directory the process may not
      write to, stops it, and the directories already made stay. */
  function CreateDirAll(s: FsState, pf: Platform, p: Path): FsResult
    decreases |p|
  {
    if p in s.dirs || p == [] then FsResult(s, None)
    else if p in s.files then FsResult(s, Some(AlreadyExists))
    else if Parent(p) in s.files then FsResult(s, Some(NotADirectory))
    else
      var up := if Parent(p) in s.dirs then FsResult(s, None) else CreateDirAll(s, pf, Parent(p));
      if up.error.Some? then up
      else if Parent(p) in pf.denied then FsResult(up.state, Some(PermissionDenied))
      else FsResult(FsState(up.state.files, up.state.dirs + {p}), None)
  }

  /** `fs::rename` of a regular file. Renaming a file onto itself succeeds and changes
      nothing; a failed rename changes nothing. */
  function Rename(s: FsState, pf: Platform, src: Path, dst: Path): FsResult {
    if src !in s.files || src == [] then FsResult(s, Some(NotFound))
    else if dst == [] then FsResult(s, Some(IsADirectory))
    else if Parent(dst) in s.files then FsResult(s, Some(NotADirectory))
    else if Parent(dst) !in s.dirs then FsResult(s, Some(NotFound))
    else if src == dst then FsResult(s, None)
    else if Parent(src) in pf.denied || Parent(dst) in pf.denied then FsResult(s, Some(PermissionDenied))
    else if dst in s.dirs then FsResult(s, Some(IsADirectory))
    else if dst in s.files && !pf.replaceExisting then FsResult(s, Some(AlreadyExists))
    else FsResult(FsState((s.files - {src})[dst := s.files[src]], s.dirs), None)
  }

  /** `create_dir_all` leaves every file where it was, removes no directory, and adds only
      `p` and directories above it; on success `p` is a directory. */
  lemma {:induction false} CreateDirAllEffect(s: FsState, pf: Platform, p: Path)
    ensures var r := CreateDirAll(s, pf, p);
            && r.state.files == s.files
            && s.dirs <= r.state.dirs
            && (forall q :: q in r.state.dirs && q !in s.dirs ==> |q| <= |p| && q == p[..|q|])
            && (r.error.None? ==> p == [] || p in r.state.dirs)
    decreases |p|
  {
    if p !in s.dirs && p != [] && p !in s.files && Parent(p) !in s.files && Parent(p) !in s.dirs {
      CreateDirAllEffect(s, pf, Parent(p));
    }
  }

  /** `create_dir_all` keeps the file system well formed, failing or not. */
  lemma {:induction false} CreateDirAllWellFormed(s: FsState, pf: Platform, p: Path)
    requires WellFormed(s)
    ensures WellFormed(CreateDirAll(s, pf, p).state)
    decreases |p|
  {
    if p !in s.dirs && p != [] && p !in s.files && Parent(p) !in s.files {
      var up := if Parent(p) in s.dirs then FsResult(s, None) else CreateDirAll(s, pf, Parent(p));
      if Parent(p) !in s.dirs {
        CreateDirAllWellFormed(s, pf, Parent(p));
        CreateDirAllEffect(s, pf, Parent(p));
      }
      if up.error.None? && Parent(p) !in pf.denied {
        var t := FsState(up.state.files, up.state.dirs + {p});
        assert p !in up.state.files;
        assert WellFormed(t);
      }
    }
  }

  /** Creating a directory that already exists does nothing. */
  lemma CreateDirAllExisting(s: FsState, pf: Platform, p: Path)
    requires p in s.dirs
    ensures CreateDirAll(s, pf, p) == FsResult(s, None)
  {
  }

  /** A successful rename to another path moves the file's contents to `dst`, leaves
      nothing at `src`, and changes no other path; a failed one changes nothing. */
  lemma RenameEffect(s: FsState, pf: Platform, src: Path, dst: Path)
    ensures var r := Rename(s, pf, src, dst);
            && r.state.dirs == s.dirs
            && (r.error.Some? || src == dst ==> r.state == s)
            && (r.error.None? ==> src in s.files && dst in r.state.files
                                  && r.state.files[dst] == s.files[src])
            && (r.error.None? && src != dst ==>
                  src !in r.state.files
                  && forall q :: q != src && q != dst ==>
                       (q in r.state.files <==> q in s.files)
                       && (q in s.files ==> r.state.files[q] == s.files[q]))
  {
  }

  /** A rename keeps the file system well formed. */
  lemma RenameWellFormed(s: FsState, pf: Platform, src: Path, dst: Path)
    requires WellFormed(s)
    ensures WellFormed(Rename(s, pf, src, dst).state)
  {
  }

  /** Where a rename may not replace an existing file, it keeps the number of files. */
  lemma RenameKeepsCount(s: FsState, pf: Platform, src: Path, dst: Path)
    requires !pf.replaceExisting
    ensures |Rename(s, pf, src, dst).state.files| == |s.files|
  {
    var r := Rename(s, pf, src, dst);
    if r.error.None? && src != dst {
      assert dst !in s.files;
      var without := s.files - {src};
      assert without.Keys == s.files.Keys - {src};
      assert |without.Keys| == |s.files.Keys| - 1;
      assert r.state.files.Keys == without.Keys + {dst};
    }
  }
}
