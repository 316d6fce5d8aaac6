/** The file system the organize functions run against, as an object whose state the two
    `std::fs` calls update in place. */
module Disk {
  import opened Options
  import opened Paths
  import Fs

  class FileSystem {
    var files: map<Path, Fs.Contents>
    var dirs: set<Path>
    const platform: Fs.Platform

    function State(): Fs.FsState
      reads this
    {
      Fs.FsState(files, dirs)
    }

    predicate Valid()
      reads this
    {
      Fs.WellFormed(State())
    }

    constructor (s: Fs.FsState, pf: Fs.Platform)
      requires Fs.WellFormed(s)
      ensures Valid() && State() == s && platform == pf
    {
      files, dirs, platform := s.files, s.dirs, pf;
    }

    /** `Path::exists`. */
    predicate Exists(p: Path)
      reads this
    {
      Fs.Exists(State(), p)
    }

    /** `fs::create_dir_all`. */
    method CreateDirAll(p: Path) returns (error: Option<Fs.Error>)
      requires Valid()
      modifies this
      ensures Valid()
      ensures Fs.CreateDirAll(old(State()), platform, p) == Fs.FsResult(State(), error)
    {
      var r := Fs.CreateDirAll(State(), platform, p);
      Fs.CreateDirAllWellFormed(State(), platform, p);
      files, dirs, error := r.state.files, r.state.dirs, r.error;
    }

    /** `fs::rename`. */
    method Rename(src: Path, dst: Path) returns (error: Option<Fs.Error>)
      requires Valid()
      modifies this
      ensures Valid()
      ensures Fs.Rename(old(State()), platform, src, dst) == Fs.FsResult(State(), error)
    {
      var r := Fs.Rename(State(), platform, src, dst);
      Fs.RenameWellFormed(State(), platform, src, dst);
      files, dirs, error := r.state.files, r.state.dirs, r.error;
    }
  }
}
