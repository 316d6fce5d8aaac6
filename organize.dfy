/** `organize_by_type` and `organize_by_date`: walk the entries under a root directory and
    move every regular file into the bucket directory `root/<key>`, creating the bucket
    when it is missing. The first failing `create_dir_all` or `rename` (and, by date, a
    modification time the date key cannot be taken of) panics, which ends the run with
    the moves already made left in place. */
module Organize {
  import opened Options
  import opened Paths
  import opened Entries
  import opened BucketKeys
  import Fs
  import opened Disk

  datatype Policy = ByType | ByDate

  /** Why a run stopped early: each is an `expect` or `unwrap` that panics. */
  datatype Abort =
    | CreateDirFailed(dir: Path, error: Fs.Error)
    | RenameFailed(from: Path, to: Path, error: Fs.Error)
    | DateKeyFailed(path: Path, keyError: DateKeyError)
    | NoFileName(path: Path)

  /** The file-system calls that change the disk, in the order a run makes them. */
  datatype FsCall = CreateDirAllCall(dir: Path) | RenameCall(from: Path, to: Path)

  /** What the loop body makes of an entry before it touches the disk. */
  datatype Plan = Pass | Fail(abort: Abort) | Move(key: string)

  /** Only regular files are filed; by date, a file whose metadata or modification time
      cannot be read is passed over, and one whose time has no date key panics. */
  function PlanFor(policy: Policy, e: Entry): (r: Plan)
    ensures r.Pass? <==> e.kind != File
                         || (policy == ByDate && (e.meta.None? || e.meta.value.mtime.None?))
    ensures r.Move? && policy == ByType ==> r.key == TypeKey(FileName(e.path).GetOr([]))
    ensures r.Move? && policy == ByDate ==> DateKey(e.meta.value.mtime.value) == Key(r.key)
    ensures r.Fail? <==> policy == ByDate && e.kind == File && e.meta.Some?
                         && e.meta.value.mtime.Some? && DateKey(e.meta.value.mtime.value).Fails?
    ensures r.Fail? ==> r.abort == DateKeyFailed(e.path, DateKey(e.meta.value.mtime.value).error)
  {
    if e.kind != File then Pass
    else match policy
      case ByType => Move(TypeKey(FileName(e.path).GetOr([])))
      case ByDate =>
        if e.meta.None? || e.meta.value.mtime.None? then Pass
        else match DateKey(e.meta.value.mtime.value)
          case Fails(error) => Fail(DateKeyFailed(e.path, error))
          case Key(key) => Move(key)
  }

  /** `dir.join(key)`: joining the empty key adds only a trailing separator. */
  function Bucket(root: Path, key: string): Path {
    if key == "" then root else root + [Chars(key)]
  }

  /** `type_dir.exists()`: a path with a trailing separator exists only as a directory. */
  predicate BucketExists(s: Fs.FsState, root: Path, key: string) {
    if key == "" then root in s.dirs else Fs.Exists(s, Bucket(root, key))
  }

  datatype RunResult = RunResult(state: Fs.FsState, calls: seq<FsCall>, aborted: Option<Abort>)

  /** The bucket directory for `key`, created when it does not exist. */
  function MakeBucket(s: Fs.FsState, pf: Fs.Platform, root: Path, key: string): Fs.FsResult {
    if BucketExists(s, root, key) then Fs.FsResult(s, None) else Fs.CreateDirAll(s, pf, Bucket(root, key))
  }

  /** Filing the file at `path` under bucket `key`. */
  function MoveInto(s: Fs.FsState, pf: Fs.Platform, root: Path, key: string, path: Path): RunResult {
    var bucket := Bucket(root, key);
    var made := MakeBucket(s, pf, root, key);
    var calls := if BucketExists(s, root, key) then [] else [CreateDirAllCall(bucket)];
    if made.error.Some? then RunResult(made.state, calls, Some(CreateDirFailed(bucket, made.error.value)))
    else match FileName(path)
      case None => RunResult(made.state, calls, Some(NoFileName(path)))
      case Some(n) =>
        var moved := Fs.Rename(made.state, pf, path, bucket + [n]);
        RunResult(moved.state, calls + [RenameCall(path, bucket + [n])],
                  if moved.error.Some? then Some(RenameFailed(path, bucket + [n], moved.error.value))
                  else None)
  }

  /** One pass of the loop body. */
  function Step(s: Fs.FsState, pf: Fs.Platform, root: Path, policy: Policy, e: Entry): RunResult {
    match PlanFor(policy, e)
    case Pass => RunResult(s, [], None)
    case Fail(abort) => RunResult(s, [], Some(abort))
    case Move(key) => MoveInto(s, pf, root, key, e.path)
  }

  /** `r`, with `calls` made before it. */
  function Then(calls: seq<FsCall>, r: RunResult): RunResult {
    RunResult(r.state, calls + r.calls, r.aborted)
  }

  /** The whole loop: entry by entry until one aborts. */
  function Run(s: Fs.FsState, pf: Fs.Platform, root: Path, policy: Policy, entries: seq<Entry>): RunResult
    decreases |entries|
  {
    if entries == [] then RunResult(s, [], None)
    else
      var first := Step(s, pf, root, policy, entries[0]);
      if first.aborted.Some? then first
      else Then(first.calls, Run(first.state, pf, root, policy, entries[1..]))
  }

  /** The loop body once the bucket key is known: create the bucket if it does not exist,
      then move the file into it under its own name. */
  method FileInto(fs: FileSystem, root: Path, key: string, path: Path)
    returns (calls: seq<FsCall>, aborted: Option<Abort>)
    requires fs.Valid()
    modifies fs
    ensures fs.Valid()
    ensures MoveInto(old(fs.State()), fs.platform, root, key, path) == RunResult(fs.State(), calls, aborted)
  {
    var bucket := Bucket(root, key);
    calls := [];
    var present := if key == "" then root in fs.dirs else fs.Exists(bucket);
    if !present {
      var error := fs.CreateDirAll(bucket);
      calls := [CreateDirAllCall(bucket)];
      if error.Some? {
        return calls, Some(CreateDirFailed(bucket, error.value));
      }
    }
    if path == [] {
      return calls, Some(NoFileName(path));
    }
    var dst := bucket + [path[|path| - 1]];
    var error := fs.Rename(path, dst);
    calls := calls + [RenameCall(path, dst)];
    aborted := if error.Some? then Some(RenameFailed(path, dst, error.value)) else None;
  }

  lemma RunUnfold(s: Fs.FsState, pf: Fs.Platform, root: Path, policy: Policy, entries: seq<Entry>, i: nat)
    requires i < |entries|
    ensures var first := Step(s, pf, root, policy, entries[i]);
            Run(s, pf, root, policy, entries[i..])
            == if first.aborted.Some? then first
               else Then(first.calls, Run(first.state, pf, root, policy, entries[i + 1..]))
  {
    assert entries[i..][1..] == entries[i + 1..];
  }

  lemma ThenThen(a: seq<FsCall>, b: seq<FsCall>, r: RunResult)
    ensures Then(a, Then(b, r)) == Then(a + b, r)
  {
  }

  /** `organize_by_type`. */
  method OrganizeByType(fs: FileSystem, root: Path, entries: seq<Entry>)
    returns (calls: seq<FsCall>, aborted: Option<Abort>)
    requires fs.Valid()
    modifies fs
    ensures fs.Valid()
    ensures Run(old(fs.State()), fs.platform, root, ByType, entries) == RunResult(fs.State(), calls, aborted)
  {
    calls, aborted := [], None;
    for i := 0 to |entries|
      invariant fs.Valid()
      invariant Run(old(fs.State()), fs.platform, root, ByType, entries)
                == Then(calls, Run(fs.State(), fs.platform, root, ByType, entries[i..]))
    {
      ghost var before := fs.State();
      RunUnfold(before, fs.platform, root, ByType, entries, i);
      var e := entries[i];
      if e.kind == File {
        var key := TypeKey(FileName(e.path).GetOr([]));
        var more, failed := FileInto(fs, root, key, e.path);
        assert Step(before, fs.platform, root, ByType, e) == RunResult(fs.State(), more, failed);
        ThenThen(calls, more, Run(fs.State(), fs.platform, root, ByType, entries[i + 1..]));
        calls := calls + more;
        if failed.Some? {
          return calls, failed;
        }
      } else {
        assert Step(before, fs.platform, root, ByType, e) == RunResult(before, [], None);
        assert [] + Run(before, fs.platform, root, ByType, entries[i + 1..]).calls
               == Run(before, fs.platform, root, ByType, entries[i + 1..]).calls;
      }
    }
    assert calls + [] == calls;
  }

  /** `organize_by_date`. */
  method OrganizeByDate(fs: FileSystem, root: Path, entries: seq<Entry>)
    returns (calls: seq<FsCall>, aborted: Option<Abort>)
    requires fs.Valid()
    modifies fs
    ensures fs.Valid()
    ensures Run(old(fs.State()), fs.platform, root, ByDate, entries) == RunResult(fs.State(), calls, aborted)
  {
    calls, aborted := [], None;
    for i := 0 to |entries|
      invariant fs.Valid()
      invariant Run(old(fs.State()), fs.platform, root, ByDate, entries)
                == Then(calls, Run(fs.State(), fs.platform, root, ByDate, entries[i..]))
    {
      ghost var before := fs.State();
      RunUnfold(before, fs.platform, root, ByDate, entries, i);
      var e := entries[i];
      if e.kind == File && e.meta.Some? && e.meta.value.mtime.Some? {
        match DateKey(e.meta.value.mtime.value)
        case Fails(error) =>
          assert calls + [] == calls;
          return calls, Some(DateKeyFailed(e.path, error));
        case Key(key) =>
          var more, failed := FileInto(fs, root, key, e.path);
          assert Step(before, fs.platform, root, ByDate, e) == RunResult(fs.State(), more, failed);
          ThenThen(calls, more, Run(fs.State(), fs.platform, root, ByDate, entries[i + 1..]));
          calls := calls + more;
          if failed.Some? {
            return calls, failed;
          }
      } else {
        assert Step(before, fs.platform, root, ByDate, e) == RunResult(before, [], None);
        assert [] + Run(before, fs.platform, root, ByDate, entries[i + 1..]).calls
               == Run(before, fs.platform, root, ByDate, entries[i + 1..]).calls;
      }
    }
    assert calls + [] == calls;
  }

  /** A run over `xs + ys` is the run over `xs` and then, unless that aborted, the run
      over `ys` from the disk `xs` left behind. */
  lemma {:induction false} RunAppend(s: Fs.FsState, pf: Fs.Platform, root: Path, policy: Policy,
                                     xs: seq<Entry>, ys: seq<Entry>)
    ensures var a := Run(s, pf, root, policy, xs);
            Run(s, pf, root, policy, xs + ys)
            == if a.aborted.Some? then a else Then(a.calls, Run(a.state, pf, root, policy, ys))
    decreases |xs|
  {
    if xs == [] {
      assert xs + ys == ys;
      assert [] + Run(s, pf, root, policy, ys).calls == Run(s, pf, root, policy, ys).calls;
    } else {
      assert (xs + ys)[0] == xs[0];
      assert (xs + ys)[1..] == xs[1..] + ys;
      var first := Step(s, pf, root, policy, xs[0]);
      if first.aborted.None? {
        RunAppend(first.state, pf, root, policy, xs[1..], ys);
        var rest := Run(first.state, pf, root, policy, xs[1..]);
        if rest.aborted.None? {
          ThenThen(first.calls, rest.calls, Run(rest.state, pf, root, policy, ys));
        }
      }
    }
  }

  /** Entry `k` is where the run stops: the entries before it all went through, its own
      step aborted, and the run's outcome is the disk and calls they left plus that
      step's. */
  predicate StopsAt(s: Fs.FsState, pf: Fs.Platform, root: Path, policy: Policy, entries: seq<Entry>, k: nat)
    requires k < |entries|
  {
    var before := Run(s, pf, root, policy, entries[..k]);
    var last := Step(before.state, pf, root, policy, entries[k]);
    && before.aborted.None?
    && last.aborted.Some?
    && Run(s, pf, root, policy, entries) == Then(before.calls, last)
    && Run(s, pf, root, policy, entries).state.files == before.state.files
  }

  /** The first failure aborts the whole run, and what the entries before it did stays
      done. */
  lemma {:induction false} AbortKeepsEarlierMoves(s: Fs.FsState, pf: Fs.Platform, root: Path,
                                                  policy: Policy, entries: seq<Entry>)
    requires Run(s, pf, root, policy, entries).aborted.Some?
    ensures exists k :: 0 <= k < |entries| && StopsAt(s, pf, root, policy, entries, k)
    decreases |entries|
  {
    var first := Step(s, pf, root, policy, entries[0]);
    if first.aborted.Some? {
      AbortedStepKeepsFiles(s, pf, root, policy, entries[0]);
      assert entries[..0] == [];
      assert [] + first.calls == first.calls;
      assert StopsAt(s, pf, root, policy, entries, 0);
    } else {
      var rest := entries[1..];
      AbortKeepsEarlierMoves(first.state, pf, root, policy, rest);
      var j :| 0 <= j < |rest| && StopsAt(first.state, pf, root, policy, rest, j);
      StopsAtShift(s, pf, root, policy, entries, j);
    }
  }

  /** A step that aborts leaves every file as it found it: the failing call changed
      nothing, and the bucket it may have made holds no file. */
  lemma AbortedStepKeepsFiles(s: Fs.FsState, pf: Fs.Platform, root: Path, policy: Policy, e: Entry)
    requires Step(s, pf, root, policy, e).aborted.Some?
    ensures Step(s, pf, root, policy, e).state.files == s.files
  {
    if PlanFor(policy, e).Move? {
      var key := PlanFor(policy, e).key;
      var made := MakeBucket(s, pf, root, key);
      MakeBucketEffect(s, pf, root, key);
      if made.error.None? && e.path != [] {
        var dst := Bucket(root, key) + [e.path[|e.path| - 1]];
        MoveIntoRename(s, pf, root, key, e.path);
        Fs.RenameEffect(made.state, pf, e.path, dst);
      }
    }
  }

  /** Where the run after a step that went through stops, the run with it stops one entry
      later. */
  lemma StopsAtShift(s: Fs.FsState, pf: Fs.Platform, root: Path, policy: Policy,
                     entries: seq<Entry>, j: nat)
    requires 0 < |entries| && j < |entries| - 1
    requires Step(s, pf, root, policy, entries[0]).aborted.None?
    requires StopsAt(Step(s, pf, root, policy, entries[0]).state, pf, root, policy, entries[1..], j)
    ensures StopsAt(s, pf, root, policy, entries, j + 1)
  {
    var first := Step(s, pf, root, policy, entries[0]);
    var rest := entries[1..];
    RunOfPrefix(s, pf, root, policy, entries, j + 1);
    var before := Run(first.state, pf, root, policy, rest[..j]);
    assert entries[j + 1] == rest[j];
    ThenThen(first.calls, before.calls, Step(before.state, pf, root, policy, rest[j]));
  }

  /** The run over the first `n` entries, when the first of them goes through. */
  lemma RunOfPrefix(s: Fs.FsState, pf: Fs.Platform, root: Path, policy: Policy,
                    entries: seq<Entry>, n: nat)
    requires 0 < n <= |entries|
    requires Step(s, pf, root, policy, entries[0]).aborted.None?
    ensures var first := Step(s, pf, root, policy, entries[0]);
            Run(s, pf, root, policy, entries[..n])
            == Then(first.calls, Run(first.state, pf, root, policy, entries[1..][..n - 1]))
  {
    assert entries[..n][0] == entries[0];
    assert entries[..n][1..] == entries[1..][..n - 1];
  }

  /** One step keeps the disk well formed, removes no directory and, where a rename may
      not replace a file, keeps the number of files. */
  lemma StepPreserves(s: Fs.FsState, pf: Fs.Platform, root: Path, policy: Policy, e: Entry)
    ensures var t := Step(s, pf, root, policy, e).state;
            && (Fs.WellFormed(s) ==> Fs.WellFormed(t))
            && s.dirs <= t.dirs
            && (!pf.replaceExisting ==> |t.files| == |s.files|)
  {
    if PlanFor(policy, e).Move? {
      var key := PlanFor(policy, e).key;
      assert Step(s, pf, root, policy, e) == MoveInto(s, pf, root, key, e.path);
      MoveIntoPreserves(s, pf, root, key, e.path);
    }
  }

  /** Making the bucket touches no file, removes no directory and keeps the disk well
      formed; when it succeeds the bucket exists, as a directory or, when a file already
      had its name, as that file. */
  lemma MakeBucketEffect(s: Fs.FsState, pf: Fs.Platform, root: Path, key: string)
    ensures var made := MakeBucket(s, pf, root, key);
            && made.state.files == s.files
            && s.dirs <= made.state.dirs
            && (Fs.WellFormed(s) ==> Fs.WellFormed(made.state))
            && (made.error.None? && Bucket(root, key) != [] ==> Fs.Exists(made.state, Bucket(root, key)))
  {
    if !BucketExists(s, root, key) {
      Fs.CreateDirAllEffect(s, pf, Bucket(root, key));
      if Fs.WellFormed(s) {
        Fs.CreateDirAllWellFormed(s, pf, Bucket(root, key));
      }
    }
  }

  /** Once the bucket is there, filing is the rename into it. */
  lemma MoveIntoRename(s: Fs.FsState, pf: Fs.Platform, root: Path, key: string, path: Path)
    requires MakeBucket(s, pf, root, key).error.None? && path != []
    ensures var dst := Bucket(root, key) + [path[|path| - 1]];
            var moved := Fs.Rename(MakeBucket(s, pf, root, key).state, pf, path, dst);
            var r := MoveInto(s, pf, root, key, path);
            r.state == moved.state && r.aborted.None? == moved.error.None?
            && r.calls[|r.calls| - 1] == RenameCall(path, dst)
  {
    assert FileName(path) == Some(path[|path| - 1]);
  }

  lemma MoveIntoPreserves(s: Fs.FsState, pf: Fs.Platform, root: Path, key: string, path: Path)
    ensures var t := MoveInto(s, pf, root, key, path).state;
            && (Fs.WellFormed(s) ==> Fs.WellFormed(t))
            && s.dirs <= t.dirs
            && (!pf.replaceExisting ==> |t.files| == |s.files|)
  {
    var made := MakeBucket(s, pf, root, key);
    MakeBucketEffect(s, pf, root, key);
    if made.error.None? && path != [] {
      var dst := Bucket(root, key) + [path[|path| - 1]];
      MoveIntoRename(s, pf, root, key, path);
      Fs.RenameEffect(made.state, pf, path, dst);
      if !pf.replaceExisting {
        Fs.RenameKeepsCount(made.state, pf, path, dst);
      }
      if Fs.WellFormed(made.state) {
        Fs.RenameWellFormed(made.state, pf, path, dst);
      }
    }
  }

  /** A whole run, aborted or not, keeps the disk well formed, removes no directory and,
      where a rename may not replace a file, loses no file. */
  lemma {:induction false} RunPreserves(s: Fs.FsState, pf: Fs.Platform, root: Path, policy: Policy,
                                        entries: seq<Entry>)
    ensures var t := Run(s, pf, root, policy, entries).state;
            && (Fs.WellFormed(s) ==> Fs.WellFormed(t))
            && s.dirs <= t.dirs
            && (!pf.replaceExisting ==> |t.files| == |s.files|)
    decreases |entries|
  {
    if entries != [] {
      StepPreserves(s, pf, root, policy, entries[0]);
      var first := Step(s, pf, root, policy, entries[0]);
      if first.aborted.None? {
        RunPreserves(first.state, pf, root, policy, entries[1..]);
      }
    }
  }

  /** Filing a file: the bucket is created only when it does not exist, and before the
      move; the move is to the bucket under the file's own name; when nothing fails the
      file's contents are at the destination and no longer at the source. */
  lemma StepMovesFile(s: Fs.FsState, pf: Fs.Platform, root: Path, policy: Policy, e: Entry)
    requires PlanFor(policy, e).Move? && e.path != []
    ensures var key := PlanFor(policy, e).key;
            var bucket := Bucket(root, key);
            var dst := bucket + [e.path[|e.path| - 1]];
            var r := Step(s, pf, root, policy, e);
            && 1 <= |r.calls| <= 2
            && (!BucketExists(s, root, key) <==> r.calls[0] == CreateDirAllCall(bucket))
            && (forall i :: 0 <= i < |r.calls| && r.calls[i].CreateDirAllCall? ==> i == 0)
            && (forall i :: 0 <= i < |r.calls| && r.calls[i].RenameCall? ==>
                  i == |r.calls| - 1 && r.calls[i] == RenameCall(e.path, dst))
            && FileName(dst) == FileName(e.path)
            && (r.aborted.None? ==>
                  r.calls[|r.calls| - 1] == RenameCall(e.path, dst)
                  && e.path in s.files && dst in r.state.files
                  && r.state.files[dst] == s.files[e.path]
                  && (e.path != dst ==> e.path !in r.state.files))
  {
    var key := PlanFor(policy, e).key;
    assert Step(s, pf, root, policy, e) == MoveInto(s, pf, root, key, e.path);
    MoveIntoCalls(s, pf, root, key, e.path);
    MoveIntoMoves(s, pf, root, key, e.path);
  }

  lemma MoveIntoCalls(s: Fs.FsState, pf: Fs.Platform, root: Path, key: string, path: Path)
    requires path != []
    ensures var bucket := Bucket(root, key);
            var dst := bucket + [path[|path| - 1]];
            var r := MoveInto(s, pf, root, key, path);
            && 1 <= |r.calls| <= 2
            && (!BucketExists(s, root, key) <==> r.calls[0] == CreateDirAllCall(bucket))
            && (forall i :: 0 <= i < |r.calls| && r.calls[i].CreateDirAllCall? ==> i == 0)
            && (forall i :: 0 <= i < |r.calls| && r.calls[i].RenameCall? ==>
                  i == |r.calls| - 1 && r.calls[i] == RenameCall(path, dst))
            && FileName(dst) == FileName(path)
  {
  }

  lemma MoveIntoMoves(s: Fs.FsState, pf: Fs.Platform, root: Path, key: string, path: Path)
    requires path != []
    ensures var dst := Bucket(root, key) + [path[|path| - 1]];
            var r := MoveInto(s, pf, root, key, path);
            r.aborted.None? ==>
              && r.calls[|r.calls| - 1] == RenameCall(path, dst)
              && path in s.files && dst in r.state.files
              && r.state.files[dst] == s.files[path]
              && (path != dst ==> path !in r.state.files)
  {
    var made := MakeBucket(s, pf, root, key);
    if made.error.None? {
      var dst := Bucket(root, key) + [path[|path| - 1]];
      MoveIntoRename(s, pf, root, key, path);
      MakeBucketEffect(s, pf, root, key);
      if Fs.Rename(made.state, pf, path, dst).error.None? {
        RenameMoves(made.state, pf, path, dst);
      }
    }
  }

  lemma RenameMoves(s: Fs.FsState, pf: Fs.Platform, src: Path, dst: Path)
    requires Fs.Rename(s, pf, src, dst).error.None?
    ensures var t := Fs.Rename(s, pf, src, dst).state;
            src in s.files && dst in t.files && t.files[dst] == s.files[src]
            && (src != dst ==> src !in t.files)
  {
  }

  /** By type, a file with no extension directly under the root is renamed onto itself:
      one rename call, and the disk is as it was. */
  lemma ExtensionlessAtRootStays(s: Fs.FsState, pf: Fs.Platform, root: Path, n: Name, meta: Option<Meta>)
    requires Fs.WellFormed(s) && root + [n] in s.files && Extension(n).None?
    ensures Step(s, pf, root, ByType, Entry(root + [n], File, meta))
            == RunResult(s, [RenameCall(root + [n], root + [n])], None)
  {
    var p := root + [n];
    TypeKeyCases(n);
    assert Parent(p) == root;
    assert FileName(p) == Some(n);
  }

  /** Directories, links and, by date, files whose time cannot be read are left alone. */
  lemma PassedEntriesUntouched(s: Fs.FsState, pf: Fs.Platform, root: Path, policy: Policy, e: Entry)
    requires e.kind != File || (policy == ByDate && (e.meta.None? || e.meta.value.mtime.None?))
    ensures Step(s, pf, root, policy, e) == RunResult(s, [], None)
  {
  }

  /** By date, two files go to the same bucket exactly when their modification times share
      a UTC day. */
  lemma SameDaySameBucket(root: Path, e1: Entry, e2: Entry)
    requires PlanFor(ByDate, e1).Move? && PlanFor(ByDate, e2).Move?
    ensures Bucket(root, PlanFor(ByDate, e1).key) == Bucket(root, PlanFor(ByDate, e2).key)
            <==> e1.meta.value.mtime.value / SecondsPerDay == e2.meta.value.mtime.value / SecondsPerDay
  {
    var s1, s2 := e1.meta.value.mtime.value, e2.meta.value.mtime.value;
    var k1, k2 := PlanFor(ByDate, e1).key, PlanFor(ByDate, e2).key;
    SameKeyIffSameDay(s1, s2);
    DateKeyNotEmpty(s1);
    DateKeyNotEmpty(s2);
    if Bucket(root, k1) == Bucket(root, k2) {
      assert Chars(k1) == Bucket(root, k1)[|root|];
      CharsInjective(k1, k2);
    }
  }
}
