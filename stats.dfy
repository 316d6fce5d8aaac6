/** `file_stats`: the number of regular files among the traversal entries and the sum of
    their lengths. Reading a regular file's metadata is `expect`ed, so an unreadable one
    panics. */
module Stats {
  import opened Entries

  datatype StatsResult = Totals(files: nat, bytes: nat) | MetadataPanic(at: nat)

  predicate Unreadable(e: Entry) {
    e.kind == File && e.meta.None?
  }

  /** The number of regular files among `entries`. */
  function FileCount(entries: seq<Entry>): nat {
    if entries == [] then 0
    else FileCount(entries[..|entries| - 1]) + if entries[|entries| - 1].kind == File then 1 else 0
  }

  /** The sum of the lengths of the regular files among `entries` whose metadata can be
      read. */
  function TotalSize(entries: seq<Entry>): nat {
    if entries == [] then 0
    else
      var e := entries[|entries| - 1];
      TotalSize(entries[..|entries| - 1]) + if e.kind == File && e.meta.Some? then e.meta.value.len else 0
  }

  /** The regular files among `entries`, in order. */
  function RegularFiles(entries: seq<Entry>): (files: seq<Entry>)
    ensures forall j :: 0 <= j < |files| ==> files[j].kind == File
    ensures |files| <= |entries|
    ensures forall e :: multiset(files)[e] == if e.kind == File then multiset(entries)[e] else 0
  {
    if entries == [] then []
    else
      var e := entries[|entries| - 1];
      assert entries == entries[..|entries| - 1] + [e];
      RegularFiles(entries[..|entries| - 1]) + if e.kind == File then [e] else []
  }

  /** The loop of `file_stats`. */
  method FileStats(entries: seq<Entry>) returns (r: StatsResult)
    ensures r.MetadataPanic? <==> exists j :: 0 <= j < |entries| && Unreadable(entries[j])
    ensures r.MetadataPanic? ==> r.at < |entries| && Unreadable(entries[r.at])
                                 && forall j :: 0 <= j < r.at ==> !Unreadable(entries[j])
    ensures r.Totals? ==> r.files == FileCount(entries) && r.bytes == TotalSize(entries)
  {
    var totalSize := 0;
    var fileCount := 0;
    for i := 0 to |entries|
      invariant fileCount == FileCount(entries[..i]) && totalSize == TotalSize(entries[..i])
      invariant forall j :: 0 <= j < i ==> !Unreadable(entries[j])
    {
      assert entries[..i + 1][..i] == entries[..i];
      var e := entries[i];
      if e.kind == File {
        if e.meta.None? {
          return MetadataPanic(i);
        }
        totalSize := totalSize + e.meta.value.len;
        fileCount := fileCount + 1;
      }
    }
    assert entries[..|entries|] == entries;
    return Totals(fileCount, totalSize);
  }

  /** The count and the total over two runs of entries add up. */
  lemma {:induction false} StatsAppend(a: seq<Entry>, b: seq<Entry>)
    ensures FileCount(a + b) == FileCount(a) + FileCount(b)
    ensures TotalSize(a + b) == TotalSize(a) + TotalSize(b)
    decreases |b|
  {
    if b == [] {
      assert a + b == a;
    } else {
      var c := b[..|b| - 1];
      assert (a + b)[..|a + b| - 1] == a + c;
      StatsAppend(a, c);
    }
  }

  /** Directories and links contribute nothing: the count is the number of regular files,
      and the total is the same over the regular files alone. */
  lemma {:induction false} OnlyRegularFilesCount(entries: seq<Entry>)
    ensures FileCount(entries) == |RegularFiles(entries)|
    ensures TotalSize(entries) == TotalSize(RegularFiles(entries))
  {
    if entries != [] {
      var init, e := entries[..|entries| - 1], entries[|entries| - 1];
      OnlyRegularFilesCount(init);
      StatsAppend(RegularFiles(init), if e.kind == File then [e] else []);
      assert TotalSize([]) == 0;
      assert [e][..0] == [];
    }
  }

  /** With no regular file among the entries both figures are zero. */
  lemma {:induction false} NoFilesNoTotals(entries: seq<Entry>)
    requires forall j :: 0 <= j < |entries| ==> entries[j].kind != File
    ensures FileCount(entries) == 0 && TotalSize(entries) == 0
  {
    if entries != [] {
      NoFilesNoTotals(entries[..|entries| - 1]);
    }
  }
}
