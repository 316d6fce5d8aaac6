/** The entries a `WalkDir` traversal yields, taken as a fixed snapshot: each entry's path,
    the kind of file it is, and what `DirEntry::metadata` reports for it. */
module Entries {
  import opened Options
  import opened Paths

  /** `FileType`: only `File` is a regular file (`is_file`); a traversal that does not
      follow links reports a symbolic link as a link. */
  datatype Kind = File | Dir | Symlink

  datatype Meta = Meta(
    len: nat,            // `Metadata::len`, in bytes
    mtime: Option<int>   // `Metadata::modified` as whole seconds since the epoch (the floor),
                         // absent when the platform cannot report it
  )

  /** One traversal entry; `meta` is absent when its metadata cannot be read. */
  datatype Entry = Entry(path: Path, kind: Kind, meta: Option<Meta>)
}
