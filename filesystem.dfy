/** The file system the walk reads, as an in-memory tree. A directory carries
    what listing it yields: its entries, or the failure of opening or of
    reading it. A file carries its size, or nothing when its metadata cannot
    be read. Anything that is not a directory is a file here. */
module FileSystem {
  import opened Wrappers
  import opened Paths

  datatype Listing =
    | Listed(entries: seq<Entry>)
    | OpenFails
    | ReadDirFails

  datatype Entry =
    | Dir(name: string, listing: Listing)
    | File(name: string, size: Option<nat>)

  /** The failures the walk can meet: opening a directory, reading its
      entries, and reading a file's metadata. */
  datatype Error =
    | OpenFailed(path: Path)
    | ReadDirFailed(path: Path)
    | InfoFailed(name: string)

  predicate DistinctNames(entries: seq<Entry>) {
    forall i, j | 0 <= i < j < |entries| :: entries[i].name != entries[j].name
  }

  /** What a directory listing guarantees: every entry has a plain name and
      no two entries of one directory share a name. */
  predicate WellFormed(e: Entry) {
    e.Dir? && e.listing.Listed? ==>
      && DistinctNames(e.listing.entries)
      && forall c | c in e.listing.entries :: IsEntryName(c.name) && WellFormed(c)
  }

  /** Every directory reachable from e, e included, can be opened and read. */
  predicate Listable(e: Entry)
    requires e.Dir?
  {
    e.listing.Listed? && forall c | c in e.listing.entries && c.Dir? :: Listable(c)
  }
}
