/** What the recursive directory walk writes, as functions of the file-system
    tree. A Row is one line before rendering: the arguments of printDir or
    printFile. WalkDir follows RecursiveDirRead: WalkRange covers the loop over
    the sorted entries lo..hi-1 and Step one pass of its body. */
module Walk {
  import opened Wrappers
  import opened Paths
  import opened Render
  import opened FileSystem
  import opened Sorting

  datatype Row =
    | DirRow(level: int, isLast: bool, parents: seq<bool>, name: string)
    | FileRow(level: int, isLast: bool, parents: seq<bool>, name: string, size: nat)

  /** The row's level selects flags that exist. */
  predicate RowFits(r: Row) {
    0 <= r.level <= |r.parents|
  }

  predicate AllFit(rows: seq<Row>) {
    forall r | r in rows :: RowFits(r)
  }

  function RenderRow(r: Row): string
    requires RowFits(r)
  {
    match r
    case DirRow(level, isLast, parents, name) => DirLine(Indent(level, isLast, parents), name)
    case FileRow(level, isLast, parents, name, size) => FileLine(Indent(level, isLast, parents), name, size)
  }

  /** The text written for a sequence of rows, one string per row. */
  function RenderAll(rows: seq<Row>): (lines: seq<string>)
    requires AllFit(rows)
  {
    seq(|rows|, i requires 0 <= i < |rows| => RenderRow(rows[i]))
  }

  lemma RenderAllAppend(a: seq<Row>, b: seq<Row>)
    requires AllFit(a) && AllFit(b)
    ensures AllFit(a + b)
    ensures RenderAll(a + b) == RenderAll(a) + RenderAll(b)
  {
    assert forall i | 0 <= i < |a + b| :: RenderAll(a + b)[i] == (RenderAll(a) + RenderAll(b))[i];
  }

  lemma RenderAllOne(row: Row)
    requires RowFits(row)
    ensures AllFit([row]) && RenderAll([row]) == [RenderRow(row)]
  {
  }

  lemma RenderAllCons(row: Row, rows: seq<Row>)
    requires RowFits(row) && AllFit(rows)
    ensures AllFit([row] + rows)
    ensures RenderAll([row] + rows) == [RenderRow(row)] + RenderAll(rows)
  {
    RenderAllOne(row);
    RenderAllAppend([row], rows);
  }

  /** The rows written so far and the error the walk stopped with, if any. */
  datatype Outcome = Outcome(rows: seq<Row>, err: Option<Error>)

  /** Runs `next` after `first` unless `first` failed. */
  function Then(first: Outcome, next: Outcome): Outcome {
    if first.err.Some? then first else Outcome(first.rows + next.rows, next.err)
  }

  /** The filter of RecursiveDirRead: directories always, other entries only
      when files are printed. */
  predicate KeepEntry(e: Entry, printFiles: bool) {
    e.Dir? || (!e.Dir? && printFiles)
  }

  lemma DistinctAppend(s: seq<Entry>, x: Entry)
    requires DistinctNames(s) && forall y | y in s :: y.name != x.name
    ensures DistinctNames(s + [x])
  {
    var t := s + [x];
    forall i, j | 0 <= i < j < |t| ensures t[i].name != t[j].name {
      assert t[i] == s[i];
      if j < |s| {
        assert t[j] == s[j];
      } else {
        assert t[i] in s;
      }
    }
  }

  /** The entries of a listing that pass the filter, in listing order. */
  function Kept(entries: seq<Entry>, printFiles: bool): (kept: seq<Entry>) {
    if entries == [] then []
    else
      var last := entries[|entries| - 1];
      Kept(entries[..|entries| - 1], printFiles) + (if KeepEntry(last, printFiles) then [last] else [])
  }

  /** The filter keeps exactly the entries it accepts, and keeps names distinct. */
  lemma {:induction false} KeptMembers(entries: seq<Entry>, printFiles: bool)
    ensures forall e :: e in Kept(entries, printFiles) <==> e in entries && KeepEntry(e, printFiles)
    ensures DistinctNames(entries) ==> DistinctNames(Kept(entries, printFiles))
  {
    if entries != [] {
      var prefix := entries[..|entries| - 1];
      var last := entries[|entries| - 1];
      assert entries == prefix + [last];
      KeptMembers(prefix, printFiles);
      var r := Kept(entries, printFiles);
      assert Kept(prefix, printFiles) + [] == Kept(prefix, printFiles);
      if DistinctNames(entries) {
        forall i, j | 0 <= i < j < |prefix| ensures prefix[i].name != prefix[j].name {
          assert prefix[i] == entries[i] && prefix[j] == entries[j];
        }
        if KeepEntry(last, printFiles) {
          forall y | y in Kept(prefix, printFiles) ensures y.name != last.name {
            var k :| 0 <= k < |prefix| && prefix[k] == y;
            assert entries[k] == y;
          }
          DistinctAppend(Kept(prefix, printFiles), last);
        }
      }
    }
  }

  /** The entries the loop of RecursiveDirRead visits: the filtered listing
      sorted by name. */
  function Children(dir: Entry, printFiles: bool): (children: seq<Entry>)
    requires dir.Dir? && dir.listing.Listed?
  {
    SortByName(Kept(dir.listing.entries, printFiles))
  }

  /** The loop visits exactly the entries of the listing that pass the filter. */
  lemma ChildrenMembers(dir: Entry, printFiles: bool)
    requires dir.Dir? && dir.listing.Listed?
    ensures forall e :: e in Children(dir, printFiles) <==> e in dir.listing.entries && KeepEntry(e, printFiles)
  {
    var kept := Kept(dir.listing.entries, printFiles);
    KeptMembers(dir.listing.entries, printFiles);
    SortByNamePermutes(kept);
    assert forall e :: e in SortByName(kept) <==> e in multiset(kept);
  }

  /** The entry with index i comes from the listing, so it is well formed and
      has a plain name. */
  lemma ChildReady(dir: Entry, printFiles: bool, i: nat)
    requires dir.Dir? && dir.listing.Listed? && WellFormed(dir)
    requires i < |Children(dir, printFiles)|
    ensures Children(dir, printFiles)[i] in dir.listing.entries
    ensures WellFormed(Children(dir, printFiles)[i]) && IsEntryName(Children(dir, printFiles)[i].name)
  {
    ChildrenMembers(dir, printFiles);
    assert Children(dir, printFiles)[i] in Children(dir, printFiles);
  }

  /** The loop visits the entries in strictly ascending order of name. */
  lemma ChildrenAscending(dir: Entry, printFiles: bool)
    requires dir.Dir? && dir.listing.Listed? && WellFormed(dir)
    ensures StrictlyAscending(Children(dir, printFiles))
  {
    var kept := Kept(dir.listing.entries, printFiles);
    KeptMembers(dir.listing.entries, printFiles);
    SortByNameSorted(kept);
  }

  /** The flags handed to a subdirectory: a fresh array one longer than the
      parent's, the entry's own flag stored at the current level, then the
      parent's flags copied over the front. The entry's flag survives only
      when the level equals the parent's depth. */
  function ChildFlags(parents: seq<bool>, level: int, isLast: bool): (flags: seq<bool>)
    requires 0 <= level <= |parents|
  {
    parents + [level == |parents| && isLast]
  }

  /** What RecursiveDirRead writes for the directory `dir` found at dirPath,
      with the walk started at root and `parents` the flags of its ancestors. */
  function WalkDir(dir: Entry, dirPath: Path, printFiles: bool, root: Path, parents: seq<bool>): (o: Outcome)
    requires dir.Dir? && WellFormed(dir)
    requires IsCleanPath(root) && IsDescendantAt(dirPath, root, |parents|)
    decreases dir, 1, 0
  {
    match dir.listing
    case OpenFails => Outcome([], Some(OpenFailed(dirPath)))
    case ReadDirFails => Outcome([], Some(ReadDirFailed(dirPath)))
    case Listed(_) => WalkRange(dir, dirPath, printFiles, root, parents, 0, |Children(dir, printFiles)|)
  }

  /** The loop over the sorted entries with indices lo..hi-1. */
  function WalkRange(dir: Entry, dirPath: Path, printFiles: bool, root: Path, parents: seq<bool>,
                     lo: nat, hi: nat): (o: Outcome)
    requires dir.Dir? && dir.listing.Listed? && WellFormed(dir)
    requires IsCleanPath(root) && IsDescendantAt(dirPath, root, |parents|)
    requires lo <= hi <= |Children(dir, printFiles)|
    decreases dir, 0, hi - lo + 1
  {
    if lo == hi then Outcome([], None)
    else Then(WalkRange(dir, dirPath, printFiles, root, parents, lo, hi - 1),
              Step(dir, dirPath, printFiles, root, parents, hi - 1))
  }

  /** One pass of the loop body, for the sorted entry with index i. A
      directory is printed and walked; a file is printed unless it is named
      ".DS_Store" or its size cannot be read (printFile's error is dropped). */
  function Step(dir: Entry, dirPath: Path, printFiles: bool, root: Path, parents: seq<bool>, i: nat): (o: Outcome)
    requires dir.Dir? && dir.listing.Listed? && WellFormed(dir)
    requires IsCleanPath(root) && IsDescendantAt(dirPath, root, |parents|)
    requires i < |Children(dir, printFiles)|
    decreases dir, 0, 0
  {
    var children := Children(dir, printFiles);
    var entry := children[i];
    var isLast := i == |children| - 1;
    DescendantLevel(dirPath, root, |parents|);
    var level := GetDirLevel(dirPath, root);
    ChildReady(dir, printFiles, i);
    if entry.Dir? then
      DescendantJoin(dirPath, root, |parents|, entry.name);
      var sub := WalkDir(entry, Join(dirPath, entry.name), printFiles, root, ChildFlags(parents, level, isLast));
      Outcome([DirRow(level, isLast, parents, entry.name)] + sub.rows, sub.err)
    else if printFiles then
      if entry.name == ".DS_Store" then Outcome([], None)
      else if entry.size.None? then Outcome([], None)
      else Outcome([FileRow(level, isLast, parents, entry.name, entry.size.value)], None)
    else Outcome([], None)
  }

  /** Every row of a walk selects flags that exist, and carries at least the
      flags of the walk's own ancestors. */
  lemma {:induction false} WalkFits(dir: Entry, dirPath: Path, printFiles: bool, root: Path, parents: seq<bool>)
    requires dir.Dir? && WellFormed(dir)
    requires IsCleanPath(root) && IsDescendantAt(dirPath, root, |parents|)
    ensures AllFit(WalkDir(dir, dirPath, printFiles, root, parents).rows)
    ensures forall r | r in WalkDir(dir, dirPath, printFiles, root, parents).rows :: |r.parents| >= |parents|
    decreases dir, 1, 0
  {
    if dir.listing.Listed? {
      RangeFits(dir, dirPath, printFiles, root, parents, |Children(dir, printFiles)|);
    }
  }

  lemma {:induction false} RangeFits(dir: Entry, dirPath: Path, printFiles: bool, root: Path, parents: seq<bool>,
                                     j: nat)
    requires dir.Dir? && dir.listing.Listed? && WellFormed(dir)
    requires IsCleanPath(root) && IsDescendantAt(dirPath, root, |parents|)
    requires j <= |Children(dir, printFiles)|
    ensures AllFit(WalkRange(dir, dirPath, printFiles, root, parents, 0, j).rows)
    ensures forall r | r in WalkRange(dir, dirPath, printFiles, root, parents, 0, j).rows :: |r.parents| >= |parents|
    decreases dir, 0, j + 1
  {
    if j > 0 {
      RangeFits(dir, dirPath, printFiles, root, parents, j - 1);
      StepFits(dir, dirPath, printFiles, root, parents, j - 1);
      var done := WalkRange(dir, dirPath, printFiles, root, parents, 0, j - 1);
      var step := Step(dir, dirPath, printFiles, root, parents, j - 1);
      if done.err.None? {
        assert forall r | r in done.rows + step.rows :: r in done.rows || r in step.rows;
      }
    }
  }

  lemma {:induction false} StepFits(dir: Entry, dirPath: Path, printFiles: bool, root: Path, parents: seq<bool>,
                                    i: nat)
    requires dir.Dir? && dir.listing.Listed? && WellFormed(dir)
    requires IsCleanPath(root) && IsDescendantAt(dirPath, root, |parents|)
    requires i < |Children(dir, printFiles)|
    ensures AllFit(Step(dir, dirPath, printFiles, root, parents, i).rows)
    ensures forall r | r in Step(dir, dirPath, printFiles, root, parents, i).rows :: |r.parents| >= |parents|
    decreases dir, 0, 0
  {
    var children := Children(dir, printFiles);
    var entry := children[i];
    ChildReady(dir, printFiles, i);
    DescendantLevelBounded(dirPath, root, |parents|);
    if entry.Dir? {
      DescendantJoin(dirPath, root, |parents|, entry.name);
      var level := GetDirLevel(dirPath, root);
      WalkFits(entry, Join(dirPath, entry.name), printFiles, root,
               ChildFlags(parents, level, i == |children| - 1));
    }
  }

  /** Once the loop has failed, later passes add nothing. */
  lemma {:induction false} ErrorSticks(dir: Entry, dirPath: Path, printFiles: bool, root: Path, parents: seq<bool>,
                                       j: nat, k: nat)
    requires dir.Dir? && dir.listing.Listed? && WellFormed(dir)
    requires IsCleanPath(root) && IsDescendantAt(dirPath, root, |parents|)
    requires j <= k <= |Children(dir, printFiles)|
    requires WalkRange(dir, dirPath, printFiles, root, parents, 0, j).err.Some?
    ensures WalkRange(dir, dirPath, printFiles, root, parents, 0, k)
            == WalkRange(dir, dirPath, printFiles, root, parents, 0, j)
    decreases k
  {
    if k > j {
      ErrorSticks(dir, dirPath, printFiles, root, parents, j, k - 1);
    }
  }
}
