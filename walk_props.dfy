/** Properties of the walk: which entries get a line, in what order, with
    which connector, and when the walk fails. */
module WalkProperties {
  import opened Wrappers
  import opened Sequences
  import opened Paths
  import opened FileSystem
  import opened Sorting
  import opened Walk

  /** The hypotheses every walk of a directory starts from. */
  predicate WalkReady(dir: Entry, dirPath: Path, root: Path, parents: seq<bool>) {
    dir.Dir? && dir.listing.Listed? && WellFormed(dir) &&
    IsCleanPath(root) && IsDescendantAt(dirPath, root, |parents|)
  }

  // ---------------------------------------------------------------------------
  // Composition of the loop

  lemma ThenAssociative(a: Outcome, b: Outcome, c: Outcome)
    ensures Then(Then(a, b), c) == Then(a, Then(b, c))
  {
    if a.err.None? && b.err.None? {
      assert a.rows + b.rows + c.rows == a.rows + (b.rows + c.rows);
    }
  }

  /** The loop over lo..hi-1 is the loop over lo..mid-1 followed by the
      loop over mid..hi-1. */
  lemma {:induction false} RangeSplit(dir: Entry, dirPath: Path, printFiles: bool, root: Path, parents: seq<bool>,
                                      lo: nat, mid: nat, hi: nat)
    requires WalkReady(dir, dirPath, root, parents)
    requires lo <= mid <= hi <= |Children(dir, printFiles)|
    ensures WalkRange(dir, dirPath, printFiles, root, parents, lo, hi)
            == Then(WalkRange(dir, dirPath, printFiles, root, parents, lo, mid),
                    WalkRange(dir, dirPath, printFiles, root, parents, mid, hi))
    decreases hi
  {
    var first := WalkRange(dir, dirPath, printFiles, root, parents, lo, mid);
    if hi == mid {
      assert first.rows + [] == first.rows;
    } else {
      RangeSplit(dir, dirPath, printFiles, root, parents, lo, mid, hi - 1);
      ThenAssociative(first, WalkRange(dir, dirPath, printFiles, root, parents, mid, hi - 1),
                      Step(dir, dirPath, printFiles, root, parents, hi - 1));
    }
  }

  // ---------------------------------------------------------------------------
  // Failure

  /** The walk fails exactly when some directory below dir, or dir itself,
      cannot be opened or read. Files never make it fail. */
  lemma {:induction false} NoErrorIffListable(dir: Entry, dirPath: Path, printFiles: bool, root: Path,
                                              parents: seq<bool>)
    requires dir.Dir? && WellFormed(dir)
    requires IsCleanPath(root) && IsDescendantAt(dirPath, root, |parents|)
    ensures WalkDir(dir, dirPath, printFiles, root, parents).err.None? <==> Listable(dir)
    decreases dir, 1, 0
  {
    if dir.listing.Listed? {
      var children := Children(dir, printFiles);
      RangeNoError(dir, dirPath, printFiles, root, parents, |children|);
      ChildrenMembers(dir, printFiles);
      forall c | c in dir.listing.entries && c.Dir? ensures c in children {
      }
      forall k | 0 <= k < |children| ensures children[k] in dir.listing.entries {
        ChildReady(dir, printFiles, k);
      }
    }
  }

  /** A file, or a directory that can be walked without failure. */
  predicate ListableIfDir(e: Entry) {
    e.Dir? ==> Listable(e)
  }

  lemma {:induction false} RangeNoError(dir: Entry, dirPath: Path, printFiles: bool, root: Path,
                                        parents: seq<bool>, j: nat)
    requires WalkReady(dir, dirPath, root, parents)
    requires j <= |Children(dir, printFiles)|
    ensures WalkRange(dir, dirPath, printFiles, root, parents, 0, j).err.None?
            <==> forall k | 0 <= k < j :: ListableIfDir(Children(dir, printFiles)[k])
    decreases dir, 0, j
  {
    if j > 0 {
      RangeNoError(dir, dirPath, printFiles, root, parents, j - 1);
      StepNoError(dir, dirPath, printFiles, root, parents, j - 1);
    }
  }

  /** One pass fails exactly when its entry is a directory that is not listable. */
  lemma {:induction false} StepNoError(dir: Entry, dirPath: Path, printFiles: bool, root: Path,
                                       parents: seq<bool>, k: nat)
    requires WalkReady(dir, dirPath, root, parents)
    requires k < |Children(dir, printFiles)|
    ensures Step(dir, dirPath, printFiles, root, parents, k).err.None?
            <==> ListableIfDir(Children(dir, printFiles)[k])
    decreases dir, 0, 0
  {
    var children := Children(dir, printFiles);
    var entry := children[k];
    ChildReady(dir, printFiles, k);
    if entry.Dir? {
      DescendantLevel(dirPath, root, |parents|);
      DescendantJoin(dirPath, root, |parents|, entry.name);
      var level := GetDirLevel(dirPath, root);
      NoErrorIffListable(entry, Join(dirPath, entry.name), printFiles, root,
                         ChildFlags(parents, level, k == |children| - 1));
    }
  }

  // ---------------------------------------------------------------------------
  // Levels

  /** Away from the root "/", every line's level is its depth: the number of
      ancestors' flags it carries. */
  lemma {:induction false} LevelIsDepth(dir: Entry, dirPath: Path, printFiles: bool, root: Path,
                                        parents: seq<bool>)
    requires dir.Dir? && WellFormed(dir)
    requires IsCleanPath(root) && IsDescendantAt(dirPath, root, |parents|)
    requires root != Slash
    ensures forall r | r in WalkDir(dir, dirPath, printFiles, root, parents).rows :: r.level == |r.parents|
    decreases dir, 1, 0
  {
    if dir.listing.Listed? {
      RangeLevelIsDepth(dir, dirPath, printFiles, root, parents, |Children(dir, printFiles)|);
    }
  }

  lemma {:induction false} RangeLevelIsDepth(dir: Entry, dirPath: Path, printFiles: bool, root: Path,
                                             parents: seq<bool>, j: nat)
    requires WalkReady(dir, dirPath, root, parents) && root != Slash
    requires j <= |Children(dir, printFiles)|
    ensures forall r | r in WalkRange(dir, dirPath, printFiles, root, parents, 0, j).rows :: r.level == |r.parents|
    decreases dir, 0, j + 1
  {
    if j > 0 {
      RangeLevelIsDepth(dir, dirPath, printFiles, root, parents, j - 1);
      StepLevelIsDepth(dir, dirPath, printFiles, root, parents, j - 1);
      var done := WalkRange(dir, dirPath, printFiles, root, parents, 0, j - 1);
      var step := Step(dir, dirPath, printFiles, root, parents, j - 1);
      if done.err.None? {
        assert forall r | r in done.rows + step.rows :: r in done.rows || r in step.rows;
      }
    }
  }

  lemma {:induction false} StepLevelIsDepth(dir: Entry, dirPath: Path, printFiles: bool, root: Path,
                                            parents: seq<bool>, i: nat)
    requires WalkReady(dir, dirPath, root, parents) && root != Slash
    requires i < |Children(dir, printFiles)|
    ensures forall r | r in Step(dir, dirPath, printFiles, root, parents, i).rows :: r.level == |r.parents|
    decreases dir, 0, 0
  {
    var children := Children(dir, printFiles);
    var entry := children[i];
    ChildReady(dir, printFiles, i);
    DescendantLevel(dirPath, root, |parents|);
    if entry.Dir? {
      DescendantJoin(dirPath, root, |parents|, entry.name);
      var level := GetDirLevel(dirPath, root);
      LevelIsDepth(entry, Join(dirPath, entry.name), printFiles, root,
                   ChildFlags(parents, level, i == |children| - 1));
    }
  }

  // ---------------------------------------------------------------------------
  // Which entries are printed

  /** A file line is written only when files are printed, and never for ".DS_Store". */
  predicate FileRowAllowed(r: Row, printFiles: bool) {
    r.FileRow? ==> printFiles && r.name != ".DS_Store"
  }

  lemma {:induction false} FileRowsOnlyWhenPrinting(dir: Entry, dirPath: Path, printFiles: bool, root: Path,
                                                    parents: seq<bool>)
    requires dir.Dir? && WellFormed(dir)
    requires IsCleanPath(root) && IsDescendantAt(dirPath, root, |parents|)
    ensures forall r | r in WalkDir(dir, dirPath, printFiles, root, parents).rows :: FileRowAllowed(r, printFiles)
    decreases dir, 1, 0
  {
    if dir.listing.Listed? {
      RangeFileRows(dir, dirPath, printFiles, root, parents, |Children(dir, printFiles)|);
    }
  }

  lemma {:induction false} RangeFileRows(dir: Entry, dirPath: Path, printFiles: bool, root: Path,
                                         parents: seq<bool>, j: nat)
    requires WalkReady(dir, dirPath, root, parents)
    requires j <= |Children(dir, printFiles)|
    ensures forall r | r in WalkRange(dir, dirPath, printFiles, root, parents, 0, j).rows :: FileRowAllowed(r, printFiles)
    decreases dir, 0, j + 1
  {
    if j > 0 {
      RangeFileRows(dir, dirPath, printFiles, root, parents, j - 1);
      StepFileRows(dir, dirPath, printFiles, root, parents, j - 1);
      var done := WalkRange(dir, dirPath, printFiles, root, parents, 0, j - 1);
      var step := Step(dir, dirPath, printFiles, root, parents, j - 1);
      if done.err.None? {
        assert forall r | r in done.rows + step.rows :: r in done.rows || r in step.rows;
      }
    }
  }

  lemma {:induction false} StepFileRows(dir: Entry, dirPath: Path, printFiles: bool, root: Path,
                                        parents: seq<bool>, i: nat)
    requires WalkReady(dir, dirPath, root, parents)
    requires i < |Children(dir, printFiles)|
    ensures forall r | r in Step(dir, dirPath, printFiles, root, parents, i).rows :: FileRowAllowed(r, printFiles)
    decreases dir, 0, 0
  {
    var children := Children(dir, printFiles);
    var entry := children[i];
    ChildReady(dir, printFiles, i);
    if entry.Dir? {
      DescendantLevel(dirPath, root, |parents|);
      DescendantJoin(dirPath, root, |parents|, entry.name);
      var level := GetDirLevel(dirPath, root);
      FileRowsOnlyWhenPrinting(entry, Join(dirPath, entry.name), printFiles, root,
                               ChildFlags(parents, level, i == |children| - 1));
    }
  }

  /** Without -f only directory lines are written. */
  lemma OnlyDirectoriesWithoutFiles(dir: Entry, dirPath: Path, root: Path, parents: seq<bool>)
    requires dir.Dir? && WellFormed(dir)
    requires IsCleanPath(root) && IsDescendantAt(dirPath, root, |parents|)
    ensures forall r | r in WalkDir(dir, dirPath, false, root, parents).rows :: r.DirRow?
  {
    FileRowsOnlyWhenPrinting(dir, dirPath, false, root, parents);
  }

  /** A file named ".DS_Store" never gets a line. */
  lemma DSStoreNeverPrinted(dir: Entry, dirPath: Path, printFiles: bool, root: Path, parents: seq<bool>)
    requires dir.Dir? && WellFormed(dir)
    requires IsCleanPath(root) && IsDescendantAt(dirPath, root, |parents|)
    ensures forall r | r in WalkDir(dir, dirPath, printFiles, root, parents).rows :: r.FileRow? ==> r.name != ".DS_Store"
  {
    FileRowsOnlyWhenPrinting(dir, dirPath, printFiles, root, parents);
  }

  // ---------------------------------------------------------------------------
  // The lines of the immediate children

  /** The rows whose ancestors' flags have the given length: the lines of
      the entries at that depth. */
  function TopRows(rows: seq<Row>, depth: nat): seq<Row>
  {
    if rows == [] then []
    else TopRows(rows[..|rows| - 1], depth)
         + (if |rows[|rows| - 1].parents| == depth then [rows[|rows| - 1]] else [])
  }

  lemma {:induction false} TopRowsAppend(a: seq<Row>, b: seq<Row>, depth: nat)
    ensures TopRows(a + b, depth) == TopRows(a, depth) + TopRows(b, depth)
    decreases |b|
  {
    if b == [] {
      assert a + b == a;
    } else {
      var c := a + b;
      assert c[..|c| - 1] == a + b[..|b| - 1];
      assert c[|c| - 1] == b[|b| - 1];
      TopRowsAppend(a, b[..|b| - 1], depth);
    }
  }

  lemma {:induction false} TopRowsOfDeeper(rows: seq<Row>, depth: nat)
    requires forall r | r in rows :: |r.parents| > depth
    ensures TopRows(rows, depth) == []
    decreases |rows|
  {
    if rows != [] {
      TopRowsOfDeeper(rows[..|rows| - 1], depth);
    }
  }

  /** Whether an entry visited by the loop gets a line of its own. */
  predicate Shown(e: Entry, printFiles: bool) {
    e.Dir? || (printFiles && e.name != ".DS_Store" && e.size.Some?)
  }

  /** The line the loop writes for the visited entry with index k. */
  function ChildRow(dir: Entry, dirPath: Path, printFiles: bool, root: Path, parents: seq<bool>, k: nat): Row
    requires WalkReady(dir, dirPath, root, parents)
    requires k < |Children(dir, printFiles)|
  {
    DescendantLevel(dirPath, root, |parents|);
    var children := Children(dir, printFiles);
    var e := children[k];
    var level := GetDirLevel(dirPath, root);
    if e.Dir? then DirRow(level, k == |children| - 1, parents, e.name)
    else FileRow(level, k == |children| - 1, parents, e.name, if e.size.Some? then e.size.value else 0)
  }

  /** The lines of the shown entries among the first j visited, in order:
      what the listing of the immediate children should be. */
  function ShownRows(dir: Entry, dirPath: Path, printFiles: bool, root: Path, parents: seq<bool>, j: nat): seq<Row>
    requires WalkReady(dir, dirPath, root, parents)
    requires j <= |Children(dir, printFiles)|
  {
    if j == 0 then []
    else ShownRows(dir, dirPath, printFiles, root, parents, j - 1)
         + (if Shown(Children(dir, printFiles)[j - 1], printFiles)
            then [ChildRow(dir, dirPath, printFiles, root, parents, j - 1)] else [])
  }

  lemma TopRowsSingle(row: Row, depth: nat)
    ensures TopRows([row], depth) == if |row.parents| == depth then [row] else []
  {
    assert [row][..0] == [];
  }

  /** One pass of the loop adds exactly the entry's own line at the
      children's depth, if it is shown: the lines of a subdirectory's walk
      are all deeper. */
  lemma StepTopRows(dir: Entry, dirPath: Path, printFiles: bool, root: Path, parents: seq<bool>, k: nat)
    requires WalkReady(dir, dirPath, root, parents)
    requires k < |Children(dir, printFiles)|
    ensures TopRows(Step(dir, dirPath, printFiles, root, parents, k).rows, |parents|)
            == if Shown(Children(dir, printFiles)[k], printFiles)
               then [ChildRow(dir, dirPath, printFiles, root, parents, k)] else []
  {
    var entry := Children(dir, printFiles)[k];
    var row := ChildRow(dir, dirPath, printFiles, root, parents, k);
    var step := Step(dir, dirPath, printFiles, root, parents, k);
    if entry.Dir? {
      DirStepTopRows(dir, dirPath, printFiles, root, parents, k);
    } else {
      ChildReady(dir, printFiles, k);
      TopRowsSingle(row, |parents|);
      if Shown(entry, printFiles) {
        assert step.rows == [row];
      } else {
        assert step.rows == [];
      }
    }
  }

  /** A subdirectory's pass: its own line, then its walk, whose lines are all deeper. */
  lemma DirStepTopRows(dir: Entry, dirPath: Path, printFiles: bool, root: Path, parents: seq<bool>, k: nat)
    requires WalkReady(dir, dirPath, root, parents)
    requires k < |Children(dir, printFiles)| && Children(dir, printFiles)[k].Dir?
    ensures TopRows(Step(dir, dirPath, printFiles, root, parents, k).rows, |parents|)
            == [ChildRow(dir, dirPath, printFiles, root, parents, k)]
  {
    var children := Children(dir, printFiles);
    var entry := children[k];
    ChildReady(dir, printFiles, k);
    DescendantLevel(dirPath, root, |parents|);
    var level := GetDirLevel(dirPath, root);
    var row := ChildRow(dir, dirPath, printFiles, root, parents, k);
    TopRowsSingle(row, |parents|);
    DescendantJoin(dirPath, root, |parents|, entry.name);
    var flags := ChildFlags(parents, level, k == |children| - 1);
    var sub := WalkDir(entry, Join(dirPath, entry.name), printFiles, root, flags);
    assert Step(dir, dirPath, printFiles, root, parents, k).rows == [row] + sub.rows;
    WalkFits(entry, Join(dirPath, entry.name), printFiles, root, flags);
    TopRowsOfDeeper(sub.rows, |parents|);
    TopRowsAppend([row], sub.rows, |parents|);
  }

  /** Until the walk fails, the lines at the children's depth are exactly the
      shown entries, visited in order. */
  lemma {:induction false} TopRowsOfRange(dir: Entry, dirPath: Path, printFiles: bool, root: Path,
                                          parents: seq<bool>, j: nat)
    requires WalkReady(dir, dirPath, root, parents)
    requires j <= |Children(dir, printFiles)|
    requires WalkRange(dir, dirPath, printFiles, root, parents, 0, j).err.None?
    ensures TopRows(WalkRange(dir, dirPath, printFiles, root, parents, 0, j).rows, |parents|)
            == ShownRows(dir, dirPath, printFiles, root, parents, j)
    decreases j
  {
    if j > 0 {
      var before := WalkRange(dir, dirPath, printFiles, root, parents, 0, j - 1);
      var step := Step(dir, dirPath, printFiles, root, parents, j - 1);
      assert before.err.None?;
      assert WalkRange(dir, dirPath, printFiles, root, parents, 0, j).rows == before.rows + step.rows;
      TopRowsOfRange(dir, dirPath, printFiles, root, parents, j - 1);
      TopRowsAppend(before.rows, step.rows, |parents|);
      StepTopRows(dir, dirPath, printFiles, root, parents, j - 1);
    }
  }

  /** Every shown row among the first j names an entry below the one with index m >= j. */
  lemma {:induction false} ShownRowsBelow(dir: Entry, dirPath: Path, printFiles: bool, root: Path,
                                          parents: seq<bool>, j: nat, m: nat)
    requires WalkReady(dir, dirPath, root, parents)
    requires j <= m < |Children(dir, printFiles)|
    ensures forall r | r in ShownRows(dir, dirPath, printFiles, root, parents, j) ::
              NameLess(r.name, Children(dir, printFiles)[m].name)
    decreases j
  {
    if j > 0 {
      ShownRowsBelow(dir, dirPath, printFiles, root, parents, j - 1, m);
      ChildrenAscending(dir, printFiles);
      assert NameLess(Children(dir, printFiles)[j - 1].name, Children(dir, printFiles)[m].name);
    }
  }

  predicate RowsAscending(rows: seq<Row>) {
    forall p, q | 0 <= p < q < |rows| :: NameLess(rows[p].name, rows[q].name)
  }

  lemma {:induction false} ShownRowsAscending(dir: Entry, dirPath: Path, printFiles: bool, root: Path,
                                              parents: seq<bool>, j: nat)
    requires WalkReady(dir, dirPath, root, parents)
    requires j <= |Children(dir, printFiles)|
    ensures RowsAscending(ShownRows(dir, dirPath, printFiles, root, parents, j))
    decreases j
  {
    if j > 0 {
      ShownRowsAscending(dir, dirPath, printFiles, root, parents, j - 1);
      ShownRowsBelow(dir, dirPath, printFiles, root, parents, j - 1, j - 1);
      var before := ShownRows(dir, dirPath, printFiles, root, parents, j - 1);
      var rows := ShownRows(dir, dirPath, printFiles, root, parents, j);
      forall p, q | 0 <= p < q < |rows| ensures NameLess(rows[p].name, rows[q].name) {
        if q < |before| {
          assert rows[p] == before[p] && rows[q] == before[q];
        } else {
          assert rows[p] == before[p];
          assert rows[p] in before;
        }
      }
    }
  }

  /** Only the row of the last visited entry is marked last. */
  lemma {:induction false} ShownRowsLastFlag(dir: Entry, dirPath: Path, printFiles: bool, root: Path,
                                             parents: seq<bool>, j: nat)
    requires WalkReady(dir, dirPath, root, parents)
    requires j <= |Children(dir, printFiles)|
    ensures forall p | 0 <= p < |ShownRows(dir, dirPath, printFiles, root, parents, j)| ::
              ShownRows(dir, dirPath, printFiles, root, parents, j)[p].isLast
              <==> && j == |Children(dir, printFiles)|
                   && p == |ShownRows(dir, dirPath, printFiles, root, parents, j)| - 1
                   && Shown(Children(dir, printFiles)[j - 1], printFiles)
    decreases j
  {
    if j > 0 {
      ShownRowsLastFlag(dir, dirPath, printFiles, root, parents, j - 1);
      var before := ShownRows(dir, dirPath, printFiles, root, parents, j - 1);
      var rows := ShownRows(dir, dirPath, printFiles, root, parents, j);
      var n := |Children(dir, printFiles)|;
      forall p | 0 <= p < |rows|
        ensures rows[p].isLast <==> (j == n && p == |rows| - 1 && Shown(Children(dir, printFiles)[j - 1], printFiles))
      {
        var shown := Shown(Children(dir, printFiles)[j - 1], printFiles);
        assert rows == before + (if shown then [ChildRow(dir, dirPath, printFiles, root, parents, j - 1)] else []);
        if p < |before| {
          assert rows[p] == before[p];
          assert !before[p].isLast;
          assert p == |rows| - 1 ==> !shown;
        } else {
          assert shown;
          assert rows[p] == ChildRow(dir, dirPath, printFiles, root, parents, j - 1);
          assert rows[p].isLast <==> j - 1 == n - 1;
        }
      }
    }
  }

  /** The lines a walk writes at the depth of dir's own entries. */
  function ChildLines(dir: Entry, dirPath: Path, printFiles: bool, root: Path, parents: seq<bool>): seq<Row>
    requires WalkReady(dir, dirPath, root, parents)
  {
    TopRows(WalkDir(dir, dirPath, printFiles, root, parents).rows, |parents|)
  }

  /** Siblings appear in strictly ascending order of name: the lines at the
      children's depth are the shown children, sorted. */
  lemma SiblingsAscending(dir: Entry, dirPath: Path, printFiles: bool, root: Path, parents: seq<bool>)
    requires WalkReady(dir, dirPath, root, parents)
    requires WalkDir(dir, dirPath, printFiles, root, parents).err.None?
    ensures ChildLines(dir, dirPath, printFiles, root, parents)
            == ShownRows(dir, dirPath, printFiles, root, parents, |Children(dir, printFiles)|)
    ensures RowsAscending(ChildLines(dir, dirPath, printFiles, root, parents))
  {
    var n := |Children(dir, printFiles)|;
    TopRowsOfRange(dir, dirPath, printFiles, root, parents, n);
    ShownRowsAscending(dir, dirPath, printFiles, root, parents, n);
  }

  /** The connector "└───" goes to the last line among the children exactly
      when the last visited entry is itself shown; every other child line
      gets "├───". */
  lemma LastConnector(dir: Entry, dirPath: Path, printFiles: bool, root: Path, parents: seq<bool>)
    requires WalkReady(dir, dirPath, root, parents)
    requires WalkDir(dir, dirPath, printFiles, root, parents).err.None?
    ensures forall p | 0 <= p < |ChildLines(dir, dirPath, printFiles, root, parents)| ::
              ChildLines(dir, dirPath, printFiles, root, parents)[p].isLast
              <==> && p == |ChildLines(dir, dirPath, printFiles, root, parents)| - 1
                   && |Children(dir, printFiles)| > 0
                   && Shown(Children(dir, printFiles)[|Children(dir, printFiles)| - 1], printFiles)
  {
    var n := |Children(dir, printFiles)|;
    TopRowsOfRange(dir, dirPath, printFiles, root, parents, n);
    ShownRowsLastFlag(dir, dirPath, printFiles, root, parents, n);
  }

  /** ".DS_Store" still takes part in choosing the last entry: when it sorts
      last, no child line gets "└───". */
  lemma DSStoreLastHidesLastConnector(dir: Entry, dirPath: Path, root: Path, parents: seq<bool>)
    requires WalkReady(dir, dirPath, root, parents)
    requires WalkDir(dir, dirPath, true, root, parents).err.None?
    requires |Children(dir, true)| > 0
    requires Children(dir, true)[|Children(dir, true)| - 1].File?
    requires Children(dir, true)[|Children(dir, true)| - 1].name == ".DS_Store"
    ensures forall r | r in ChildLines(dir, dirPath, true, root, parents) :: !r.isLast
  {
    LastConnector(dir, dirPath, true, root, parents);
    var lines := ChildLines(dir, dirPath, true, root, parents);
    forall r | r in lines ensures !r.isLast {
      var p :| 0 <= p < |lines| && lines[p] == r;
    }
  }

  // ---------------------------------------------------------------------------
  // Pre-order

  lemma {:induction false} FirstRowIsChild(dir: Entry, dirPath: Path, printFiles: bool, root: Path,
                                           parents: seq<bool>, lo: nat, hi: nat)
    requires WalkReady(dir, dirPath, root, parents)
    requires lo <= hi <= |Children(dir, printFiles)|
    ensures var rows := WalkRange(dir, dirPath, printFiles, root, parents, lo, hi).rows;
            rows != [] ==> rows[0].parents == parents
    decreases hi
  {
    if lo < hi {
      FirstRowIsChild(dir, dirPath, printFiles, root, parents, lo, hi - 1);
    }
  }

  /** The walk of the subdirectory visited with index i. */
  function SubWalk(dir: Entry, dirPath: Path, printFiles: bool, root: Path, parents: seq<bool>, i: nat): Outcome
    requires WalkReady(dir, dirPath, root, parents)
    requires i < |Children(dir, printFiles)| && Children(dir, printFiles)[i].Dir?
  {
    var children := Children(dir, printFiles);
    var entry := children[i];
    ChildReady(dir, printFiles, i);
    DescendantLevel(dirPath, root, |parents|);
    DescendantJoin(dirPath, root, |parents|, entry.name);
    WalkDir(entry, Join(dirPath, entry.name), printFiles, root,
            ChildFlags(parents, GetDirLevel(dirPath, root), i == |children| - 1))
  }

  /** A subdirectory's line comes first, the lines of everything below it
      follow as one block, all deeper than the line itself, and the next line
      at the subdirectory's own depth belongs to its next shown sibling. */
  lemma SubtreeIsContiguous(dir: Entry, dirPath: Path, printFiles: bool, root: Path, parents: seq<bool>, i: nat)
    requires WalkReady(dir, dirPath, root, parents)
    requires i < |Children(dir, printFiles)| && Children(dir, printFiles)[i].Dir?
    requires WalkDir(dir, dirPath, printFiles, root, parents).err.None?
    ensures WalkDir(dir, dirPath, printFiles, root, parents).rows
            == WalkRange(dir, dirPath, printFiles, root, parents, 0, i).rows
               + [ChildRow(dir, dirPath, printFiles, root, parents, i)]
               + SubWalk(dir, dirPath, printFiles, root, parents, i).rows
               + WalkRange(dir, dirPath, printFiles, root, parents, i + 1, |Children(dir, printFiles)|).rows
    ensures forall r | r in SubWalk(dir, dirPath, printFiles, root, parents, i).rows :: |r.parents| > |parents|
    ensures var after := WalkRange(dir, dirPath, printFiles, root, parents, i + 1, |Children(dir, printFiles)|).rows;
            after != [] ==> after[0].parents == parents
  {
    var n := |Children(dir, printFiles)|;
    var children := Children(dir, printFiles);
    var entry := children[i];
    ChildReady(dir, printFiles, i);
    RangeSplit(dir, dirPath, printFiles, root, parents, 0, i, n);
    RangeSplit(dir, dirPath, printFiles, root, parents, i, i + 1, n);
    var before := WalkRange(dir, dirPath, printFiles, root, parents, 0, i);
    var step := Step(dir, dirPath, printFiles, root, parents, i);
    var after := WalkRange(dir, dirPath, printFiles, root, parents, i + 1, n);
    var mid := WalkRange(dir, dirPath, printFiles, root, parents, i, i + 1);
    assert mid == Then(Outcome([], None), step);
    assert [] + step.rows == step.rows;
    // The whole walk succeeded, so neither the entries before i nor entry i failed.
    assert Then(before, Then(mid, after)).err.None?;
    assert WalkDir(dir, dirPath, printFiles, root, parents).rows == before.rows + (step.rows + after.rows);
    DescendantLevel(dirPath, root, |parents|);
    DescendantJoin(dirPath, root, |parents|, entry.name);
    var sub := SubWalk(dir, dirPath, printFiles, root, parents, i);
    var row := ChildRow(dir, dirPath, printFiles, root, parents, i);
    assert step == Outcome([row] + sub.rows, sub.err);
    AppendAssociative([row], sub.rows, after.rows);
    AppendAssociative(before.rows, [row], sub.rows + after.rows);
    AppendAssociative(before.rows + [row], sub.rows, after.rows);
    WalkFits(entry, Join(dirPath, entry.name), printFiles, root,
             ChildFlags(parents, GetDirLevel(dirPath, root), i == n - 1));
    FirstRowIsChild(dir, dirPath, printFiles, root, parents, i + 1, n);
  }
}
