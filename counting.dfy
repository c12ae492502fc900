/** How many directory lines the walk writes: one per directory reachable
    from the root, the root itself excluded, with or without files. */
module Counting {
  import opened Paths
  import opened FileSystem
  import opened Sorting
  import opened Walk
  import opened WalkProperties

  /** The directories reachable below e, counted on the tree itself in
      listing order, with no reference to the walk. */
  function DirsBelow(e: Entry): nat
    decreases e, 0
  {
    if e.Dir? && e.listing.Listed? then DirsIn(e.listing.entries) else 0
  }

  /** The directories among s and below them. */
  function DirsIn(s: seq<Entry>): nat
    decreases s
  {
    if s == [] then 0
    else DirsIn(s[..|s| - 1]) + (if s[|s| - 1].Dir? then 1 + DirsBelow(s[|s| - 1]) else 0)
  }

  /** The number of directory lines among rows. */
  function DirLineCount(rows: seq<Row>): nat {
    if rows == [] then 0
    else DirLineCount(rows[..|rows| - 1]) + (if rows[|rows| - 1].DirRow? then 1 else 0)
  }

  lemma {:induction false} DirLineCountAppend(a: seq<Row>, b: seq<Row>)
    ensures DirLineCount(a + b) == DirLineCount(a) + DirLineCount(b)
    decreases |b|
  {
    if b == [] {
      assert a + b == a;
    } else {
      var c := a + b;
      assert c[..|c| - 1] == a + b[..|b| - 1];
      DirLineCountAppend(a, b[..|b| - 1]);
    }
  }

  lemma {:induction false} DirsInAppend(a: seq<Entry>, b: seq<Entry>)
    ensures DirsIn(a + b) == DirsIn(a) + DirsIn(b)
    decreases |b|
  {
    if b == [] {
      assert a + b == a;
    } else {
      var c := a + b;
      assert c[..|c| - 1] == a + b[..|b| - 1];
      DirsInAppend(a, b[..|b| - 1]);
    }
  }

  /** The count does not depend on the order of the entries. */
  lemma {:induction false} DirsInPermutation(a: seq<Entry>, b: seq<Entry>)
    requires multiset(a) == multiset(b)
    ensures DirsIn(a) == DirsIn(b)
    decreases |a|
  {
    if a == [] {
      assert |b| == |multiset(b)| == 0;
    } else {
      var x := a[|a| - 1];
      var init := a[..|a| - 1];
      assert a == init + [x];
      assert x in multiset(b);
      var k :| 0 <= k < |b| && b[k] == x;
      var rest := b[..k] + b[k + 1..];
      assert b == b[..k] + [x] + b[k + 1..];
      assert multiset(rest) == multiset(b) - multiset{x};
      assert multiset(init) == multiset(a) - multiset{x};
      DirsInPermutation(init, rest);
      DirsInAppend(b[..k], [x]);
      DirsInAppend(b[..k] + [x], b[k + 1..]);
      DirsInAppend(b[..k], b[k + 1..]);
      assert [x][..0] == [];
    }
  }

  /** Dropping files does not change the count. */
  lemma {:induction false} DirsInKept(entries: seq<Entry>, printFiles: bool)
    ensures DirsIn(Kept(entries, printFiles)) == DirsIn(entries)
  {
    if entries != [] {
      var init := entries[..|entries| - 1];
      var last := entries[|entries| - 1];
      DirsInKept(init, printFiles);
      if KeepEntry(last, printFiles) {
        DirsInAppend(Kept(init, printFiles), [last]);
        assert [last][..0] == [];
      } else {
        assert Kept(init, printFiles) + [] == Kept(init, printFiles);
      }
    }
  }

  /** The entries the loop visits hold all the directories of the listing. */
  lemma DirsInChildren(dir: Entry, printFiles: bool)
    requires dir.Dir? && dir.listing.Listed?
    ensures DirsIn(Children(dir, printFiles)) == DirsBelow(dir)
  {
    var kept := Kept(dir.listing.entries, printFiles);
    SortByNamePermutes(kept);
    DirsInPermutation(SortByName(kept), kept);
    DirsInKept(dir.listing.entries, printFiles);
  }

  /** When no directory fails to open or read, the walk writes exactly one
      directory line per directory reachable below dir, whether files are
      printed or not. */
  lemma {:induction false} DirLinesAreReachableDirs(dir: Entry, dirPath: Path, printFiles: bool, root: Path,
                                                    parents: seq<bool>)
    requires dir.Dir? && WellFormed(dir) && Listable(dir)
    requires IsCleanPath(root) && IsDescendantAt(dirPath, root, |parents|)
    ensures DirLineCount(WalkDir(dir, dirPath, printFiles, root, parents).rows) == DirsBelow(dir)
    decreases dir, 1, 0
  {
    var children := Children(dir, printFiles);
    forall k | 0 <= k < |children| ensures ListableIfDir(children[k]) {
      ChildReady(dir, printFiles, k);
    }
    RangeDirLines(dir, dirPath, printFiles, root, parents, |children|);
    assert children[..|children|] == children;
    DirsInChildren(dir, printFiles);
  }

  lemma {:induction false} RangeDirLines(dir: Entry, dirPath: Path, printFiles: bool, root: Path,
                                         parents: seq<bool>, j: nat)
    requires WalkReady(dir, dirPath, root, parents)
    requires j <= |Children(dir, printFiles)|
    requires forall k | 0 <= k < j :: ListableIfDir(Children(dir, printFiles)[k])
    ensures DirLineCount(WalkRange(dir, dirPath, printFiles, root, parents, 0, j).rows)
            == DirsIn(Children(dir, printFiles)[..j])
    decreases dir, 0, j + 1
  {
    if j > 0 {
      var children := Children(dir, printFiles);
      RangeDirLines(dir, dirPath, printFiles, root, parents, j - 1);
      RangeNoError(dir, dirPath, printFiles, root, parents, j - 1);
      StepDirLines(dir, dirPath, printFiles, root, parents, j - 1);
      var before := WalkRange(dir, dirPath, printFiles, root, parents, 0, j - 1);
      var step := Step(dir, dirPath, printFiles, root, parents, j - 1);
      assert WalkRange(dir, dirPath, printFiles, root, parents, 0, j).rows == before.rows + step.rows;
      DirLineCountAppend(before.rows, step.rows);
      assert children[..j][..j - 1] == children[..j - 1];
    }
  }

  /** One pass writes one directory line per directory in the entry's subtree. */
  lemma {:induction false} StepDirLines(dir: Entry, dirPath: Path, printFiles: bool, root: Path,
                                        parents: seq<bool>, i: nat)
    requires WalkReady(dir, dirPath, root, parents)
    requires i < |Children(dir, printFiles)| && ListableIfDir(Children(dir, printFiles)[i])
    ensures DirLineCount(Step(dir, dirPath, printFiles, root, parents, i).rows)
            == if Children(dir, printFiles)[i].Dir? then 1 + DirsBelow(Children(dir, printFiles)[i]) else 0
    decreases dir, 0, 0
  {
    var children := Children(dir, printFiles);
    var entry := children[i];
    ChildReady(dir, printFiles, i);
    DescendantLevel(dirPath, root, |parents|);
    var level := GetDirLevel(dirPath, root);
    var step := Step(dir, dirPath, printFiles, root, parents, i);
    if entry.Dir? {
      DescendantJoin(dirPath, root, |parents|, entry.name);
      var flags := ChildFlags(parents, level, i == |children| - 1);
      var sub := WalkDir(entry, Join(dirPath, entry.name), printFiles, root, flags);
      var row := DirRow(level, i == |children| - 1, parents, entry.name);
      assert step.rows == [row] + sub.rows;
      DirLinesAreReachableDirs(entry, Join(dirPath, entry.name), printFiles, root, flags);
      DirLineCountAppend([row], sub.rows);
      assert [row][..0] == [];
    } else if step.rows != [] {
      assert step.rows[..0] == [];
    }
  }

  /** Turning files on or off changes no directory line count. */
  lemma DirLinesIndependentOfFiles(dir: Entry, dirPath: Path, root: Path, parents: seq<bool>)
    requires dir.Dir? && WellFormed(dir) && Listable(dir)
    requires IsCleanPath(root) && IsDescendantAt(dirPath, root, |parents|)
    ensures DirLineCount(WalkDir(dir, dirPath, true, root, parents).rows)
            == DirLineCount(WalkDir(dir, dirPath, false, root, parents).rows)
  {
    DirLinesAreReachableDirs(dir, dirPath, true, root, parents);
    DirLinesAreReachableDirs(dir, dirPath, false, root, parents);
  }
}
