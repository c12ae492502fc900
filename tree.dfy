/** The program's walk, step by step: the writer is the sequence of lines
    written so far, and each method returns it with its own lines appended.
    Every method is proved against the functions of Walk. */
module Tree {
  import opened Wrappers
  import opened Sequences
  import opened Paths
  import opened Render
  import opened FileSystem
  import opened Sorting
  import opened Walk
  import WalkProperties

  /** The filtering loop of RecursiveDirRead. */
  method FilterEntries(currDir: seq<Entry>, printFiles: bool) returns (filteredDir: seq<Entry>)
    ensures filteredDir == Kept(currDir, printFiles)
    ensures forall e | e in filteredDir :: e.Dir? || printFiles
    ensures forall e | e in currDir && (e.Dir? || printFiles) :: e in filteredDir
  {
    filteredDir := [];
    for i := 0 to |currDir|
      invariant filteredDir == Kept(currDir[..i], printFiles)
    {
      var val := currDir[i];
      if val.Dir? || (!val.Dir? && printFiles) {
        filteredDir := filteredDir + [val];
      }
      assert currDir[..i + 1][..i] == currDir[..i];
    }
    assert currDir[..|currDir|] == currDir;
    KeptMembers(currDir, printFiles);
  }

  /** Building the flags for a subdirectory: make, an index write at the
      current level, then copy of the parent's flags over the front. */
  method NewIsLastParents(isLastParents: seq<bool>, nestedLevel: int, isLastElement: bool) returns (r: seq<bool>)
    requires 0 <= nestedLevel <= |isLastParents|
    ensures r == ChildFlags(isLastParents, nestedLevel, isLastElement)
  {
    var newIsLastParents := new bool[|isLastParents| + 1](_ => false);
    newIsLastParents[nestedLevel] := isLastElement;
    forall k | 0 <= k < |isLastParents| {
      newIsLastParents[k] := isLastParents[k];
    }
    r := newIsLastParents[..];
    assert r == isLastParents + [nestedLevel == |isLastParents| && isLastElement];
  }

  /** printDir: writes the directory's line. */
  method PrintDir(out: seq<string>, level: int, isLastElement: bool, isLastParents: seq<bool>, dir: Entry)
    returns (written: seq<string>)
    requires level <= |isLastParents|
    ensures written == out + [DirLine(Indent(level, isLastElement, isLastParents), dir.name)]
  {
    var indent := GetIndent(level, isLastElement, isLastParents);
    var formattedString := indent + dir.name + "\n";
    written := out + [formattedString];
  }

  /** printFile: reads the file's size, then writes its line; when the size
      cannot be read it writes nothing and reports the failure. */
  method PrintFile(out: seq<string>, level: int, isLastElement: bool, isLastParents: seq<bool>, file: Entry)
    returns (written: seq<string>, err: Option<Error>)
    requires file.File? && level <= |isLastParents|
    ensures file.size.None? ==> written == out && err == Some(InfoFailed(file.name))
    ensures file.size.Some? ==>
              && err.None?
              && written == out + [Indent(level, isLastElement, isLastParents) + file.name + " "
                                   + (if file.size.value == 0 then "(empty)" else "(" + Decimal(file.size.value) + "b)")
                                   + "\n"]
  {
    if file.size.None? {
      return out, Some(InfoFailed(file.name));
    }
    var size := file.size.value;
    var indent := GetIndent(level, isLastElement, isLastParents);
    var formattedFileSize := "(" + Decimal(size) + "b)";
    if formattedFileSize == "(0b)" {
      formattedFileSize := "(empty)";
    }
    SizeLabelCases(size);
    var formattedString := indent + file.name + " " + formattedFileSize + "\n";
    written := out + [formattedString];
    err := None;
  }

  /** RecursiveDirRead: writes the lines of everything below dir, stopping at
      the first directory that cannot be opened or read. */
  method RecursiveDirRead(out: seq<string>, dir: Entry, dirPath: Path, printFiles: bool, initialPath: Path,
                          isLastParents: seq<bool>)
    returns (written: seq<string>, err: Option<Error>)
    requires dir.Dir? && WellFormed(dir)
    requires IsCleanPath(initialPath) && IsDescendantAt(dirPath, initialPath, |isLastParents|)
    ensures AllFit(WalkDir(dir, dirPath, printFiles, initialPath, isLastParents).rows)
    ensures written == out + RenderAll(WalkDir(dir, dirPath, printFiles, initialPath, isLastParents).rows)
    ensures err == WalkDir(dir, dirPath, printFiles, initialPath, isLastParents).err
    decreases dir, 1
  {
    WalkFits(dir, dirPath, printFiles, initialPath, isLastParents);
    DescendantLevelBounded(dirPath, initialPath, |isLastParents|);
    var nestedLevel := GetDirLevel(dirPath, initialPath);

    var currDir: seq<Entry>;
    match dir.listing {
      case OpenFails =>
        return out, Some(OpenFailed(dirPath));
      case ReadDirFails =>
        return out, Some(ReadDirFailed(dirPath));
      case Listed(entries) =>
        currDir := entries;
    }

    var filteredDir := FilterEntries(currDir, printFiles);
    filteredDir := SortByName(filteredDir);
    assert filteredDir == Children(dir, printFiles);

    written := out;
    ghost var done: seq<Row> := [];
    for i := 0 to |filteredDir|
      invariant WalkRange(dir, dirPath, printFiles, initialPath, isLastParents, 0, i) == Outcome(done, None)
      invariant AllFit(done)
      invariant written == out + RenderAll(done)
    {
      ghost var step := Step(dir, dirPath, printFiles, initialPath, isLastParents, i);
      var e;
      written, e := ReadEntry(written, dir, dirPath, printFiles, initialPath, isLastParents, nestedLevel,
                              filteredDir, i);
      RenderAllAppend(done, step.rows);
      AppendAssociative(out, RenderAll(done), RenderAll(step.rows));
      done := done + step.rows;
      if e.Some? {
        ErrorSticks(dir, dirPath, printFiles, initialPath, isLastParents, i + 1, |filteredDir|);
        return written, e;
      }
    }
    err := None;
  }

  /** One pass of the loop of RecursiveDirRead, for the sorted entry with
      index i: a directory is printed and walked; a file is printed unless it
      is ".DS_Store", and printFile's failure is dropped. */
  method ReadEntry(out: seq<string>, dir: Entry, dirPath: Path, printFiles: bool, initialPath: Path,
                   isLastParents: seq<bool>, nestedLevel: int, filteredDir: seq<Entry>, i: nat)
    returns (written: seq<string>, err: Option<Error>)
    requires dir.Dir? && dir.listing.Listed? && WellFormed(dir)
    requires IsCleanPath(initialPath) && IsDescendantAt(dirPath, initialPath, |isLastParents|)
    requires nestedLevel == GetDirLevel(dirPath, initialPath)
    requires filteredDir == Children(dir, printFiles) && i < |filteredDir|
    ensures AllFit(Step(dir, dirPath, printFiles, initialPath, isLastParents, i).rows)
    ensures written == out + RenderAll(Step(dir, dirPath, printFiles, initialPath, isLastParents, i).rows)
    ensures err == Step(dir, dirPath, printFiles, initialPath, isLastParents, i).err
    decreases dir, 0
  {
    var file := filteredDir[i];
    var isLastElement := i == |filteredDir| - 1;
    ChildReady(dir, printFiles, i);
    DescendantLevelBounded(dirPath, initialPath, |isLastParents|);

    ghost var step := Step(dir, dirPath, printFiles, initialPath, isLastParents, i);
    if file.Dir? {
      written := PrintDir(out, nestedLevel, isLastElement, isLastParents, file);
      var newIsLastParents := NewIsLastParents(isLastParents, nestedLevel, isLastElement);
      DescendantJoin(dirPath, initialPath, |isLastParents|, file.name);
      var childPath := Join(dirPath, file.name);
      ghost var row := DirRow(nestedLevel, isLastElement, isLastParents, file.name);
      ghost var sub := WalkDir(file, childPath, printFiles, initialPath, newIsLastParents);
      assert step == Outcome([row] + sub.rows, sub.err);
      WalkFits(file, childPath, printFiles, initialPath, newIsLastParents);
      RenderAllCons(row, sub.rows);
      assert written == out + [RenderRow(row)];
      written, err := RecursiveDirRead(written, file, childPath, printFiles, initialPath, newIsLastParents);
      AppendAssociative(out, [RenderRow(row)], RenderAll(sub.rows));
    } else if printFiles {
      if file.name == ".DS_Store" {
        assert step.rows == [];
        return out, None;
      }
      var ignored;
      written, ignored := PrintFile(out, nestedLevel, isLastElement, isLastParents, file);
      if file.size.Some? {
        ghost var row := FileRow(nestedLevel, isLastElement, isLastParents, file.name, file.size.value);
        assert step.rows == [row];
        SizeLabelCases(file.size.value);
        RenderAllOne(row);
        assert written == out + [RenderRow(row)];
      } else {
        assert step.rows == [];
      }
      err := None;
    } else {
      assert step.rows == [];
      written, err := out, None;
    }
  }

  /** dirTree: walks the directory at dirPath, starting with no ancestors. The
      walk fails exactly when some directory in the tree cannot be opened or read. */
  method DirTree(out: seq<string>, root: Entry, dirPath: Path, printFiles: bool)
    returns (written: seq<string>, err: Option<Error>)
    requires root.Dir? && WellFormed(root) && IsCleanPath(dirPath)
    ensures AllFit(WalkDir(root, dirPath, printFiles, dirPath, []).rows)
    ensures written == out + RenderAll(WalkDir(root, dirPath, printFiles, dirPath, []).rows)
    ensures err == WalkDir(root, dirPath, printFiles, dirPath, []).err
    ensures err.None? <==> Listable(root)
  {
    var isLastParents: seq<bool> := [];
    written, err := RecursiveDirRead(out, root, dirPath, printFiles, dirPath, isLastParents);
    WalkProperties.NoErrorIffListable(root, dirPath, printFiles, dirPath, []);
  }
}
