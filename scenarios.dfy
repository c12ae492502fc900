/** Concrete runs of the walk on a small tree: a root R holding an empty
    directory B and a directory A that holds an empty file x. */
module Scenarios {
  import opened Wrappers
  import opened Paths
  import opened Render
  import opened FileSystem
  import opened Sorting
  import opened Walk

  const X: Entry := File("x", Some(0))
  const A: Entry := Dir("A", Listed([X]))
  const B: Entry := Dir("B", Listed([]))
  const R: Entry := Dir("R", Listed([B, A]))

  lemma ExampleReady()
    ensures WellFormed(R) && IsCleanPath(["R"]) && IsDescendantAt(["R"], ["R"], 0)
  {
    assert DistinctNames(R.listing.entries);
    assert IsEntryName("x") && IsEntryName("A") && IsEntryName("B");
  }

  lemma ExampleChildren(printFiles: bool)
    ensures Children(R, printFiles) == [A, B]
    ensures Children(A, true) == [X] && Children(A, false) == []
    ensures Children(B, printFiles) == []
  {
    assert [B][..0] == [] && [B, A][..1] == [B] && [X][..0] == [];
    assert Kept([B], printFiles) == [B];
    assert Kept([B, A], printFiles) == [B, A];
    assert [B, A][1..] == [A];
    assert SortByName([A]) == [A];
    assert NameLess("A", "B");
    assert Insert(B, [A]) == [A, B];
    assert Kept([X], true) == [X] && Kept([X], false) == [];
    assert SortByName([X]) == [X];
  }

  /** A's walk: x is the last (and only) child, one level down, under a
      parent that is not last. */
  lemma ExampleWalkOfA()
    ensures WellFormed(A) && IsCleanPath(["R"]) && IsDescendantAt(["R", "A"], ["R"], 1)
    ensures WalkDir(A, ["R", "A"], true, ["R"], [false]) == Outcome([FileRow(1, true, [false], "x", 0)], None)
  {
    ExampleReady();
    ExampleChildren(true);
    assert AreEntryNames(["R", "A"][1..]) by {
      assert ["R", "A"][1..] == ["A"];
    }
    assert GetDirLevel(["R", "A"], ["R"]) == 1;
    var step := Step(A, ["R", "A"], true, ["R"], [false], 0);
    assert X.name != ".DS_Store" by {
      assert |X.name| != |".DS_Store"|;
    }
    assert step == Outcome([FileRow(1, true, [false], "x", 0)], None);
    assert WalkRange(A, ["R", "A"], true, ["R"], [false], 0, 1) == Then(Outcome([], None), step);
  }

  /** B's walk writes nothing. */
  lemma ExampleWalkOfB(printFiles: bool)
    ensures WellFormed(B) && IsCleanPath(["R"]) && IsDescendantAt(["R", "B"], ["R"], 1)
    ensures WalkDir(B, ["R", "B"], printFiles, ["R"], [true]) == Outcome([], None)
  {
    ExampleChildren(printFiles);
    assert IsEntryName("B");
    assert ["R", "B"][1..] == ["B"];
  }

  /** With files: A comes before B, x is drawn under A with A's continuation
      bar, and B takes the last connector. */
  lemma ExampleWithFiles()
    ensures WellFormed(R) && IsCleanPath(["R"]) && IsDescendantAt(["R"], ["R"], 0)
    ensures WalkDir(R, ["R"], true, ["R"], [])
            == Outcome([DirRow(0, false, [], "A"), FileRow(1, true, [false], "x", 0), DirRow(0, true, [], "B")], None)
  {
    ExampleReady();
    ExampleChildren(true);
    ExampleWalkOfA();
    ExampleWalkOfB(true);
    assert GetDirLevel(["R"], ["R"]) == 0;
    assert Join(["R"], "A") == ["R", "A"] && Join(["R"], "B") == ["R", "B"];
    assert ChildFlags([], 0, false) == [false] && ChildFlags([], 0, true) == [true];
    var step0 := Step(R, ["R"], true, ["R"], [], 0);
    var step1 := Step(R, ["R"], true, ["R"], [], 1);
    assert step0 == Outcome([DirRow(0, false, [], "A"), FileRow(1, true, [false], "x", 0)], None);
    assert step1 == Outcome([DirRow(0, true, [], "B")], None);
    assert WalkRange(R, ["R"], true, ["R"], [], 0, 1) == step0;
  }

  /** The rows of the run with files, as the text the program writes. */
  lemma ExampleTextWithFiles()
    ensures AllFit([DirRow(0, false, [], "A"), FileRow(1, true, [false], "x", 0), DirRow(0, true, [], "B")])
    ensures RenderAll([DirRow(0, false, [], "A"), FileRow(1, true, [false], "x", 0), DirRow(0, true, [], "B")])
            == ["├───A\n", "│\t└───x (empty)\n", "└───B\n"]
  {
    assert Bars([false]) == "│\t" by {
      assert [false][..0] == [];
    }
    assert [false][..1] == [false];
    SizeLabelCases(0);
    var rows := [DirRow(0, false, [], "A"), FileRow(1, true, [false], "x", 0), DirRow(0, true, [], "B")];
    assert RenderRow(rows[0]) == "├───A\n";
    assert RenderRow(rows[1]) == "│\t└───x (empty)\n";
    assert RenderRow(rows[2]) == "└───B\n";
  }

  /** Without files: A and B are both printed, x is not, and A's subtree is
      empty. */
  lemma ExampleWithoutFiles()
    ensures WellFormed(R) && IsCleanPath(["R"]) && IsDescendantAt(["R"], ["R"], 0)
    ensures WalkDir(R, ["R"], false, ["R"], []) == Outcome([DirRow(0, false, [], "A"), DirRow(0, true, [], "B")], None)
  {
    ExampleReady();
    ExampleChildren(false);
    ExampleWalkOfB(false);
    assert IsEntryName("A") && ["R", "A"][1..] == ["A"];
    assert WalkDir(A, ["R", "A"], false, ["R"], [false]) == Outcome([], None);
    assert GetDirLevel(["R"], ["R"]) == 0;
    assert Join(["R"], "A") == ["R", "A"] && Join(["R"], "B") == ["R", "B"];
    assert ChildFlags([], 0, false) == [false] && ChildFlags([], 0, true) == [true];
    var step0 := Step(R, ["R"], false, ["R"], [], 0);
    assert step0 == Outcome([DirRow(0, false, [], "A")], None);
    assert Step(R, ["R"], false, ["R"], [], 1) == Outcome([DirRow(0, true, [], "B")], None);
    assert WalkRange(R, ["R"], false, ["R"], [], 0, 1) == step0;
  }

  /** The rows of the run without files, as text. */
  lemma ExampleTextWithoutFiles()
    ensures AllFit([DirRow(0, false, [], "A"), DirRow(0, true, [], "B")])
    ensures RenderAll([DirRow(0, false, [], "A"), DirRow(0, true, [], "B")]) == ["├───A\n", "└───B\n"]
  {
    assert RenderRow(DirRow(0, false, [], "A")) == "├───A\n";
    assert RenderRow(DirRow(0, true, [], "B")) == "└───B\n";
  }

  const Nested: Entry := Dir("b", Listed([]))
  const Top: Entry := Dir("a", Listed([Nested]))
  const FsRoot: Entry := Dir("", Listed([Top]))

  /** Walking from "/": "/a" splits to as many segments as "/", with the
      same empty first one, so the walk gives a's subdirectory b level 0
      although b carries one ancestor flag. */
  lemma ExampleSlashChildren()
    ensures Children(FsRoot, false) == [Top] && Children(Top, false) == [Nested] && Children(Nested, false) == []
  {
    assert [Top][..0] == [] && [Nested][..0] == [];
    assert Kept([Top], false) == [Top] && Kept([Nested], false) == [Nested];
    assert SortByName([Top]) == [Top] && SortByName([Nested]) == [Nested];
  }

  /** a's walk, below "/": its subdirectory b gets level 0. */
  lemma ExampleWalkOfTop()
    ensures WellFormed(Top) && IsCleanPath(Slash) && IsDescendantAt(["", "a"], Slash, 1)
    ensures WalkDir(Top, ["", "a"], false, Slash, [true]) == Outcome([DirRow(0, true, [true], "b")], None)
  {
    ExampleSlashChildren();
    assert IsEntryName("a") && IsEntryName("b");
    assert Join(["", "a"], "b") == ["", "a", "b"];
    assert ["", "a"][1..] == ["a"] && ["", "a", "b"][1..] == ["a", "b"];
    assert GetDirLevel(["", "a"], Slash) == 0;
    assert ChildFlags([true], 0, true) == [true, false];
    assert WalkDir(Nested, ["", "a", "b"], false, Slash, [true, false]) == Outcome([], None);
    var step := Step(Top, ["", "a"], false, Slash, [true], 0);
    assert step == Outcome([DirRow(0, true, [true], "b")], None);
    assert WalkRange(Top, ["", "a"], false, Slash, [true], 0, 1) == Then(Outcome([], None), step);
  }

  lemma ExampleSlashRoot()
    ensures WellFormed(FsRoot) && IsCleanPath(Slash) && IsDescendantAt(Slash, Slash, 0)
    ensures WalkDir(FsRoot, Slash, false, Slash, [])
            == Outcome([DirRow(0, true, [], "a"), DirRow(0, true, [true], "b")], None)
  {
    ExampleSlashChildren();
    ExampleWalkOfTop();
    assert Join(Slash, "a") == ["", "a"];
    assert GetDirLevel(Slash, Slash) == 0;
    assert ChildFlags([], 0, true) == [true];
    var step := Step(FsRoot, Slash, false, Slash, [], 0);
    assert step == Outcome([DirRow(0, true, [], "a"), DirRow(0, true, [true], "b")], None);
    assert WalkRange(FsRoot, Slash, false, Slash, [], 0, 1) == Then(Outcome([], None), step);
  }

  /** The text of that walk: b is drawn beside a instead of under it. */
  lemma ExampleSlashRootText()
    ensures AllFit([DirRow(0, true, [], "a"), DirRow(0, true, [true], "b")])
    ensures RenderAll([DirRow(0, true, [], "a"), DirRow(0, true, [true], "b")]) == ["└───a\n", "└───b\n"]
  {
    assert RenderRow(DirRow(0, true, [], "a")) == "└───a\n";
    assert RenderRow(DirRow(0, true, [true], "b")) == "└───b\n";
  }
}
