/** Paths as the program sees them: a path that has been cleaned and then split
    on the separator '/'. "." splits to ["."], "/" to ["", ""], "/usr/lib" to
    ["", "usr", "lib"] and "a/b" to ["a", "b"]. */
module Paths {

  type Path = seq<string>

  /** The cleaned current directory, "." */
  const Dot: Path := ["."]
  /** The cleaned file-system root, "/" */
  const Slash: Path := ["", ""]

  /** A name that a directory listing can return. */
  predicate IsEntryName(name: string) {
    name != "" && name != "." && name != ".." && '/' !in name
  }

  predicate AreEntryNames(names: seq<string>) {
    forall i | 0 <= i < |names| :: IsEntryName(names[i])
  }

  /** The segments of a cleaned path: "." or "/" on their own, otherwise no
      "." segment, no empty segment except the leading one of an absolute path. */
  predicate IsCleanPath(p: Path) {
    p == Dot || p == Slash ||
    (&& |p| >= 1
     && p[0] != "."
     && (p[0] == "" ==> |p| >= 2)
     && (forall i | 0 <= i < |p| :: '/' !in p[i])
     && (forall i | 1 <= i < |p| :: p[i] != "" && p[i] != "."))
  }

  /** Joining a cleaned directory path with an entry name, then cleaning and
      splitting again. */
  function Join(dirPath: Path, name: string): (r: Path)
    requires IsCleanPath(dirPath) && IsEntryName(name)
    ensures IsCleanPath(r)
    ensures |r| >= 1 && r[|r| - 1] == name
    ensures r != dirPath
  {
    if dirPath == Dot then [name]
    else if dirPath == Slash then ["", name]
    else dirPath + [name]
  }

  /** p is reached from root by k joins with entry names. */
  predicate IsDescendantAt(p: Path, root: Path, k: nat) {
    if k == 0 then p == root
    else if root == Dot then |p| == k && AreEntryNames(p)
    else if root == Slash then |p| == k + 1 && p[0] == "" && AreEntryNames(p[1..])
    else |p| == |root| + k && p[..|root|] == root && AreEntryNames(p[|root|..])
  }

  lemma DescendantIsClean(p: Path, root: Path, k: nat)
    requires IsCleanPath(root) && IsDescendantAt(p, root, k)
    ensures IsCleanPath(p)
  {
    if k > 0 && root != Dot && root != Slash {
      forall i | 1 <= i < |p| ensures p[i] != "" && p[i] != "." {
        if i >= |root| { assert p[i] == p[|root|..][i - |root|]; }
        else { assert p[i] == root[i]; }
      }
      forall i | 0 <= i < |p| ensures '/' !in p[i] {
        if i >= |root| { assert p[i] == p[|root|..][i - |root|]; }
        else { assert p[i] == root[i]; }
      }
    } else if k > 0 && root == Slash {
      forall i | 1 <= i < |p| ensures p[i] != "" && p[i] != "." && '/' !in p[i] {
        assert p[i] == p[1..][i - 1];
      }
    }
  }

  /** Joining an entry name onto a descendant at depth k gives a descendant at depth k + 1. */
  lemma DescendantJoin(p: Path, root: Path, k: nat, name: string)
    requires IsCleanPath(root) && IsDescendantAt(p, root, k) && IsEntryName(name)
    ensures IsCleanPath(p)
    ensures IsDescendantAt(Join(p, name), root, k + 1)
  {
    DescendantIsClean(p, root, k);
    var q := Join(p, name);
    if k == 0 {
      if root != Dot && root != Slash {
        assert q[|root|..] == [name];
      }
    } else if root == Dot {
      assert p != Dot && p != Slash;
      assert q == p + [name];
    } else if root == Slash {
      assert p != Dot && p[1] != "";
      assert q == p + [name];
      assert q[1..] == p[1..] + [name];
    } else {
      assert p != Dot && p[|p| - 1] == p[|root|..][k - 1];
      assert q == p + [name];
      assert q[..|root|] == p[..|root|];
      assert q[|root|..] == p[|root|..] + [name];
    }
  }

  /** GetDirLevel: the nesting level of dirPath below initialPath, computed from
      the segment counts. The equality test looks only at the first segment and
      the number of segments. */
  function GetDirLevel(dirPath: Path, initialPath: Path): (level: int)
    requires |dirPath| >= 1 && |initialPath| >= 1
  {
    if dirPath[0] == initialPath[0] && |dirPath| == |initialPath| then 0
    else if initialPath[0] == "." && |initialPath| == 1 then |dirPath| - (|initialPath| - 1)
    else |dirPath| - |initialPath|
  }

  /** The level of a descendant at depth k is k, except below the root "/",
      where the first level is 0 as well and every deeper level is one short. */
  lemma DescendantLevel(p: Path, root: Path, k: nat)
    requires IsCleanPath(root) && IsDescendantAt(p, root, k)
    ensures |p| >= 1 && |root| >= 1
    ensures GetDirLevel(p, root) == if root == Slash && k > 0 then k - 1 else k
  {
    if k > 0 && root == Dot {
      assert IsEntryName(p[0]);
    } else if k > 0 && root != Slash {
      assert p[0] == p[..|root|][0];
    }
  }

  /** Below any root, the level never exceeds the depth and is never negative. */
  lemma DescendantLevelBounded(p: Path, root: Path, k: nat)
    requires IsCleanPath(root) && IsDescendantAt(p, root, k)
    ensures |p| >= 1 && |root| >= 1
    ensures 0 <= GetDirLevel(p, root) <= k
  {
    DescendantLevel(p, root, k);
  }

  /** Below any root but "/", a subdirectory is one level deeper than its parent. */
  lemma ChildLevel(p: Path, root: Path, k: nat, name: string)
    requires IsCleanPath(root) && root != Slash
    requires IsDescendantAt(p, root, k) && IsEntryName(name)
    ensures IsCleanPath(p) && |p| >= 1 && |root| >= 1
    ensures GetDirLevel(Join(p, name), root) == GetDirLevel(p, root) + 1
  {
    DescendantJoin(p, root, k, name);
    DescendantLevel(p, root, k);
    DescendantLevel(Join(p, name), root, k + 1);
  }

  /** Root "." and a directory two levels down, "a/b": the level is 2. */
  lemma DotRootTwoLevelsDown()
    ensures IsDescendantAt(["a", "b"], Dot, 2)
    ensures GetDirLevel(["a", "b"], Dot) == 2
    ensures GetDirLevel(Dot, Dot) == 0
  {
  }

  /** As written, the root "/" and its subdirectory "/a" split to the same
      number of segments with the same (empty) first segment, so "/a" is given
      level 0 although it is one level below the root. */
  lemma SlashRootChildLevel()
    ensures IsDescendantAt(["", "a"], Slash, 1)
    ensures Join(Slash, "a") == ["", "a"]
    ensures GetDirLevel(["", "a"], Slash) == 0
    ensures GetDirLevel(["", "a", "b"], Slash) == 1
  {
  }

  /** The level the depth computation evidently intends: the number of joins
      that lead from the root to dirPath, for every cleaned root. */
  function IntendedDirLevel(dirPath: Path, initialPath: Path): int
    requires |dirPath| >= 1 && |initialPath| >= 1
  {
    if dirPath == initialPath then 0
    else if initialPath == Dot then |dirPath|
    else if initialPath == Slash then |dirPath| - 1
    else |dirPath| - |initialPath|
  }

  lemma IntendedLevelIsDepth(p: Path, root: Path, k: nat)
    requires IsCleanPath(root) && IsDescendantAt(p, root, k)
    ensures |p| >= 1 && |root| >= 1
    ensures IntendedDirLevel(p, root) == k
  {
    if k > 0 {
      if root == Dot {
        assert IsEntryName(p[0]);
        assert p != root;
      } else if root == Slash {
        assert IsEntryName(p[1..][0]);
        assert p != root;
      } else {
        assert |p| != |root|;
      }
    }
  }

  /** Away from the root "/", the level as written is the intended one. */
  lemma LevelsAgreeAwayFromSlash(p: Path, root: Path, k: nat)
    requires IsCleanPath(root) && root != Slash && IsDescendantAt(p, root, k)
    ensures |p| >= 1 && |root| >= 1
    ensures GetDirLevel(p, root) == IntendedDirLevel(p, root)
  {
    DescendantLevel(p, root, k);
    IntendedLevelIsDepth(p, root, k);
  }
}
