# tree: a verified model of the directory listing

`tree/main.go` prints a `tree`-style picture of a directory. For every entry it writes one line, made of three parts:

- the continuation bars of the entry's ancestors (`"│\t"` while an ancestor still has later siblings, `"\t"` once it was the last one);
- a connector, `"├───"`, or `"└───"` for the last entry of a directory;
- the entry's name.

Directories are always listed. With `-f`, files are listed as well, each followed by its size label (`"(empty)"` or `"(<n>b)"`); a file named `.DS_Store` gets no line. Within a directory, entries are visited in ascending order of name. Each subdirectory's listing follows its own line. Failing to open or to read a directory ends the walk.

The project models that program in Dafny, module by module:

| file | module | what it holds |
|---|---|---|
| `wrappers.dfy` | `Wrappers` | `Option` |
| `sequences.dfy` | `Sequences` | associativity of sequence concatenation |
| `paths.dfy` | `Paths` | cleaned paths as segment sequences, `path.Join` on them, `GetDirLevel` |
| `filesystem.dfy` | `FileSystem` | the file system as an in-memory tree of `Dir`/`File` entries, with failing listings and unreadable sizes |
| `sorting.dfy` | `Sorting` | Go's `<` on strings, and sorting by name as an insertion sort |
| `render.dfy` | `Render` | `getIndent`, the size label, and the two line formats |
| `walk.dfy` | `Walk` | the walk as functions of the tree: `WalkDir` (one directory), `WalkRange` (a stretch of its loop) and `Step` (one pass of the loop body) |
| `walk_props.dfy` | `WalkProperties` | order, connectors, levels, filtering and failure of the walk |
| `counting.dfy` | `Counting` | one directory line per reachable directory |
| `tree.dfy` | `Tree` | the program's own procedures as methods, proved against `Walk` |
| `scenarios.dfy` | `Scenarios` | concrete trees and the exact text written for them |

The output writer is a `seq<string>` of lines. Each method returns the lines written so far with its own lines appended.

A path is the result of `strings.Split(path.Clean(p), "/")`:

- `"."` is `["."]`;
- `"/"` is `["", ""]`;
- `"a/b"` is `["a", "b"]`.

`Paths.IsDescendantAt(p, root, k)` says that `p` is reached from `root` by `k` joins with entry names.

A failure to read a file's metadata does not end the walk: `printFile`'s error is discarded (`tree/main.go:83`), so the file gets no line and the walk goes on. `Tree.PrintFile` returns the error, and `Tree.ReadEntry` drops it.

## Model

| member | source | states |
|---|---|---|
| Paths.GetDirLevel | tree/main.go:91-104 | the three cases as written: 0 when the first segments and the segment counts agree, the segment count below `"."`, otherwise the difference of the counts; its meaning is stated by `Paths.DescendantLevel` (the depth, one less below `"/"`) and `Paths.DescendantLevelBounded` |
| Render.Indent | tree/main.go:145-172 | the prefix the program draws; `Render.GetIndent` is proved to build it, `Render.IndentRoundTrip` that it determines its flags, and `Render.IndentReadsOnlyPrefix` that only the first `level` flags matter |
| Render.SizeLabel | tree/main.go:115-118 | the size label, formatted with `"(%db)"` and replaced by `"(empty)"` when it reads `"(0b)"`; `Render.SizeLabelCases` and `Render.SizeLabelRoundTrip` state what it is |
| Render.DirLine | tree/main.go:134 | a directory's line: the prefix, the name and a newline; `Tree.PrintDir` is proved to append it and `Walk.RenderRow` renders a directory row with it |
| Render.FileLine | tree/main.go:120 | a file's line: the prefix, the name, one space, the size label and a newline; `Tree.PrintFile` is proved to append the same text with the label spelled out, and `Walk.RenderRow` renders a file row with it |
| Sorting.SortByName | tree/main.go:60-62 | `sort.Slice` by name; `Sorting.SortByNamePermutes`, `Sorting.SortByNameSorted` and `Sorting.AscendingPermutationIsUnique` make it a sorted permutation, the only one for distinct names |
| Walk.Kept | tree/main.go:54-58 | the filter, in listing order; `Walk.KeptMembers` says which entries it keeps and `Tree.FilterEntries` that the loop computes it |
| Walk.Children | tree/main.go:54-62 | the entries the loop visits: the kept entries sorted by name; `Walk.ChildrenMembers` and `Walk.ChildrenAscending` state them |
| Walk.ChildFlags | tree/main.go:71-73 | the flags handed to a subdirectory; `Tree.NewIsLastParents` is proved to build them with make, index write and copy |
| Walk.WalkDir | tree/main.go:39-89 | what `RecursiveDirRead` writes for one directory and the error it returns: an open or read failure gives no rows, otherwise the loop over the visited entries; `Tree.RecursiveDirRead` is proved to write it, and the `WalkProperties` and `Counting` lemmas state its order, connectors, levels, filtering and failure |
| Walk.WalkRange | tree/main.go:64-86 | the loop over the visited entries with indices lo..hi-1, stopping at the first failing pass; `WalkProperties.RangeSplit` and `Walk.ErrorSticks` state how it composes |
| Walk.Step | tree/main.go:64-84 | one pass of the loop body: a directory's line followed by its walk, a file's line under `-f` unless it is `.DS_Store` or its size cannot be read; `Tree.ReadEntry` is proved to write it, `WalkProperties.StepTopRows` and `WalkProperties.StepNoError` state its line and its failure |
| Render.GetIndent | tree/main.go:145-173 | the loop builds `Indent`: one bar per ancestor `0..level-1` (`"│\t"` unless that ancestor was last, else `"\t"`), then `"└───"` or `"├───"`; at level 0 it is the connector alone |
| Render.IndentReadsOnlyPrefix | tree/main.go:158-168 | the prefix depends only on the first `level` flags |
| Render.IndentRoundTrip | tree/main.go:145-172 | the level's flags and the last-sibling flag can be read back from the prefix |
| Render.ParseBarsOfBars | tree/main.go:160-167 | the bars of any flag sequence parse back to those flags |
| Render.SizeLabelCases | tree/main.go:115-118 | the size label is `"(empty)"` exactly when the size is 0, else `"(" + decimal + "b)"` |
| Render.SizeLabelRoundTrip | tree/main.go:115-118 | the size can be read back from its label |
| Render.SizeLabelExamples | tree/main.go:115-118 | 0 bytes gives `"(empty)"`, 5 bytes gives `"(5b)"` |
| Render.DecimalRoundTrip | tree/main.go:115 | `%d` formatting: the decimal digits of n read back as n |
| Render.DecimalDigits | tree/main.go:115 | `%d` writes only digits, and a leading `'0'` only for 0 |
| Render.DecimalIsZeroOnlyForZero | tree/main.go:115-116 | the decimal rendering of n is `"0"` exactly when n is 0, the fact the `"(0b)"` test turns on |
| Tree.PrintDir | tree/main.go:131-143 | appends exactly one line, `DirLine` of the level's prefix and the directory's name |
| Tree.PrintFile | tree/main.go:106-129 | when the size can be read, appends `indent + name + " " + label + "\n"`; otherwise appends nothing and returns the failure |
| Tree.FilterEntries | tree/main.go:52-58 | the loop keeps exactly the directories, plus the files when `-f` is given, in listing order |
| Tree.NewIsLastParents | tree/main.go:71-73 | make, index write and copy give the parent's flags plus one flag, which is the entry's own last-flag only when the level equals the parent's depth |
| Tree.RecursiveDirRead | tree/main.go:39-89 | writes exactly the rendered rows of `WalkDir` after what was already written, every row's level selects flags that exist, and it returns `WalkDir`'s error |
| Tree.ReadEntry | tree/main.go:64-86 | one pass of the loop: writes the rendered rows of `Step` and returns its error |
| Tree.DirTree | tree/main.go:25-37 | starts the walk with no ancestors' flags, and fails exactly when some directory in the tree cannot be opened or read |
| Paths.Join | tree/main.go:75 | joining a clean path with an entry name gives a clean path that ends in that name and differs from the original |
| Paths.DescendantJoin | tree/main.go:75 | joining a name onto a descendant at depth k gives a descendant at depth k + 1 |
| Paths.DescendantLevel | tree/main.go:91-104 | the level of a descendant at depth k is k, except below `"/"`, where it is k - 1 for k > 0 |
| Paths.DescendantLevelBounded | tree/main.go:91-104 | the level is between 0 and the depth, so the flag reads at lines 72 and 161 stay in bounds |
| Paths.ChildLevel | tree/main.go:91-104 | below any root but `"/"`, a subdirectory is one level deeper than its parent |
| Paths.DotRootTwoLevelsDown | tree/main.go:99-101 | below `"."`, `"a/b"` is at level 2 and `"."` itself at level 0 |
| Paths.SlashRootChildLevel | tree/main.go:95-97 | below `"/"`, `"/a"` is given level 0 and `"/a/b"` level 1 |
| Paths.IntendedLevelIsDepth | tree/main.go:91-104 | the corrected level equals the depth for every clean root, `"/"` included |
| Paths.LevelsAgreeAwayFromSlash | tree/main.go:91-104 | for every root but `"/"`, the level as written equals the corrected level |
| Sorting.NameLessIrreflexive | tree/main.go:61 | no name is below itself |
| Sorting.NameLessAsymmetric | tree/main.go:61 | two names are never each below the other |
| Sorting.NameLessTransitive | tree/main.go:61 | the order on names is transitive |
| Sorting.NameLessTotal | tree/main.go:61 | of two different names, one is below the other |
| Sorting.InsertPermutes | tree/main.go:60-62 | inserting adds the entry and loses nothing |
| Sorting.InsertSorted | tree/main.go:60-62 | inserting keeps a sorted sequence sorted, and strictly so when the name is new |
| Sorting.SortByNamePermutes | tree/main.go:60-62 | sorting is a permutation of its input |
| Sorting.SortByNameSorted | tree/main.go:60-62 | the result is sorted by name, strictly when the names are distinct |
| Sorting.AscendingPermutationIsUnique | tree/main.go:60-62 | two strictly ascending permutations of the same entries are equal, so any sort algorithm agrees with this one |
| Walk.KeptMembers | tree/main.go:54-58 | an entry is kept exactly when it is listed and is a directory or files are printed; distinct names stay distinct |
| Walk.ChildrenMembers | tree/main.go:54-62 | the visited entries are exactly the kept entries of the listing |
| Walk.ChildrenAscending | tree/main.go:54-62 | the visited entries are in strictly ascending order of name |
| Walk.WalkFits | tree/main.go:39-89 | every row's level selects flags that exist, and every row carries at least the walk's ancestors' flags |
| Walk.ErrorSticks | tree/main.go:75-78 | once a pass fails, later passes add nothing |
| WalkProperties.RangeSplit | tree/main.go:64-86 | the loop over a range is the loop over a prefix followed by the loop over the rest |
| WalkProperties.NoErrorIffListable | tree/main.go:42-78 | the walk fails exactly when some directory in the tree cannot be opened or read; files never make it fail |
| WalkProperties.StepNoError | tree/main.go:68-84 | one pass fails exactly when its entry is a directory whose walk fails |
| WalkProperties.LevelIsDepth | tree/main.go:40-75 | below every root but `"/"`, every row's level equals the number of ancestors' flags it carries |
| WalkProperties.FileRowsOnlyWhenPrinting | tree/main.go:54-83 | a file line is written only with `-f`, and never for `.DS_Store` |
| WalkProperties.OnlyDirectoriesWithoutFiles | tree/main.go:54-58 | without `-f` only directory lines are written |
| WalkProperties.DSStoreNeverPrinted | tree/main.go:79-83 | a file named `.DS_Store` never gets a line |
| WalkProperties.StepTopRows | tree/main.go:68-84 | a pass adds exactly its entry's own line at the children's depth, when the entry is shown |
| WalkProperties.TopRowsOfRange | tree/main.go:64-86 | until the walk fails, the lines at the children's depth are the shown entries, in visiting order |
| WalkProperties.ShownRowsAscending | tree/main.go:60-64 | the shown entries' lines are in strictly ascending order of name |
| WalkProperties.ShownRowsLastFlag | tree/main.go:64-66 | a child line carries the last-flag exactly when it is the final child line and the final visited entry is shown |
| WalkProperties.SiblingsAscending | tree/main.go:60-64 | for a walk that succeeds, a directory's immediate child lines are its shown entries in ascending order of name |
| WalkProperties.LastConnector | tree/main.go:64-83 | for a walk that succeeds, among a directory's child lines, only the final one can get `"└───"`, and it does exactly when the final visited entry is shown |
| WalkProperties.DSStoreLastHidesLastConnector | tree/main.go:66-82 | for a walk with files that succeeds, when `.DS_Store` sorts last, no child line gets `"└───"` |
| WalkProperties.FirstRowIsChild | tree/main.go:68-69 | the first line of a stretch of the loop is a line of the directory's own children |
| WalkProperties.SubtreeIsContiguous | tree/main.go:68-78 | for a walk that succeeds, pre-order: a subdirectory's line is followed at once by all of its descendants' lines, which are all deeper, and then by the next sibling's line |
| Counting.DirsInPermutation | tree/main.go:60-62 | the count of reachable directories does not depend on the order of the entries |
| Counting.DirsInKept | tree/main.go:54-58 | the filter keeps every directory |
| Counting.DirsInChildren | tree/main.go:54-62 | the visited entries hold all the listing's directories |
| Counting.DirLinesAreReachableDirs | tree/main.go:64-78 | when no directory fails, exactly one directory line is written per directory reachable below the root |
| Counting.DirLinesIndependentOfFiles | tree/main.go:54-58 | when every directory can be listed, `-f` does not change how many directory lines are written |
| Scenarios.ExampleChildren | tree/main.go:54-62 | in the example tree, the root's entries B and A are visited as A, B, and the file x is visited only with `-f` |
| Scenarios.ExampleWithFiles | tree/main.go:39-89 | with `-f`: A at level 0 and not last, x under A at level 1 and last, then B last |
| Scenarios.ExampleTextWithFiles | tree/main.go:113-134 | those rows are the lines `"├───A\n"`, `"│\t└───x (empty)\n"`, `"└───B\n"` |
| Scenarios.ExampleWithoutFiles | tree/main.go:39-89 | without `-f`: only A and B, and B is last |
| Scenarios.ExampleTextWithoutFiles | tree/main.go:131-134 | those rows are the lines `"├───A\n"`, `"└───B\n"` |
| Scenarios.ExampleSlashRoot | tree/main.go:91-97 | walking from `"/"` through `/a/b`: b is given level 0 while carrying one ancestor flag |
| Scenarios.ExampleSlashRootText | tree/main.go:131-134 | that walk draws b beside a: `"└───a\n"`, `"└───b\n"` |

## Left out

- `main` (`tree/main.go:12-23`) is not part of this model: argument handling, `panic` and `os.Stdout`.
- Real file-system access (`os.Open`, `ReadDir`, `file.Info`) is replaced by the in-memory tree. A directory's listing is given, or marked as failing to open or to read; a file's size is given, or marked as unreadable.
- `path.Clean` and `strings.Split` are not modelled. Paths are taken already cleaned and split, and `path.Join` is modelled only for a clean path and a plain entry name.
- `os.PathSeparator` is taken to be `/`; Windows separators are not modelled.
- Write failures of `fmt.Fprintf` are not modelled. `printDir`'s and `printFile`'s results are ignored by the caller anyway.
- The texts of the `fmt.Errorf` wrappers are not modelled. Errors are the values `OpenFailed(path)`, `ReadDirFailed(path)` and `InfoFailed(name)`, without the chain of "error reading dir:" prefixes.
- `sort.Slice`'s own algorithm is replaced by an insertion sort. `Sorting.AscendingPermutationIsUnique` shows that any sort gives the same result when names are distinct, which a listing guarantees.
- Names are sequences of characters, not of UTF-8 bytes. Go compares strings byte by byte, which orders valid UTF-8 the same way as code points.
- `Tree.RecursiveDirRead` keeps `GetDirLevel` as written, so below the root `"/"` levels are one short. `WalkProperties.LevelIsDepth` is therefore stated for every root but `"/"`; see Findings.

## Findings

| source | as written | input that shows it | evidently intended | confidence | as-written member | corrected member |
|---|---|---|---|---|---|---|
| tree/main.go:95-97 | The depth is 0 whenever the first segments and the segment counts agree. `"/"` splits to `["", ""]` and `"/a"` to `["", "a"]`, so a subdirectory of the root `"/"` gets level 0, and every deeper directory gets one level less than its depth. | root `"/"` holding directory `a`, which holds directory `b`: b's line is `"└───b"`, drawn beside a instead of under it | the level is the number of directories between the root and the path, for `"/"` as well | not executed | Paths.SlashRootChildLevel, Scenarios.ExampleSlashRoot | Paths.IntendedLevelIsDepth |

`Paths.IntendedDirLevel` is the corrected computation. `Paths.LevelsAgreeAwayFromSlash` proves that it equals the level as written for every root but `"/"`. So the walk's properties proved for those roots hold for the corrected program too. The walk itself keeps the level as written, so that it models what the program prints.
