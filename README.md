# File-size inventory: a Dafny model

The repository is a small Node.js tool. Its library function `fileSizes`
walks a directory tree and returns one `{ name, size }` record per file. It
skips files and directories whose names match an exclusion rule. Each rule is
a regular expression tested by `contentMatch`. The defaults are
`EXCLUDED_FILES` (operating-system metadata files) and `EXCLUDED_DIRECTORIES`
(`.git`, `node_modules`, `vendor`).

This project models that core in Dafny and proves what it computes.

- `matching.dfy` (module `Matching`) holds `contentMatch` as a pure function
  and the two default lists.
  - The regular-expression engine is a parameter: `Engine` maps a rule and a
    name to `Hit`, `Miss` or `Invalid`. `Invalid` stands for a rule that
    `new RegExp` refuses.
  - `ContentMatch` answers `Matched`, `Unmatched` or `Raised`. `Raised` is the
    exception `contentMatch` lets escape.
  - `FragmentTest` is one concrete engine. It is exact for literal characters,
    `.` and a `?` after a single character. Every default rule is of that
    form.
- `paths.dfy` (module `Paths`) covers the path handling:
  - `dir.split('/')` and `join('/')`;
  - the child path `${dir}/${directory}`;
  - `Array.prototype.splice` with JavaScript's handling of negative and
    oversized arguments;
  - the record name rebuilt from the recursion depth.
- `filetree.dfy` (module `FileTree`) is the specification.
  - A directory listing is an abstract tree of `Entry` values: a file with its
    size, a directory with its own listing, or an entry whose `stat` throws.
  - A listing that cannot be read stands for a `readdirSync` that throws.
  - `Walk` says, as a value, what one call of `fileSizes` pushes onto the
    array and whether it throws.
  - `Inventory` is an independent reference. It threads the relative path
    down instead of rebuilding it from the depth, and lists a pre-order
    traversal.
  - The lemmas relate `Walk` to `Inventory` and state its filtering,
    counting and failure behaviour.
- `walker.dfy` (module `Walker`) is `fileSizes` as the source runs it:
  - a `RecordArray` class for the shared `filesChecked` array;
  - loops for the two `filter` calls and the two `forEach` calls;
  - mutual recursion through the directories.

  The recursive methods' postconditions tie the array's new contents and
  the completion (`Returned` with the very array it was given, or `Threw`
  with the unreadable path) to the specification: `FileSizes` and
  `FileSizesFromRoot` to `Walk`, `WalkDirectories` to `WalkDirs`. The loops
  are tied to `KeptFiles`, `KeptDirs` and `FileRecords`.

## Behaviour worth knowing

- A rule that cannot be compiled is not reported up front. Each `filter`
  callback catches the exception, so the entry is silently dropped. This
  happens only when no earlier rule in the list matched that name.
- Any directory that cannot be listed ends the whole walk with an exception,
  not only the root. The records already pushed stay in the caller's array.
- The default rules are unanchored regular expressions with an unescaped `.`:
  - `.git` also excludes a directory named `digit`
    (`Matching.DefaultRulesExcludeDigit`);
  - `.DS_Store?` also matches `.DS_Stor` (`Matching.OptionalMatchesShorterName`).

## Model

| member | source | states |
|---|---|---|
| Matching.ContentMatch | src/index.js:47-51 | the definition of `contentMatch`: try the rules in order; the first that hits gives true, the first that cannot be compiled throws, and false if all miss; `Matching.ContentMatchSpec` states what this means |
| Matching.ContentMatchSpec | src/index.js:47-51 | `contentMatch` is false exactly when every rule misses; true exactly when some rule hits and all rules before it miss; it throws exactly when some rule is invalid and all rules before it miss (so an empty rule list gives false) |
| Matching.UnmatchedIgnoresOrder | src/index.js:47-51 | whether a name passes a rule list (no match, no exception) depends only on the set of rules, not their order or repetition |
| Matching.ContentMatchIgnoresOrder | src/index.js:47-51 | when every rule compiles, `contentMatch` gives the same answer for any reordering or repetition of the rules |
| Matching.OrderMattersWithInvalidRule | src/index.js:47-51 | with an uncompilable rule, order does matter: a hit before it gives true, the invalid rule first throws |
| Matching.FragmentTest | src/index.js:49 | `new RegExp(rule).test(content)` for patterns of literals, `.` and `x?`: a leading `?` cannot be compiled, otherwise the pattern is searched for anywhere in the name; `Matching.SearchLiteral` and the default-rule lemmas describe it |
| Matching.SearchLiteral | src/index.js:49 | for a rule without special characters, the engine's unanchored `test` is exactly "the rule occurs as a substring of the name" |
| Matching.DefaultsInFragment | src/index.js:8-24 | every default rule lies in the pattern fragment the concrete engine interprets exactly |
| Matching.DefaultRulesExcludeDigit | src/index.js:20-24 | the default directory rules exclude a directory named `digit`, because `.git` is an unanchored pattern with a wildcard |
| Matching.DefaultRulesKeepSampleFile | src/index.js:8-15 | no default file rule matches `keep.txt`, and none raises |
| Matching.NoMatchOnSampleFile | src/index.js:8-15 | each default file rule, tested against `keep.txt`, misses |
| Matching.DefaultRulesExcludeDsStore | src/index.js:8-15 | the default file rules exclude `.DS_Store` |
| Matching.DefaultRulesExcludeNodeModules | src/index.js:20-24 | `contentMatch` is true for `node_modules` under the default directory rules: `.git` misses it and the rule `node_modules` hits |
| Matching.OptionalMatchesShorterName | src/index.js:10 | the default rule `.DS_Store?` also matches `.DS_Stor` |
| Paths.Split | src/index.js:97 | `dir.split('/')`: the pieces between slashes, always at least one; `Paths.JoinSplit` and `Paths.SplitJoin` relate it to `Paths.Join` |
| Paths.Join | src/index.js:100 | `join('/')`: the segments with one `/` between neighbours; `Paths.JoinSplit` and `Paths.SplitJoin` show it undoes `Paths.Split` |
| Paths.Descend | src/index.js:117 | the path `${dir}/${directory}` built level by level; `Paths.SplitDescend` shows it adds one segment per level |
| Paths.JoinSplit | src/index.js:97-100 | joining the pieces of `split('/')` with `/` gives the string back, and no piece contains `/` |
| Paths.SplitJoin | src/index.js:97-100 | splitting the join of slash-free segments gives the segments back |
| Paths.SplitAppend | src/index.js:117 | splitting `${dir}/${name}` gives the pieces of `dir` followed by the pieces of `name` |
| Paths.SplitDescend | src/index.js:113-124 | each level of recursion adds exactly its directory name as one more path segment |
| Paths.Splice | src/index.js:100 | `splice` never removes more elements than the array holds |
| Paths.SpliceTail | src/index.js:100 | `splice(length - depth, depth)` with `depth <= length` removes exactly the last `depth` segments |
| Paths.RecordName | src/index.js:97-101 | a record's `name`: the base name at depth 0, otherwise the segments `splice` removes from the end of `dir`, joined, then `/` and the base name; `Paths.RecordNameAfterDescent` and `Paths.DepthBeyondPath` state what it gives |
| Paths.RecordNameAfterDescent | src/index.js:97-101 | below any root, after descending through slash-free names `d1 … dk` (k ≥ 0), a file is recorded as `d1/…/dk/file`; at depth 0 the name is the bare file name |
| Paths.ChildRecordName | src/index.js:99-101 | one level below any root, a file is recorded as `dir/file` |
| Paths.TwoLevelsDown | src/index.js:97-101 | `a/b` below `/home/user/project` at depth 2: `file.txt` is recorded as `a/b/file.txt` |
| Paths.DepthBeyondPath | src/index.js:100 | a depth larger than the number of path segments makes `splice` count from the end again: `a/b` at depth 3 names `f` as `b/f` |
| FileTree.KeptFiles | src/index.js:72-82 | an entry is kept as a file iff it is in the listing, its stat succeeds, it is not a directory and `contentMatch` over the file rules is false (neither true nor throwing); never more entries than listed |
| FileTree.KeptDirs | src/index.js:84-94 | an entry is kept as a directory iff it is in the listing, its stat succeeds, it is a directory and `contentMatch` over the directory rules is false; never more entries than listed |
| FileTree.Partition | src/index.js:72-94 | the two groups are disjoint; an entry whose stat throws is in neither; a file or directory left out matched a rule or made one throw |
| FileTree.KeptFilesAppend | src/index.js:72-82 | the file filter keeps listing order: filtering a concatenation concatenates the filtered parts |
| FileTree.KeptDirsAppend | src/index.js:84-94 | the directory filter keeps listing order in the same way |
| FileTree.FileRecords | src/index.js:96-111 | one record per kept file, in order, with the file's own size and the name rebuilt from `dir` and `depth` |
| FileTree.Walk | src/index.js:63-127 | one call of `fileSizes` as a value: the records pushed (kept files of the listing first, then each kept subdirectory one level deeper) and the directory it throws for, if any; `FileTree.WalkIsInventory`, `FileTree.WalkRecordsAllowed` and `FileTree.WalkCount` describe it |
| FileTree.WalkDirs | src/index.js:113-124 | `directories.forEach(...)` as a value: each kept subdirectory walked in order, the first exception ending the loop; `FileTree.WalkDirsIsInventoryDirs` and `FileTree.WalkDirsStopsAtFailure` describe it |
| FileTree.FileRecordsAreListed | src/index.js:96-111 | at depth k below a root, the pushed records are named by the relative path `d1/…/dk/file` |
| FileTree.WalkIsInventory | src/index.js:63-127 | a walk started at depth k in `root/d1/…/dk` records exactly the pre-order inventory of that subtree (kept files first, then each kept subdirectory in listing order), named by relative path, and throws for the same directory |
| FileTree.WalkDirsIsInventoryDirs | src/index.js:113-124 | walking the kept subdirectories one level deeper equals the reference inventories of those subdirectories, in order |
| FileTree.WalkDirsStopsAtFailure | src/index.js:115-123 | once a subdirectory's walk throws, the later subdirectories are not visited and the exception ends the loop |
| FileTree.InventoryAllowed | src/index.js:84-94 | every record of an inventory is a file that passes the file rules, reached only through directories that pass the directory rules |
| FileTree.InventoryDirsAllowed | src/index.js:113-123 | every record from below a kept subdirectory passes the rules at every level in between |
| FileTree.WalkRecordsAllowed | src/index.js:63-127 | from the root, every record is named by its path relative to the root; its base name passes the file rules; no directory on its path matches a directory rule, at any depth |
| FileTree.WalkCount | src/index.js:96-124 | a walk that does not throw pushes exactly one record per kept file in the part of the tree it reaches (not beneath excluded directories) |
| FileTree.WalkDirsCount | src/index.js:113-124 | the same count, over the first k entries of a directory |
| FileTree.EmptyDirectoryAddsNothing | src/index.js:113 | a directory with no kept file and no kept subdirectory adds no record and does not throw |
| FileTree.DefaultRulesScenario | src/index.js:63-127 | with the default rules, `keep.txt`, `.DS_Store` and `node_modules/lib.js` yield the single record `keep.txt` |
| FileTree.NestedFileScenario | src/index.js:97-124 | with no rules, `src/util.js` under any root is recorded as `src/util.js` with its size, whatever the engine |
| FileTree.UnreadableSubdirectoryEndsWalk | src/index.js:70-124 | a kept file, then a kept directory that cannot be listed: the file's record is pushed, then the walk throws for that directory, and nothing after it is visited |
| FileTree.UnreadableSubdirectoryScenario | src/index.js:70-124 | `a.txt`, an unreadable `locked`, then `later/b.txt`: only `a.txt` is recorded and the walk throws for `root/locked` |
| Walker.RecordArray.constructor | src/index.js:69 | a new array is empty |
| Walker.RecordArray.Push | src/index.js:107-110 | `push` appends exactly one record and keeps the earlier contents |
| Walker.FilterFiles | src/index.js:72-82 | the filter loop computes exactly the kept files of the listing |
| Walker.FilterDirs | src/index.js:84-94 | the filter loop computes exactly the kept directories of the listing |
| Walker.PushRecords | src/index.js:96-111 | the loop appends exactly the records of the kept files after the array's earlier contents |
| Walker.FileSizes | src/index.js:63-127 | the array keeps its earlier contents and gains exactly the records `Walk` describes; the call returns that same array, or throws for the directory `Walk` names |
| Walker.WalkDirectories | src/index.js:113-124 | walking the kept subdirectories appends exactly what walking them in order describes, and stops at the first one that throws |
| Walker.RulesOr | src/index.js:65-66 | a rule list that is not given takes its default |
| Walker.FileSizesFromRoot | src/index.js:63-69 | a call with the default rule lists, a fresh array and depth 0 returns a new array holding exactly the records of the walk, or throws for the directory the walk names |

## Left out

- `src/cli.js` is not part of this model: argument parsing, table output, gzip sizes and byte formatting.
- The `log` helper and the `includeLogs` option are left out. When `includeLogs` is set, each kept file first writes progress text to standard error (src/index.js:103-105). The records are unchanged only when standard error is a terminal. Otherwise `clearLine` does not exist on the stream, so the first kept file throws a TypeError before its push, and that ends the walk.
- The `verbose` option is left out. It is accepted and passed down to each recursive call, but never read.
- The third `statSync` in the `forEach` loop (src/index.js:98) is left out. The model takes the size from the stat the filters saw, so a file that vanishes between the filter and the loop is not modelled.
- Each entry is classified once, although the source calls `statSync` for it twice, once per filter (src/index.js:74 and 86). The model assumes both calls agree. `FileTree.Partition`'s disjointness rests on that; an entry that changed kind between the two calls could land in both groups or in neither.
- The JavaScript `RegExp` engine is a parameter, not a model. `FragmentTest` is exact only for literals, `.` and `x?`. It works on Dafny characters rather than UTF-16 code units.
- File-system calls are abstract values. A listing is a finite tree, so symbolic-link cycles cannot be expressed. The code has no guard against them, so the recursion is unbounded by the code; the operating system ends it once `statSync` refuses a path with too many links, after repeated records.
- The thrown error carries only the path of the directory that could not be listed.
- Arguments of the wrong JavaScript type are out of scope: a non-array rule list, a `null` option, a non-integer `depth`, or a negative `depth` (`depth` is a natural number here). A missing rule list is modelled as `None` and takes its default.
- Paths.Splice: its postcondition states only the length bound. What it removes is stated by `Paths.SpliceTail` and `Paths.DepthBeyondPath`.
