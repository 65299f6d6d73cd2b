/**
 * The directory inventory `fileSizes` (src/index.js) as a specification over
 * an abstract file tree, and what it computes.
 *
 * `Walk` follows the source step by step: list the directory, keep the files
 * and the directories that no rule excludes, record each kept file under a
 * name rebuilt from the recursion depth, then walk each kept directory one
 * level deeper.  `Inventory` is an independent reference that threads the
 * relative path down the recursion instead of rebuilding it from the depth;
 * `WalkIsInventory` proves the two agree.
 */
module FileTree {
  import opened Matching
  import opened Paths

  /** What `fs.readdirSync(dir)` gives: the entries in listing order, or the error it throws. */
  datatype Listing = Unreadable | Readable(entries: seq<Entry>)

  /** A directory entry, as `fs.statSync` classifies it. */
  datatype Entry =
    | File(name: string, size: nat)         // stat succeeds and `isDirectory()` is false
    | Dir(name: string, contents: Listing)  // stat succeeds and `isDirectory()` is true
    | Unstatable(name: string)              // stat throws: a dangling link, an entry gone meanwhile

  /** `{ name, size }`: a file's path relative to the root of the walk, and its size in bytes. */
  datatype FileRecord = FileRecord(name: string, size: nat)

  datatype Option<T> = None | Some(value: T)

  /**
   * What a walk leaves behind: the records it pushed, in order, and the
   * directory whose listing threw, if one did (the exception then ends the
   * whole walk, and the records pushed before it stay in the array).
   */
  datatype Trace = Trace(records: seq<FileRecord>, failure: Option<string>)

  /** Run `t`, then `u` unless `t` threw. */
  function Then(t: Trace, u: Trace): Trace
  {
    if t.failure.Some? then t else Trace(t.records + u.records, u.failure)
  }

  /** The `files` filter: stat succeeds, not a directory, and no file rule matches (or raises). */
  predicate IsKeptFile(e: Entry, excludeFiles: seq<string>, regex: Engine)
  {
    e.File? && ContentMatch(e.name, excludeFiles, regex) == Unmatched
  }

  /** The `directories` filter: stat succeeds, a directory, and no directory rule matches (or raises). */
  predicate IsKeptDir(e: Entry, excludeDirs: seq<string>, regex: Engine)
  {
    e.Dir? && ContentMatch(e.name, excludeDirs, regex) == Unmatched
  }

  /** `contents.filter(...)` for files: the kept files, in listing order. */
  function KeptFiles(entries: seq<Entry>, excludeFiles: seq<string>, regex: Engine): (files: seq<Entry>)
    ensures forall e :: e in files <==> e in entries && IsKeptFile(e, excludeFiles, regex)
    ensures |files| <= |entries|
  {
    if entries == [] then []
    else
      var last := entries[|entries| - 1];
      KeptFiles(entries[..|entries| - 1], excludeFiles, regex) + (if IsKeptFile(last, excludeFiles, regex) then [last] else [])
  }

  /** `contents.filter(...)` for directories: the kept directories, in listing order. */
  function KeptDirs(entries: seq<Entry>, excludeDirs: seq<string>, regex: Engine): (dirs: seq<Entry>)
    ensures forall e :: e in dirs <==> e in entries && IsKeptDir(e, excludeDirs, regex)
    ensures |dirs| <= |entries|
  {
    if entries == [] then []
    else
      var last := entries[|entries| - 1];
      KeptDirs(entries[..|entries| - 1], excludeDirs, regex) + (if IsKeptDir(last, excludeDirs, regex) then [last] else [])
  }

  /**
   * The two groups: no entry is in both, an entry whose stat fails is in
   * neither, and every other entry that is in neither matched a rule (or one
   * of the rules raised).
   */
  lemma Partition(entries: seq<Entry>, excludeFiles: seq<string>, excludeDirs: seq<string>, regex: Engine)
    ensures forall e :: e in KeptFiles(entries, excludeFiles, regex) ==> e !in KeptDirs(entries, excludeDirs, regex)
    ensures forall e :: e in entries && e.Unstatable? ==>
      e !in KeptFiles(entries, excludeFiles, regex) && e !in KeptDirs(entries, excludeDirs, regex)
    ensures forall e :: e in entries && e.File? && e !in KeptFiles(entries, excludeFiles, regex) ==>
      ContentMatch(e.name, excludeFiles, regex) != Unmatched
    ensures forall e :: e in entries && e.Dir? && e !in KeptDirs(entries, excludeDirs, regex) ==>
      ContentMatch(e.name, excludeDirs, regex) != Unmatched
  {
  }

  /** The filters keep listing order: filtering a concatenation concatenates the filtered parts. */
  lemma {:induction false} KeptFilesAppend(a: seq<Entry>, b: seq<Entry>, excludeFiles: seq<string>, regex: Engine)
    ensures KeptFiles(a + b, excludeFiles, regex) == KeptFiles(a, excludeFiles, regex) + KeptFiles(b, excludeFiles, regex)
    decreases |b|
  {
    if b != [] {
      var init := b[..|b| - 1];
      assert (a + b)[..|a + b| - 1] == a + init;
      KeptFilesAppend(a, init, excludeFiles, regex);
    } else {
      assert a + b == a;
    }
  }

  /** The same for directories. */
  lemma {:induction false} KeptDirsAppend(a: seq<Entry>, b: seq<Entry>, excludeDirs: seq<string>, regex: Engine)
    ensures KeptDirs(a + b, excludeDirs, regex) == KeptDirs(a, excludeDirs, regex) + KeptDirs(b, excludeDirs, regex)
    decreases |b|
  {
    if b != [] {
      var init := b[..|b| - 1];
      assert (a + b)[..|a + b| - 1] == a + init;
      KeptDirsAppend(a, init, excludeDirs, regex);
    } else {
      assert a + b == a;
    }
  }

  /** The records pushed by `files.forEach(...)`: one per file, in order, named from the depth. */
  function FileRecords(dir: string, depth: nat, files: seq<Entry>): (records: seq<FileRecord>)
    requires forall e :: e in files ==> e.File?
    ensures |records| == |files|
    ensures forall i :: 0 <= i < |files| ==>
      records[i] == FileRecord(RecordName(dir, depth, files[i].name), files[i].size)
  {
    if files == [] then []
    else
      var last := files[|files| - 1];
      FileRecords(dir, depth, files[..|files| - 1]) + [FileRecord(RecordName(dir, depth, last.name), last.size)]
  }

  /**
   * `fileSizes({dir, excludeFiles, excludeDirs}, filesChecked, depth)` as a
   * value: what it pushes onto `filesChecked`, and whether it throws.
   */
  function Walk(dir: string, listing: Listing, excludeFiles: seq<string>, excludeDirs: seq<string>,
                regex: Engine, depth: nat): Trace
    decreases listing, if listing.Readable? then |listing.entries| + 1 else 0
  {
    match listing
    case Unreadable => Trace([], Some(dir))
    case Readable(entries) =>
      var files := KeptFiles(entries, excludeFiles, regex);
      var directories := KeptDirs(entries, excludeDirs, regex);
      Then(Trace(FileRecords(dir, depth, files), None),
           WalkDirs(dir, listing, directories, excludeFiles, excludeDirs, regex, depth + 1))
  }

  /** One step of `Walk`'s definition on a listing that can be read. */
  lemma WalkReadable(dir: string, entries: seq<Entry>, excludeFiles: seq<string>, excludeDirs: seq<string>,
                     regex: Engine, depth: nat)
    ensures Walk(dir, Readable(entries), excludeFiles, excludeDirs, regex, depth)
         == Then(Trace(FileRecords(dir, depth, KeptFiles(entries, excludeFiles, regex)), None),
                 WalkDirs(dir, Readable(entries), KeptDirs(entries, excludeDirs, regex), excludeFiles, excludeDirs, regex,
                          depth + 1))
  {
  }

  /** `directories.forEach(...)`: walk each of `dirs` (entries of `parent`) in order, at `depth`. */
  function WalkDirs(dir: string, ghost parent: Listing, dirs: seq<Entry>, excludeFiles: seq<string>,
                    excludeDirs: seq<string>, regex: Engine, depth: nat): Trace
    requires parent.Readable?
    requires forall d :: d in dirs ==> d in parent.entries && d.Dir?
    decreases parent, |dirs|
  {
    if dirs == [] then Trace([], None)
    else
      var d := dirs[|dirs| - 1];
      Then(WalkDirs(dir, parent, dirs[..|dirs| - 1], excludeFiles, excludeDirs, regex, depth),
           Walk(dir + "/" + d.name, d.contents, excludeFiles, excludeDirs, regex, depth))
  }

  /** Walking one more directory: its trace follows the trace of the ones before it. */
  lemma WalkDirsStep(dir: string, parent: Listing, dirs: seq<Entry>, j: nat,
                     excludeFiles: seq<string>, excludeDirs: seq<string>, regex: Engine, depth: nat)
    requires parent.Readable?
    requires forall d :: d in dirs ==> d in parent.entries && d.Dir?
    requires j < |dirs|
    ensures WalkDirs(dir, parent, dirs[..j + 1], excludeFiles, excludeDirs, regex, depth)
         == Then(WalkDirs(dir, parent, dirs[..j], excludeFiles, excludeDirs, regex, depth),
                 Walk(dir + "/" + dirs[j].name, dirs[j].contents, excludeFiles, excludeDirs, regex, depth))
  {
    assert dirs[..j + 1][..j] == dirs[..j];
    assert dirs[j] in dirs;
  }

  /** Walking one more directory at the end. */
  lemma WalkDirsSnoc(dir: string, parent: Listing, dirs: seq<Entry>, d: Entry,
                     excludeFiles: seq<string>, excludeDirs: seq<string>, regex: Engine, depth: nat)
    requires parent.Readable?
    requires forall x :: x in dirs + [d] ==> x in parent.entries && x.Dir?
    ensures WalkDirs(dir, parent, dirs + [d], excludeFiles, excludeDirs, regex, depth)
         == Then(WalkDirs(dir, parent, dirs, excludeFiles, excludeDirs, regex, depth),
                 Walk(dir + "/" + d.name, d.contents, excludeFiles, excludeDirs, regex, depth))
  {
    assert (dirs + [d])[..|dirs|] == dirs;
  }

  /** Once a subdirectory throws, the walks after it do not happen. */
  lemma {:induction false} WalkDirsStopsAtFailure(dir: string, parent: Listing, dirs: seq<Entry>, k: nat,
                                                  excludeFiles: seq<string>, excludeDirs: seq<string>, regex: Engine,
                                                  depth: nat)
    requires parent.Readable?
    requires forall d :: d in dirs ==> d in parent.entries && d.Dir?
    requires k <= |dirs|
    requires WalkDirs(dir, parent, dirs[..k], excludeFiles, excludeDirs, regex, depth).failure.Some?
    ensures WalkDirs(dir, parent, dirs, excludeFiles, excludeDirs, regex, depth)
         == WalkDirs(dir, parent, dirs[..k], excludeFiles, excludeDirs, regex, depth)
    decreases |dirs|
  {
    if k < |dirs| {
      var init := dirs[..|dirs| - 1];
      assert init[..k] == dirs[..k];
      WalkDirsStopsAtFailure(dir, parent, init, k, excludeFiles, excludeDirs, regex, depth);
    } else {
      assert dirs[..k] == dirs;
    }
  }

  /**
   * The bookkeeping of one turn of `directories.forEach(...)`: if the array
   * held `start` and then the records of the directories before `dirs[j]`,
   * appending the records of `dirs[j]` gives `start` and the records of the
   * directories up to `dirs[j]`; and if `dirs[j]` throws, that is how the
   * whole loop ends.
   */
  lemma {:induction false} WalkDirsTurn(dir: string, parent: Listing, dirs: seq<Entry>, j: nat,
                                        excludeFiles: seq<string>, excludeDirs: seq<string>, regex: Engine, depth: nat,
                                        start: seq<FileRecord>, before: seq<FileRecord>)
    requires parent.Readable?
    requires forall d :: d in dirs ==> d in parent.entries && d.Dir?
    requires j < |dirs|
    requires WalkDirs(dir, parent, dirs[..j], excludeFiles, excludeDirs, regex, depth).failure.None?
    requires before == start + WalkDirs(dir, parent, dirs[..j], excludeFiles, excludeDirs, regex, depth).records
    ensures var sub := Walk(dir + "/" + dirs[j].name, dirs[j].contents, excludeFiles, excludeDirs, regex, depth);
      var next := WalkDirs(dir, parent, dirs[..j + 1], excludeFiles, excludeDirs, regex, depth);
      && before + sub.records == start + next.records
      && next.failure == sub.failure
      && (sub.failure.Some? ==> WalkDirs(dir, parent, dirs, excludeFiles, excludeDirs, regex, depth) == next)
  {
    var done := WalkDirs(dir, parent, dirs[..j], excludeFiles, excludeDirs, regex, depth);
    var sub := Walk(dir + "/" + dirs[j].name, dirs[j].contents, excludeFiles, excludeDirs, regex, depth);
    WalkDirsStep(dir, parent, dirs, j, excludeFiles, excludeDirs, regex, depth);
    assert start + done.records + sub.records == start + (done.records + sub.records);
    if sub.failure.Some? {
      WalkDirsStopsAtFailure(dir, parent, dirs, j + 1, excludeFiles, excludeDirs, regex, depth);
    }
  }

  // ---------------------------------------------------------------------------
  // A reference inventory that threads the relative path

  /** Records for `files` found at relative directory `prefix` (a sequence of names). */
  function Listed(prefix: seq<string>, files: seq<Entry>): (records: seq<FileRecord>)
    requires forall e :: e in files ==> e.File?
  {
    if files == [] then []
    else
      var last := files[|files| - 1];
      Listed(prefix, files[..|files| - 1]) + [FileRecord(Join(prefix + [last.name]), last.size)]
  }

  /**
   * The inventory of the directory at relative path `prefix` below `root`:
   * its kept files first, then each kept subdirectory's inventory, in
   * listing order (a pre-order traversal).
   */
  function Inventory(root: string, listing: Listing, prefix: seq<string>, excludeFiles: seq<string>,
                     excludeDirs: seq<string>, regex: Engine): Trace
    decreases listing, if listing.Readable? then |listing.entries| + 1 else 0
  {
    match listing
    case Unreadable => Trace([], Some(Descend(root, prefix)))
    case Readable(entries) =>
      Then(Trace(Listed(prefix, KeptFiles(entries, excludeFiles, regex)), None),
           InventoryDirs(root, listing, KeptDirs(entries, excludeDirs, regex), prefix, excludeFiles, excludeDirs, regex))
  }

  /** The inventories of subdirectories `dirs` of the directory at `prefix`, one after another. */
  function InventoryDirs(root: string, ghost parent: Listing, dirs: seq<Entry>, prefix: seq<string>,
                         excludeFiles: seq<string>, excludeDirs: seq<string>, regex: Engine): Trace
    requires parent.Readable?
    requires forall d :: d in dirs ==> d in parent.entries && d.Dir?
    decreases parent, |dirs|
  {
    if dirs == [] then Trace([], None)
    else
      var d := dirs[|dirs| - 1];
      Then(InventoryDirs(root, parent, dirs[..|dirs| - 1], prefix, excludeFiles, excludeDirs, regex),
           Inventory(root, d.contents, prefix + [d.name], excludeFiles, excludeDirs, regex))
  }

  /** Entry names hold no `/`, at every depth: a property every real directory tree has. */
  predicate SlashFree(listing: Listing)
    decreases listing
  {
    listing.Readable? ==>
      forall i :: 0 <= i < |listing.entries| ==>
        NoSlash(listing.entries[i].name) &&
        (listing.entries[i].Dir? ==> SlashFree(listing.entries[i].contents))
  }

  lemma {:induction false} FileRecordsAreListed(root: string, prefix: seq<string>, files: seq<Entry>)
    requires forall i :: 0 <= i < |prefix| ==> NoSlash(prefix[i])
    requires forall e :: e in files ==> e.File?
    ensures FileRecords(Descend(root, prefix), |prefix|, files) == Listed(prefix, files)
    decreases |files|
  {
    if files != [] {
      var last := files[|files| - 1];
      FileRecordsAreListed(root, prefix, files[..|files| - 1]);
      RecordNameAfterDescent(root, prefix, last.name);
    }
  }

  /**
   * Rebuilding record names from the depth and the directory path gives the
   * same records as threading the relative path: at depth `|prefix|` below any
   * root, every record is named `d1/.../dk/file` after the directories
   * descended through.
   */
  lemma {:induction false} WalkIsInventory(root: string, listing: Listing, prefix: seq<string>,
                                           excludeFiles: seq<string>, excludeDirs: seq<string>, regex: Engine)
    requires forall i :: 0 <= i < |prefix| ==> NoSlash(prefix[i])
    requires SlashFree(listing)
    ensures Walk(Descend(root, prefix), listing, excludeFiles, excludeDirs, regex, |prefix|)
         == Inventory(root, listing, prefix, excludeFiles, excludeDirs, regex)
    decreases listing, if listing.Readable? then |listing.entries| + 1 else 0
  {
    if listing.Readable? {
      var entries := listing.entries;
      FileRecordsAreListed(root, prefix, KeptFiles(entries, excludeFiles, regex));
      WalkDirsIsInventoryDirs(root, listing, KeptDirs(entries, excludeDirs, regex), prefix, excludeFiles, excludeDirs, regex);
    }
  }

  lemma {:induction false} WalkDirsIsInventoryDirs(root: string, parent: Listing, dirs: seq<Entry>, prefix: seq<string>,
                                                   excludeFiles: seq<string>, excludeDirs: seq<string>, regex: Engine)
    requires parent.Readable? && SlashFree(parent)
    requires forall d :: d in dirs ==> d in parent.entries && d.Dir?
    requires forall i :: 0 <= i < |prefix| ==> NoSlash(prefix[i])
    ensures WalkDirs(Descend(root, prefix), parent, dirs, excludeFiles, excludeDirs, regex, |prefix| + 1)
         == InventoryDirs(root, parent, dirs, prefix, excludeFiles, excludeDirs, regex)
    decreases parent, |dirs|
  {
    if dirs != [] {
      var d := dirs[|dirs| - 1];
      WalkDirsIsInventoryDirs(root, parent, dirs[..|dirs| - 1], prefix, excludeFiles, excludeDirs, regex);
      assert d in dirs;
      var k :| 0 <= k < |parent.entries| && parent.entries[k] == d;
      assert NoSlash(d.name) && SlashFree(d.contents);
      var longer := prefix + [d.name];
      assert longer[..|longer| - 1] == prefix;
      assert Descend(root, longer) == Descend(root, prefix) + "/" + d.name;
      WalkIsInventory(root, d.contents, longer, excludeFiles, excludeDirs, regex);
    }
  }

  // ---------------------------------------------------------------------------
  // What ends up in the records

  /** The records of `Then(t, u)` come from `t` or from `u`. */
  lemma ThenRecords(t: Trace, u: Trace)
    ensures forall r :: r in Then(t, u).records ==> r in t.records || r in u.records
    ensures Then(t, u).failure.None? <==> t.failure.None? && u.failure.None?
  {
  }

  /**
   * A record allowed below relative directory `prefix`: its name lies under
   * `prefix`, its base name passes the file rules, and every directory name
   * between `prefix` and the file passes the directory rules.
   */
  ghost predicate RecordAllowed(r: FileRecord, prefix: seq<string>, excludeFiles: seq<string>,
                                excludeDirs: seq<string>, regex: Engine)
  {
    var segments := Split(r.name);
    && |segments| > |prefix|
    && segments[..|prefix|] == prefix
    && ContentMatch(segments[|segments| - 1], excludeFiles, regex) == Unmatched
    && forall k :: |prefix| <= k < |segments| - 1 ==> ContentMatch(segments[k], excludeDirs, regex) == Unmatched
  }

  lemma {:induction false} ListedAllowed(prefix: seq<string>, files: seq<Entry>, excludeFiles: seq<string>,
                                         excludeDirs: seq<string>, regex: Engine)
    requires forall i :: 0 <= i < |prefix| ==> NoSlash(prefix[i])
    requires forall e :: e in files ==> e.File? && IsKeptFile(e, excludeFiles, regex) && NoSlash(e.name)
    ensures forall r :: r in Listed(prefix, files) ==> RecordAllowed(r, prefix, excludeFiles, excludeDirs, regex)
    decreases |files|
  {
    if files != [] {
      var last := files[|files| - 1];
      ListedAllowed(prefix, files[..|files| - 1], excludeFiles, excludeDirs, regex);
      var segments := prefix + [last.name];
      SplitJoin(segments);
      assert segments[..|prefix|] == prefix;
    }
  }

  /**
   * Exclusions apply at every depth: every record of the inventory below
   * `prefix` is a file that no file rule excludes, reached only through
   * directories that no directory rule excludes.
   */
  lemma {:induction false} InventoryAllowed(root: string, listing: Listing, prefix: seq<string>,
                                            excludeFiles: seq<string>, excludeDirs: seq<string>, regex: Engine)
    requires forall i :: 0 <= i < |prefix| ==> NoSlash(prefix[i])
    requires SlashFree(listing)
    ensures forall r :: r in Inventory(root, listing, prefix, excludeFiles, excludeDirs, regex).records ==>
      RecordAllowed(r, prefix, excludeFiles, excludeDirs, regex)
    decreases listing, if listing.Readable? then |listing.entries| + 1 else 0
  {
    if listing.Readable? {
      var entries := listing.entries;
      var files := KeptFiles(entries, excludeFiles, regex);
      forall e | e in files ensures e.File? && IsKeptFile(e, excludeFiles, regex) && NoSlash(e.name) {
        var k :| 0 <= k < |entries| && entries[k] == e;
      }
      ListedAllowed(prefix, files, excludeFiles, excludeDirs, regex);
      InventoryDirsAllowed(root, listing, KeptDirs(entries, excludeDirs, regex), prefix, excludeFiles, excludeDirs, regex);
      ThenRecords(Trace(Listed(prefix, files), None),
                  InventoryDirs(root, listing, KeptDirs(entries, excludeDirs, regex), prefix, excludeFiles, excludeDirs, regex));
    }
  }

  /** A record allowed below `prefix`/`name`, where `name` passes the directory rules, is allowed below `prefix`. */
  lemma AllowedBelowKeptDir(r: FileRecord, prefix: seq<string>, name: string, excludeFiles: seq<string>,
                            excludeDirs: seq<string>, regex: Engine)
    requires RecordAllowed(r, prefix + [name], excludeFiles, excludeDirs, regex)
    requires ContentMatch(name, excludeDirs, regex) == Unmatched
    ensures RecordAllowed(r, prefix, excludeFiles, excludeDirs, regex)
  {
    var segments, longer := Split(r.name), prefix + [name];
    assert segments[..|longer|] == longer;
    assert segments[..|prefix|] == segments[..|longer|][..|prefix|];
    assert segments[|prefix|] == name;
  }

  lemma {:induction false} InventoryDirsAllowed(root: string, parent: Listing, dirs: seq<Entry>, prefix: seq<string>,
                                                excludeFiles: seq<string>, excludeDirs: seq<string>, regex: Engine)
    requires parent.Readable? && SlashFree(parent)
    requires forall d :: d in dirs ==> d in parent.entries && d.Dir? && IsKeptDir(d, excludeDirs, regex)
    requires forall i :: 0 <= i < |prefix| ==> NoSlash(prefix[i])
    ensures forall r :: r in InventoryDirs(root, parent, dirs, prefix, excludeFiles, excludeDirs, regex).records ==>
      RecordAllowed(r, prefix, excludeFiles, excludeDirs, regex)
    decreases parent, |dirs|
  {
    if dirs != [] {
      var d := dirs[|dirs| - 1];
      var init := dirs[..|dirs| - 1];
      InventoryDirsAllowed(root, parent, init, prefix, excludeFiles, excludeDirs, regex);
      assert d in dirs;
      var k :| 0 <= k < |parent.entries| && parent.entries[k] == d;
      var longer := prefix + [d.name];
      InventoryAllowed(root, d.contents, longer, excludeFiles, excludeDirs, regex);
      forall r | r in Inventory(root, d.contents, longer, excludeFiles, excludeDirs, regex).records
        ensures RecordAllowed(r, prefix, excludeFiles, excludeDirs, regex)
      {
        AllowedBelowKeptDir(r, prefix, d.name, excludeFiles, excludeDirs, regex);
      }
      ThenRecords(InventoryDirs(root, parent, init, prefix, excludeFiles, excludeDirs, regex),
                  Inventory(root, d.contents, longer, excludeFiles, excludeDirs, regex));
    }
  }

  /**
   * From the root (depth 0): every record is named by its path relative to
   * the root, its file passes the file rules, and no directory on its path
   * matches a directory rule.  No record comes from beneath an excluded
   * directory, at any depth.
   */
  lemma WalkRecordsAllowed(root: string, listing: Listing, excludeFiles: seq<string>,
                           excludeDirs: seq<string>, regex: Engine)
    requires SlashFree(listing)
    ensures forall r :: r in Walk(root, listing, excludeFiles, excludeDirs, regex, 0).records ==>
      RecordAllowed(r, [], excludeFiles, excludeDirs, regex)
  {
    WalkIsInventory(root, listing, [], excludeFiles, excludeDirs, regex);
    InventoryAllowed(root, listing, [], excludeFiles, excludeDirs, regex);
  }

  // ---------------------------------------------------------------------------
  // How many records

  /** The number of kept files in the part of the tree the walk reaches, counted in one pass. */
  function CountKept(listing: Listing, excludeFiles: seq<string>, excludeDirs: seq<string>, regex: Engine): nat
    decreases listing, if listing.Readable? then |listing.entries| + 1 else 0
  {
    match listing
    case Unreadable => 0
    case Readable(entries) => CountEntries(listing, |entries|, excludeFiles, excludeDirs, regex)
  }

  /** The same count over the first `k` entries of `parent`. */
  function CountEntries(parent: Listing, k: nat, excludeFiles: seq<string>, excludeDirs: seq<string>,
                        regex: Engine): nat
    requires parent.Readable? && k <= |parent.entries|
    decreases parent, k
  {
    if k == 0 then 0
    else
      var e := parent.entries[k - 1];
      CountEntries(parent, k - 1, excludeFiles, excludeDirs, regex) +
      (if IsKeptFile(e, excludeFiles, regex) then 1
       else if IsKeptDir(e, excludeDirs, regex) then CountKept(e.contents, excludeFiles, excludeDirs, regex)
       else 0)
  }

  /**
   * A walk that does not throw pushes exactly one record per kept file in the
   * non-excluded part of the tree.
   */
  lemma {:induction false} WalkCount(dir: string, listing: Listing, excludeFiles: seq<string>,
                                     excludeDirs: seq<string>, regex: Engine, depth: nat)
    ensures var t := Walk(dir, listing, excludeFiles, excludeDirs, regex, depth);
      t.failure.None? ==> |t.records| == CountKept(listing, excludeFiles, excludeDirs, regex)
    decreases listing, if listing.Readable? then |listing.entries| + 1 else 0
  {
    if listing.Readable? {
      var entries := listing.entries;
      WalkDirsCount(dir, listing, |entries|, excludeFiles, excludeDirs, regex, depth + 1);
      assert entries[..|entries|] == entries;
    }
  }

  lemma {:induction false} WalkDirsCount(dir: string, parent: Listing, k: nat, excludeFiles: seq<string>,
                                         excludeDirs: seq<string>, regex: Engine, depth: nat)
    requires parent.Readable? && k <= |parent.entries|
    ensures var prefix := parent.entries[..k];
      var t := WalkDirs(dir, parent, KeptDirs(prefix, excludeDirs, regex), excludeFiles, excludeDirs, regex, depth);
      t.failure.None? ==>
        |KeptFiles(prefix, excludeFiles, regex)| + |t.records| == CountEntries(parent, k, excludeFiles, excludeDirs, regex)
    decreases parent, k
  {
    if k > 0 {
      var e := parent.entries[k - 1];
      var filesNow, dirsNow := KeptFiles(parent.entries[..k], excludeFiles, regex), KeptDirs(parent.entries[..k], excludeDirs, regex);
      var filesBefore := KeptFiles(parent.entries[..k - 1], excludeFiles, regex);
      var dirsBefore := KeptDirs(parent.entries[..k - 1], excludeDirs, regex);
      var now := WalkDirs(dir, parent, dirsNow, excludeFiles, excludeDirs, regex, depth);
      var before := WalkDirs(dir, parent, dirsBefore, excludeFiles, excludeDirs, regex, depth);
      var count := CountEntries(parent, k - 1, excludeFiles, excludeDirs, regex);
      assert before.failure.None? ==> |filesBefore| + |before.records| == count by {
        WalkDirsCount(dir, parent, k - 1, excludeFiles, excludeDirs, regex, depth);
      }
      if IsKeptDir(e, excludeDirs, regex) {
        var child := Walk(dir + "/" + e.name, e.contents, excludeFiles, excludeDirs, regex, depth);
        var below := CountKept(e.contents, excludeFiles, excludeDirs, regex);
        assert now == Then(before, child) && |filesNow| == |filesBefore| by {
          KeptOneMore(parent.entries, k, excludeFiles, excludeDirs, regex);
          assert e in parent.entries;
          WalkDirsSnoc(dir, parent, dirsBefore, e, excludeFiles, excludeDirs, regex, depth);
        }
        assert child.failure.None? ==> |child.records| == below by {
          WalkCount(dir + "/" + e.name, e.contents, excludeFiles, excludeDirs, regex, depth);
        }
        assert CountEntries(parent, k, excludeFiles, excludeDirs, regex) == count + below;
        ThenCount(before, child, |filesBefore|, count, below);
      } else {
        assert dirsNow == dirsBefore && |filesNow| == |filesBefore| + (if IsKeptFile(e, excludeFiles, regex) then 1 else 0) by {
          KeptOneMoreOther(parent.entries, k, excludeFiles, excludeDirs, regex);
        }
      }
    }
  }

  /** Filtering one more entry that is not a kept directory leaves the directories alone. */
  lemma KeptOneMoreOther(entries: seq<Entry>, k: nat, excludeFiles: seq<string>, excludeDirs: seq<string>, regex: Engine)
    requires 0 < k <= |entries| && !IsKeptDir(entries[k - 1], excludeDirs, regex)
    ensures KeptDirs(entries[..k], excludeDirs, regex) == KeptDirs(entries[..k - 1], excludeDirs, regex)
    ensures |KeptFiles(entries[..k], excludeFiles, regex)|
         == |KeptFiles(entries[..k - 1], excludeFiles, regex)| + (if IsKeptFile(entries[k - 1], excludeFiles, regex) then 1 else 0)
  {
    KeptOneMore(entries, k, excludeFiles, excludeDirs, regex);
    assert KeptDirs(entries[..k - 1], excludeDirs, regex) + [] == KeptDirs(entries[..k - 1], excludeDirs, regex);
  }

  /** Counting through `Then`: the records of both parts add up when neither throws. */
  lemma ThenCount(t: Trace, u: Trace, files: nat, countT: nat, countU: nat)
    requires t.failure.None? ==> files + |t.records| == countT
    requires u.failure.None? ==> |u.records| == countU
    ensures Then(t, u).failure.None? ==> files + |Then(t, u).records| == countT + countU
  {
  }

  /** Filtering one more entry appends it to the group it is kept in, if any. */
  lemma KeptOneMore(entries: seq<Entry>, k: nat, excludeFiles: seq<string>, excludeDirs: seq<string>, regex: Engine)
    requires 0 < k <= |entries|
    ensures var e := entries[k - 1];
      && KeptFiles(entries[..k], excludeFiles, regex)
         == KeptFiles(entries[..k - 1], excludeFiles, regex) + (if IsKeptFile(e, excludeFiles, regex) then [e] else [])
      && KeptDirs(entries[..k], excludeDirs, regex)
         == KeptDirs(entries[..k - 1], excludeDirs, regex) + (if IsKeptDir(e, excludeDirs, regex) then [e] else [])
  {
    assert entries[..k][..k - 1] == entries[..k - 1];
  }

  // ---------------------------------------------------------------------------
  // Concrete trees

  /** Walking a single subdirectory is walking it one level down. */
  lemma WalkOneDir(dir: string, parent: Listing, d: Entry, excludeFiles: seq<string>,
                   excludeDirs: seq<string>, regex: Engine, depth: nat)
    requires parent.Readable? && d in parent.entries && d.Dir?
    ensures WalkDirs(dir, parent, [d], excludeFiles, excludeDirs, regex, depth)
         == Walk(dir + "/" + d.name, d.contents, excludeFiles, excludeDirs, regex, depth)
  {
    assert [d][..0] == [];
  }

  /** A directory with nothing kept in it adds nothing and does not throw. */
  lemma EmptyDirectoryAddsNothing(dir: string, entries: seq<Entry>, excludeFiles: seq<string>,
                                  excludeDirs: seq<string>, regex: Engine, depth: nat)
    requires forall i :: 0 <= i < |entries| ==>
      !IsKeptFile(entries[i], excludeFiles, regex) && !IsKeptDir(entries[i], excludeDirs, regex)
    ensures Walk(dir, Readable(entries), excludeFiles, excludeDirs, regex, depth) == Trace([], None)
  {
    NothingKept(entries, excludeFiles, excludeDirs, regex);
  }

  lemma {:induction false} NothingKept(entries: seq<Entry>, excludeFiles: seq<string>, excludeDirs: seq<string>, regex: Engine)
    requires forall i :: 0 <= i < |entries| ==>
      !IsKeptFile(entries[i], excludeFiles, regex) && !IsKeptDir(entries[i], excludeDirs, regex)
    ensures KeptFiles(entries, excludeFiles, regex) == [] && KeptDirs(entries, excludeDirs, regex) == []
    decreases |entries|
  {
    if entries != [] {
      NothingKept(entries[..|entries| - 1], excludeFiles, excludeDirs, regex);
    }
  }

  /**
   * With the default rules, a root holding `keep.txt` (10 bytes), `.DS_Store`
   * (5 bytes) and `node_modules/lib.js` (20 bytes) yields `keep.txt` alone.
   */
  lemma DefaultRulesScenario(root: string)
    ensures Walk(root, Readable([File("keep.txt", 10), File(".DS_Store", 5),
                                 Dir("node_modules", Readable([File("lib.js", 20)]))]),
                 ExcludedFiles, ExcludedDirectories, FragmentTest, 0)
         == Trace([FileRecord("keep.txt", 10)], None)
  {
    DefaultRulesSampleFilters();
    assert FileRecords(root, 0, [File("keep.txt", 10)]) == [FileRecord("keep.txt", 10)];
  }

  lemma DefaultRulesSampleFilters()
    ensures var entries := [File("keep.txt", 10), File(".DS_Store", 5), Dir("node_modules", Readable([File("lib.js", 20)]))];
      && KeptFiles(entries, ExcludedFiles, FragmentTest) == [File("keep.txt", 10)]
      && KeptDirs(entries, ExcludedDirectories, FragmentTest) == []
  {
    DefaultRulesSampleFiles();
    DefaultRulesSampleDirs();
  }

  lemma DefaultRulesSampleFiles()
    ensures var entries := [File("keep.txt", 10), File(".DS_Store", 5), Dir("node_modules", Readable([File("lib.js", 20)]))];
      KeptFiles(entries, ExcludedFiles, FragmentTest) == [File("keep.txt", 10)]
  {
    DefaultRulesKeepSampleFile();
    DefaultRulesExcludeDsStore();
    OnlyFirstFileKept(File("keep.txt", 10), File(".DS_Store", 5), Dir("node_modules", Readable([File("lib.js", 20)])),
                      ExcludedFiles, FragmentTest);
  }

  lemma OnlyFirstFileKept(a: Entry, b: Entry, c: Entry, excludeFiles: seq<string>, regex: Engine)
    requires IsKeptFile(a, excludeFiles, regex) && !IsKeptFile(b, excludeFiles, regex) && !IsKeptFile(c, excludeFiles, regex)
    ensures KeptFiles([a, b, c], excludeFiles, regex) == [a]
  {
    assert [a, b, c][..2] == [a, b] && [a, b][..1] == [a] && [a][..0] == [];
  }

  lemma DefaultRulesSampleDirs()
    ensures var entries := [File("keep.txt", 10), File(".DS_Store", 5), Dir("node_modules", Readable([File("lib.js", 20)]))];
      KeptDirs(entries, ExcludedDirectories, FragmentTest) == []
  {
    var entries := [File("keep.txt", 10), File(".DS_Store", 5), Dir("node_modules", Readable([File("lib.js", 20)]))];
    assert entries[..2][..1] == entries[..1];
    DefaultRulesExcludeNodeModules();
    assert KeptDirs(entries[..1], ExcludedDirectories, FragmentTest) == [];
  }

  /** With no rules, a root holding `src/util.js` (50 bytes) yields `src/util.js`, whatever the engine. */
  lemma NestedFileScenario(root: string, regex: Engine)
    ensures Walk(root, Readable([Dir("src", Readable([File("util.js", 50)]))]), [], [], regex, 0)
         == Trace([FileRecord("src/util.js", 50)], None)
  {
    var src := Dir("src", Readable([File("util.js", 50)]));
    var top := Readable([src]);
    assert KeptDirs(top.entries, [], regex) == [src] && KeptFiles(top.entries, [], regex) == [] by {
      assert top.entries[..0] == [];
    }
    WalkOneDir(root, top, src, [], [], regex, 1);
    NestedFileRecord(root, regex);
  }

  lemma NestedFileRecord(root: string, regex: Engine)
    ensures Walk(root + "/" + "src", Readable([File("util.js", 50)]), [], [], regex, 1)
         == Trace([FileRecord("src/util.js", 50)], None)
  {
    SingleFileKept("util.js", 50, regex);
    NestedFileName(root);
  }

  /** With no rules, a lone file is kept and there is no directory. */
  lemma SingleFileKept(name: string, size: nat, regex: Engine)
    ensures KeptFiles([File(name, size)], [], regex) == [File(name, size)]
    ensures KeptDirs([File(name, size)], [], regex) == []
  {
    assert [File(name, size)][..0] == [];
  }

  lemma NestedFileName(root: string)
    ensures FileRecords(root + "/" + "src", 1, [File("util.js", 50)]) == [FileRecord("src/util.js", 50)]
  {
    ChildRecordName(root, "src", "util.js");
    assert "src" + "/" + "util.js" == "src/util.js";
  }

  /**
   * A subdirectory whose listing throws ends the whole walk: the records
   * pushed before it stay, and nothing after it is visited, whatever comes
   * after it.
   */
  lemma UnreadableSubdirectoryEndsWalk(root: string, f: Entry, locked: Entry, later: Entry,
                                       excludeFiles: seq<string>, excludeDirs: seq<string>, regex: Engine)
    requires IsKeptFile(f, excludeFiles, regex)
    requires IsKeptDir(locked, excludeDirs, regex) && locked.contents == Unreadable
    requires !IsKeptFile(later, excludeFiles, regex)
    ensures Walk(root, Readable([f, locked, later]), excludeFiles, excludeDirs, regex, 0)
         == Trace([FileRecord(f.name, f.size)], Some(root + "/" + locked.name))
  {
    var listing := Readable([f, locked, later]);
    var entries := listing.entries;
    OnlyFirstFileKept(f, locked, later, excludeFiles, regex);
    FirstDirKept(f, locked, later, excludeDirs, regex);
    UnreadableFirstDirEndsWalk(root, listing, KeptDirs(entries, excludeDirs, regex), excludeFiles, excludeDirs, regex);
    OneFileThenThrow(root, entries, f, root + "/" + locked.name, excludeFiles, excludeDirs, regex);
  }

  /** A walk that keeps the single file `f` and whose subdirectories throw for `path`. */
  lemma OneFileThenThrow(root: string, entries: seq<Entry>, f: Entry, path: string,
                         excludeFiles: seq<string>, excludeDirs: seq<string>, regex: Engine)
    requires f.File? && KeptFiles(entries, excludeFiles, regex) == [f]
    requires WalkDirs(root, Readable(entries), KeptDirs(entries, excludeDirs, regex), excludeFiles, excludeDirs, regex, 1)
          == Trace([], Some(path))
    ensures Walk(root, Readable(entries), excludeFiles, excludeDirs, regex, 0) == Trace([FileRecord(f.name, f.size)], Some(path))
  {
    WalkReadable(root, entries, excludeFiles, excludeDirs, regex, 0);
    assert FileRecords(root, 0, [f]) == [FileRecord(f.name, f.size)];
  }

  /** After a file, the first kept directory comes first among the kept directories. */
  lemma FirstDirKept(f: Entry, d: Entry, later: Entry, excludeDirs: seq<string>, regex: Engine)
    requires f.File? && IsKeptDir(d, excludeDirs, regex)
    ensures |KeptDirs([f, d, later], excludeDirs, regex)| >= 1
    ensures KeptDirs([f, d, later], excludeDirs, regex)[0] == d
  {
    assert [f, d, later][..2] == [f, d] && [f, d][..1] == [f] && [f][..0] == [];
    assert KeptDirs([f], excludeDirs, regex) == [];
    assert KeptDirs([f, d], excludeDirs, regex) == [d];
  }

  /** When the first directory of a walk of subdirectories cannot be listed, the walk throws for it at once. */
  lemma UnreadableFirstDirEndsWalk(root: string, listing: Listing, dirs: seq<Entry>,
                                   excludeFiles: seq<string>, excludeDirs: seq<string>, regex: Engine)
    requires listing.Readable?
    requires forall d :: d in dirs ==> d in listing.entries && d.Dir?
    requires |dirs| >= 1 && dirs[0].contents == Unreadable
    ensures WalkDirs(root, listing, dirs, excludeFiles, excludeDirs, regex, 1) == Trace([], Some(root + "/" + dirs[0].name))
  {
    assert dirs[0] in dirs;
    assert dirs[..1] == [dirs[0]];
    WalkOneDir(root, listing, dirs[0], excludeFiles, excludeDirs, regex, 1);
    WalkDirsStopsAtFailure(root, listing, dirs, 1, excludeFiles, excludeDirs, regex, 1);
  }

  /**
   * With no rules, `a.txt`, then an unreadable `locked`, then `later/b.txt`:
   * only `a.txt` is recorded, and the walk throws for `locked`.
   */
  lemma UnreadableSubdirectoryScenario(root: string, regex: Engine)
    ensures Walk(root, Readable([File("a.txt", 1), Dir("locked", Unreadable), Dir("later", Readable([File("b.txt", 2)]))]),
                 [], [], regex, 0)
         == Trace([FileRecord("a.txt", 1)], Some(root + "/" + "locked"))
  {
    UnreadableSubdirectoryEndsWalk(root, File("a.txt", 1), Dir("locked", Unreadable),
                                   Dir("later", Readable([File("b.txt", 2)])), [], [], regex);
  }
}
