/**
 * `fileSizes` as the source runs it: a recursive method that lists a
 * directory, filters the entries into files and directories, pushes one
 * record per kept file onto the caller's array, then recurses into each kept
 * directory one level deeper with the same array and the same rules.  Each
 * method is proved to do what `FileTree.Walk` describes.
 */
module Walker {
  import opened Matching
  import opened Paths
  import opened FileTree

  /** The `filesChecked` array, shared by reference by every recursive call. */
  class RecordArray {
    var records: seq<FileRecord>

    /** `filesChecked = []`. */
    constructor ()
      ensures records == []
    {
      records := [];
    }

    /** `filesChecked.push(record)`. */
    method Push(record: FileRecord)
      modifies this
      ensures records == old(records) + [record]
    {
      records := records + [record];
    }
  }

  /** How a call ends: it returns the array it was given, or throws for a directory it cannot list. */
  datatype Completion = Returned(value: RecordArray) | Threw(unreadable: string)

  /**
   * `contents.filter(...)` keeping files: an entry whose stat throws, or for
   * which `contentMatch` throws, is caught and dropped.
   */
  method FilterFiles(contents: seq<Entry>, excludeFiles: seq<string>, regex: Engine) returns (files: seq<Entry>)
    ensures files == KeptFiles(contents, excludeFiles, regex)
  {
    files := [];
    var i := 0;
    while i < |contents|
      invariant 0 <= i <= |contents|
      invariant files == KeptFiles(contents[..i], excludeFiles, regex)
    {
      var content := contents[i];
      var keep;
      match content {
        case Unstatable(_) => keep := false;
        case Dir(_, _) => keep := false;
        case File(name, _) => keep := ContentMatch(name, excludeFiles, regex) == Unmatched;
      }
      if keep {
        files := files + [content];
      }
      assert contents[..i + 1][..i] == contents[..i];
      i := i + 1;
    }
    assert contents[..|contents|] == contents;
  }

  /** `contents.filter(...)` keeping directories, with the same error handling. */
  method FilterDirs(contents: seq<Entry>, excludeDirs: seq<string>, regex: Engine) returns (directories: seq<Entry>)
    ensures directories == KeptDirs(contents, excludeDirs, regex)
  {
    directories := [];
    var i := 0;
    while i < |contents|
      invariant 0 <= i <= |contents|
      invariant directories == KeptDirs(contents[..i], excludeDirs, regex)
    {
      var content := contents[i];
      var keep;
      match content {
        case Unstatable(_) => keep := false;
        case File(_, _) => keep := false;
        case Dir(name, _) => keep := ContentMatch(name, excludeDirs, regex) == Unmatched;
      }
      if keep {
        directories := directories + [content];
      }
      assert contents[..i + 1][..i] == contents[..i];
      i := i + 1;
    }
    assert contents[..|contents|] == contents;
  }

  /** `files.forEach(...)`: one record per kept file, named from the directory path and the depth. */
  method PushRecords(dir: string, depth: nat, files: seq<Entry>, filesChecked: RecordArray)
    requires forall e :: e in files ==> e.File?
    modifies filesChecked
    ensures filesChecked.records == old(filesChecked.records) + FileRecords(dir, depth, files)
  {
    var i := 0;
    while i < |files|
      invariant 0 <= i <= |files|
      invariant filesChecked.records == old(filesChecked.records) + FileRecords(dir, depth, files[..i])
    {
      var file := files[i];
      var segments := Split(dir);
      var fileName := if depth > 0 then Join(Splice(segments, |segments| - depth, depth)) + "/" + file.name
                      else file.name;
      filesChecked.Push(FileRecord(fileName, file.size));
      assert files[..i + 1][..i] == files[..i];
      i := i + 1;
    }
    assert files[..|files|] == files;
  }

  /**
   * `fileSizes({dir, excludeFiles, excludeDirs}, filesChecked, depth)`: the
   * array only grows, by exactly the records `Walk` describes, and the call
   * returns that same array, or throws where `Walk` says it does.
   */
  method FileSizes(dir: string, listing: Listing, excludeFiles: seq<string>, excludeDirs: seq<string>,
                   regex: Engine, filesChecked: RecordArray, depth: nat) returns (result: Completion)
    modifies filesChecked
    ensures var t := Walk(dir, listing, excludeFiles, excludeDirs, regex, depth);
      && filesChecked.records == old(filesChecked.records) + t.records
      && result == if t.failure.None? then Returned(filesChecked) else Threw(t.failure.value)
    decreases listing, 1
  {
    if listing.Unreadable? {
      return Threw(dir);
    }
    var contents := listing.entries;
    var files := FilterFiles(contents, excludeFiles, regex);
    var directories := FilterDirs(contents, excludeDirs, regex);

    ghost var start := filesChecked.records;
    ghost var pushed := FileRecords(dir, depth, files);
    ghost var rest := WalkDirs(dir, listing, directories, excludeFiles, excludeDirs, regex, depth + 1);
    assert Walk(dir, listing, excludeFiles, excludeDirs, regex, depth) == Trace(pushed + rest.records, rest.failure);
    assert start + (pushed + rest.records) == (start + pushed) + rest.records;
    PushRecords(dir, depth, files, filesChecked);

    var level := depth;
    if |directories| > 0 {
      level := level + 1;
      result := WalkDirectories(dir, listing, directories, excludeFiles, excludeDirs, regex, filesChecked, level);
    } else {
      result := Returned(filesChecked);
    }
  }

  /**
   * `directories.forEach(...)`: each kept directory is walked in turn, one
   * level deeper, into the same array; a throw from one ends the walk there.
   */
  method WalkDirectories(dir: string, listing: Listing, directories: seq<Entry>, excludeFiles: seq<string>,
                         excludeDirs: seq<string>, regex: Engine, filesChecked: RecordArray, level: nat)
    returns (result: Completion)
    requires listing.Readable?
    requires forall d :: d in directories ==> d in listing.entries && d.Dir?
    modifies filesChecked
    ensures var t := WalkDirs(dir, listing, directories, excludeFiles, excludeDirs, regex, level);
      && filesChecked.records == old(filesChecked.records) + t.records
      && result == if t.failure.None? then Returned(filesChecked) else Threw(t.failure.value)
    decreases listing, 0
  {
    var j := 0;
    while j < |directories|
      invariant 0 <= j <= |directories|
      invariant WalkDirs(dir, listing, directories[..j], excludeFiles, excludeDirs, regex, level).failure.None?
      invariant filesChecked.records
             == old(filesChecked.records) + WalkDirs(dir, listing, directories[..j], excludeFiles, excludeDirs, regex, level).records
    {
      var directory := directories[j];
      assert directory in listing.entries by {
        assert directory in directories;
      }
      WalkDirsTurn(dir, listing, directories, j, excludeFiles, excludeDirs, regex, level,
                   old(filesChecked.records), filesChecked.records);
      var child := FileSizes(dir + "/" + directory.name, directory.contents, excludeFiles, excludeDirs, regex,
                             filesChecked, level);
      if child.Threw? {
        return child;
      }
      j := j + 1;
    }
    assert directories[..|directories|] == directories;
    result := Returned(filesChecked);
  }

  /** The options object; an absent rule list takes its default. */
  datatype Options = Options(dir: string, excludeFiles: Option<seq<string>>, excludeDirs: Option<seq<string>>)

  /** The rule list in force: the one given, else the default. */
  function RulesOr(given: Option<seq<string>>, default: seq<string>): seq<string>
  {
    if given.Some? then given.value else default
  }

  /**
   * The outside call `fileSizes(options)`: a fresh empty array, depth 0, and
   * the default rule lists where none are given.
   */
  method FileSizesFromRoot(options: Options, listing: Listing, regex: Engine) returns (result: Completion)
    ensures var t := Walk(options.dir, listing, RulesOr(options.excludeFiles, ExcludedFiles),
                          RulesOr(options.excludeDirs, ExcludedDirectories), regex, 0);
      && (result.Returned? <==> t.failure.None?)
      && (result.Returned? ==> fresh(result.value) && result.value.records == t.records)
      && (result.Threw? ==> result.unreadable == t.failure.value)
  {
    var filesChecked := new RecordArray();
    result := FileSizes(options.dir, listing, RulesOr(options.excludeFiles, ExcludedFiles),
                        RulesOr(options.excludeDirs, ExcludedDirectories), regex, filesChecked, 0);
  }
}
