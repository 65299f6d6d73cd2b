/**
 * Path strings as the inventory handles them: `dir.split('/')`, `join('/')`,
 * the child path `${dir}/${directory}`, and the relative record name rebuilt
 * from the last `depth` segments of the directory path.
 */
module Paths {

  /** `s.split('/')`: the pieces of `s` between slashes; never empty (`"".split('/')` is `[""]`). */
  function Split(s: string): (r: seq<string>)
    ensures |r| >= 1
    decreases |s|
  {
    if s == [] then [""]
    else
      var p := Split(s[..|s| - 1]);
      var c := s[|s| - 1];
      if c == '/' then p + [""]
      else p[..|p| - 1] + [p[|p| - 1] + [c]]
  }

  /** `segments.join('/')`. */
  function Join(segments: seq<string>): string
  {
    if segments == [] then ""
    else if |segments| == 1 then segments[0]
    else Join(segments[..|segments| - 1]) + "/" + segments[|segments| - 1]
  }

  /** A name that holds no separator, as every directory entry name does. */
  predicate NoSlash(s: string)
  {
    '/' !in s
  }

  /** The pieces of a split hold no separator, and joining them gives the string back. */
  lemma {:induction false} JoinSplit(s: string)
    ensures Join(Split(s)) == s
    ensures forall i :: 0 <= i < |Split(s)| ==> NoSlash(Split(s)[i])
    decreases |s|
  {
    if s != [] {
      var init, c := s[..|s| - 1], s[|s| - 1];
      assert s == init + [c];
      JoinSplit(init);
      var p := Split(init);
      if c == '/' {
        assert Split(s) == p + [""];
        assert Split(s)[..|Split(s)| - 1] == p;
      } else {
        var q := Split(s);
        assert q == p[..|p| - 1] + [p[|p| - 1] + [c]];
        assert NoSlash(p[|p| - 1] + [c]);
        if |p| > 1 {
          assert q[..|q| - 1] == p[..|p| - 1];
          assert Join(p) == Join(p[..|p| - 1]) + "/" + p[|p| - 1];
        }
      }
    }
  }

  /** A string without a separator splits into itself alone. */
  lemma {:induction false} SplitNoSlash(s: string)
    requires NoSlash(s)
    ensures Split(s) == [s]
    decreases |s|
  {
    if s != [] {
      var init := s[..|s| - 1];
      assert NoSlash(init) by {
        assert forall k :: 0 <= k < |init| ==> init[k] == s[k];
      }
      SplitNoSlash(init);
      assert s == init + [s[|s| - 1]];
    }
  }

  /** Splitting at a separator that was put between two strings. */
  lemma {:induction false} SplitAppend(s: string, t: string)
    ensures Split(s + "/" + t) == Split(s) + Split(t)
    decreases |t|
  {
    var u := s + "/" + t;
    if t == [] {
      assert u[..|u| - 1] == s && u[|u| - 1] == '/';
      SplitUnfold(u);
    } else {
      var init, c := t[..|t| - 1], t[|t| - 1];
      assert u[..|u| - 1] == s + "/" + init && u[|u| - 1] == c;
      SplitAppend(s, init);
      SplitUnfold(u);
      SplitUnfold(t);
      SplitAppendStep(Split(s), Split(init), c);
    }
  }

  /** One step of Split's definition. */
  lemma SplitUnfold(s: string)
    requires s != []
    ensures
      var p, c := Split(s[..|s| - 1]), s[|s| - 1];
      Split(s) == if c == '/' then p + [""] else p[..|p| - 1] + [p[|p| - 1] + [c]]
  {
  }

  /** The step of SplitAppend: one more character after the separator. */
  lemma SplitAppendStep(a: seq<string>, b: seq<string>, c: char)
    requires |b| >= 1
    ensures
      var p := a + b;
      (if c == '/' then p + [""] else p[..|p| - 1] + [p[|p| - 1] + [c]])
      == a + (if c == '/' then b + [""] else b[..|b| - 1] + [b[|b| - 1] + [c]])
  {
    var p := a + b;
    if c != '/' {
      assert p[..|p| - 1] == a + b[..|b| - 1];
    }
  }

  /** Joining separator-free segments and splitting again gives the segments back. */
  lemma {:induction false} SplitJoin(segments: seq<string>)
    requires |segments| >= 1
    requires forall i :: 0 <= i < |segments| ==> NoSlash(segments[i])
    ensures Split(Join(segments)) == segments
    decreases |segments|
  {
    var n := |segments|;
    if n == 1 {
      SplitNoSlash(segments[0]);
    } else {
      SplitJoin(segments[..n - 1]);
      SplitAppend(Join(segments[..n - 1]), segments[n - 1]);
      SplitNoSlash(segments[n - 1]);
      assert segments == segments[..n - 1] + [segments[n - 1]];
    }
  }

  /** The path reached from `root` by descending through `names`: `${dir}/${directory}` at each level. */
  function Descend(root: string, names: seq<string>): string
  {
    if names == [] then root
    else Descend(root, names[..|names| - 1]) + "/" + names[|names| - 1]
  }

  /** Descending adds exactly one segment per directory name. */
  lemma {:induction false} SplitDescend(root: string, names: seq<string>)
    requires forall i :: 0 <= i < |names| ==> NoSlash(names[i])
    ensures Split(Descend(root, names)) == Split(root) + names
    decreases |names|
  {
    if names != [] {
      var n := |names|;
      SplitDescend(root, names[..n - 1]);
      SplitAppend(Descend(root, names[..n - 1]), names[n - 1]);
      SplitNoSlash(names[n - 1]);
      assert names == names[..n - 1] + [names[n - 1]];
    }
  }

  /**
   * `segments.splice(start, count)` as a value: the elements it removes.  A
   * negative `start` counts back from the end (and stops at the first
   * element); the count is cut at the end of the array.
   */
  function Splice(segments: seq<string>, start: int, count: int): (removed: seq<string>)
    ensures |removed| <= |segments|
  {
    var n := |segments|;
    var from := if start < 0 then (if n + start < 0 then 0 else n + start) else (if start < n then start else n);
    var len := if count < 0 then 0 else if count < n - from then count else n - from;
    segments[from..from + len]
  }

  /** Splicing `depth` elements from `depth` before the end removes the last `depth` elements. */
  lemma SpliceTail(segments: seq<string>, depth: nat)
    requires depth <= |segments|
    ensures Splice(segments, |segments| - depth, depth) == segments[|segments| - depth..]
  {
  }

  /**
   * The `name` of a file record: the base name at depth 0, otherwise the
   * segments of `dir` that `splice(length - depth, depth)` removes, joined with
   * `/`, then `/` and the base name.
   */
  function RecordName(dir: string, depth: nat, file: string): string
  {
    if depth > 0 then
      var segments := Split(dir);
      Join(Splice(segments, |segments| - depth, depth)) + "/" + file
    else file
  }

  /**
   * Rebuilding the name from the depth gives the directory names descended
   * through, then the file name, whatever the root path is.
   */
  lemma RecordNameAfterDescent(root: string, names: seq<string>, file: string)
    requires forall i :: 0 <= i < |names| ==> NoSlash(names[i])
    ensures RecordName(Descend(root, names), |names|, file) == Join(names + [file])
  {
    if names != [] {
      var n, path := |names|, Descend(root, names);
      var segments := Split(path);
      assert segments == Split(root) + names by {
        SplitDescend(root, names);
      }
      assert Splice(segments, |segments| - n, n) == names by {
        SpliceTail(segments, n);
        assert segments[|segments| - n..] == names;
      }
      assert RecordName(path, n, file) == Join(names) + "/" + file;
      JoinSnoc(names, file);
    }
  }

  /** Joining one more segment puts a separator before it. */
  lemma JoinSnoc(segments: seq<string>, last: string)
    requires segments != []
    ensures Join(segments + [last]) == Join(segments) + "/" + last
  {
    assert (segments + [last])[..|segments|] == segments;
  }

  /** One level below any root, a file is named after its directory and itself. */
  lemma ChildRecordName(root: string, name: string, file: string)
    requires NoSlash(name)
    ensures RecordName(root + "/" + name, 1, file) == name + "/" + file
  {
    RecordNameAfterDescent(root, [name], file);
    assert [name][..0] == [];
    assert [name] + [file] == [name, file];
    assert [name, file][..1] == [name];
  }

  /**
   * A depth beyond the number of segments makes `splice` start counting
   * from the end a second time: `a/b` at depth 3 keeps only `b`.
   */
  lemma DepthBeyondPath()
    ensures RecordName("a/b", 3, "f") == "b/f"
  {
    var segments := Split("a/b");
    assert segments == ["a", "b"] by {
      SplitAppend("a", "b");
      assert "a" + "/" + "b" == "a/b";
      SplitNoSlash("a");
      SplitNoSlash("b");
    }
    assert Splice(segments, -1, 3) == ["b"] by {
      assert segments[1..2] == ["b"];
    }
    assert RecordName("a/b", 3, "f") == Join(Splice(segments, -1, 3)) + "/" + "f";
  }

  /** root/`a`/`b`/`file.txt` at depth 2 is recorded as `a/b/file.txt`. */
  lemma TwoLevelsDown()
    ensures RecordName("/home/user/project/a/b", 2, "file.txt") == "a/b/file.txt"
  {
    RecordNameAfterDescent("/home/user/project", ["a", "b"], "file.txt");
    assert Descend("/home/user/project", ["a", "b"]) == "/home/user/project/a/b";
    assert Join(["a", "b", "file.txt"]) == "a/b/file.txt" by {
      assert ["a", "b", "file.txt"][..2] == ["a", "b"];
      assert ["a", "b"][..1] == ["a"];
    }
  }
}
