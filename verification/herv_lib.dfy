/** herv_lib.py: a directory as a path and a list of entry names, with
    filtering of the entries by file suffix and joining of full paths. */
module HervLib {
  import opened Common

  // ---------------------------------------------------------------------
  // os.path.splitext

  /** str.rfind: the index of the last occurrence of c, or -1. */
  function LastIndex(s: string, c: char): (r: int)
    ensures -1 <= r < |s|
    ensures r >= 0 ==> s[r] == c
  {
    if s == [] then -1
    else if s[|s| - 1] == c then |s| - 1
    else LastIndex(s[..|s| - 1], c)
  }

  /** No occurrence of c follows the one rfind finds. */
  lemma {:induction false} LastIndexIsLast(s: string, c: char)
    ensures forall j :: LastIndex(s, c) < j < |s| ==> s[j] != c
  {
    if s != [] && s[|s| - 1] != c {
      LastIndexIsLast(s[..|s| - 1], c);
    }
  }

  /** rfind finds nothing in a string without c. */
  lemma {:induction false} LastIndexAbsent(s: string, c: char)
    requires c !in s
    ensures LastIndex(s, c) == -1
  {
    if s != [] {
      assert c !in s[..|s| - 1] by {
        assert forall j :: 0 <= j < |s| - 1 ==> s[..|s| - 1][j] == s[j];
      }
      LastIndexAbsent(s[..|s| - 1], c);
    }
  }

  /** The last occurrence in a + b is in b when b holds one, else in a. */
  lemma {:induction false} LastIndexAppend(a: string, b: string, c: char)
    ensures LastIndex(a + b, c) == if LastIndex(b, c) >= 0 then |a| + LastIndex(b, c) else LastIndex(a, c)
  {
    if b != [] {
      assert (a + b)[..|a + b| - 1] == a + b[..|b| - 1];
      LastIndexAppend(a, b[..|b| - 1], c);
    } else {
      assert a + b == a;
    }
  }

  /** Some character of p[lo..hi] is not a dot. */
  predicate HasNameChar(p: string, lo: nat, hi: nat)
    requires lo <= hi <= |p|
  {
    exists j :: lo <= j < hi && p[j] != '.'
  }

  /** os.path.splitext(p)[1]: from the last dot of the final path component
      on, provided something other than dots comes before that dot in the
      component; otherwise empty. */
  function Extension(p: string): (r: string)
  {
    var sep := LastIndex(p, '/');
    var dot := LastIndex(p, '.');
    if dot > sep && HasNameChar(p, sep + 1, dot) then p[dot..] else ""
  }

  /** The suffix compared: the extension without its dot. */
  function FileSuffix(p: string): string
  {
    var e := Extension(p);
    if e == "" then "" else e[1..]
  }

  /** The suffix is the end of the path after its last dot, and holds
      neither a dot nor a slash. */
  lemma FileSuffixShape(p: string)
    ensures var r := FileSuffix(p);
            |r| <= |p| && r == p[|p| - |r|..] && '.' !in r && '/' !in r
  {
    LastIndexIsLast(p, '.');
    LastIndexIsLast(p, '/');
  }

  /** Whether a name character precedes a position is unchanged by a prefix. */
  lemma NameCharShift(dir: string, name: string, lo: nat, hi: nat)
    requires lo <= hi <= |name|
    ensures HasNameChar(dir + name, |dir| + lo, |dir| + hi) == HasNameChar(name, lo, hi)
  {
    var p := dir + name;
    if HasNameChar(p, |dir| + lo, |dir| + hi) {
      var j :| |dir| + lo <= j < |dir| + hi && p[j] != '.';
      assert name[j - |dir|] == p[j];
    }
    if HasNameChar(name, lo, hi) {
      var j :| lo <= j < hi && name[j] != '.';
      assert p[|dir| + j] == name[j];
    }
  }

  /** The last slash of a directory part ending in one, followed by a
      name without slashes, is the directory's last character. */
  lemma SepOfComponent(dir: string, name: string)
    requires dir == [] || dir[|dir| - 1] == '/'
    requires '/' !in name
    ensures LastIndex(dir + name, '/') == |dir| - 1 && LastIndex(name, '/') == -1
  {
    LastIndexAbsent(name, '/');
    LastIndexAppend(dir, name, '/');
  }

  /** Only the final path component decides the extension. */
  lemma ExtensionOfComponent(dir: string, name: string)
    requires dir == [] || dir[|dir| - 1] == '/'
    requires '/' !in name
    ensures Extension(dir + name) == Extension(name)
  {
    var p := dir + name;
    SepOfComponent(dir, name);
    LastIndexAppend(dir, name, '.');
    var dot' := LastIndex(name, '.');
    if dot' >= 0 {
      NameCharShift(dir, name, 0, dot');
      assert p[|dir| + dot'..] == name[dot'..];
    }
  }

  /** Only the final path component decides the suffix: a directory part
      ending in a slash changes nothing. */
  lemma FileSuffixOfComponent(dir: string, name: string)
    requires dir == [] || dir[|dir| - 1] == '/'
    requires '/' !in name
    ensures FileSuffix(dir + name) == FileSuffix(name)
  {
    ExtensionOfComponent(dir, name);
  }

  /** A name with something other than dots before its last dot, and no
      slash, has the text after that dot as its extension. */
  lemma ExtensionOfName(name: string, ext: string)
    requires '/' !in name && '.' !in ext && '/' !in ext
    requires exists j :: 0 <= j < |name| && name[j] != '.'
    ensures Extension(name + "." + ext) == "." + ext
  {
    var n := name + "." + ext;
    assert n == (name + ".") + ext;
    LastIndexAbsent(ext, '.');
    LastIndexAbsent(ext, '/');
    LastIndexAbsent(name, '/');
    LastIndexAppend(name + ".", ext, '.');
    LastIndexAppend(name + ".", ext, '/');
    LastIndexAppend(name, ".", '/');
    assert LastIndex(".", '/') == -1;
    assert LastIndex(name + ".", '.') == |name|;
    var j :| 0 <= j < |name| && name[j] != '.';
    assert n[j] == name[j];
    assert HasNameChar(n, 0, |name|);
    assert n[|name|..] == "." + ext;
  }

  /** So a file named name.ext, in any directory, has suffix ext. */
  lemma FileSuffixOfName(dir: string, name: string, ext: string)
    requires dir == [] || dir[|dir| - 1] == '/'
    requires '/' !in name && '.' !in ext && '/' !in ext
    requires exists j :: 0 <= j < |name| && name[j] != '.'
    ensures FileSuffix(dir + name + "." + ext) == ext
  {
    var n := name + "." + ext;
    assert dir + name + "." + ext == dir + n;
    assert '/' !in n by {
      assert forall i :: 0 <= i < |n| ==> n[i] == (if i < |name| then name[i] else if i == |name| then '.' else ext[i - |name| - 1]);
    }
    FileSuffixOfComponent(dir, n);
    ExtensionOfName(name, ext);
  }

  /** A name without a dot has no suffix. */
  lemma FileSuffixNoDot(dir: string, name: string)
    requires dir == [] || dir[|dir| - 1] == '/'
    requires '/' !in name && '.' !in name
    ensures FileSuffix(dir + name) == ""
  {
    FileSuffixOfComponent(dir, name);
    LastIndexAbsent(name, '.');
  }

  /** A name that is dots followed by dot-free text, such as ".bashrc", has
      no extension: its leading dots do not start one. */
  lemma ExtensionHidden(dots: string, rest: string)
    requires forall i :: 0 <= i < |dots| ==> dots[i] == '.'
    requires '.' !in rest
    ensures Extension(dots + rest) == ""
  {
    var n := dots + rest;
    LastIndexAbsent(rest, '.');
    LastIndexAppend(dots, rest, '.');
    var dot := LastIndex(n, '.');
    assert dot < |dots|;
    if dot > LastIndex(n, '/') {
      assert !HasNameChar(n, LastIndex(n, '/') + 1, dot) by {
        assert forall j :: 0 <= j < dot ==> n[j] == dots[j];
      }
    }
  }

  /** So does such a name in any directory. */
  lemma FileSuffixHidden(dir: string, dots: string, rest: string)
    requires dir == [] || dir[|dir| - 1] == '/'
    requires forall i :: 0 <= i < |dots| ==> dots[i] == '.'
    requires '/' !in rest && '.' !in rest
    ensures FileSuffix(dir + dots + rest) == ""
  {
    var n := dots + rest;
    assert dir + dots + rest == dir + n;
    assert '/' !in n by {
      assert forall i :: 0 <= i < |n| ==> n[i] == (if i < |dots| then dots[i] else rest[i - |dots|]);
    }
    FileSuffixOfComponent(dir, n);
    ExtensionHidden(dots, rest);
  }

  // ---------------------------------------------------------------------
  // compare_file_suffices

  /** compare_file_suffices: True when the file's suffix is the one asked
      for (both lowercased when case is ignored), otherwise the None the
      function falls through to. */
  function CompareFileSuffices(file: string, suffix: string, ignoreCase: bool): (r: Option<bool>)
    ensures r.Some? ==> r.value
  {
    var fileSuffix := FileSuffix(file);
    if ignoreCase then
      if Lower(fileSuffix) == Lower(suffix) then Some(true) else None
    else
      if fileSuffix == suffix then Some(true) else None
  }

  /** The Python truth value of compare_file_suffices's result. */
  predicate Matches(file: string, suffix: string, ignoreCase: bool)
  {
    CompareFileSuffices(file, suffix, ignoreCase).Some?
  }

  /** A file named with the extension asked for matches, whatever the case
      option. */
  lemma MatchesOwnExtension(dir: string, name: string, ext: string, ignoreCase: bool)
    requires dir == [] || dir[|dir| - 1] == '/'
    requires '/' !in name && '.' !in ext && '/' !in ext
    requires exists j :: 0 <= j < |name| && name[j] != '.'
    ensures Matches(dir + name + "." + ext, ext, ignoreCase)
  {
    FileSuffixOfName(dir, name, ext);
  }

  /** An exact match is a match when case is ignored. */
  lemma ExactMatchIgnoringCase(file: string, suffix: string)
    ensures Matches(file, suffix, false) ==> Matches(file, suffix, true)
  {
  }

  /** Ignoring case, a suffix and its lowercase form match the same files. */
  lemma {:induction false} LowerIdempotent(s: string)
    ensures Lower(Lower(s)) == Lower(s)
  {
    assert forall i :: 0 <= i < |s| ==> LowerChar(LowerChar(s[i])) == LowerChar(s[i]);
  }

  lemma MatchesLowered(file: string, suffix: string)
    ensures Matches(file, Lower(suffix), true) <==> Matches(file, suffix, true)
  {
    LowerIdempotent(suffix);
  }

  // ---------------------------------------------------------------------
  // get_files_with_suffix

  /** The elements keep accepts, in their order. */
  function Filter<T>(s: seq<T>, keep: T -> bool): (r: seq<T>)
    ensures |r| <= |s|
    ensures forall i :: 0 <= i < |r| ==> keep(r[i])
  {
    if s == [] then []
    else
      var last := s[|s| - 1];
      Filter(s[..|s| - 1], keep) + (if keep(last) then [last] else [])
  }

  /** The kept elements are the elements at an increasing sequence of
      positions, and those positions are exactly the ones keep accepts. */
  lemma {:induction false} FilterPositions<T>(s: seq<T>, keep: T -> bool) returns (idx: seq<nat>)
    ensures var r := Filter(s, keep);
            |idx| == |r|
            && (forall i :: 0 <= i < |idx| ==> idx[i] < |s| && r[i] == s[idx[i]])
            && (forall i, j :: 0 <= i < j < |idx| ==> idx[i] < idx[j])
            && forall k :: 0 <= k < |s| ==> (k in idx <==> keep(s[k]))
  {
    if s == [] {
      idx := [];
    } else {
      var n := |s| - 1;
      var init := s[..n];
      var idx0 := FilterPositions(init, keep);
      idx := PositionsExtend(s, keep, Filter(init, keep), idx0);
    }
  }

  /** The positions of a prefix's kept elements, extended by the last
      element's position when it is kept. */
  lemma PositionsExtend<T>(s: seq<T>, keep: T -> bool, r0: seq<T>, idx0: seq<nat>) returns (idx: seq<nat>)
    requires s != []
    requires |idx0| == |r0|
    requires forall i :: 0 <= i < |idx0| ==> idx0[i] < |s| - 1 && r0[i] == s[idx0[i]]
    requires forall i, j :: 0 <= i < j < |idx0| ==> idx0[i] < idx0[j]
    requires forall k :: 0 <= k < |s| - 1 ==> (k in idx0 <==> keep(s[k]))
    ensures var r := r0 + (if keep(s[|s| - 1]) then [s[|s| - 1]] else []);
            |idx| == |r|
            && (forall i :: 0 <= i < |idx| ==> idx[i] < |s| && r[i] == s[idx[i]])
            && (forall i, j :: 0 <= i < j < |idx| ==> idx[i] < idx[j])
            && forall k :: 0 <= k < |s| ==> (k in idx <==> keep(s[k]))
  {
    var n := |s| - 1;
    assert n !in idx0;
    if keep(s[n]) {
      idx := idx0 + [n];
      var r := r0 + [s[n]];
      forall i | 0 <= i < |idx|
        ensures idx[i] < |s| && r[i] == s[idx[i]]
      {
        if i < |idx0| {
          assert idx[i] == idx0[i] && r[i] == r0[i];
        }
      }
      forall k | 0 <= k < |s|
        ensures k in idx <==> keep(s[k])
      {
        assert k in idx <==> k in idx0 || k == n;
      }
    } else {
      idx := idx0;
      assert r0 + [] == r0;
    }
  }

  /** Nothing is kept exactly when keep accepts no element. */
  lemma FilterEmpty<T>(s: seq<T>, keep: T -> bool)
    ensures Filter(s, keep) == [] <==> forall i :: 0 <= i < |s| ==> !keep(s[i])
  {
    var idx := FilterPositions(s, keep);
    if exists i :: 0 <= i < |s| && keep(s[i]) {
      var i :| 0 <= i < |s| && keep(s[i]);
      assert i in idx;
    }
  }

  /** Filtering full paths, when keep sees a full path as its name, gives
      the full paths of the filtered names. */
  lemma {:induction false} FilterFullPaths(path: string, names: seq<string>, keep: string -> bool)
    requires forall i :: 0 <= i < |names| ==> keep(FullPath(path, names[i])) == keep(names[i])
    ensures Filter(FullPaths(path, names), keep) == FullPaths(path, Filter(names, keep))
  {
    if names != [] {
      var n := |names| - 1;
      var init := names[..n];
      assert FullPaths(path, names)[..n] == FullPaths(path, init);
      FilterFullPaths(path, init, keep);
      var m := Filter(init, keep);
      var tail := if keep(names[n]) then [names[n]] else [];
      assert FullPaths(path, m + tail) == FullPaths(path, m) + FullPaths(path, tail);
    }
  }

  /** The matching entries, in their order among the entries. */
  function MatchingFiles(files: seq<string>, suffix: string, ignoreCase: bool): (r: seq<string>)
    ensures |r| <= |files|
    ensures forall i :: 0 <= i < |r| ==> Matches(r[i], suffix, ignoreCase)
  {
    Filter(files, f => Matches(f, suffix, ignoreCase))
  }

  /** The matching entries are an order-preserving subsequence of the
      entries, taken at exactly the positions whose entry matches. */
  lemma MatchingFilesPositions(files: seq<string>, suffix: string, ignoreCase: bool) returns (idx: seq<nat>)
    ensures var r := MatchingFiles(files, suffix, ignoreCase);
            |idx| == |r|
            && (forall i :: 0 <= i < |idx| ==> idx[i] < |files| && r[i] == files[idx[i]])
            && (forall i, j :: 0 <= i < j < |idx| ==> idx[i] < idx[j])
            && forall k :: 0 <= k < |files| ==> (k in idx <==> Matches(files[k], suffix, ignoreCase))
  {
    idx := FilterPositions(files, f => Matches(f, suffix, ignoreCase));
  }

  /** Every entry that matches is returned, and nothing else. */
  lemma MatchingFilesExact(files: seq<string>, suffix: string, ignoreCase: bool, f: string)
    ensures f in MatchingFiles(files, suffix, ignoreCase) <==> f in files && Matches(f, suffix, ignoreCase)
  {
    var idx := MatchingFilesPositions(files, suffix, ignoreCase);
    var r := MatchingFiles(files, suffix, ignoreCase);
    if f in files && Matches(f, suffix, ignoreCase) {
      var k :| 0 <= k < |files| && files[k] == f;
      var i :| 0 <= i < |idx| && idx[i] == k;
      assert r[i] == f;
    }
  }

  /** Nothing is returned exactly when no entry matches. */
  lemma NoneMatch(files: seq<string>, suffix: string, ignoreCase: bool)
    ensures MatchingFiles(files, suffix, ignoreCase) == [] <==> forall i :: 0 <= i < |files| ==> !Matches(files[i], suffix, ignoreCase)
  {
    FilterEmpty(files, f => Matches(f, suffix, ignoreCase));
  }

  // ---------------------------------------------------------------------
  // Full paths

  /** '/'.join([path, name]). */
  function FullPath(path: string, name: string): (r: string)
    ensures |r| == |path| + 1 + |name| && r[|path|] == '/' && r[|path| + 1..] == name
  {
    path + "/" + name
  }

  /** Each entry's full path, in entry order. */
  function FullPaths(path: string, names: seq<string>): (r: seq<string>)
    ensures |r| == |names|
    ensures forall i :: 0 <= i < |names| ==> r[i] == FullPath(path, names[i])
  {
    seq(|names|, i requires 0 <= i < |names| => FullPath(path, names[i]))
  }

  /** A full path has its name's suffix. */
  lemma FullPathSuffix(path: string, name: string)
    requires '/' !in name
    ensures FileSuffix(FullPath(path, name)) == FileSuffix(name)
  {
    assert FullPath(path, name) == (path + "/") + name;
    FileSuffixOfComponent(path + "/", name);
  }

  /** Filtering the full paths gives the full paths of the filtered names:
      listing names never hold a slash. */
  lemma MatchingFullPaths(path: string, names: seq<string>, suffix: string, ignoreCase: bool)
    requires forall i :: 0 <= i < |names| ==> '/' !in names[i]
    ensures MatchingFiles(FullPaths(path, names), suffix, ignoreCase) == FullPaths(path, MatchingFiles(names, suffix, ignoreCase))
  {
    forall i | 0 <= i < |names|
      ensures Matches(FullPath(path, names[i]), suffix, ignoreCase) == Matches(names[i], suffix, ignoreCase)
    {
      FullPathSuffix(path, names[i]);
    }
    FilterFullPaths(path, names, f => Matches(f, suffix, ignoreCase));
  }

  // ---------------------------------------------------------------------
  // Directory

  /** A directory: its resolved path and the names of its entries. */
  class Directory {
    var path: string
    var contents: seq<string>

    /** __init__, with the resolved path (os.path.realpath) and the listing
        (os.listdir) given. */
    constructor(resolvedPath: string, listing: seq<string>)
      ensures path == resolvedPath && contents == listing
    {
      path := resolvedPath;
      contents := listing;
    }

    /** create_dir, with the directory creation (os.makedirs) left to the
        file system: the directory now stands for the resolved path given,
        and its listing is kept. */
    method CreateDir(resolvedPath: string)
      modifies this
      ensures path == resolvedPath && contents == old(contents)
    {
      path := resolvedPath;
    }

    /** get_contents_with_full_path. */
    function ContentsWithFullPath(): (r: seq<string>)
      reads this
      ensures |r| == |contents|
      ensures forall i :: 0 <= i < |contents| ==> r[i] == path + "/" + contents[i]
    {
      FullPaths(path, contents)
    }

    /** set_contents_with_full_path: the entries replaced by their full
        paths, the path kept. */
    method SetContentsWithFullPath()
      modifies this
      ensures contents == old(ContentsWithFullPath()) && path == old(path)
    {
      contents := ContentsWithFullPath();
    }

    /** get_files_with_suffix: the matching entries in order, or None (not
        an empty list) when no entry matches. */
    method GetFilesWithSuffix(suffix: string, ignoreCase: bool) returns (r: Option<seq<string>>)
      ensures r.None? <==> forall i :: 0 <= i < |contents| ==> !Matches(contents[i], suffix, ignoreCase)
      ensures r.Some? ==> r.value == MatchingFiles(contents, suffix, ignoreCase) && |r.value| > 0
    {
      var filesWithSuffix: seq<string> := [];
      var i := 0;
      while i < |contents|
        invariant 0 <= i <= |contents|
        invariant filesWithSuffix == MatchingFiles(contents[..i], suffix, ignoreCase)
      {
        var file := contents[i];
        if CompareFileSuffices(file, suffix, ignoreCase).Some? {
          filesWithSuffix := filesWithSuffix + [file];
        }
        assert contents[..i + 1][..i] == contents[..i];
        i := i + 1;
      }
      assert contents[..i] == contents;
      NoneMatch(contents, suffix, ignoreCase);
      if |filesWithSuffix| > 0 {
        return Some(filesWithSuffix);
      }
      return None;
    }
  }
}
