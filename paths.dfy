/**
 * The pure string part of Home.py's file handling: splitting a path at its
 * last '.' the way `str.rsplit(".", 1)` does, inserting a timestamp
 * between the two parts, and the paths `pathlib` prints when a member name
 * is joined onto a directory.
 */
module Paths {
  import opened Wrappers

  /** Position of the last occurrence of `c` in `s`, if any. */
  function LastIndexOf(s: string, c: char): (r: Option<nat>)
    ensures r.Some? ==> r.value < |s| && s[r.value] == c
    ensures r.Some? ==> forall j :: r.value < j < |s| ==> s[j] != c
    ensures r.None? <==> c !in s
  {
    if |s| == 0 then None
    else if s[|s| - 1] == c then Some(|s| - 1)
    else
      var r := LastIndexOf(s[..|s| - 1], c);
      assert forall x :: x in s <==> x in s[..|s| - 1] || x == s[|s| - 1];
      r
  }

  /** Appending `c` and a suffix free of `c` moves the last `c` to the join point. */
  lemma {:induction false} LastIndexAfterAppend(prefix: string, c: char, suffix: string)
    requires c !in suffix
    ensures LastIndexOf(prefix + [c] + suffix, c) == Some(|prefix|)
  {
    var s := prefix + [c] + suffix;
    var i := |prefix|;
    assert s[i] == c && s[i] in s;
    forall k | i < k < |s| ensures s[k] != c {
      assert s[k] == suffix[k - i - 1] && suffix[k - i - 1] in suffix;
    }
    assert LastIndexOf(s, c).value == i;
  }

  /**
   * `s.rsplit(".", 1)`: the text before and after the last '.', or None
   * when `s` has no '.' (Python then returns a one-element list).
   */
  function RSplitDot(s: string): (r: Option<(string, string)>)
    ensures r.None? <==> '.' !in s
    ensures r.Some? ==> s == r.value.0 + "." + r.value.1
    ensures r.Some? ==> '.' !in r.value.1
  {
    match LastIndexOf(s, '.')
    case None => None
    case Some(i) =>
      assert s == s[..i] + "." + s[i + 1..];
      Some((s[..i], s[i + 1..]))
  }

  /**
   * The new name `rename_file_w_datetime` computes from `path` and the
   * formatted timestamp `stamp`: `<base>_<stamp>.<ext>`; IndexError when
   * `path` has no '.', as `file_split[1]` does not exist then.
   */
  function TimestampedPath(path: string, stamp: string): (r: Result<string>)
    ensures r.Err? <==> '.' !in path
    ensures r.Err? ==> r.fault == IndexError
    ensures r.Ok? ==> exists base, ext :: path == base + "." + ext && '.' !in ext &&
                                         r.value == base + "_" + stamp + "." + ext
  {
    match RSplitDot(path)
    case None => Err(IndexError)
    case Some((base, ext)) => Ok(base + "_" + stamp + "." + ext)
  }

  /** Appending a '.' and a dot-free suffix makes the join point the place of the split. */
  lemma SplitAfterAppend(prefix: string, ext: string)
    requires '.' !in ext
    ensures RSplitDot(prefix + "." + ext) == Some((prefix, ext))
  {
    var s := prefix + "." + ext;
    assert s == prefix + ['.'] + ext;
    LastIndexAfterAppend(prefix, '.', ext);
    assert s[..|prefix|] == prefix;
    assert s[|prefix| + 1..] == ext;
  }

  /**
   * The timestamped name keeps the original extension: splitting it again
   * at its last '.' gives back `<base>_<stamp>` and the same extension.
   */
  lemma {:induction false} TimestampKeepsExtension(path: string, stamp: string)
    requires '.' in path
    ensures TimestampedPath(path, stamp).Ok?
    ensures RSplitDot(TimestampedPath(path, stamp).value) ==
            Some((RSplitDot(path).value.0 + "_" + stamp, RSplitDot(path).value.1))
  {
    var (base, ext) := RSplitDot(path).value;
    assert TimestampedPath(path, stamp).value == (base + "_" + stamp) + "." + ext;
    SplitAfterAppend(base + "_" + stamp, ext);
  }

  /** Stamping a name with no '/' by a stamp with no '/' gives a name with no '/'. */
  lemma StampedNameNoSlash(name: string, stamp: string)
    requires '.' in name && '/' !in name && '/' !in stamp
    ensures '/' !in TimestampedPath(name, stamp).value
  {
    var (base, ext) := RSplitDot(name).value;
    assert name == base + "." + ext;
    assert '/' !in base && '/' !in ext by {
      assert forall c :: c in base ==> c in name;
      assert forall c :: c in ext ==> c in name;
    }
    var stamped := base + "_" + stamp + "." + ext;
    assert forall c :: c in stamped ==> c in base || c == '_' || c in stamp || c == '.' || c in ext;
  }

  /** The timestamped name is never the original one: it is longer by `|stamp| + 1`. */
  lemma TimestampedPathLength(path: string, stamp: string)
    requires '.' in path
    ensures TimestampedPath(path, stamp).Ok?
    ensures |TimestampedPath(path, stamp).value| == |path| + |stamp| + 1
    ensures TimestampedPath(path, stamp).value != path
  {
  }

  /**
   * The directory `dir` as `pathlib` prints it, for the forms handled here:
   * leading "./" components and a lone "." are dropped (the current
   * directory prints as the empty prefix), and so is a trailing '/'.
   */
  function DirPrefix(dir: string): (r: string)
    ensures |r| <= |dir|
    ensures r != "."
    ensures |r| >= 2 ==> r[..2] != "./" && r[|r| - 1] != '/'
    decreases |dir|
  {
    if |dir| >= 2 && dir[..2] == "./" then DirPrefix(dir[2..])
    else if dir == "." then ""
    else if |dir| >= 2 && dir[|dir| - 1] == '/' then DirPrefix(dir[..|dir| - 1])
    else dir
  }

  /** A directory already in printed form prints unchanged. */
  lemma DirPrefixIdempotent(dir: string)
    ensures DirPrefix(DirPrefix(dir)) == DirPrefix(dir)
  {
    var d := DirPrefix(dir);
    assert !(|d| >= 2 && d[..2] == "./");
  }

  /** `./董監事資料集` prints without its leading "./". */
  lemma DirPrefixDropsDotSlash()
    ensures DirPrefix("./董監事資料集") == "董監事資料集"
  {
    var d := "董監事資料集";
    assert "./董監事資料集"[..2] == "./";
    assert "./董監事資料集"[2..] == d;
    assert |d| == 6 && d[0] == '董' && d[5] == '集';
  }

  /**
   * `str(Path(dir).joinpath(name))` for a relative member name `name`:
   * the printed directory, a '/' unless the directory is the current one
   * or the root, then the name.
   */
  function JoinPath(dir: string, name: string): string
  {
    var d := DirPrefix(dir);
    if d == "" then name else if d == "/" then d + name else d + "/" + name
  }

  /** The directory part of `path` (`os.path.dirname`): "" for the current directory. */
  function Parent(path: string): (r: string)
    ensures |r| <= |path|
    ensures r == "" <==> '/' !in path
  {
    match LastIndexOf(path, '/')
    case None => ""
    case Some(i) =>
      if i == 0 then
        assert path[..1] == "/";
        "/"
      else path[..i]
  }

  /** The directory of a path is a prefix of it. */
  lemma ParentIsPrefix(path: string)
    ensures Parent(path) == path[..|Parent(path)|]
  {
    if '/' in path {
      var i := LastIndexOf(path, '/').value;
      if i == 0 {
        assert path[..1] == "/";
      }
    }
  }

  /** The directory of `<dir>/<name>` is `dir` when `name` has no '/'. */
  lemma ParentOfAppend(dir: string, name: string)
    requires dir != "" && '/' !in name
    ensures Parent(dir + "/" + name) == dir
  {
    var p := dir + "/" + name;
    assert p == dir + ['/'] + name;
    LastIndexAfterAppend(dir, '/', name);
    assert p[..|dir|] == dir;
  }

  /** The directory of a member joined onto `dir` is the printed `dir` when the name has no '/'. */
  lemma ParentOfJoin(dir: string, name: string)
    requires '/' !in name
    ensures Parent(JoinPath(dir, name)) == DirPrefix(dir)
  {
    var d := DirPrefix(dir);
    if d == "/" {
      assert JoinPath(dir, name) == "" + ['/'] + name;
      LastIndexAfterAppend("", '/', name);
    } else if d != "" {
      ParentOfAppend(d, name);
    }
  }

  /** Joining is compatible with extending the name: `join(dir, a + b) == join(dir, a) + b`. */
  lemma JoinAppend(dir: string, a: string, b: string)
    ensures JoinPath(dir, a + b) == JoinPath(dir, a) + b
  {
    var d := DirPrefix(dir);
    if d != "" && d != "/" {
      assert d + "/" + (a + b) == (d + "/" + a) + b;
    } else if d == "/" {
      assert d + (a + b) == (d + a) + b;
    }
  }

  /** Different member names give different paths in the same directory. */
  lemma JoinInjective(dir: string, a: string, b: string)
    requires JoinPath(dir, a) == JoinPath(dir, b)
    ensures a == b
  {
    var d := DirPrefix(dir);
    var p := JoinPath(dir, a);
    if d != "" && d != "/" {
      assert a == p[|d| + 1..] == b;
    } else if d == "/" {
      assert a == p[1..] == b;
    }
  }

  /**
   * The directories `mkdir(parents=True)` creates for `path`: every prefix
   * of it that ends just before a '/', and the path itself.
   */
  function Ancestors(path: string): (r: set<string>)
    ensures path != "" ==> path in r
  {
    assert path != "" ==> path == path[..|path|];
    set i | 0 < i <= |path| && (i == |path| || path[i] == '/') :: path[..i]
  }

  /**
   * The directories `mkdir(parents=True)` creates are exactly the non-empty
   * prefixes of `path` that end at its end or just before a '/'.
   */
  lemma AncestorsArePrefixes(path: string, q: string)
    ensures q in Ancestors(path) <==>
            0 < |q| <= |path| && q == path[..|q|] && (|q| == |path| || path[|q|] == '/')
  {
    if 0 < |q| <= |path| && q == path[..|q|] && (|q| == |path| || path[|q|] == '/') {
      assert path[..|q|] in Ancestors(path);
    }
  }

  /**
   * When the member name has a '.', the timestamp goes into the name and the
   * directory is kept: the new path is the timestamped name in the same directory.
   */
  lemma DotInName(dir: string, name: string, stamp: string)
    requires '.' in name
    ensures TimestampedPath(JoinPath(dir, name), stamp) ==
            Ok(JoinPath(dir, TimestampedPath(name, stamp).value))
  {
    var (base, ext) := RSplitDot(name).value;
    var j := JoinPath(dir, base);
    assert name == base + "." + ext;
    StampAfterAppend(base, ext, stamp);
    assert base + "." + ext == base + ("." + ext);
    JoinAppend(dir, base, "." + ext);
    assert j + ("." + ext) == j + "." + ext;
    StampAfterAppend(j, ext, stamp);
    JoinAppend(dir, base, "_" + stamp + "." + ext);
  }

  /** Stamping `<prefix>.<ext>` with a dot-free `ext` inserts the stamp right before the '.'. */
  lemma StampAfterAppend(prefix: string, ext: string, stamp: string)
    requires '.' !in ext
    ensures TimestampedPath(prefix + "." + ext, stamp) == Ok(prefix + ("_" + stamp + "." + ext))
  {
    SplitAfterAppend(prefix, ext);
    assert prefix + "_" + stamp + "." + ext == prefix + ("_" + stamp + "." + ext);
  }

  /**
   * The split is over the whole path, not the last path component: when
   * the member name has no '.' but the directory has one, the timestamp
   * goes into the directory part of the path.
   */
  lemma DotInDirectoryName(dir: string, name: string, stamp: string)
    requires '.' in DirPrefix(dir) && '.' !in name
    ensures var (base, rest) := RSplitDot(DirPrefix(dir)).value;
            TimestampedPath(JoinPath(dir, name), stamp) == Ok(base + "_" + stamp + "." + rest + "/" + name)
  {
    var d := DirPrefix(dir);
    assert d != "" && d != "/" by {
      assert '.' !in "/";
    }
    assert JoinPath(dir, name) == d + "/" + name;
    SplitInDirectory(d, name, stamp);
  }

  /** `DotInDirectoryName` for a directory already in printed form. */
  lemma SplitInDirectory(d: string, name: string, stamp: string)
    requires '.' in d && '.' !in name
    ensures var (base, rest) := RSplitDot(d).value;
            TimestampedPath(d + "/" + name, stamp) == Ok(base + "_" + stamp + "." + rest + "/" + name)
  {
    var (base, rest) := RSplitDot(d).value;
    var tail := rest + "/" + name;
    assert d + "/" + name == base + "." + tail;
    assert '.' !in tail by {
      assert forall c :: c in tail ==> c in rest || c == '/' || c in name;
    }
    SplitAfterAppend(base, tail);
    assert base + "_" + stamp + "." + tail == base + "_" + stamp + "." + rest + "/" + name;
  }
}
