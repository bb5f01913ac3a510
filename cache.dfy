/**
 * The dataset cache of Home.py: `rename_file_w_datetime` with its
 * filesystem effect, and `fetch_bod_dataset`, which reuses the file of the
 * current period when it exists and otherwise downloads the archive and
 * renames its first file to the timestamped name.
 *
 * The filesystem is an object holding a map from file path to content and
 * the set of existing directories, which the operations update in place;
 * the HTTP download and zip extraction are abstracted to "write these
 * entries", given as a parameter.
 */
module DatasetCache {
  import opened Wrappers
  import opened Paths

  type Bytes = seq<bv8>

  /** One archive member as the archive fetcher leaves it: its (already repaired) name and content. */
  datatype Entry = Entry(name: string, content: Bytes)

  /** Directory `fetch_bod_dataset` uses when the caller gives none. */
  const DefaultExtractTo: string := "./董監事資料集"

  /** Name of the monthly board-of-directors dataset inside the extraction directory. */
  const BodFileName: string := "董監事資料集.csv"

  /** The dataset's file name has a '.' and no '/'; the default directory has neither. */
  lemma FixedNames()
    ensures '.' in BodFileName && '/' !in BodFileName
    ensures '.' !in "董監事資料集" && '/' !in "董監事資料集"
  {
    assert BodFileName[6] == '.';
    var d := "董監事資料集";
    assert |d| == 6 && d[0] != '.' && d[1] != '.' && d[2] != '.' && d[3] != '.' && d[4] != '.' && d[5] != '.';
  }

  /** What a rename returns, with the file map it leaves behind. */
  datatype Step = Step(result: Result<string>, files: map<string, Bytes>)

  /** What `fetch_bod_dataset` returns, the files and directories it leaves, and whether it downloaded. */
  datatype FetchStep = FetchStep(result: Result<string>, files: map<string, Bytes>, dirs: set<string>,
                                 downloaded: bool)

  /** Whether directory `d` exists; "" (the current directory) and "/" always do. */
  predicate DirExists(dirs: set<string>, d: string)
  {
    d == "" || d == "/" || d in dirs
  }

  /** `Path(path).exists()`: a file or a directory stands at `path`. */
  predicate PathExists(files: map<string, Bytes>, dirs: set<string>, path: string)
  {
    path in files || DirExists(dirs, path)
  }

  /** `Path(src).replace(dst)` on an existing `src`: the content moves, `dst` is overwritten. */
  function Moved(files: map<string, Bytes>, src: string, dst: string): (r: map<string, Bytes>)
    requires src in files
    ensures dst in r && r[dst] == files[src]
    ensures src != dst ==> src !in r
    ensures forall p :: p != src && p != dst ==> (p in r <==> p in files)
    ensures forall p :: p != src && p != dst && p in files ==> r[p] == files[p]
  {
    (files - {src})[dst := files[src]]
  }

  /** The members of `archive` with their names joined onto `dir`: the writes extraction makes, in order. */
  function Placed(dir: string, archive: seq<Entry>): (r: seq<Entry>)
    ensures |r| == |archive|
    ensures forall i :: 0 <= i < |archive| ==> r[i] == Entry(JoinPath(dir, archive[i].name), archive[i].content)
  {
    seq(|archive|, i requires 0 <= i < |archive| => Entry(JoinPath(dir, archive[i].name), archive[i].content))
  }

  /** The files after performing `writes` in order, later writes to a path overwriting earlier ones. */
  function Written(files: map<string, Bytes>, writes: seq<Entry>): (r: map<string, Bytes>)
    ensures forall i :: 0 <= i < |writes| ==> writes[i].name in r
    ensures forall p :: p in files ==> p in r
  {
    if writes == [] then files
    else
      var last := writes[|writes| - 1];
      Written(files, writes[..|writes| - 1])[last.name := last.content]
  }

  /** Writing creates exactly the old paths and the written ones. */
  lemma {:induction false} WrittenDomain(files: map<string, Bytes>, writes: seq<Entry>)
    ensures var r := Written(files, writes);
            forall p :: p in r <==> p in files || exists i :: 0 <= i < |writes| && writes[i].name == p
    decreases |writes|
  {
    if writes != [] {
      var n := |writes| - 1;
      var front := writes[..n];
      WrittenDomain(files, front);
      var before := Written(files, front);
      var r := Written(files, writes);
      assert r == before[writes[n].name := writes[n].content];
      forall p ensures p in r <==> p in files || exists i :: 0 <= i < |writes| && writes[i].name == p {
        if p in before && p != writes[n].name && p !in files {
          var i :| 0 <= i < n && front[i].name == p;
          assert writes[i].name == p;
        }
        if p !in files && p != writes[n].name {
          if i :| 0 <= i < |writes| && writes[i].name == p {
            assert i < n && front[i].name == p;
          }
        }
      }
    }
  }

  /** A written path holds the content of the last write to it. */
  lemma {:induction false} WrittenLastWrite(files: map<string, Bytes>, writes: seq<Entry>, i: nat)
    requires i < |writes| && forall j :: i < j < |writes| ==> writes[j].name != writes[i].name
    ensures Written(files, writes)[writes[i].name] == writes[i].content
    decreases |writes|
  {
    var n := |writes| - 1;
    if i < n {
      var front := writes[..n];
      assert front[i] == writes[i];
      assert forall j :: i < j < n ==> front[j] == writes[j];
      WrittenLastWrite(files, front, i);
    }
  }

  /** A path no write touches keeps its content. */
  lemma {:induction false} WrittenFrame(files: map<string, Bytes>, writes: seq<Entry>, p: string)
    requires p in files && forall i :: 0 <= i < |writes| ==> writes[i].name != p
    ensures Written(files, writes)[p] == files[p]
    decreases |writes|
  {
    if writes != [] {
      var n := |writes| - 1;
      var front := writes[..n];
      assert forall i :: 0 <= i < n ==> front[i] == writes[i];
      WrittenFrame(files, front, p);
    }
  }

  /** The files after extracting `archive` into `dir`. */
  function Unpacked(files: map<string, Bytes>, dir: string, archive: seq<Entry>): map<string, Bytes>
  {
    Written(files, Placed(dir, archive))
  }

  /** After extraction a member's path holds its content, unless a later member has the same name. */
  lemma UnpackedLastMember(files: map<string, Bytes>, dir: string, archive: seq<Entry>, i: nat)
    requires i < |archive| && forall j :: i < j < |archive| ==> archive[j].name != archive[i].name
    ensures Unpacked(files, dir, archive)[JoinPath(dir, archive[i].name)] == archive[i].content
  {
    var placed := Placed(dir, archive);
    forall j | i < j < |placed| ensures placed[j].name != placed[i].name {
      if placed[j].name == placed[i].name {
        JoinInjective(dir, archive[j].name, archive[i].name);
      }
    }
    WrittenLastWrite(files, placed, i);
  }

  /** The directories that performing `writes` creates: each written path's directory and its parents. */
  function DirsOf(writes: seq<Entry>): (r: set<string>)
    ensures forall i :: 0 <= i < |writes| ==> Ancestors(Parent(writes[i].name)) <= r
  {
    if writes == [] then {}
    else
      var n := |writes| - 1;
      assert forall i :: 0 <= i < n ==> writes[..n][i] == writes[i];
      DirsOf(writes[..n]) + Ancestors(Parent(writes[n].name))
  }

  /** Writing creates no directory other than those of the written paths. */
  lemma {:induction false} DirsOfOnly(writes: seq<Entry>, q: string)
    requires q in DirsOf(writes)
    ensures exists i :: 0 <= i < |writes| && q in Ancestors(Parent(writes[i].name))
    decreases |writes|
  {
    var n := |writes| - 1;
    if q !in Ancestors(Parent(writes[n].name)) {
      DirsOfOnly(writes[..n], q);
      var i :| 0 <= i < n && q in Ancestors(Parent(writes[..n][i].name));
      assert writes[..n][i] == writes[i];
    }
  }

  /**
   * The directories after `download_and_unzip` into `dir`: the old ones,
   * `dir` with its parents (`mkdir(parents=True)`), and the directories
   * of the extracted members.
   */
  function UnpackedDirs(dirs: set<string>, dir: string, archive: seq<Entry>): set<string>
  {
    dirs + Ancestors(DirPrefix(dir)) + DirsOf(Placed(dir, archive))
  }

  /** The extracted file paths `download_and_unzip` returns, in archive order. */
  function ExtractedPaths(dir: string, archive: seq<Entry>): (r: seq<string>)
    ensures |r| == |archive|
    ensures forall i :: 0 <= i < |archive| ==> r[i] == Placed(dir, archive)[i].name
  {
    var placed := Placed(dir, archive);
    seq(|archive|, i requires 0 <= i < |archive| => placed[i].name)
  }

  /** A file stands at `d` or at one of the directories above it, so no path below `d` can be reached. */
  predicate FileOnPath(files: map<string, Bytes>, d: string)
  {
    exists q :: q in Ancestors(d) && q in files
  }

  /**
   * Why `os.replace(src, dst)` fails, if it does, in the order rename(2)
   * looks the paths up: the directory of `src`, then that of `dst`, then
   * `src` itself. A missing directory is NotADirectoryError when a file
   * stands on the way to it, FileNotFoundError otherwise.
   */
  function RenameFault(files: map<string, Bytes>, dirs: set<string>, src: string, dst: string): (r: Option<Fault>)
    ensures r.None? <==> src in files && DirExists(dirs, Parent(src)) && DirExists(dirs, Parent(dst))
    ensures r == Some(NotADirectory) <==>
              || (!DirExists(dirs, Parent(src)) && FileOnPath(files, Parent(src)))
              || (DirExists(dirs, Parent(src)) && !DirExists(dirs, Parent(dst)) && FileOnPath(files, Parent(dst)))
    ensures r.Some? ==> r.value == FileNotFound || r.value == NotADirectory
  {
    if !DirExists(dirs, Parent(src)) then
      Some(if FileOnPath(files, Parent(src)) then NotADirectory else FileNotFound)
    else if !DirExists(dirs, Parent(dst)) then
      Some(if FileOnPath(files, Parent(dst)) then NotADirectory else FileNotFound)
    else if src !in files then Some(FileNotFound)
    else None
  }

  /**
   * `rename_file_w_datetime` on a file map: the timestamped name, and the
   * map after the rename, which a dry run leaves untouched. A rename that
   * `os.replace` refuses changes nothing and reports its error.
   */
  function RenameSpec(files: map<string, Bytes>, dirs: set<string>, path: string, stamp: string,
                      dryRun: bool): (r: Step)
    ensures '.' !in path ==> r == Step(Err(IndexError), files)
    ensures dryRun ==> r == Step(TimestampedPath(path, stamp), files)
    ensures !dryRun && '.' in path && RenameFault(files, dirs, path, TimestampedPath(path, stamp).value).Some? ==>
              r == Step(Err(RenameFault(files, dirs, path, TimestampedPath(path, stamp).value).value), files)
    ensures !dryRun && '.' in path && RenameFault(files, dirs, path, TimestampedPath(path, stamp).value).None? ==>
              r.result == TimestampedPath(path, stamp) &&
              r.files == Moved(files, path, r.result.value) && path !in r.files
  {
    match TimestampedPath(path, stamp)
    case Err(f) => Step(Err(f), files)
    case Ok(newPath) =>
      if dryRun then Step(Ok(newPath), files)
      else match RenameFault(files, dirs, path, newPath)
        case Some(f) => Step(Err(f), files)
        case None =>
          TimestampedPathLength(path, stamp);
          Step(Ok(newPath), Moved(files, path, newPath))
  }

  /** A rename keeps every file other than the one it moves and the one it overwrites. */
  lemma RenameKeepsOthers(files: map<string, Bytes>, dirs: set<string>, path: string, stamp: string, p: string)
    requires p in files && p != path && TimestampedPath(path, stamp) != Ok(p)
    ensures p in RenameSpec(files, dirs, path, stamp, false).files
    ensures RenameSpec(files, dirs, path, stamp, false).files[p] == files[p]
  {
  }

  /** The extraction directory `fetch_bod_dataset` uses. */
  function ExtractDir(extractTo: Option<string>): (r: string)
    ensures extractTo.Some? ==> r == extractTo.value
    ensures extractTo.None? ==> DirPrefix(r) == "董監事資料集"
  {
    DirPrefixDropsDotSlash();
    if extractTo.None? then DefaultExtractTo else extractTo.value
  }

  /**
   * Where the dataset of the period `stamp` is expected:
   * `<dir>/董監事資料集_<stamp>.csv`.
   */
  function ExpectedPath(extractTo: Option<string>, stamp: string): (r: string)
    ensures TimestampedPath(JoinPath(ExtractDir(extractTo), BodFileName), stamp) == Ok(r)
    ensures r == JoinPath(ExtractDir(extractTo), "董監事資料集_" + stamp + ".csv")
  {
    var dir := ExtractDir(extractTo);
    DatasetNameStamped(dir, stamp);
    JoinPath(dir, "董監事資料集_" + stamp + ".csv")
  }

  /** The dataset file in `dir` is stamped in its name, before the ".csv". */
  lemma DatasetNameStamped(dir: string, stamp: string)
    ensures TimestampedPath(JoinPath(dir, BodFileName), stamp) == Ok(JoinPath(dir, "董監事資料集_" + stamp + ".csv"))
  {
    assert BodFileName == "董監事資料集" + "." + "csv";
    assert forall k :: 0 <= k < |"csv"| ==> "csv"[k] != '.';
    StampAfterAppend("董監事資料集", "csv", stamp);
    assert "董監事資料集" + ("_" + stamp + "." + "csv") == "董監事資料集_" + stamp + ".csv";
    DotInName(dir, BodFileName, stamp);
  }

  /** Different periods have different expected paths. */
  lemma ExpectedPathInjective(extractTo: Option<string>, s1: string, s2: string)
    requires ExpectedPath(extractTo, s1) == ExpectedPath(extractTo, s2)
    ensures s1 == s2
  {
    var dir := ExtractDir(extractTo);
    var n1 := "董監事資料集_" + s1 + ".csv";
    var n2 := "董監事資料集_" + s2 + ".csv";
    JoinInjective(dir, n1, n2);
    assert |s1| == |s2|;
    assert s1 == n1[7..7 + |s1|] == n2[7..7 + |s2|] == s2;
  }

  /**
   * Why `Path(dir).mkdir(parents=True, exist_ok=True)` fails, if it does:
   * FileExistsError when a file stands at the directory itself,
   * NotADirectoryError when one stands at a directory above it. It then
   * creates nothing.
   */
  function MakeDirsFault(files: map<string, Bytes>, dir: string): (r: Option<Fault>)
    ensures r.None? <==> forall q :: q in Ancestors(DirPrefix(dir)) ==> q !in files
    ensures r == Some(FileExists) <==> DirPrefix(dir) != "" && DirPrefix(dir) in files
    ensures r.Some? ==> r.value == FileExists || r.value == NotADirectory
  {
    var d := DirPrefix(dir);
    if d != "" && d in files then Some(FileExists)
    else if FileOnPath(files, d) then Some(NotADirectory)
    else None
  }

  /**
   * `fetch_bod_dataset` on a file map and directory set. The clock is read
   * twice: `checkStamp` names the period whose file is looked for,
   * `renameStamp` the period the downloaded file is named after. A hit on
   * the expected path returns it without a download; a miss creates the
   * extraction directory, extracts the archive and renames the first
   * extracted file to its timestamped name.
   */
  function FetchSpec(files: map<string, Bytes>, dirs: set<string>, extractTo: Option<string>,
                     checkStamp: string, renameStamp: string, archive: seq<Entry>): (r: FetchStep)
    ensures r.downloaded <==>
              !PathExists(files, dirs, ExpectedPath(extractTo, checkStamp)) &&
              MakeDirsFault(files, ExtractDir(extractTo)).None?
    ensures !PathExists(files, dirs, ExpectedPath(extractTo, checkStamp)) &&
            MakeDirsFault(files, ExtractDir(extractTo)).Some? ==>
              r.result == Err(MakeDirsFault(files, ExtractDir(extractTo)).value)
    ensures !r.downloaded ==> r.files == files && r.dirs == dirs
    ensures dirs <= r.dirs
    ensures r.result.Ok? ==> PathExists(r.files, r.dirs, r.result.value)
    ensures r.result.Err? ==>
              r.result.fault in {IndexError, FileNotFound, FileExists, NotADirectory}
  {
    var expected := ExpectedPath(extractTo, checkStamp);
    var dir := ExtractDir(extractTo);
    if PathExists(files, dirs, expected) then FetchStep(Ok(expected), files, dirs, false)
    else if MakeDirsFault(files, dir).Some? then FetchStep(Err(MakeDirsFault(files, dir).value), files, dirs, false)
    else
      var unpacked := Unpacked(files, dir, archive);
      var made := UnpackedDirs(dirs, dir, archive);
      if |archive| == 0 then FetchStep(Err(IndexError), unpacked, made, true)
      else
        var s := RenameSpec(unpacked, made, ExtractedPaths(dir, archive)[0], renameStamp, false);
        FetchStep(s.result, s.files, made, true)
  }

  /** A hit returns the expected path, downloads nothing and changes no file or directory. */
  lemma CacheHit(files: map<string, Bytes>, dirs: set<string>, extractTo: Option<string>,
                 checkStamp: string, renameStamp: string, archive: seq<Entry>)
    requires PathExists(files, dirs, ExpectedPath(extractTo, checkStamp))
    ensures FetchSpec(files, dirs, extractTo, checkStamp, renameStamp, archive) ==
            FetchStep(Ok(ExpectedPath(extractTo, checkStamp)), files, dirs, false)
  {
  }

  /**
   * A miss downloads. When the first member's name has a '.' and neither
   * it nor the stamp has a '/', the result is the first member's
   * timestamped name in the extraction directory, which now holds that
   * file's content while the old name is gone.
   */
  lemma {:induction false} CacheMiss(files: map<string, Bytes>, dirs: set<string>, extractTo: Option<string>,
                                     checkStamp: string, renameStamp: string, archive: seq<Entry>)
    requires !PathExists(files, dirs, ExpectedPath(extractTo, checkStamp))
    requires MakeDirsFault(files, ExtractDir(extractTo)).None?
    requires |archive| > 0 && '.' in archive[0].name && '/' !in archive[0].name && '/' !in renameStamp
    ensures var r := FetchSpec(files, dirs, extractTo, checkStamp, renameStamp, archive);
            var dir := ExtractDir(extractTo);
            var first := JoinPath(dir, archive[0].name);
            && r.downloaded
            && r.result == Ok(JoinPath(dir, TimestampedPath(archive[0].name, renameStamp).value))
            && r.result.value in r.files
            && r.files[r.result.value] == Unpacked(files, dir, archive)[first]
            && first !in r.files
  {
    var dir := ExtractDir(extractTo);
    var name := archive[0].name;
    var first := JoinPath(dir, name);
    var unpacked := Unpacked(files, dir, archive);
    var made := UnpackedDirs(dirs, dir, archive);
    assert ExtractedPaths(dir, archive)[0] == first;
    assert first in unpacked;
    DotInName(dir, name, renameStamp);
    var stamped := TimestampedPath(name, renameStamp).value;
    StampedNameNoSlash(name, renameStamp);
    ParentOfJoin(dir, stamped);
    assert DirExists(made, DirPrefix(dir));
  }

  /** A miss over an empty archive fails as `[0]` on an empty list does, after downloading. */
  lemma EmptyArchive(files: map<string, Bytes>, dirs: set<string>, extractTo: Option<string>,
                     checkStamp: string, renameStamp: string)
    requires !PathExists(files, dirs, ExpectedPath(extractTo, checkStamp))
    requires MakeDirsFault(files, ExtractDir(extractTo)).None?
    ensures FetchSpec(files, dirs, extractTo, checkStamp, renameStamp, []).result == Err(IndexError)
    ensures FetchSpec(files, dirs, extractTo, checkStamp, renameStamp, []).downloaded
  {
  }

  /**
   * In the default directory `./董監事資料集`, which prints without a '.',
   * a first member without a '.' makes the rename fail with IndexError
   * after the download.
   */
  lemma DefaultDirDotFreeMember(files: map<string, Bytes>, dirs: set<string>, checkStamp: string,
                                renameStamp: string, archive: seq<Entry>)
    requires !PathExists(files, dirs, ExpectedPath(None, checkStamp))
    requires MakeDirsFault(files, ExtractDir(None)).None?
    requires |archive| > 0 && '.' !in archive[0].name
    ensures FetchSpec(files, dirs, None, checkStamp, renameStamp, archive).result == Err(IndexError)
    ensures FetchSpec(files, dirs, None, checkStamp, renameStamp, archive).downloaded
  {
    var dir := ExtractDir(None);
    var name := archive[0].name;
    var d := "董監事資料集";
    FixedNames();
    assert JoinPath(dir, name) == d + "/" + name;
    assert '.' !in d + "/" + name by {
      assert forall c :: c in d + "/" + name ==> c in d || c == '/' || c in name;
    }
    assert ExtractedPaths(dir, archive)[0] == JoinPath(dir, name);
  }

  /** A miss that can create its directory renames the first extracted file among the extracted files. */
  lemma MissRenamesFirst(files: map<string, Bytes>, dirs: set<string>, extractTo: Option<string>,
                         checkStamp: string, renameStamp: string, archive: seq<Entry>)
    requires !PathExists(files, dirs, ExpectedPath(extractTo, checkStamp))
    requires MakeDirsFault(files, ExtractDir(extractTo)).None?
    requires |archive| > 0
    ensures var dir := ExtractDir(extractTo);
            var made := UnpackedDirs(dirs, dir, archive);
            var s := RenameSpec(Unpacked(files, dir, archive), made, JoinPath(dir, archive[0].name), renameStamp, false);
            FetchSpec(files, dirs, extractTo, checkStamp, renameStamp, archive) == FetchStep(s.result, s.files, made, true)
  {
    assert ExtractedPaths(ExtractDir(extractTo), archive)[0] == JoinPath(ExtractDir(extractTo), archive[0].name);
  }

  /**
   * When only the extraction directory has a '.', the timestamp lands in
   * the directory part. Unless a directory of that stamped name already
   * exists, or a file stands on the way to it, the rename fails with
   * FileNotFound, after downloading, with every extracted file left under
   * its own name.
   */
  lemma DotOnlyInDirectory(files: map<string, Bytes>, dirs: set<string>, extractTo: Option<string>,
                           checkStamp: string, renameStamp: string, archive: seq<Entry>)
    requires !PathExists(files, dirs, ExpectedPath(extractTo, checkStamp))
    requires MakeDirsFault(files, ExtractDir(extractTo)).None?
    requires |archive| > 0 && '.' !in archive[0].name && '/' !in archive[0].name
    requires '.' in DirPrefix(ExtractDir(extractTo))
    requires var (base, rest) := RSplitDot(DirPrefix(ExtractDir(extractTo))).value;
             && base + "_" + renameStamp + "." + rest !in dirs
             && !FileOnPath(files, base + "_" + renameStamp + "." + rest)
    ensures var r := FetchSpec(files, dirs, extractTo, checkStamp, renameStamp, archive);
            && r.result == Err(FileNotFound)
            && r.downloaded
            && r.files == Unpacked(files, ExtractDir(extractTo), archive)
  {
    var dir := ExtractDir(extractTo);
    var d := DirPrefix(dir);
    var name := archive[0].name;
    var (base, rest) := RSplitDot(d).value;
    var stampedDir := base + "_" + renameStamp + "." + rest;
    DotInDirectoryName(dir, name, renameStamp);
    assert stampedDir != "";
    ParentOfAppend(stampedDir, name);
    ParentOfJoin(dir, name);
    assert ExtractedPaths(dir, archive)[0] == JoinPath(dir, name);
    assert d != "" && d != "/" by {
      assert '.' !in "/";
    }
    StampedDirNotMade(dirs, dir, archive, base, rest, renameStamp);
    StampedDirNotWritten(files, dir, archive, base, rest, renameStamp);
  }

  /**
   * The same rename fails with NotADirectory instead when a file stands
   * at the stamped directory name.
   */
  lemma DotOnlyInDirectoryFileInTheWay(files: map<string, Bytes>, dirs: set<string>, extractTo: Option<string>,
                                       checkStamp: string, renameStamp: string, archive: seq<Entry>)
    requires !PathExists(files, dirs, ExpectedPath(extractTo, checkStamp))
    requires MakeDirsFault(files, ExtractDir(extractTo)).None?
    requires |archive| > 0 && '.' !in archive[0].name && '/' !in archive[0].name
    requires '.' in DirPrefix(ExtractDir(extractTo))
    requires var (base, rest) := RSplitDot(DirPrefix(ExtractDir(extractTo))).value;
             && base + "_" + renameStamp + "." + rest !in dirs
             && base + "_" + renameStamp + "." + rest in files
    ensures var r := FetchSpec(files, dirs, extractTo, checkStamp, renameStamp, archive);
            && r.result == Err(NotADirectory)
            && r.downloaded
            && r.files == Unpacked(files, ExtractDir(extractTo), archive)
  {
    var dir := ExtractDir(extractTo);
    var d := DirPrefix(dir);
    var name := archive[0].name;
    var (base, rest) := RSplitDot(d).value;
    var stampedDir := base + "_" + renameStamp + "." + rest;
    var unpacked := Unpacked(files, dir, archive);
    var made := UnpackedDirs(dirs, dir, archive);
    var first := JoinPath(dir, name);
    MissRenamesFirst(files, dirs, extractTo, checkStamp, renameStamp, archive);
    DotInDirectoryName(dir, name, renameStamp);
    assert stampedDir != "";
    ParentOfAppend(stampedDir, name);
    ParentOfJoin(dir, name);
    assert d != "" && d != "/" by {
      assert '.' !in "/";
    }
    assert DirExists(made, d);
    StampedDirNotMade(dirs, dir, archive, base, rest, renameStamp);
    assert stampedDir in Ancestors(stampedDir) && stampedDir in unpacked;
    assert RenameFault(unpacked, made, first, stampedDir + "/" + name) == Some(NotADirectory);
  }


  /**
   * Extracting into a printed directory `<base>.<rest>` writes no file at
   * `<base>_<stamp>.<rest>` or at a directory above it: every written path
   * starts with `<base>.`.
   */
  lemma StampedDirNotWritten(files: map<string, Bytes>, dir: string, archive: seq<Entry>, base: string,
                             rest: string, stamp: string)
    requires DirPrefix(dir) == base + "." + rest
    requires !FileOnPath(files, base + "_" + stamp + "." + rest)
    ensures !FileOnPath(Unpacked(files, dir, archive), base + "_" + stamp + "." + rest)
  {
    var d := DirPrefix(dir);
    var stampedDir := base + "_" + stamp + "." + rest;
    var placed := Placed(dir, archive);
    var unpacked := Unpacked(files, dir, archive);
    assert d != "" && d != "/" by {
      assert d[|base|] == '.' && |d| > |base|;
    }
    WrittenDomain(files, placed);
    forall q | q in Ancestors(stampedDir) ensures q !in unpacked {
      AncestorsArePrefixes(stampedDir, q);
      forall i | 0 <= i < |placed| ensures placed[i].name != q {
        var written := d + "/" + archive[i].name;
        assert placed[i].name == written;
        assert |written| > |base| && written[|base|] == '.';
        if |q| > |base| {
          assert q[|base|] == stampedDir[|base|] == '_';
        }
      }
    }
  }

  /**
   * Extracting into a printed directory `<base>.<rest>` creates no directory
   * named `<base>_<stamp>.<rest>`: every directory it creates is a prefix
   * of a path that starts with `<base>.`.
   */
  lemma StampedDirNotMade(dirs: set<string>, dir: string, archive: seq<Entry>, base: string, rest: string,
                          stamp: string)
    requires DirPrefix(dir) == base + "." + rest
    requires base + "_" + stamp + "." + rest !in dirs
    ensures !DirExists(UnpackedDirs(dirs, dir, archive), base + "_" + stamp + "." + rest)
  {
    var d := DirPrefix(dir);
    var stampedDir := base + "_" + stamp + "." + rest;
    assert stampedDir[|base|] == '_' && d[|base|] == '.';
    assert stampedDir != "" && stampedDir != "/" by {
      assert |stampedDir| >= 2;
    }
    AncestorsArePrefixes(d, stampedDir);
    var placed := Placed(dir, archive);
    if stampedDir in DirsOf(placed) {
      DirsOfOnly(placed, stampedDir);
    }
  }

  /**
   * The cache works as intended when the archive's first file is the
   * dataset: after a miss, a second fetch that looks for the period the
   * first one named its file after is a hit that returns the same path and
   * downloads nothing.
   */
  lemma {:induction false} SecondFetchHits(files: map<string, Bytes>, dirs: set<string>, extractTo: Option<string>,
                                           checkStamp: string, renameStamp: string, archive: seq<Entry>,
                                           laterStamp: string, again: seq<Entry>)
    requires !PathExists(files, dirs, ExpectedPath(extractTo, checkStamp))
    requires MakeDirsFault(files, ExtractDir(extractTo)).None?
    requires |archive| > 0 && archive[0].name == BodFileName && '/' !in renameStamp
    ensures var first := FetchSpec(files, dirs, extractTo, checkStamp, renameStamp, archive);
            var second := FetchSpec(first.files, first.dirs, extractTo, renameStamp, laterStamp, again);
            && first.result == Ok(ExpectedPath(extractTo, renameStamp))
            && second == FetchStep(first.result, first.files, first.dirs, false)
  {
    var dir := ExtractDir(extractTo);
    FixedNames();
    CacheMiss(files, dirs, extractTo, checkStamp, renameStamp, archive);
    DotInName(dir, BodFileName, renameStamp);
  }

  /**
   * When the period changes between the two clock reads, the file a miss
   * writes is not the one it looked for: the result differs from the
   * expected path of the checked period.
   */
  lemma PeriodChangeDuringDownload(files: map<string, Bytes>, dirs: set<string>, extractTo: Option<string>,
                                   checkStamp: string, renameStamp: string, archive: seq<Entry>)
    requires !PathExists(files, dirs, ExpectedPath(extractTo, checkStamp))
    requires MakeDirsFault(files, ExtractDir(extractTo)).None?
    requires |archive| > 0 && archive[0].name == BodFileName && '/' !in renameStamp
    requires checkStamp != renameStamp
    ensures FetchSpec(files, dirs, extractTo, checkStamp, renameStamp, archive).result ==
            Ok(ExpectedPath(extractTo, renameStamp))
    ensures ExpectedPath(extractTo, renameStamp) != ExpectedPath(extractTo, checkStamp)
  {
    SecondFetchHits(files, dirs, extractTo, checkStamp, renameStamp, archive, renameStamp, []);
    if ExpectedPath(extractTo, renameStamp) == ExpectedPath(extractTo, checkStamp) {
      ExpectedPathInjective(extractTo, renameStamp, checkStamp);
    }
  }

  /**
   * When a file stands where the default extraction directory
   * `./董監事資料集` would be, a miss fails with FileExistsError before
   * downloading and changes nothing.
   */
  lemma DefaultDirIsAFile(files: map<string, Bytes>, dirs: set<string>, checkStamp: string,
                          renameStamp: string, archive: seq<Entry>)
    requires !PathExists(files, dirs, ExpectedPath(None, checkStamp))
    requires "董監事資料集" in files
    ensures FetchSpec(files, dirs, None, checkStamp, renameStamp, archive) ==
            FetchStep(Err(FileExists), files, dirs, false)
  {
    DirPrefixDropsDotSlash();
  }

  /**
   * A fetch removes no file but the one it renames: a file at a path that
   * no archive member is extracted to, and that is not the new name of
   * the first extracted file, keeps its content.
   */
  lemma FetchKeepsOtherFiles(files: map<string, Bytes>, dirs: set<string>, extractTo: Option<string>,
                             checkStamp: string, renameStamp: string, archive: seq<Entry>, p: string)
    requires p in files
    requires forall i :: 0 <= i < |archive| ==> JoinPath(ExtractDir(extractTo), archive[i].name) != p
    requires |archive| > 0 ==>
               TimestampedPath(JoinPath(ExtractDir(extractTo), archive[0].name), renameStamp) != Ok(p)
    ensures var r := FetchSpec(files, dirs, extractTo, checkStamp, renameStamp, archive);
            p in r.files && r.files[p] == files[p]
  {
    var dir := ExtractDir(extractTo);
    if !PathExists(files, dirs, ExpectedPath(extractTo, checkStamp)) && MakeDirsFault(files, dir).None? {
      var placed := Placed(dir, archive);
      var unpacked := Unpacked(files, dir, archive);
      assert forall i :: 0 <= i < |placed| ==> placed[i].name != p;
      WrittenFrame(files, placed, p);
      assert p in unpacked && unpacked[p] == files[p];
      if |archive| > 0 {
        MissRenamesFirst(files, dirs, extractTo, checkStamp, renameStamp, archive);
        RenameKeepsOthers(unpacked, UnpackedDirs(dirs, dir, archive), JoinPath(dir, archive[0].name), renameStamp, p);
      }
    }
  }

  /**
   * A new period's file supersedes the old one without deleting it: when
   * the archive's first file is the dataset and no member is extracted
   * over the file of an earlier period, that file is still there with its
   * content after a fetch for another period.
   */
  lemma StaleDatasetKept(files: map<string, Bytes>, dirs: set<string>, extractTo: Option<string>,
                         checkStamp: string, renameStamp: string, archive: seq<Entry>, earlier: string)
    requires ExpectedPath(extractTo, earlier) in files && earlier != renameStamp
    requires |archive| > 0 && archive[0].name == BodFileName
    requires forall i :: 0 <= i < |archive| ==>
               JoinPath(ExtractDir(extractTo), archive[i].name) != ExpectedPath(extractTo, earlier)
    ensures var r := FetchSpec(files, dirs, extractTo, checkStamp, renameStamp, archive);
            && ExpectedPath(extractTo, earlier) in r.files
            && r.files[ExpectedPath(extractTo, earlier)] == files[ExpectedPath(extractTo, earlier)]
  {
    var stale := ExpectedPath(extractTo, earlier);
    if TimestampedPath(JoinPath(ExtractDir(extractTo), BodFileName), renameStamp) == Ok(stale) {
      ExpectedPathInjective(extractTo, renameStamp, earlier);
    }
    FetchKeepsOtherFiles(files, dirs, extractTo, checkStamp, renameStamp, archive, stale);
  }

  /** Extracting member `i` adds its path, its content and its directories to those of the members before it. */
  lemma ExtractStep(files: map<string, Bytes>, dir: string, archive: seq<Entry>, i: nat)
    requires i < |archive|
    ensures var placed := Placed(dir, archive);
            var path := JoinPath(dir, archive[i].name);
            && ExtractedPaths(dir, archive)[..i + 1] == ExtractedPaths(dir, archive)[..i] + [path]
            && Written(files, placed[..i + 1]) == Written(files, placed[..i])[path := archive[i].content]
            && DirsOf(placed[..i + 1]) == DirsOf(placed[..i]) + Ancestors(Parent(path))
  {
    var placed := Placed(dir, archive);
    assert placed[..i + 1][..i] == placed[..i];
  }

  /** The filesystem the cache works on: files and their contents, directories, and a count of downloads. */
  class FileSystem {
    var files: map<string, Bytes>
    var dirs: set<string>
    var downloads: nat

    constructor (initialFiles: map<string, Bytes>, initialDirs: set<string>)
      ensures files == initialFiles && dirs == initialDirs && downloads == 0
    {
      files := initialFiles;
      dirs := initialDirs;
      downloads := 0;
    }

    /** `Path(path).exists()`. */
    predicate Exists(path: string)
      reads this
    {
      PathExists(files, dirs, path)
    }

    /**
     * `download_and_unzip(url, extract_to=dir)`, with the download and the
     * filename repair abstracted into `archive`: creates `dir` or fails
     * before downloading, then writes each member under it in archive
     * order, creating the member's directory, and returns the written paths.
     */
    method DownloadAndUnzip(dir: string, archive: seq<Entry>) returns (r: Result<seq<string>>)
      modifies this
      ensures MakeDirsFault(old(files), dir).Some? ==>
                && r == Err(MakeDirsFault(old(files), dir).value)
                && files == old(files) && dirs == old(dirs) && downloads == old(downloads)
      ensures MakeDirsFault(old(files), dir).None? ==>
                && r == Ok(ExtractedPaths(dir, archive))
                && files == Unpacked(old(files), dir, archive)
                && dirs == UnpackedDirs(old(dirs), dir, archive)
                && downloads == old(downloads) + 1
    {
      var fault := MakeDirsFault(files, dir);
      if fault.Some? {
        return Err(fault.value);
      }
      dirs := dirs + Ancestors(DirPrefix(dir));
      downloads := downloads + 1;
      ghost var placed := Placed(dir, archive);
      ghost var all := ExtractedPaths(dir, archive);
      var paths := [];
      var i := 0;
      while i < |archive|
        invariant 0 <= i <= |archive|
        invariant files == Written(old(files), placed[..i])
        invariant dirs == old(dirs) + Ancestors(DirPrefix(dir)) + DirsOf(placed[..i])
        invariant paths == all[..i]
        invariant downloads == old(downloads) + 1
      {
        var path := JoinPath(dir, archive[i].name);
        ExtractStep(old(files), dir, archive, i);
        dirs := dirs + Ancestors(Parent(path));
        files := files[path := archive[i].content];
        paths := paths + [path];
        i := i + 1;
      }
      assert placed[..i] == placed;
      assert all[..i] == all;
      r := Ok(paths);
    }
  }

  /** `rename_file_w_datetime(path, dry_run=dryRun)` with the formatted time `stamp`. */
  method RenameFileWithDatetime(fs: FileSystem, path: string, stamp: string, dryRun: bool)
    returns (r: Result<string>)
    modifies fs`files
    ensures r == RenameSpec(old(fs.files), fs.dirs, path, stamp, dryRun).result
    ensures fs.files == RenameSpec(old(fs.files), fs.dirs, path, stamp, dryRun).files
  {
    r := TimestampedPath(path, stamp);
    if r.Ok? && !dryRun {
      var fault := RenameFault(fs.files, fs.dirs, path, r.value);
      if fault.None? {
        TimestampedPathLength(path, stamp);
        fs.files := Moved(fs.files, path, r.value);
      } else {
        r := Err(fault.value);
      }
    }
  }

  /**
   * `fetch_bod_dataset(extract_to)`, with the two formatted clock reads
   * `checkStamp` and `renameStamp` and the archive a download would yield.
   */
  method FetchBodDataset(fs: FileSystem, extractTo: Option<string>, checkStamp: string, renameStamp: string,
                         archive: seq<Entry>)
    returns (r: Result<string>)
    modifies fs
    ensures var f := FetchSpec(old(fs.files), old(fs.dirs), extractTo, checkStamp, renameStamp, archive);
            && r == f.result
            && fs.files == f.files
            && fs.dirs == f.dirs
            && fs.downloads == old(fs.downloads) + if f.downloaded then 1 else 0
  {
    var dir := ExtractDir(extractTo);
    var expected := RenameFileWithDatetime(fs, JoinPath(dir, BodFileName), checkStamp, true);
    assert expected == Ok(ExpectedPath(extractTo, checkStamp));
    if fs.Exists(expected.value) {
      r := expected;
    } else {
      var paths := fs.DownloadAndUnzip(dir, archive);
      if paths.Err? {
        r := Err(paths.fault);
      } else if |paths.value| == 0 {
        r := Err(IndexError);
      } else {
        r := RenameFileWithDatetime(fs, paths.value[0], renameStamp, false);
      }
    }
  }
}
