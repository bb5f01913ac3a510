# TW_GCIS_Query data-access core, in Dafny

This project models the data-access core of `Home.py` of TW_GCIS_Query, a
search front end for Taiwanese company-registration open data, and proves
properties of that model. The core has four parts:

- **Remote paginated query engine** (`search_gcis_dataset`), module `RemoteQuery` in `pagination.dfy`.
  It clamps the `skip`/`top` cursor into the caller's query record. It then requests pages
  and appends each one to a list, while the last page held exactly 1000 rows, moving `skip`
  on by 1000 each time. It returns all pages concatenated, or `None` if any request fails.
  The remote API is a finite result table (`Remote`) with a set of offsets at which a
  request fails. A page is the next `top` rows of that table from the cursor.
- **Paths and the timestamped file name** (the string part of `rename_file_w_datetime`, and
  `Path(d).joinpath(n)`), module `Paths` in `paths.dfy`. It splits the path at its last `.` as
  `str.rsplit(".", 1)` does and builds `<base>_<stamp>.<ext>`. It prints a directory as
  `pathlib` does for the forms used here (a leading `./` and a trailing `/` dropped) and
  joins a member name onto it.
- **Dataset cache** (`download_and_unzip`'s effect on disk, `rename_file_w_datetime` with its
  rename, and `fetch_bod_dataset`), module `DatasetCache` in `cache.dfy`. The filesystem is a
  `FileSystem` object whose path-to-content map and set of directories the operations update
  in place. It also counts downloads. The clock is read twice by `fetch_bod_dataset`: once
  to name the period whose file is looked for (`checkStamp`), once to name the downloaded
  file (`renameStamp`). On a hit, the monthly board-of-directors dataset is reused. On a miss,
  the archive is extracted and its first file is renamed to the timestamped name, which
  fails when the directory of the new name does not exist.
- **Local filter engine** (the filtering in `search_bod_dataset`), module `LocalFilter` in `filter.dfy`.
  It drops rows without a business number (`統一編號`) and builds the column-to-accepted-values
  map from the arguments that are given. It keeps the rows that match any requested column
  (union, the default) or all of them (intersection), in their original order.

`wrappers.dfy` holds `Option`, `Result` and `Fault`. `Fault` covers the Python exceptions
that the model represents: `IndexError`, `FileNotFoundError`, `IsADirectoryError` (reading a
directory as the dataset), `FileExistsError` and `NotADirectoryError` (creating the extraction
directory where a file stands, or renaming from or into a directory below a file), `KeyError`, and an unreadable CSV. The download, unzip and
file-name repair failures of `download_and_unzip` are not represented (see "## Left out").

## Model

| member | source | states |
|---|---|---|
| `RemoteQuery.ClampSkip` | Home.py:166-172 | the cursor's `skip` is in [0, 500000]: `None` or negative gives 0, above 500000 gives 500000, anything else is kept |
| `RemoteQuery.ClampTop` | Home.py:174-180 | the page size `top` is in [1, 1000]: `None` or above 1000 gives 1000, 0 or less gives 1, anything else is kept |
| `RemoteQuery.ClampIdempotent` | Home.py:166-180 | clamping an already clamped cursor changes nothing |
| `RemoteQuery.ClampExamples` | Home.py:166-180 | skip -5, 600000 and None give 0, 500000 and 0; top 0, 5000 and None give 1, 1000 and 1000 |
| `RemoteQuery.Page` | Home.py:186-188 | one request fails exactly at a failing offset; otherwise it returns at most `top` rows, all inside the result set |
| `RemoteQuery.Run` | Home.py:182-197 | a run issues at least one request, starting at the clamped cursor; one request more than pages when it failed, as many as pages otherwise |
| `RemoteQuery.Outcome` | Home.py:194-200 | the search returns `None` exactly when some request of the run failed, discarding pages that arrived; what a success returns is stated by `SuccessIsContiguous` |
| `RemoteQuery.Concat` | Home.py:195 | `pd.concat(df_list, ignore_index=True)`: the pages' rows one after another; membership is stated by `ConcatHoldsPages`, order by `SuccessIsContiguous` |
| `RemoteQuery.ConcatHoldsPages` | Home.py:195 | `pd.concat` of the page list: every row of every page is in the result, and every row of the result comes from some page |
| `RemoteQuery.RunShape` | Home.py:185-194 | request i starts 1000·i rows after the first; every request but the last got exactly 1000 rows; a last page that arrived does not hold 1000 rows |
| `RemoteQuery.ContinuesIffFullPage` | Home.py:191-194 | another request follows a page if and only if that page held exactly 1000 rows, and it starts 1000 rows further on |
| `RemoteQuery.ShortTopSingleRequest` | Home.py:191-194 | with `top` below 1000 exactly one request is made |
| `RemoteQuery.ShortTopReturnsOnePage` | Home.py:174-197 | with `top` below 1000 and no failure the result is only the first `top` rows from the cursor, however many rows exist |
| `RemoteQuery.OnlyLastMayFail` | Home.py:182-200 | every request but the last succeeded, and the run failed exactly when its last request did |
| `RemoteQuery.FailureGivesNone` | Home.py:182-200 | the result is `None` if and only if some issued request failed, even when earlier pages arrived |
| `RemoteQuery.SuccessIsContiguous` | Home.py:183-195 | a successful result is the pages concatenated in fetch order, and equals one contiguous slice of the result set from the cursor to the end of the last page |
| `RemoteQuery.DefaultTopRetrievesAll` | Home.py:174-197 | with the default `top` of 1000 and no failure, the result is every row from the cursor to the end of the result set |
| `RemoteQuery.RequestCount` | Home.py:185-194 | with `top` 1000, no failure, R rows and a cursor 0 ≤ skip ≤ R, (R − skip) / 1000 + 1 requests are made; the last page is empty exactly when R − skip is a multiple of 1000 |
| `RemoteQuery.ThreePagesSecondFails` | Home.py:182-200 | 2500 rows with the second request failing: the first page arrived, two requests were made, and the result is `None` |
| `RemoteQuery.GcisQuery.constructor` | Home.py:151-156 | a query record starts with its filter values and no cursor |
| `RemoteQuery.SearchGcisDataset` | Home.py:159-200 | the loop returns what the run from the clamped cursor yields, leaves the record's `skip` at the last request's offset and its `top` at the clamped size |
| `Paths.LastIndexOf` | Home.py:65 | the position found holds the character and none follows it; there is none exactly when the string lacks the character |
| `Paths.LastIndexAfterAppend` | Home.py:65 | in prefix + c + suffix with no c in suffix, the last c is the appended one |
| `Paths.RSplitDot` | Home.py:65 | `rsplit(".", 1)` gives two parts exactly when the path has a `.`; the path is base + "." + ext, and ext has no `.` |
| `Paths.TimestampedPath` | Home.py:65-66 | a path without `.` raises IndexError; otherwise the new name is base + "_" + stamp + "." + ext for the split at the last `.` |
| `Paths.SplitAfterAppend` | Home.py:65 | appending "." and a suffix without `.` makes that "." the last one |
| `Paths.TimestampKeepsExtension` | Home.py:65-66 | the new name keeps the extension: splitting it again gives base + "_" + stamp and the same extension |
| `Paths.TimestampedPathLength` | Home.py:65-66 | the new name is longer than the old one by the stamp plus one, so it never equals it |
| `Paths.StampedNameNoSlash` | Home.py:65-66 | stamping a file name that has a `.` and no `/` with a stamp without `/` gives a name without `/`, so the renamed file stays in the same directory |
| `Paths.DirPrefix` | Home.py:40 | the directory as it stands in front of a joined name, for the forms handled (the current directory is the empty prefix, where `pathlib` prints `.`): never longer than the argument, never `.`, without a leading `./` or a trailing `/` |
| `Paths.DirPrefixIdempotent` | Home.py:40 | printing an already printed directory changes nothing |
| `Paths.DirPrefixDropsDotSlash` | Home.py:84-87 | the default directory `./董監事資料集` prints as `董監事資料集` |
| `Paths.JoinPath` | Home.py:40 | `str(Path(dir).joinpath(name))`: the printed directory, a `/` unless it is the current directory or the root, then the name; its properties are the next three rows |
| `Paths.ParentOfJoin` | Home.py:40 | the directory of a joined member name without `/` is the printed directory |
| `Paths.JoinAppend` | Home.py:40 | joining a longer name extends the joined path by the same suffix |
| `Paths.JoinInjective` | Home.py:40 | two names joined onto the same directory give the same path only if the names are equal |
| `Paths.Parent` | Home.py:69 | the directory part of a path is no longer than the path, and is empty exactly when the path has no `/` |
| `Paths.ParentIsPrefix` | Home.py:69 | the directory part of a path is a prefix of it |
| `Paths.ParentOfAppend` | Home.py:69 | the directory part of dir + "/" + name, for a name without `/`, is dir |
| `Paths.Ancestors` | Home.py:25 | `mkdir(parents=True)` creates the path itself whenever it is not empty |
| `Paths.AncestorsArePrefixes` | Home.py:25 | the directories `mkdir(parents=True)` creates are exactly the non-empty prefixes of the path that end at its end or just before a `/` |
| `Paths.DotInName` | Home.py:65-66 | when the member name has a `.`, the split keeps the directory and stamps the name: the new path is the stamped name joined onto the same directory |
| `Paths.StampAfterAppend` | Home.py:65-66 | stamping prefix + "." + ext, with no `.` in ext, inserts "_" + stamp right before that `.` |
| `Paths.DotInDirectoryName` | Home.py:65-66 | the split ignores path components: when the file name has no `.` and the printed directory has one, the stamp goes into the directory part |
| `Paths.SplitInDirectory` | Home.py:65-66 | the same for a directory already in printed form |
| `DatasetCache.FixedNames` | Home.py:84-87 | the dataset file name has a `.` and no `/`; the default directory name has neither |
| `DatasetCache.Moved` | Home.py:69 | `Path.replace` moves the content to the new name, overwrites it, removes the old name and changes no other file |
| `DatasetCache.PathExists` | Home.py:92 | `Path.exists()` on a file map and directory set: a file or a directory stands at the path; the current directory and the root always exist |
| `DatasetCache.Placed` | Home.py:38-40 | the writes extraction makes are the archive members, in order, with their names joined onto the extraction directory and their contents kept |
| `DatasetCache.Written` | Home.py:38-39 | after writing, every written path exists and every old path still exists |
| `DatasetCache.WrittenDomain` | Home.py:38-39 | writing creates exactly the old paths and the written ones, and no other path |
| `DatasetCache.WrittenLastWrite` | Home.py:38-39 | a written path holds the content of the last write to it |
| `DatasetCache.WrittenFrame` | Home.py:38-39 | a path that no write touches keeps its content |
| `DatasetCache.Unpacked` | Home.py:38-48 | extraction into a directory is the members written in archive order at their joined paths; its domain, contents and frame are the three rows above |
| `DatasetCache.UnpackedLastMember` | Home.py:38-48 | after extraction a member's path holds that member's content unless a later member has the same name |
| `DatasetCache.DirsOf` | Home.py:39 | extracting a member creates its directory and all the directories above it |
| `DatasetCache.DirsOfOnly` | Home.py:39 | extraction creates no directory other than those above some member |
| `DatasetCache.UnpackedDirs` | Home.py:22-39 | the directories after `download_and_unzip`: the old ones, the extraction directory with its parents, and each member's directory with its parents |
| `DatasetCache.ExtractedPaths` | Home.py:36-51 | the extracted paths are the members' names joined onto the extraction directory, in archive order |
| `DatasetCache.RenameSpec` | Home.py:54-72 | no `.` gives IndexError with no change; a dry run changes no file and returns the new name; otherwise, in the order rename(2) looks the paths up, a missing directory of the old name and then of the new name gives NotADirectoryError when a file stands on the way to it and FileNotFoundError when nothing does, a missing file gives FileNotFoundError, all with no change, and an existing file moves to the timestamped name, which holds the old content while the old name is gone |
| `DatasetCache.ExtractDir` | Home.py:84 | a given `extract_to` is used as it is; the default is a directory that prints as `董監事資料集` |
| `DatasetCache.FileOnPath` | Home.py:69 | a file stands at a path or at one of the directories above it |
| `DatasetCache.RenameFault` | Home.py:69 | `Path.replace` succeeds exactly when the old file exists and both directories exist; it fails with NotADirectoryError exactly when the first missing directory, in rename(2) lookup order, has a file on the way to it, and with FileNotFoundError otherwise |
| `DatasetCache.RenameKeepsOthers` | Home.py:69 | a rename, failed or not, keeps every file other than the one it moves and its new name, with its content |
| `DatasetCache.MakeDirsFault` | Home.py:25 | `mkdir(parents=True, exist_ok=True)` succeeds exactly when no file stands at the directory or at a directory above it; FileExistsError exactly when a file stands at the directory itself, NotADirectoryError otherwise |
| `DatasetCache.ExpectedPath` | Home.py:84-90 | the cache key is the dry-run rename of `<dir>/董監事資料集.csv`, which always succeeds and gives `<dir>/董監事資料集_<stamp>.csv` |
| `DatasetCache.DatasetNameStamped` | Home.py:87-90 | the dataset file in any directory is stamped in its name, right before `.csv` |
| `DatasetCache.ExpectedPathInjective` | Home.py:84-92 | different periods are looked up at different paths |
| `DatasetCache.FetchSpec` | Home.py:84-106 | a download happens exactly when nothing exists at the expected path of the checked period; without one no file or directory changes; directories are never removed; a returned path exists; a miss whose extraction directory cannot be created fails with that error before downloading; the only errors are IndexError, FileNotFoundError, FileExistsError and NotADirectoryError, since download and unzip failures are not modelled |
| `DatasetCache.CacheHit` | Home.py:88-93 | when a file or directory exists at the expected path, the fetch returns that path, downloads nothing and changes no file or directory |
| `DatasetCache.CacheMiss` | Home.py:95-104 | on a miss whose extraction directory can be created and whose first member has a `.` and no `/`, with a stamp without `/`, the fetch downloads and returns that member's stamped name in the extraction directory; that path holds the extracted content and the unstamped path is gone |
| `DatasetCache.EmptyArchive` | Home.py:101 | a miss whose extraction directory can be created and whose archive is empty downloads and then raises IndexError |
| `DatasetCache.DefaultDirDotFreeMember` | Home.py:84-104 | with the default directory, a miss that can create it and whose first member has no `.` downloads and then raises IndexError, since the printed path has no `.` |
| `DatasetCache.DotOnlyInDirectory` | Home.py:101-104 | when only the extraction directory has a `.`, the rename targets a stamped directory that extraction did not create, so a miss that can create the extraction directory downloads, raises FileNotFoundError and leaves the extracted files under their own names, provided no file stands on the way to the stamped directory |
| `DatasetCache.DotOnlyInDirectoryFileInTheWay` | Home.py:101-104 | in the same situation with a file standing at the stamped directory's path, the miss downloads, raises NotADirectoryError and leaves the extracted files under their own names |
| `DatasetCache.StampedDirNotWritten` | Home.py:38-39 | extraction into `<base>.<rest>` writes no file on the way to `<base>_<stamp>.<rest>`, so a path blocked by no file before the download is blocked by none after it |
| `DatasetCache.MissRenamesFirst` | Home.py:101-104 | a miss that can create its directory and extracts at least one member ends as the non-dry rename of the first extracted path over the unpacked files and directories |
| `DatasetCache.StampedDirNotMade` | Home.py:22-39 | extraction into `<base>.<rest>` creates no directory named `<base>_<stamp>.<rest>` that did not already exist |
| `DatasetCache.SecondFetchHits` | Home.py:88-106 | after a miss that can create the extraction directory and whose first member is the dataset file, a second fetch that checks the period the file was named after is a hit: same path, no download, no change |
| `DatasetCache.PeriodChangeDuringDownload` | Home.py:88-104 | when the period changes between the two clock reads, a miss that can create the extraction directory and whose first member is the dataset file returns the file of the new period, which is not the path it looked for |
| `DatasetCache.DefaultDirIsAFile` | Home.py:22-25 | when a file stands at `董監事資料集`, a miss with the default directory raises FileExistsError, downloads nothing and changes nothing |
| `DatasetCache.FetchKeepsOtherFiles` | Home.py:84-106 | a fetch keeps every file, with its content, that no member is extracted over and that is not the new name of the first extracted file |
| `DatasetCache.StaleDatasetKept` | Home.py:84-106 | the dataset file of an earlier period is superseded, not deleted: a fetch for another period leaves it in place with its content, unless a member is extracted over it |
| `DatasetCache.ExtractStep` | Home.py:38-48 | extracting one more member adds its path, its content and its directories to those of the members before it |
| `DatasetCache.FileSystem.Exists` | Home.py:92 | `Path.exists()`: a file or a directory stands at the path; the current directory and the root always exist |
| `DatasetCache.FileSystem.DownloadAndUnzip` | Home.py:22-51 | fails with FileExistsError or NotADirectoryError, changing nothing and downloading nothing, when a file stands at the extraction directory or above it; otherwise creates the directory with its parents, downloads once, writes each member in order with its directories, and returns the written paths |
| `DatasetCache.RenameFileWithDatetime` | Home.py:54-72 | the result and the files afterwards are those of `RenameSpec` |
| `DatasetCache.FetchBodDataset` | Home.py:75-106 | with the two clock reads as `checkStamp` and `renameStamp`, the result, files and directories afterwards are those of `FetchSpec`, and the download count goes up by one exactly on a miss whose extraction directory can be created |
| `LocalFilter.Filter` | Home.py:131 | boolean-mask selection on a row list: never longer than the input; which rows it keeps, and in which order, is stated by the next three rows |
| `LocalFilter.FilterIsOrderedSelection` | Home.py:131 | filtering keeps exactly the positions where the predicate holds, in increasing order |
| `LocalFilter.FilterMembership` | Home.py:131 | a row is in the filtered list exactly when it is in the input and satisfies the predicate |
| `LocalFilter.FilterTwice` | Home.py:131-146 | dropping null business numbers and then masking is one filter by both conditions |
| `LocalFilter.BuildCriteria` | Home.py:133-141 | the `cols` map has a column for exactly the arguments given, holding that argument's values, and no other column |
| `LocalFilter.HasBusinessNo` | Home.py:131 | `dropna(subset=["統一編號"])` keeps a row exactly when its business-number cell is present |
| `LocalFilter.Keep` | Home.py:144-145 | `isin` then `any(axis=1)` keeps a row when some requested column holds an accepted value; `all(axis=1)` when every one does; a missing cell never matches |
| `LocalFilter.MaskOf` | Home.py:144-145 | the boolean mask as a predicate on rows |
| `LocalFilter.KeepModes` | Home.py:144-145 | with at least one criterion a row the intersection keeps is kept by the union; with exactly one criterion both modes keep the same rows |
| `LocalFilter.UnionMode` | Home.py:122 | the mode is intersection only when `union` is given as `False`; `None` means union |
| `LocalFilter.SearchRows` | Home.py:128-146 | an error is always KeyError; a result never has more rows than the table |
| `LocalFilter.SearchRowsCorrect` | Home.py:128-146 | a missing business-number or requested column gives KeyError, and only then; otherwise the result is the ordered subsequence of the rows that have a business number and match any (union) or all (intersection) requested columns |
| `LocalFilter.NoNullBusinessNo` | Home.py:131 | no returned row lacks a business number |
| `LocalFilter.NoCriteriaKeepsAll` | Home.py:143-148 | with no filter argument every row with a business number is returned, in order, in either mode |
| `LocalFilter.IntersectionWithinUnion` | Home.py:143-146 | with at least one criterion, every row the intersection keeps is also kept by the union |
| `LocalFilter.ExampleSetUp` | Home.py:128-141 | in the two-row example (A, X), (B, Y) queried with business number [A] and name [Y], both columns exist and no row is dropped for a null business number |
| `LocalFilter.UnionKeepsBoth` | Home.py:143-146 | in that example union mode returns both rows |
| `LocalFilter.IntersectionKeepsNone` | Home.py:143-146 | in that example intersection mode returns no row |
| `LocalFilter.SearchBodDataset` | Home.py:109-148 | files, directories and download count afterwards are those of the fetch; fetch errors propagate unchanged; a directory at the returned path, or a file that cannot be parsed, is reported; otherwise the result is the filter applied to the loaded table |

## Left out

- The HTTP download, temporary file and zip reading in `download_and_unzip` (Home.py:30-37) are library I/O. The archive is a parameter, a list of members with their final names and contents, and `FileSystem.DownloadAndUnzip` only writes them.
- `DatasetCache.FileSystem.DownloadAndUnzip`: apart from the failure to create the extraction directory (Home.py:25), the download always yields the archive. A failed request (Home.py:33), a file that is not a zip archive (Home.py:37), a name that cp437 or big5 cannot convert (Home.py:43), and a member extracted onto a directory or below a file (Home.py:39, 45) raise in the source and are not modelled: extraction always writes every member. A member whose directory part the cp437-to-big5 repair changes raises FileNotFoundError at Home.py:45, because nothing creates the repaired directory; the model creates the repaired directories instead.
- `DatasetCache.FetchSpec`: inherits that gap, so a miss that can create its directory always downloads the archive, and its errors are only those listed in its row. It also inherits the rename gap of `RenameSpec`: the final rename onto an existing directory raises IsADirectoryError in the source and overwrites it as a file here.
- `DatasetCache.FetchBodDataset`: inherits the same gaps, the download ones and the IsADirectoryError of the rename, through `FetchSpec` and `FileSystem.DownloadAndUnzip`.
- `DatasetCache.FileSystem`: the file map and the directory set are not required to agree. A state may hold a file whose directory is absent, or a path that is both a file and a directory. The operations are stated for every state and do not establish such an invariant.
- The cp437 → big5 file-name repair (Home.py:42-46) depends on codec tables. Member names are taken as already repaired.
- `datetime.now`, `ZoneInfo` and `strftime` (Home.py:61-64) read the clock and the time-zone database. Each formatted reading is a parameter: `stamp` for one call of `rename_file_w_datetime`, and `checkStamp` and `renameStamp` for the two calls in `fetch_bod_dataset`. The default formats, including the `"%Y%m$d"` default of `rename_file_w_datetime`, are not modelled.
- `Paths.DirPrefix`: only a leading `./`, a lone `.` and a trailing `/` are normalised. Doubled slashes, interior `.` components and `..` are kept as given, so `.//x` prints here as `/x` where `pathlib` prints `x`. Member names are taken as plain relative paths, and members that are directories (names ending in `/`) are not modelled.
- `DatasetCache.RenameSpec`: a rename onto an existing directory, which raises IsADirectoryError, and a rename of a directory, are not modelled. The source path must be a file, and a destination that is a directory is overwritten as a file.
- CSV parsing with pandas (Home.py:128-131) is a parameter `load`, with `None` for a file that cannot be read. The fresh row index from `reset_index` is not modelled, since a result is a plain list.
- JSON parsing of a page (Home.py:186-188) is not modelled. Remote rows are of an arbitrary type, and a parse failure is a failing offset.
- URL templating with `str.format` and `parse.quote` (Home.py:187, 252) is library string code. The filter values in the query record do not affect the model's remote: a `Remote` already stands for the result set of one filter. A template key missing from the record, which would raise KeyError and give `None`, is not modelled.
- `search_company_by_business_no`, `search_company_by_name` and `search_bod_by_business_no` (Home.py:203-282) fix an endpoint and a query record and delegate to `search_gcis_dataset`. They have no separate model.
- `convert_df`, the Streamlit page and the `print` calls (Home.py:285-316) are UI code.
- The check-then-rename race on the cache path needs concurrent callers. The model is sequential.
- `RemoteQuery.Page`: the server is modelled as a fixed table that serves contiguous slices. A server that changes between requests, or that returns a short page in the middle of the data, is not modelled.

## Notes on the code as written

- The code tests the page length against the literal 1000 and advances `skip` by 1000 (Home.py:191-192), not by `top`. So when `top` is below 1000 only one page is fetched (`ShortTopReturnsOnePage`). The model follows the code. The pages in this repository never pass `top`, so in practice `top` is 1000.
- Every run issues at least one request, even for an empty result set. With `top` 1000 the number of requests is (R − skip) / 1000 + 1 (`RequestCount`), so a result set of 0 rows costs one request. A cursor beyond the end also costs exactly one request, which that formula does not give; the lemma requires skip ≤ R.
- After clamping, later continuations are not clamped again, so a run that starts near 500000 can request offsets above 500000 (`RunShape`).
- `rename_file_w_datetime` splits at the last `.` of the whole path, not of the file name (`DotInDirectoryName`). When the extraction directory has a `.` and the first member does not, the new name lies in a stamped directory that does not exist, and the rename raises FileNotFoundError after the download (`DotOnlyInDirectory`), or NotADirectoryError when a file stands at the stamped directory's path (`DotOnlyInDirectoryFileInTheWay`). With the default directory, which prints without its `./`, such a member raises IndexError instead (`DefaultDirDotFreeMember`).
- The two clock reads in `fetch_bod_dataset` can fall in different periods. A miss then writes the file of the new period, not the one it looked for (`PeriodChangeDuringDownload`). The next fetch in the new period finds it (`SecondFetchHits`).
- A timestamp format that produces a `/` puts the renamed file into a different directory. The cache lemmas require a stamp without `/`.
