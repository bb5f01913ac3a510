/**
 * The remote paginated query engine, `search_gcis_dataset` (Home.py):
 * clamp the cursor into the query record, then fetch pages and append them
 * until a page does not hold exactly 1000 rows, advancing the record's
 * `skip` by 1000 each time; any failure turns the whole answer into None.
 *
 * The remote API is a finite table of result rows with a set of offsets at
 * which a request fails (network error, HTTP error, malformed JSON).
 */
module RemoteQuery {
  import opened Wrappers

  /** Upper bound of `skip` (Home.py:166-172). */
  const MaxSkip: int := 500000

  /** Upper bound and default of `top` (Home.py:174-180). */
  const MaxTop: int := 1000

  /** The page length that asks for another page, and the step of `skip` between pages (Home.py:191-192). */
  const PageSize: int := 1000

  /** `query["skip"]` after the first `if`: `None` or negative gives 0, above the bound gives the bound. */
  function ClampSkip(skip: Option<int>): (r: int)
    ensures 0 <= r <= MaxSkip
    ensures skip.None? || skip.value < 0 ==> r == 0
    ensures skip.Some? && skip.value > MaxSkip ==> r == MaxSkip
    ensures skip.Some? && 0 <= skip.value <= MaxSkip ==> r == skip.value
  {
    if skip.None? || skip.value < 0 then 0
    else if skip.value > MaxSkip then MaxSkip
    else skip.value
  }

  /** `query["top"]` after the second `if`: `None` or above the bound gives the bound, 0 or less gives 1. */
  function ClampTop(top: Option<int>): (r: int)
    ensures 1 <= r <= MaxTop
    ensures top.None? || top.value > MaxTop ==> r == MaxTop
    ensures top.Some? && top.value <= 0 ==> r == 1
    ensures top.Some? && 1 <= top.value <= MaxTop ==> r == top.value
  {
    if top.None? || top.value > MaxTop then MaxTop
    else if top.value <= 0 then 1
    else top.value
  }

  /** Clamping a clamped cursor changes nothing. */
  lemma ClampIdempotent(skip: Option<int>, top: Option<int>)
    ensures ClampSkip(Some(ClampSkip(skip))) == ClampSkip(skip)
    ensures ClampTop(Some(ClampTop(top))) == ClampTop(top)
  {
  }

  /** Clamping at the edges: -5, 600000 and None for skip; 0, 5000 and None for top. */
  lemma ClampExamples()
    ensures ClampSkip(Some(-5)) == 0 && ClampSkip(Some(600000)) == MaxSkip && ClampSkip(None) == 0
    ensures ClampTop(Some(0)) == 1 && ClampTop(Some(5000)) == MaxTop && ClampTop(None) == MaxTop
  {
  }

  /** The result set of the remote query, and the offsets at which a request fails. */
  datatype Remote<T> = Remote(rows: seq<T>, failing: set<int>)

  /** The answer to one request `$skip=skip&$top=top`: up to `top` rows from position `skip`, or a failure. */
  function Page<T>(remote: Remote<T>, skip: int, top: int): (r: Option<seq<T>>)
    requires 0 <= skip && 1 <= top
    ensures r.None? <==> skip in remote.failing
    ensures r.Some? ==> |r.value| <= top
    ensures r.Some? && r.value != [] ==> skip + |r.value| <= |remote.rows|
  {
    if skip in remote.failing then None
    else
      var lo := if skip < |remote.rows| then skip else |remote.rows|;
      var hi := if skip + top < |remote.rows| then skip + top else |remote.rows|;
      Some(remote.rows[lo..hi])
  }

  /** The requests a run issued (their `skip`), the pages that arrived, and whether the last request failed. */
  datatype Trace<T> = Trace(offsets: seq<int>, pages: seq<seq<T>>, failed: bool)

  /**
   * The loop of `search_gcis_dataset` from cursor `skip`: request a page;
   * on failure stop; on a page of exactly 1000 rows request again 1000
   * further on; otherwise stop.
   */
  function Run<T>(remote: Remote<T>, skip: int, top: int): (t: Trace<T>)
    requires 0 <= skip && 1 <= top
    ensures |t.offsets| == |t.pages| + (if t.failed then 1 else 0) >= 1
    ensures t.offsets[0] == skip
    decreases |remote.rows| - skip
  {
    match Page(remote, skip, top)
    case None => Trace([skip], [], true)
    case Some(p) =>
      if |p| == PageSize then
        var rest := Run(remote, skip + PageSize, top);
        Trace([skip] + rest.offsets, [p] + rest.pages, rest.failed)
      else Trace([skip], [p], false)
  }

  /** `pd.concat(df_list, ignore_index=True)`: the pages' rows one after another. */
  function Concat<T>(pages: seq<seq<T>>): seq<T>
  {
    if pages == [] then [] else pages[0] + Concat(pages[1..])
  }

  /**
   * The concatenation holds every row of every page, and nothing else:
   * no arrived row is dropped and none is made up.
   */
  lemma {:induction false} ConcatHoldsPages<T>(pages: seq<seq<T>>)
    ensures forall i, j :: 0 <= i < |pages| && 0 <= j < |pages[i]| ==> pages[i][j] in Concat(pages)
    ensures forall x :: x in Concat(pages) ==> exists i, j :: 0 <= i < |pages| && 0 <= j < |pages[i]| && pages[i][j] == x
  {
    if pages != [] {
      var rest := Concat(pages[1..]);
      var r := Concat(pages);
      ConcatHoldsPages(pages[1..]);
      assert r == pages[0] + rest;
      forall x | x in r ensures exists i, j :: 0 <= i < |pages| && 0 <= j < |pages[i]| && pages[i][j] == x {
        if x in pages[0] {
          var j :| 0 <= j < |pages[0]| && pages[0][j] == x;
        } else {
          assert x in rest;
          var a, b :| 0 <= a < |pages[1..]| && 0 <= b < |pages[1..][a]| && pages[1..][a][b] == x;
          assert pages[1..][a] == pages[a + 1];
        }
      }
      forall i, j | 0 <= i < |pages| && 0 <= j < |pages[i]| ensures pages[i][j] in r {
        if i == 0 {
          assert r[j] == pages[0][j];
        } else {
          assert pages[1..][i - 1] == pages[i];
          assert pages[i][j] in rest;
        }
      }
    }
  }

  /** What `search_gcis_dataset` returns for a run: None on any failure, else all pages concatenated. */
  function Outcome<T>(t: Trace<T>): (r: Option<seq<T>>)
    ensures r.None? <==> t.failed
  {
    if t.failed then None else Some(Concat(t.pages))
  }

  /** The last request of a run. */
  function LastOffset<T>(t: Trace<T>): int
    requires |t.offsets| > 0
  {
    t.offsets[|t.offsets| - 1]
  }

  /** A full page `p` requested at `skip`, followed by the trace `rest` of the requests after it. */
  function Cons<T>(skip: int, p: seq<T>, rest: Trace<T>): Trace<T>
  {
    Trace([skip] + rest.offsets, [p] + rest.pages, rest.failed)
  }

  /**
   * The shape of a run from `skip`: request `i` starts `1000 * i` rows
   * after the first; every request but the last got exactly 1000 rows; a
   * last page that arrived does not hold 1000 rows.
   */
  ghost predicate Shaped<T>(t: Trace<T>, skip: int)
  {
    && |t.offsets| == |t.pages| + (if t.failed then 1 else 0) >= 1
    && (forall i :: 0 <= i < |t.offsets| ==> t.offsets[i] == skip + PageSize * i)
    && (forall i :: 0 <= i < |t.offsets| - 1 ==> |t.pages[i]| == PageSize)
    && (!t.failed ==> |t.pages[|t.pages| - 1]| != PageSize)
  }

  /** A full page in front of a shaped run 1000 rows further on gives a shaped run. */
  lemma ShapedCons<T>(skip: int, p: seq<T>, rest: Trace<T>)
    requires |p| == PageSize && Shaped(rest, skip + PageSize)
    ensures Shaped(Cons(skip, p, rest), skip)
  {
    var t := Cons(skip, p, rest);
    forall i | 1 <= i < |t.offsets| ensures t.offsets[i] == skip + PageSize * i {
      assert t.offsets[i] == rest.offsets[i - 1];
    }
    forall i | 1 <= i < |t.offsets| - 1 ensures |t.pages[i]| == PageSize {
      assert t.pages[i] == rest.pages[i - 1];
    }
    assert !t.failed ==> t.pages[|t.pages| - 1] == rest.pages[|rest.pages| - 1];
  }

  /** Every run has the shape the continuation rule gives it. */
  lemma {:induction false} RunShape<T>(remote: Remote<T>, skip: int, top: int)
    requires 0 <= skip && 1 <= top
    ensures Shaped(Run(remote, skip, top), skip)
    decreases |remote.rows| - skip
  {
    var p := Page(remote, skip, top);
    if p.Some? && |p.value| == PageSize {
      RunFullPage(remote, skip, top);
      RunShape(remote, skip + PageSize, top);
      ShapedCons(skip, p.value, Run(remote, skip + PageSize, top));
    }
  }

  /**
   * Another request follows a page exactly when that page held 1000 rows,
   * and it starts 1000 rows further on.
   */
  lemma ContinuesIffFullPage<T>(remote: Remote<T>, skip: int, top: int, i: int)
    requires 0 <= skip && 1 <= top
    requires 0 <= i < |Run(remote, skip, top).pages|
    ensures var t := Run(remote, skip, top);
            (i + 1 < |t.offsets| <==> |t.pages[i]| == PageSize) &&
            (i + 1 < |t.offsets| ==> t.offsets[i + 1] == t.offsets[i] + PageSize)
  {
    RunShape(remote, skip, top);
  }

  /** With `top` below 1000 no page can be full, so exactly one request is made. */
  lemma ShortTopSingleRequest<T>(remote: Remote<T>, skip: int, top: int)
    requires 0 <= skip && 1 <= top < PageSize
    ensures |Run(remote, skip, top).offsets| == 1
  {
  }

  /** Every request but the last succeeded, and the trace failed exactly when its last request did. */
  ghost predicate FailsOnlyLast<T>(t: Trace<T>, failing: set<int>)
    requires |t.offsets| > 0
  {
    && (forall i :: 0 <= i < |t.offsets| - 1 ==> t.offsets[i] !in failing)
    && (t.failed <==> LastOffset(t) in failing)
  }

  /** A successful request in front of such a trace keeps the property. */
  lemma FailsOnlyLastCons<T>(skip: int, p: seq<T>, rest: Trace<T>, failing: set<int>)
    requires |rest.offsets| > 0 && skip !in failing && FailsOnlyLast(rest, failing)
    ensures FailsOnlyLast(Cons(skip, p, rest), failing)
  {
    var t := Cons(skip, p, rest);
    forall i | 1 <= i < |t.offsets| - 1 ensures t.offsets[i] !in failing {
      assert t.offsets[i] == rest.offsets[i - 1];
    }
    assert LastOffset(t) == LastOffset(rest);
  }

  /** In every run only the last request can have failed, and the run failed exactly when it did. */
  lemma {:induction false} OnlyLastMayFail<T>(remote: Remote<T>, skip: int, top: int)
    requires 0 <= skip && 1 <= top
    ensures FailsOnlyLast(Run(remote, skip, top), remote.failing)
    decreases |remote.rows| - skip
  {
    var p := Page(remote, skip, top);
    if p.Some? && |p.value| == PageSize {
      RunFullPage(remote, skip, top);
      OnlyLastMayFail(remote, skip + PageSize, top);
      FailsOnlyLastCons(skip, p.value, Run(remote, skip + PageSize, top), remote.failing);
    }
  }

  /**
   * The result is None exactly when one of the issued requests failed,
   * even when pages arrived before it.
   */
  lemma FailureGivesNone<T>(remote: Remote<T>, skip: int, top: int)
    requires 0 <= skip && 1 <= top
    ensures var t := Run(remote, skip, top);
            Outcome(t).None? <==> exists i :: 0 <= i < |t.offsets| && t.offsets[i] in remote.failing
  {
    var t := Run(remote, skip, top);
    OnlyLastMayFail(remote, skip, top);
    if t.failed {
      assert t.offsets[|t.offsets| - 1] in remote.failing;
    }
  }

  /** `x` cut down to at most `n`. */
  function Clip(x: int, n: int): int
  {
    if x < n then x else n
  }

  /** A run whose first page is full is that page followed by the run 1000 rows further on. */
  lemma RunFullPage<T>(remote: Remote<T>, skip: int, top: int)
    requires 0 <= skip && 1 <= top
    requires Page(remote, skip, top).Some? && |Page(remote, skip, top).value| == PageSize
    ensures skip + PageSize <= |remote.rows|
    ensures Page(remote, skip, top).value == remote.rows[skip..skip + PageSize]
    ensures Run(remote, skip, top) == Cons(skip, Page(remote, skip, top).value, Run(remote, skip + PageSize, top))
  {
  }

  /**
   * A successful run returns one contiguous block of the result set, from
   * the first cursor to the end of the last page: nothing dropped, nothing
   * reordered.
   */
  lemma {:induction false} SuccessIsContiguous<T>(remote: Remote<T>, skip: int, top: int)
    requires 0 <= skip && 1 <= top
    ensures var t := Run(remote, skip, top);
            var n := |remote.rows|;
            !t.failed ==> Clip(skip, n) <= Clip(LastOffset(t) + top, n) &&
                          Concat(t.pages) == remote.rows[Clip(skip, n)..Clip(LastOffset(t) + top, n)]
    decreases |remote.rows| - skip
  {
    var p := Page(remote, skip, top);
    if p.Some? && |p.value| == PageSize {
      RunFullPage(remote, skip, top);
      SuccessIsContiguous(remote, skip + PageSize, top);
      ContiguousAfterFullPage(remote, skip, top);
    } else if p.Some? {
      var t := Run(remote, skip, top);
      assert t.pages == [p.value] && t.pages[1..] == [];
    }
  }

  /** The inductive step of `SuccessIsContiguous`: a full first page extends the block of the rest of the run. */
  lemma ContiguousAfterFullPage<T>(remote: Remote<T>, skip: int, top: int)
    requires 0 <= skip && 1 <= top
    requires Page(remote, skip, top).Some? && |Page(remote, skip, top).value| == PageSize
    requires var rest := Run(remote, skip + PageSize, top);
             var n := |remote.rows|;
             !rest.failed ==> Clip(skip + PageSize, n) <= Clip(LastOffset(rest) + top, n) &&
                              Concat(rest.pages) == remote.rows[Clip(skip + PageSize, n)..Clip(LastOffset(rest) + top, n)]
    ensures var t := Run(remote, skip, top);
            var n := |remote.rows|;
            !t.failed ==> Clip(skip, n) <= Clip(LastOffset(t) + top, n) &&
                          Concat(t.pages) == remote.rows[Clip(skip, n)..Clip(LastOffset(t) + top, n)]
  {
    RunFullPage(remote, skip, top);
    var t, rest := Run(remote, skip, top), Run(remote, skip + PageSize, top);
    var n := |remote.rows|;
    if !rest.failed {
      assert LastOffset(t) == LastOffset(rest);
      PrependFullPage(remote.rows, skip, Page(remote, skip, top).value, rest.pages, Clip(LastOffset(rest) + top, n));
    }
  }

  /** A full page at `skip` followed by the block from `skip + 1000` to `hi` is the block from `skip` to `hi`. */
  lemma PrependFullPage<T>(rows: seq<T>, skip: int, page: seq<T>, pages: seq<seq<T>>, hi: int)
    requires 0 <= skip && skip + PageSize <= hi <= |rows|
    requires page == rows[skip..skip + PageSize]
    requires Concat(pages) == rows[skip + PageSize..hi]
    ensures Concat([page] + pages) == rows[skip..hi]
  {
    assert ([page] + pages)[0] == page && ([page] + pages)[1..] == pages;
    assert rows[skip..hi] == rows[skip..skip + PageSize] + rows[skip + PageSize..hi];
  }

  /** The last page of a successful run is the answer to its last request. */
  lemma {:induction false} LastPageAnswersLastRequest<T>(remote: Remote<T>, skip: int, top: int)
    requires 0 <= skip && 1 <= top
    ensures var t := Run(remote, skip, top);
            !t.failed ==> && LastOffset(t) >= skip
                          && Page(remote, LastOffset(t), top) == Some(t.pages[|t.pages| - 1])
                          && |t.pages[|t.pages| - 1]| != PageSize
    decreases |remote.rows| - skip
  {
    var p := Page(remote, skip, top);
    if p.Some? && |p.value| == PageSize {
      RunFullPage(remote, skip, top);
      var t, rest := Run(remote, skip, top), Run(remote, skip + PageSize, top);
      LastPageAnswersLastRequest(remote, skip + PageSize, top);
      assert LastOffset(t) == LastOffset(rest);
    }
  }

  /**
   * With the default page size and a remote that does not fail, the query
   * returns every row from the cursor to the end of the result set.
   */
  lemma DefaultTopRetrievesAll<T>(remote: Remote<T>, skip: int)
    requires 0 <= skip && remote.failing == {}
    ensures Outcome(Run(remote, skip, MaxTop)) == Some(remote.rows[Clip(skip, |remote.rows|)..])
  {
    var t := Run(remote, skip, MaxTop);
    var n := |remote.rows|;
    OnlyLastMayFail(remote, skip, MaxTop);
    assert !t.failed;
    SuccessIsContiguous(remote, skip, MaxTop);
    LastPageAnswersLastRequest(remote, skip, MaxTop);
    var last := LastOffset(t);
    assert Clip(last + MaxTop, n) == n;
    assert Concat(t.pages) == remote.rows[Clip(skip, n)..n];
    assert remote.rows[Clip(skip, n)..n] == remote.rows[Clip(skip, n)..];
  }

  /**
   * With `top` below 1000 the query returns only the first `top` rows from
   * the cursor, however many more the result set holds.
   */
  lemma ShortTopReturnsOnePage<T>(remote: Remote<T>, skip: int, top: int)
    requires 0 <= skip && 1 <= top < PageSize && skip !in remote.failing
    ensures var n := |remote.rows|;
            Outcome(Run(remote, skip, top)) == Some(remote.rows[Clip(skip, n)..Clip(skip + top, n)])
  {
    ShortTopSingleRequest(remote, skip, top);
    SuccessIsContiguous(remote, skip, top);
  }

  /**
   * With the default page size, no failure and a cursor inside the result
   * set, `(R - skip) / 1000 + 1` requests are made for `R` rows, and the last
   * one returns an empty page exactly when `R - skip` is a multiple of 1000.
   */
  lemma {:induction false} RequestCount<T>(remote: Remote<T>, skip: int)
    requires 0 <= skip <= |remote.rows| && remote.failing == {}
    ensures var t := Run(remote, skip, MaxTop);
            && !t.failed
            && |t.offsets| == (|remote.rows| - skip) / PageSize + 1
            && (t.pages[|t.pages| - 1] == [] <==> (|remote.rows| - skip) % PageSize == 0)
    decreases |remote.rows| - skip
  {
    var n := |remote.rows|;
    var t := Run(remote, skip, MaxTop);
    if n - skip >= PageSize {
      var rest := Run(remote, skip + PageSize, MaxTop);
      RequestCount(remote, skip + PageSize);
      assert t.offsets == [skip] + rest.offsets && t.pages == [Page(remote, skip, MaxTop).value] + rest.pages;
      assert (n - skip) / PageSize == (n - skip - PageSize) / PageSize + 1;
      assert (n - skip) % PageSize == (n - skip - PageSize) % PageSize;
    } else {
      assert |t.pages[0]| == n - skip;
    }
  }

  /**
   * A three-page result set (2500 rows) whose second request fails: the
   * first page arrived, yet the query returns None.
   */
  lemma ThreePagesSecondFails<T>(remote: Remote<T>)
    requires |remote.rows| == 2500 && remote.failing == {PageSize}
    ensures var t := Run(remote, 0, MaxTop);
            t.offsets == [0, PageSize] && t.pages == [remote.rows[..PageSize]] && Outcome(t) == None
  {
    var rest := Run(remote, PageSize, MaxTop);
    assert rest == Trace([PageSize], [], true);
  }

  /** `full` is what a run has done so far (`done`, `pages`) followed by the run from cursor `cur`. */
  ghost predicate Resumes<T>(full: Trace<T>, done: seq<int>, pages: seq<seq<T>>, remote: Remote<T>, cur: int, top: int)
    requires 0 <= cur && 1 <= top
  {
    var rest := Run(remote, cur, top);
    full == Trace(done + rest.offsets, pages + rest.pages, rest.failed)
  }

  /** After a full page the run resumes 1000 rows further on. */
  lemma ResumeAfterFullPage<T>(full: Trace<T>, done: seq<int>, pages: seq<seq<T>>, remote: Remote<T>, cur: int, top: int)
    requires 0 <= cur && 1 <= top && Resumes(full, done, pages, remote, cur, top)
    requires Page(remote, cur, top).Some? && |Page(remote, cur, top).value| == PageSize
    ensures Resumes(full, done + [cur], pages + [Page(remote, cur, top).value], remote, cur + PageSize, top)
  {
    RunFullPage(remote, cur, top);
    var p := Page(remote, cur, top).value;
    var rest, next := Run(remote, cur, top), Run(remote, cur + PageSize, top);
    assert done + rest.offsets == (done + [cur]) + next.offsets;
    assert pages + rest.pages == (pages + [p]) + next.pages;
  }

  /** After a page of another length the run is over and its result is all pages so far. */
  lemma ResumeAfterLastPage<T>(full: Trace<T>, done: seq<int>, pages: seq<seq<T>>, remote: Remote<T>, cur: int, top: int)
    requires 0 <= cur && 1 <= top && Resumes(full, done, pages, remote, cur, top)
    requires Page(remote, cur, top).Some? && |Page(remote, cur, top).value| != PageSize
    ensures Outcome(full) == Some(Concat(pages + [Page(remote, cur, top).value]))
    ensures LastOffset(full) == cur
  {
  }

  /** After a failed request the run is over and its result is None. */
  lemma ResumeAfterFailure<T>(full: Trace<T>, done: seq<int>, pages: seq<seq<T>>, remote: Remote<T>, cur: int, top: int)
    requires 0 <= cur && 1 <= top && Resumes(full, done, pages, remote, cur, top)
    requires Page(remote, cur, top).None?
    ensures Outcome(full) == None && LastOffset(full) == cur
  {
  }

  /**
   * The query record of `search_gcis_dataset` (GCISQuery): the filter
   * values and the cursor. The filter values only select the result set on
   * the server, which the `Remote` given to `SearchGcisDataset` already
   * stands for, so no operation here reads them.
   */
  class GcisQuery {
    var businessNo: Option<string>
    var companyName: Option<string>
    var companyStatus: Option<string>
    var skip: Option<int>
    var top: Option<int>

    constructor (businessNo: Option<string>, companyName: Option<string>, companyStatus: Option<string>)
      ensures this.businessNo == businessNo && this.companyName == companyName
      ensures this.companyStatus == companyStatus && skip.None? && top.None?
    {
      this.businessNo := businessNo;
      this.companyName := companyName;
      this.companyStatus := companyStatus;
      skip := None;
      top := None;
    }
  }

  /**
   * `search_gcis_dataset(dataset_url, query, skip, top)` against `remote`:
   * returns what the run from the clamped cursor yields, and leaves the
   * record's `skip` at the offset of the last request and its `top` at the
   * clamped page size.
   */
  method SearchGcisDataset<T>(remote: Remote<T>, query: GcisQuery, skip: Option<int>, top: Option<int>)
    returns (result: Option<seq<T>>)
    modifies query`skip, query`top
    ensures var t := Run(remote, ClampSkip(skip), ClampTop(top));
            && result == Outcome(t)
            && query.skip == Some(LastOffset(t))
            && query.top == Some(ClampTop(top))
  {
    query.skip := Some(ClampSkip(skip));
    query.top := Some(ClampTop(top));
    ghost var full := Run(remote, ClampSkip(skip), ClampTop(top));
    ghost var done: seq<int> := [];
    var pages: seq<seq<T>> := [];
    var searchMore := true;
    result := None;
    assert Resumes(full, done, pages, remote, query.skip.value, query.top.value) by {
      assert [] + full.offsets == full.offsets && [] + full.pages == full.pages;
    }
    while searchMore
      invariant query.skip.Some? && query.skip.value >= 0 && query.top == Some(ClampTop(top))
      invariant searchMore ==> Resumes(full, done, pages, remote, query.skip.value, query.top.value)
      invariant !searchMore ==> result == Outcome(full) && query.skip == Some(LastOffset(full))
      decreases searchMore, |remote.rows| - query.skip.value
    {
      var cur := query.skip.value;
      var company := Page(remote, cur, query.top.value);
      if company.None? {
        ResumeAfterFailure(full, done, pages, remote, cur, query.top.value);
        return None;
      }
      ghost var fetched := pages;
      pages := pages + [company.value];
      if |company.value| == PageSize {
        ResumeAfterFullPage(full, done, fetched, remote, cur, query.top.value);
        query.skip := Some(cur + PageSize);
      } else {
        ResumeAfterLastPage(full, done, fetched, remote, cur, query.top.value);
        searchMore := false;
        result := Some(Concat(pages));
      }
      done := done + [cur];
    }
  }
}
