/**
 * The local filter engine of `search_bod_dataset` (Home.py): drop rows
 * without a business number, build the column -> accepted-values map from
 * the arguments that are given, and keep the rows that match any (union)
 * or every (intersection) requested column, in their original order.
 *
 * A table is its column names and its rows; a row maps a column to its
 * cell, `None` standing for pandas' missing value.
 */
module LocalFilter {
  import opened Wrappers
  import opened DatasetCache

  type Row = map<string, Option<string>>

  datatype Table = Table(columns: seq<string>, rows: seq<Row>)

  const BusinessNoColumn: string := "統一編號"
  const CompanyNameColumn: string := "公司名稱"
  const DirectorNameColumn: string := "姓名"
  const RepresentedColumn: string := "所代表法人"

  /** The keyword arguments of `search_bod_dataset` that select rows; `None` means "not given". */
  datatype BodQuery = BodQuery(
    businessNo: Option<seq<string>>,
    companyName: Option<seq<string>>,
    directors: Option<seq<string>>,
    representativeFor: Option<seq<string>>,
    union: Option<bool>)

  /** The cell of `row` in `column`; a cell the row lacks reads as missing. */
  function Cell(row: Row, column: string): Option<string>
  {
    if column in row then row[column] else None
  }

  /** `Series.isin(accepted)` on one cell: a missing cell is never a member. */
  predicate Matches(cell: Option<string>, accepted: seq<string>)
  {
    cell.Some? && cell.value in accepted
  }

  /** The elements of `s` that satisfy `p`, in their original order. */
  function Filter<T>(s: seq<T>, p: T -> bool): (r: seq<T>)
    ensures |r| <= |s|
  {
    if s == [] then []
    else Filter(s[..|s| - 1], p) + if p(s[|s| - 1]) then [s[|s| - 1]] else []
  }

  /**
   * `out` is the subsequence of `s` made of exactly the positions where
   * `p` holds, in increasing order: nothing reordered, duplicated, or
   * dropped that satisfies `p`.
   */
  ghost predicate OrderedSelection<T>(out: seq<T>, s: seq<T>, p: T -> bool)
  {
    exists idx: seq<int> :: IsSelection(idx, out, s, p)
  }

  /** `idx` lists, in increasing order, the positions of `s` that `out` takes, and they are those where `p` holds. */
  ghost predicate IsSelection<T>(idx: seq<int>, out: seq<T>, s: seq<T>, p: T -> bool)
  {
    && |idx| == |out|
    && (forall k :: 0 <= k < |idx| ==> 0 <= idx[k] < |s| && out[k] == s[idx[k]])
    && (forall k, l :: 0 <= k < l < |idx| ==> idx[k] < idx[l])
    && (forall i :: 0 <= i < |s| ==> (p(s[i]) <==> i in idx))
  }

  /** The positions `Filter(s, p)` takes from `s`. */
  ghost function KeptPositions<T>(s: seq<T>, p: T -> bool): seq<int>
  {
    if s == [] then []
    else KeptPositions(s[..|s| - 1], p) + if p(s[|s| - 1]) then [|s| - 1] else []
  }

  lemma {:induction false} KeptPositionsSelect<T>(s: seq<T>, p: T -> bool)
    ensures IsSelection(KeptPositions(s, p), Filter(s, p), s, p)
  {
    if s != [] {
      var n := |s| - 1;
      var front := s[..n];
      KeptPositionsSelect(front, p);
      var f, fo := KeptPositions(front, p), Filter(front, p);
      var idx, out := KeptPositions(s, p), Filter(s, p);
      assert idx == f + if p(s[n]) then [n] else [];
      assert out == fo + if p(s[n]) then [s[n]] else [];
      forall k | 0 <= k < |idx| ensures 0 <= idx[k] < |s| && out[k] == s[idx[k]] {
        if k < |f| {
          assert idx[k] == f[k] && out[k] == fo[k];
          assert front[f[k]] == s[f[k]];
        }
      }
      forall k, l | 0 <= k < l < |idx| ensures idx[k] < idx[l] {
        assert idx[k] == f[k];
        if l < |f| {
          assert idx[l] == f[l];
        }
      }
      forall i | 0 <= i < |s| ensures p(s[i]) <==> i in idx {
        if i < n {
          assert s[i] == front[i];
          assert i in idx <==> i in f;
        } else {
          assert n !in f;
        }
      }
    }
  }

  /** The result of `Filter` is the ordered selection of the elements satisfying the predicate. */
  lemma FilterIsOrderedSelection<T>(s: seq<T>, p: T -> bool)
    ensures OrderedSelection(Filter(s, p), s, p)
  {
    KeptPositionsSelect(s, p);
  }

  /** Filtering by `p` and then by `q` is filtering once by their conjunction `pq`. */
  lemma {:induction false} FilterTwice<T>(s: seq<T>, p: T -> bool, q: T -> bool, pq: T -> bool)
    requires forall x :: pq(x) == (p(x) && q(x))
    ensures Filter(Filter(s, p), q) == Filter(s, pq)
  {
    if s != [] {
      var n := |s| - 1;
      FilterTwice(s[..n], p, q, pq);
      var head := Filter(s[..n], p);
      assert pq(s[n]) == (p(s[n]) && q(s[n]));
      if !p(s[n]) {
        assert Filter(s, p) == head;
      } else {
        var tail := head + [s[n]];
        assert Filter(s, p) == tail;
        assert tail[..|tail| - 1] == head && tail[|tail| - 1] == s[n];
        assert Filter(tail, q) == Filter(head, q) + if q(s[n]) then [s[n]] else [];
      }
    }
  }

  /** An element is kept exactly when it is in the input and satisfies the predicate. */
  lemma {:induction false} FilterMembership<T>(s: seq<T>, p: T -> bool, x: T)
    ensures x in Filter(s, p) <==> x in s && p(x)
  {
    if s != [] {
      var n := |s| - 1;
      FilterMembership(s[..n], p, x);
      assert x in s <==> x in s[..n] || x == s[n];
    }
  }

  /**
   * The `cols` dictionary: a column for exactly the arguments that are
   * given, holding that argument's accepted values.
   */
  function BuildCriteria(q: BodQuery): (cols: map<string, seq<string>>)
    ensures BusinessNoColumn in cols <==> q.businessNo.Some?
    ensures CompanyNameColumn in cols <==> q.companyName.Some?
    ensures DirectorNameColumn in cols <==> q.directors.Some?
    ensures RepresentedColumn in cols <==> q.representativeFor.Some?
    ensures BusinessNoColumn in cols ==> cols[BusinessNoColumn] == q.businessNo.value
    ensures CompanyNameColumn in cols ==> cols[CompanyNameColumn] == q.companyName.value
    ensures DirectorNameColumn in cols ==> cols[DirectorNameColumn] == q.directors.value
    ensures RepresentedColumn in cols ==> cols[RepresentedColumn] == q.representativeFor.value
    ensures cols.Keys <= {BusinessNoColumn, CompanyNameColumn, DirectorNameColumn, RepresentedColumn}
  {
    var c0: map<string, seq<string>> := map[];
    var c1 := if q.businessNo.Some? then c0[BusinessNoColumn := q.businessNo.value] else c0;
    var c2 := if q.companyName.Some? then c1[CompanyNameColumn := q.companyName.value] else c1;
    var c3 := if q.directors.Some? then c2[DirectorNameColumn := q.directors.value] else c2;
    if q.representativeFor.Some? then c3[RepresentedColumn := q.representativeFor.value] else c3
  }

  /**
   * Whether the mask keeps `row`: `isin(cols)` followed by `any(axis=1)`
   * in union mode, `all(axis=1)` otherwise.
   */
  predicate Keep(row: Row, cols: map<string, seq<string>>, union: bool)
  {
    if union then exists c :: c in cols && Matches(Cell(row, c), cols[c])
    else forall c :: c in cols ==> Matches(Cell(row, c), cols[c])
  }

  /** The mask as a predicate on rows. */
  function MaskOf(cols: map<string, seq<string>>, union: bool): Row -> bool
  {
    row => Keep(row, cols, union)
  }

  /**
   * With at least one criterion, a row the intersection keeps is kept by
   * the union; with exactly one criterion the two modes keep the same rows.
   */
  lemma KeepModes(row: Row, cols: map<string, seq<string>>)
    ensures |cols| > 0 && Keep(row, cols, false) ==> Keep(row, cols, true)
    ensures |cols| == 1 ==> (Keep(row, cols, true) <==> Keep(row, cols, false))
  {
    if |cols| > 0 {
      var c :| c in cols;
      if |cols| == 1 {
        var rest := cols.Keys - {c};
        assert cols.Keys == rest + {c};
        assert rest == {};
      }
    }
  }

  /** `dropna(subset=["統一編號"])` on one row. */
  predicate HasBusinessNo(row: Row)
  {
    Cell(row, BusinessNoColumn).Some?
  }

  /** `union = True if union is None else union`. */
  function UnionMode(q: BodQuery): (r: bool)
    ensures !r <==> q.union == Some(false)
  {
    if q.union.None? then true else q.union.value
  }

  /**
   * The rows `search_bod_dataset` returns for a loaded table: KeyError when
   * the table lacks the business-number column or a requested column.
   */
  function SearchRows(table: Table, q: BodQuery): (r: Result<seq<Row>>)
    ensures r.Err? ==> r == Err(KeyError)
    ensures r.Ok? ==> |r.value| <= |table.rows|
  {
    if BusinessNoColumn !in table.columns then Err(KeyError)
    else
      var rows := Filter(table.rows, HasBusinessNo);
      var cols := BuildCriteria(q);
      if |cols| == 0 then Ok(rows)
      else if exists c :: c in cols && c !in table.columns then Err(KeyError)
      else Ok(Filter(rows, MaskOf(cols, UnionMode(q))))
  }

  /** The rows `search_bod_dataset` returns, described row by row. */
  function SelectedBy(q: BodQuery): Row -> bool
  {
    row => HasBusinessNo(row) && (|BuildCriteria(q)| == 0 || Keep(row, BuildCriteria(q), UnionMode(q)))
  }

  /** Every requested column, and the business-number column, is a column of the table. */
  predicate ColumnsPresent(table: Table, q: BodQuery)
  {
    BusinessNoColumn in table.columns &&
    forall c :: c in BuildCriteria(q) ==> c in table.columns
  }

  /**
   * A missing column raises KeyError; otherwise the result is the ordered
   * selection of the table's rows that have a business number and pass the
   * mask.
   */
  lemma {:induction false} SearchRowsCorrect(table: Table, q: BodQuery)
    ensures !ColumnsPresent(table, q) <==> SearchRows(table, q) == Err(KeyError)
    ensures ColumnsPresent(table, q) ==>
              SearchRows(table, q).Ok? && OrderedSelection(SearchRows(table, q).value, table.rows, SelectedBy(q))
  {
    if ColumnsPresent(table, q) {
      var cols := BuildCriteria(q);
      if |cols| == 0 {
        FilterSame(table.rows, HasBusinessNo, SelectedBy(q));
      } else {
        FilterTwice(table.rows, HasBusinessNo, MaskOf(cols, UnionMode(q)), SelectedBy(q));
      }
      FilterIsOrderedSelection(table.rows, SelectedBy(q));
    }
  }

  /** Filtering by two predicates that agree everywhere gives the same result. */
  lemma {:induction false} FilterSame<T>(s: seq<T>, p: T -> bool, q: T -> bool)
    requires forall x :: p(x) == q(x)
    ensures Filter(s, p) == Filter(s, q)
  {
    if s != [] {
      FilterSame(s[..|s| - 1], p, q);
    }
  }

  /** No row without a business number survives, whatever the query. */
  lemma NoNullBusinessNo(table: Table, q: BodQuery, row: Row)
    requires SearchRows(table, q).Ok? && row in SearchRows(table, q).value
    ensures Cell(row, BusinessNoColumn).Some?
  {
    SearchRowsCorrect(table, q);
    FilterMembership(table.rows, SelectedBy(q), row);
  }

  /** With no filter argument, every row that has a business number is returned, in order. */
  lemma NoCriteriaKeepsAll(table: Table, union: Option<bool>)
    requires BusinessNoColumn in table.columns
    ensures SearchRows(table, BodQuery(None, None, None, None, union)) == Ok(Filter(table.rows, HasBusinessNo))
  {
  }

  /**
   * With all columns present and at least one criterion, the intersection
   * keeps no row that the union drops.
   */
  lemma IntersectionWithinUnion(table: Table, q: BodQuery, row: Row)
    requires ColumnsPresent(table, q) && |BuildCriteria(q)| > 0
    requires SearchRows(table, q.(union := Some(false))).Ok?
    requires row in SearchRows(table, q.(union := Some(false))).value
    ensures SearchRows(table, q.(union := Some(true))).Ok?
    ensures row in SearchRows(table, q.(union := Some(true))).value
  {
    var qi, qu := q.(union := Some(false)), q.(union := Some(true));
    var cols := BuildCriteria(q);
    assert BuildCriteria(qi) == cols && BuildCriteria(qu) == cols;
    var rows := Filter(table.rows, HasBusinessNo);
    assert SearchRows(table, qi) == Ok(Filter(rows, MaskOf(cols, false)));
    assert SearchRows(table, qu) == Ok(Filter(rows, MaskOf(cols, true)));
    FilterMembership(rows, MaskOf(cols, false), row);
    var c :| c in cols;
    assert Matches(Cell(row, c), cols[c]);
    FilterMembership(rows, MaskOf(cols, true), row);
  }

  /** A two-row table: business number A with company X, and B with Y. */
  function ExampleTable(): Table
  {
    Table([BusinessNoColumn, CompanyNameColumn],
          [map[BusinessNoColumn := Some("A"), CompanyNameColumn := Some("X")],
           map[BusinessNoColumn := Some("B"), CompanyNameColumn := Some("Y")]])
  }

  /** A query on that table: business number [A] and company name [Y]. */
  function ExampleQuery(union: bool): BodQuery
  {
    BodQuery(Some(["A"]), Some(["Y"]), None, None, Some(union))
  }

  /** In the example both rows have a business number and both columns exist. */
  lemma ExampleSetUp(union: bool)
    ensures ColumnsPresent(ExampleTable(), ExampleQuery(union))
    ensures BuildCriteria(ExampleQuery(union)) == map[BusinessNoColumn := ["A"], CompanyNameColumn := ["Y"]]
    ensures Filter(ExampleTable().rows, HasBusinessNo) == ExampleTable().rows
  {
    var rows := ExampleTable().rows;
    assert BusinessNoColumn[0] != CompanyNameColumn[0];
    assert rows[..1][..0] == [] && rows[..1] == [rows[0]];
  }

  /** Union mode: (A, X) matches on the business number and (B, Y) on the name, so both are returned. */
  lemma UnionKeepsBoth()
    ensures SearchRows(ExampleTable(), ExampleQuery(true)) == Ok(ExampleTable().rows)
  {
    ExampleSetUp(true);
    var rows := ExampleTable().rows;
    var cols := BuildCriteria(ExampleQuery(true));
    assert Keep(rows[0], cols, true) by {
      assert Matches(Cell(rows[0], BusinessNoColumn), cols[BusinessNoColumn]);
    }
    assert Keep(rows[1], cols, true) by {
      assert Matches(Cell(rows[1], CompanyNameColumn), cols[CompanyNameColumn]);
    }
    assert rows[..1][..0] == [] && rows[..1] == [rows[0]];
    assert Filter(rows, MaskOf(cols, true)) == rows;
  }

  /** Intersection mode: neither row matches both columns, so none is returned. */
  lemma IntersectionKeepsNone()
    ensures SearchRows(ExampleTable(), ExampleQuery(false)) == Ok([])
  {
    ExampleSetUp(false);
    var rows := ExampleTable().rows;
    var cols := BuildCriteria(ExampleQuery(false));
    assert !Keep(rows[0], cols, false) by {
      assert !Matches(Cell(rows[0], CompanyNameColumn), cols[CompanyNameColumn]);
    }
    assert !Keep(rows[1], cols, false) by {
      assert !Matches(Cell(rows[1], BusinessNoColumn), cols[BusinessNoColumn]);
    }
    assert rows[..1][..0] == [] && rows[..1] == [rows[0]];
    assert Filter(rows, MaskOf(cols, false)) == [];
  }

  /**
   * `search_bod_dataset`: fetch the dataset (with the two formatted clock
   * reads `checkStamp` and `renameStamp`), read it with `load` (the CSV
   * reader, `None` when the file cannot be parsed) and filter it.
   * Exceptions from the fetch propagate unchanged; a directory standing at
   * the dataset's path cannot be read.
   */
  method SearchBodDataset(fs: FileSystem, extractTo: Option<string>, checkStamp: string, renameStamp: string,
                          archive: seq<Entry>, load: Bytes -> Option<Table>, q: BodQuery)
    returns (r: Result<seq<Row>>)
    modifies fs
    ensures var f := FetchSpec(old(fs.files), old(fs.dirs), extractTo, checkStamp, renameStamp, archive);
            && fs.files == f.files
            && fs.dirs == f.dirs
            && fs.downloads == old(fs.downloads) + (if f.downloaded then 1 else 0)
            && (f.result.Err? ==> r == Err(f.result.fault))
            && (f.result.Ok? && f.result.value !in f.files ==> r == Err(IsADirectory))
            && (f.result.Ok? && f.result.value in f.files && load(f.files[f.result.value]).None? ==>
                  r == Err(Unparsable))
            && (f.result.Ok? && f.result.value in f.files && load(f.files[f.result.value]).Some? ==>
                  r == SearchRows(load(f.files[f.result.value]).value, q))
  {
    var dataset := FetchBodDataset(fs, extractTo, checkStamp, renameStamp, archive);
    if dataset.Err? {
      return Err(dataset.fault);
    }
    if dataset.value !in fs.files {
      return Err(IsADirectory);
    }
    var table := load(fs.files[dataset.value]);
    if table.None? {
      return Err(Unparsable);
    }
    r := SearchRows(table.value, q);
  }
}
