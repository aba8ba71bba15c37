/** The modellable slice of diskify.c: choosing the trace rows of a Process
    Monitor CSV export, collecting their paths, the command line, visiting
    every distinct path once, and turning a batch of retrieval pointers into
    extents. */
module Diskify {
  import opened Common
  import opened CsvParse
  import opened LinearProbing
  import opened StringSets

  // ---------------------------------------------------------------------
  // The operation filter

  const READ_FILE: Str := [0x52, 0x65, 0x61, 0x64, 0x46, 0x69, 0x6C, 0x65]  // "ReadFile"
  const WRITE_FILE: Str := [0x57, 0x72, 0x69, 0x74, 0x65, 0x46, 0x69, 0x6C, 0x65]  // "WriteFile"
  const CREATE_FILE: Str := [0x43, 0x72, 0x65, 0x61, 0x74, 0x65, 0x46, 0x69, 0x6C, 0x65]  // "CreateFile"

  /** `strncmp(a, b, n) == 0` on the C strings `a` and `b` (byte strings
      without a NUL): their first `n` bytes agree, the comparison stopping
      early where both end. */
  predicate StrNEqual(a: Str, b: Str, n: nat)
    ensures n <= |a| && n <= |b| ==> (StrNEqual(a, b, n) <==> a[..n] == b[..n])
  {
    if n == 0 then true
    else if a == [] || b == [] then a == b
    else a[0] == b[0] && StrNEqual(a[1..], b[1..], n - 1)
  }

  /** The filter of getPathsFromCSV: `cell` against each operation name,
      comparing as many bytes as `cell` has. */
  predicate IsTraceOperation(cell: Str)
  {
    || StrNEqual(READ_FILE, cell, |cell|)
    || StrNEqual(WRITE_FILE, cell, |cell|)
    || StrNEqual(CREATE_FILE, cell, |cell|)
  }

  /** Comparing a name with a cell over the cell's length asks whether the
      cell is a prefix of the name. */
  lemma {:induction false} StrNEqualIsPrefix(name: Str, cell: Str)
    ensures StrNEqual(name, cell, |cell|) <==> cell <= name
  {
    if cell != [] && name != [] {
      StrNEqualIsPrefix(name[1..], cell[1..]);
      assert cell <= name <==> cell[0] == name[0] && cell[1..] <= name[1..];
    }
  }

  /** A row is a trace row exactly when its Operation cell is a prefix of
      "ReadFile", "WriteFile" or "CreateFile". */
  lemma TraceOperationIsPrefix(cell: Str)
    ensures IsTraceOperation(cell) <==>
      cell <= READ_FILE || cell <= WRITE_FILE || cell <= CREATE_FILE
  {
    StrNEqualIsPrefix(READ_FILE, cell);
    StrNEqualIsPrefix(WRITE_FILE, cell);
    StrNEqualIsPrefix(CREATE_FILE, cell);
  }

  /** No operation name is longer than "CreateFile", so a longer cell,
      such as "CreateFileMapping", never passes; the empty cell always does. */
  lemma LongOperationIsNotTrace(cell: Str)
    ensures |cell| > |CREATE_FILE| ==> !IsTraceOperation(cell)
    ensures cell == [] ==> IsTraceOperation(cell)
  {
    TraceOperationIsPrefix(cell);
  }

  // ---------------------------------------------------------------------
  // Path collection

  const PATH_HEADER: Str := [0x50, 0x61, 0x74, 0x68]  // "Path"
  const OPERATION_HEADER: Str := [0x4F, 0x70, 0x65, 0x72, 0x61, 0x74, 0x69, 0x6F, 0x6E]  // "Operation"

  /** The data rows the collection loop visits: `csvGetNumRows`, or none
      when it is negative. */
  function RowCount(t: CsvTable): (r: nat)
    ensures r == 0 || r == t.numRows - 1
    ensures r < t.numRows || t.numRows == 0
  {
    if NumRows(t) > 0 then NumRows(t) else 0
  }

  /** What one data row adds to the collected paths: its Path cell when its
      Operation cell passes the filter, nothing when it does not, and
      `Status_FAILED` when a lookup fails. A lookup the bounds check lets
      through but the strings do not hold counts as a failure;
      `CollectNeverFails` shows there is none. */
  function RowPaths(t: CsvTable, opColumn: int, pathColumn: int, row: nat): (r: Result<seq<Str>>)
    ensures r.Ok? ==> |r.value| <= 1
    ensures r.Ok? ==> GetCell(t, row, opColumn).Cell?
    ensures r.Ok? && GetCell(t, row, opColumn).Cell? ==>
      (r.value != [] <==> IsTraceOperation(GetCell(t, row, opColumn).text))
  {
    match GetCell(t, row, opColumn)
    case Cell(op) =>
      if !IsTraceOperation(op) then Ok([])
      else (
        match GetCell(t, row, pathColumn)
        case Cell(path) => Ok([path])
        case _ => Failed)
    case _ => Failed
  }

  /** The collection loop over the first `k` rows, row `row` adding
      `rowPaths(row)`: the paths in row order, or `Status_FAILED` from the
      first row whose lookup fails. */
  function Accumulate(rowPaths: nat -> Result<seq<Str>>, k: nat): Result<seq<Str>>
  {
    if k == 0 then Ok([])
    else
      match Accumulate(rowPaths, k - 1)
      case Failed => Failed
      case Ok(paths) =>
        match rowPaths(k - 1)
        case Failed => Failed
        case Ok(more) => Ok(paths + more)
  }

  /** `RowPaths` of table `t`, row by row. */
  function RowPathsOf(t: CsvTable, opColumn: int, pathColumn: int): nat -> Result<seq<Str>>
  {
    (row: nat) => RowPaths(t, opColumn, pathColumn, row)
  }

  /** What getPathsFromCSV holds after the first `k` data rows: the paths
      the rows add, or `Status_FAILED` once a lookup has failed. */
  function CollectRows(t: CsvTable, opColumn: int, pathColumn: int, k: nat): Result<seq<Str>>
  {
    Accumulate(RowPathsOf(t, opColumn, pathColumn), k)
  }

  /** One more row extends the collected paths by what the row adds. */
  lemma CollectStep(t: CsvTable, opColumn: int, pathColumn: int, k: nat, paths: seq<Str>)
    requires CollectRows(t, opColumn, pathColumn, k) == Ok(paths)
    ensures RowPaths(t, opColumn, pathColumn, k).Ok? ==>
      CollectRows(t, opColumn, pathColumn, k + 1) == Ok(paths + RowPaths(t, opColumn, pathColumn, k).value)
    ensures RowPaths(t, opColumn, pathColumn, k).Failed? ==> CollectRows(t, opColumn, pathColumn, k + 1) == Failed
  {
  }

  /** Once a lookup has failed, collection stays failed. */
  lemma {:induction false} CollectFailedStays(t: CsvTable, opColumn: int, pathColumn: int, k: nat, m: nat)
    requires k <= m && CollectRows(t, opColumn, pathColumn, k) == Failed
    ensures CollectRows(t, opColumn, pathColumn, m) == Failed
    decreases m
  {
    if k < m {
      CollectFailedStays(t, opColumn, pathColumn, k, m - 1);
    }
  }

  /** The paths getPathsFromCSV collects from a parsed table. */
  function Collect(t: CsvTable): Result<seq<Str>>
    requires WellFormed(t)
  {
    CollectRows(t, ColumnIndexOf(t, OPERATION_HEADER), ColumnIndexOf(t, PATH_HEADER), RowCount(t))
  }

  /** getPathsFromCSV on the contents of the trace file: `Status_FAILED`
      when it does not parse, its collected paths otherwise. */
  ghost function PathsFromCsv(data: Str): Result<seq<Str>>
  {
    match Parse(data)
    case Failed => Failed
    case Ok(t) => ParseSound(data, t); Collect(t)
  }

  /** getPathsFromCSV after `readEntireFile`: parse, find the Path and
      Operation columns, and copy the Path cell of every trace row. */
  method GetPathsFromCsv(data: Str) returns (r: Result<seq<Str>>)
    ensures r == PathsFromCsv(data)
  {
    var parsed := CsvParse.CsvParse(data);
    if parsed.Failed? {
      return Failed;
    }
    var t := parsed.value;
    ParseSound(data, t);
    var pathColumn := ColumnIndex(t, PATH_HEADER);
    var opColumn := ColumnIndex(t, OPERATION_HEADER);
    r := CollectPaths(t, opColumn, pathColumn);
  }

  /** The row loop of getPathsFromCSV: stops with `Status_FAILED` at the
      first failing lookup, releasing the paths copied so far. */
  method CollectPaths(t: CsvTable, opColumn: int, pathColumn: int) returns (r: Result<seq<Str>>)
    ensures r == CollectRows(t, opColumn, pathColumn, RowCount(t))
  {
    var numRows := NumRows(t);
    var paths := new StringArray();
    var i: nat := 0;
    while i < numRows
      invariant i <= RowCount(t)
      invariant paths.Valid() && fresh(paths.Repr) && paths.capacity > 0
      invariant CollectRows(t, opColumn, pathColumn, i) == Ok(paths.Contents)
      decreases numRows - i
    {
      CollectStep(t, opColumn, pathColumn, i, paths.Contents);
      var ok := AddRowPaths(t, opColumn, pathColumn, i, paths);
      if !ok {
        CollectFailedStays(t, opColumn, pathColumn, i + 1, RowCount(t));
        paths.Free();
        return Failed;
      }
      i := i + 1;
    }
    return Ok(paths.strings[..paths.size]);
  }

  /** One iteration of the row loop: looks up the Operation cell of `row`
      and, when it passes the filter, the Path cell, whose copy goes to the
      end of `paths`. `false` when a lookup fails. */
  method AddRowPaths(t: CsvTable, opColumn: int, pathColumn: int, row: nat, paths: StringArray) returns (ok: bool)
    requires paths.Valid() && paths.capacity > 0
    modifies paths.Repr
    ensures paths.Valid() && fresh(paths.Repr - old(paths.Repr)) && paths.capacity > 0
    ensures ok <==> RowPaths(t, opColumn, pathColumn, row).Ok?
    ensures ok ==> paths.Contents == old(paths.Contents) + RowPaths(t, opColumn, pathColumn, row).value
  {
    var op := GetCell(t, row, opColumn);
    if !op.Cell? {
      return false;
    }
    if IsTraceOperation(op.text) {
      var path := GetCell(t, row, pathColumn);
      if !path.Cell? {
        return false;
      }
      assert path.text[..|path.text|] == path.text;
      var _ := paths.AddCopy(path.text, |path.text|);
    } else {
      assert paths.Contents == old(paths.Contents) + [];
    }
    return true;
  }

  /** The cell a lookup of `row` and `column` reads, by its position in the
      row-major strings. */
  ghost function CellAt(t: CsvTable, row: int, column: int): Str
  {
    var k := (row + 1) * t.numColumns + column;
    if 0 <= k < |t.strings| then CString(t.strings[k]) else []
  }

  /** The rows before `k` that satisfy `p`, in order. */
  ghost function Filter(p: nat -> bool, k: nat): seq<nat>
  {
    if k == 0 then [] else Filter(p, k - 1) + if p(k - 1) then [k - 1] else []
  }

  /** `Filter` lists, in increasing order, exactly the rows before `k` that
      satisfy `p`. */
  lemma {:induction false} FilterAre(p: nat -> bool, k: nat)
    ensures forall j :: 0 <= j < |Filter(p, k)| ==> Filter(p, k)[j] < k
    ensures forall i, j :: 0 <= i < j < |Filter(p, k)| ==> Filter(p, k)[i] < Filter(p, k)[j]
    ensures forall row :: 0 <= row < k ==> (row in Filter(p, k) <==> p(row))
  {
    if k > 0 {
      FilterAre(p, k - 1);
      var rows := Filter(p, k - 1);
      var last := if p(k - 1) then [k - 1] else [];
      var rows' := rows + last;
      assert Filter(p, k) == rows';
      forall i, j | 0 <= i < j < |rows'|
        ensures rows'[i] < rows'[j]
      {
        if j < |rows| {
          assert rows[i] < rows[j];
        } else {
          assert rows[i] < k - 1;
        }
      }
      forall row | 0 <= row < k
        ensures row in rows' <==> p(row)
      {
        if row < k - 1 {
          assert row !in last;
          assert row in rows <==> p(row);
        } else {
          assert row !in rows;
        }
      }
    }
  }

  /** `cell(row)` for every row before `k` that satisfies `p`, in order. */
  ghost function Pick(p: nat -> bool, cell: nat -> Str, k: nat): seq<Str>
  {
    if k == 0 then [] else Pick(p, cell, k - 1) + if p(k - 1) then [cell(k - 1)] else []
  }

  /** `Pick` holds the cells of the rows `Filter` lists, one for one. */
  lemma {:induction false} PickAre(p: nat -> bool, cell: nat -> Str, k: nat)
    ensures |Pick(p, cell, k)| == |Filter(p, k)|
    ensures forall j :: 0 <= j < |Filter(p, k)| ==> Pick(p, cell, k)[j] == cell(Filter(p, k)[j])
  {
    if k > 0 {
      PickAre(p, cell, k - 1);
      var rows, cells := Filter(p, k - 1), Pick(p, cell, k - 1);
      if p(k - 1) {
        var rows', cells' := rows + [k - 1], cells + [cell(k - 1)];
        assert Filter(p, k) == rows' && Pick(p, cell, k) == cells';
        forall j | 0 <= j < |rows'|
          ensures cells'[j] == cell(rows'[j])
        {
          if j < |rows| {
            assert cells'[j] == cells[j] && rows'[j] == rows[j];
          }
        }
      } else {
        assert Filter(p, k) == rows + [] && Pick(p, cell, k) == cells + [];
      }
    }
  }

  /** When row `row` adds its cell if it satisfies `p` and nothing
      otherwise, and no row fails, the loop collects `Pick`. */
  lemma {:induction false} AccumulatePick(rowPaths: nat -> Result<seq<Str>>, p: nat -> bool, cell: nat -> Str, k: nat)
    requires forall row :: 0 <= row < k ==> rowPaths(row) == Ok(if p(row) then [cell(row)] else [])
    ensures Accumulate(rowPaths, k) == Ok(Pick(p, cell, k))
  {
    if k > 0 {
      AccumulatePick(rowPaths, p, cell, k - 1);
    }
  }

  /** Whether data row `row`'s Operation cell passes the filter. */
  ghost function IsTraceRow(t: CsvTable, opColumn: int): nat -> bool
  {
    (row: nat) => IsTraceOperation(CellAt(t, row, opColumn))
  }

  /** The Path cell of each data row. */
  ghost function PathCells(t: CsvTable, pathColumn: int): nat -> Str
  {
    (row: nat) => CellAt(t, row, pathColumn)
  }

  /** The trace rows among the first `k` data rows, in order. */
  ghost function TraceRows(t: CsvTable, opColumn: int, k: nat): seq<nat>
  {
    Filter(IsTraceRow(t, opColumn), k)
  }

  /** `TraceRows` lists, in increasing order, exactly the rows whose
      Operation cell passes the filter. */
  lemma TraceRowsAre(t: CsvTable, opColumn: int, k: nat)
    ensures forall j :: 0 <= j < |TraceRows(t, opColumn, k)| ==> TraceRows(t, opColumn, k)[j] < k
    ensures forall i, j :: 0 <= i < j < |TraceRows(t, opColumn, k)| ==>
      TraceRows(t, opColumn, k)[i] < TraceRows(t, opColumn, k)[j]
    ensures forall row :: 0 <= row < k ==>
      (row in TraceRows(t, opColumn, k) <==> IsTraceOperation(CellAt(t, row, opColumn)))
  {
    FilterAre(IsTraceRow(t, opColumn), k);
  }

  /** The Path cells of the trace rows among the first `k` data rows. */
  ghost function Selected(t: CsvTable, opColumn: int, pathColumn: int, k: nat): seq<Str>
  {
    Pick(IsTraceRow(t, opColumn), PathCells(t, pathColumn), k)
  }

  /** Both lookups of data row `row` succeed. */
  ghost predicate RowInTable(t: CsvTable, opColumn: int, pathColumn: int, row: nat)
  {
    RowPaths(t, opColumn, pathColumn, row) ==
      Ok(if IsTraceOperation(CellAt(t, row, opColumn)) then [CellAt(t, row, pathColumn)] else [])
  }

  /** On a parsed table both lookups of a data row succeed. */
  lemma RowPathsInTable(t: CsvTable, opColumn: int, pathColumn: int, row: nat)
    requires WellFormed(t)
    requires -1 <= opColumn < t.numColumns && -1 <= pathColumn < t.numColumns
    requires row < RowCount(t)
    ensures RowInTable(t, opColumn, pathColumn, row)
  {
    GetCellInTable(t, row, opColumn);
    GetCellInTable(t, row, pathColumn);
  }

  /** When no lookup of the first `k` rows fails, the loop collects the
      selected paths. */
  lemma CollectSelected(t: CsvTable, opColumn: int, pathColumn: int, k: nat)
    requires forall row :: 0 <= row < k ==> RowInTable(t, opColumn, pathColumn, row)
    ensures CollectRows(t, opColumn, pathColumn, k) == Ok(Selected(t, opColumn, pathColumn, k))
  {
    var rowPaths, p, cell := RowPathsOf(t, opColumn, pathColumn), IsTraceRow(t, opColumn), PathCells(t, pathColumn);
    forall row | 0 <= row < k
      ensures rowPaths(row) == Ok(if p(row) then [cell(row)] else [])
    {
      assert RowInTable(t, opColumn, pathColumn, row);
    }
    AccumulatePick(rowPaths, p, cell, k);
  }

  /** On a parsed table no lookup of the collection loop fails. */
  lemma CollectNeverFails(t: CsvTable, opColumn: int, pathColumn: int, k: nat)
    requires WellFormed(t)
    requires -1 <= opColumn < t.numColumns && -1 <= pathColumn < t.numColumns
    requires k <= RowCount(t)
    ensures CollectRows(t, opColumn, pathColumn, k) == Ok(Selected(t, opColumn, pathColumn, k))
  {
    forall row | 0 <= row < k
      ensures RowInTable(t, opColumn, pathColumn, row)
    {
      RowPathsInTable(t, opColumn, pathColumn, row);
    }
    CollectSelected(t, opColumn, pathColumn, k);
  }

  /** On a parsed trace getPathsFromCSV collects, in row order, the Path
      cell of every data row whose Operation cell passes the filter, using
      the first header cells named "Operation" and "Path" (-1 when one is
      missing). */
  lemma PathsFromCsvAre(data: Str, t: CsvTable)
    requires Parse(data) == Ok(t)
    ensures WellFormed(t)
    ensures var opColumn, pathColumn := ColumnIndexOf(t, OPERATION_HEADER), ColumnIndexOf(t, PATH_HEADER);
      var rows := TraceRows(t, opColumn, RowCount(t));
      && PathsFromCsv(data).Ok?
      && |PathsFromCsv(data).value| == |rows|
      && forall j :: 0 <= j < |rows| ==> PathsFromCsv(data).value[j] == CellAt(t, rows[j], pathColumn)
  {
    ParseSound(data, t);
    var opColumn, pathColumn := ColumnIndexOf(t, OPERATION_HEADER), ColumnIndexOf(t, PATH_HEADER);
    CollectNeverFails(t, opColumn, pathColumn, RowCount(t));
    PickAre(IsTraceRow(t, opColumn), PathCells(t, pathColumn), RowCount(t));
  }

  /** getPathsFromCSV fails exactly when the trace does not parse: no cell
      lookup of its loop fails on a parsed table. */
  lemma PathsFromCsvFails(data: Str)
    ensures PathsFromCsv(data).Failed? <==> Parse(data).Failed?
  {
    if Parse(data).Ok? {
      PathsFromCsvAre(data, Parse(data).value);
    }
  }

  // ---------------------------------------------------------------------
  // Argument selection

  const OUTPUT_FLAG: Str := [0x2D, 0x6F]  // "-o"
  const DEFAULT_OUTPUT_FILE: Str := [0x6F, 0x75, 0x74, 0x70, 0x75, 0x74, 0x2E, 0x64, 0x69, 0x73, 0x6B, 0x69, 0x66, 0x79]  // "output.diskify"

  datatype Arguments = Arguments(outputFile: Str, csvPath: Str)

  /** The argument handling of `main`: `Failed` is the usage message and
      exit status 1. */
  function SelectArguments(argv: seq<Str>): (r: Result<Arguments>)
    ensures r.Ok? <==>
      || (|argv| == 4 && CString(argv[1]) == OUTPUT_FLAG)
      || (|argv| == 2 && CString(argv[1]) != OUTPUT_FLAG)
    ensures r.Ok? ==> r.value.csvPath == argv[|argv| - 1]
    ensures r.Ok? ==> r.value.outputFile == if |argv| == 4 then argv[2] else DEFAULT_OUTPUT_FILE
  {
    if |argv| < 2 then Failed
    else if CString(argv[1]) == OUTPUT_FLAG then
      if |argv| != 4 then Failed else Ok(Arguments(argv[2], argv[3]))
    else if |argv| != 2 then Failed
    else Ok(Arguments(DEFAULT_OUTPUT_FILE, argv[1]))
  }

  // ---------------------------------------------------------------------
  // Each distinct path once

  /** The paths as `strcmp` sees them. */
  function Views(paths: seq<Str>): (r: seq<Str>)
    ensures |r| == |paths|
  {
    seq(|paths|, i requires 0 <= i < |paths| => CString(paths[i]))
  }

  /** The distinct paths, each at its first occurrence. */
  function FirstOccurrences(paths: seq<Str>): seq<Str>
  {
    if paths == [] then []
    else
      var seen := FirstOccurrences(paths[..|paths| - 1]);
      var p := CString(paths[|paths| - 1]);
      if p in seen then seen else seen + [p]
  }

  /** Where `x` first occurs in `s`. */
  ghost function FirstIndex(s: seq<Str>, x: Str): (i: nat)
    requires x in s
    ensures i < |s| && s[i] == x && x !in s[..i]
  {
    if s[0] == x then 0 else 1 + FirstIndex(s[1..], x)
  }

  lemma {:induction false} FirstIndexAppend(s: seq<Str>, y: Str, x: Str)
    requires x in s + [y]
    ensures x in s ==> FirstIndex(s + [y], x) == FirstIndex(s, x)
    ensures x !in s ==> FirstIndex(s + [y], x) == |s|
  {
    if s != [] && s[0] != x {
      assert (s + [y])[1..] == s[1..] + [y];
      FirstIndexAppend(s[1..], y, x);
    }
  }

  /** The deduplicated paths are distinct, hold exactly the paths that
      occur, and keep the order of their first occurrences. */
  lemma {:induction false} FirstOccurrencesAre(paths: seq<Str>)
    ensures Distinct(FirstOccurrences(paths))
    ensures forall x :: x in FirstOccurrences(paths) <==> x in Views(paths)
    ensures forall i, j :: 0 <= i < j < |FirstOccurrences(paths)| ==>
      FirstIndex(Views(paths), FirstOccurrences(paths)[i]) < FirstIndex(Views(paths), FirstOccurrences(paths)[j])
    decreases |paths|
  {
    if paths != [] {
      var front := paths[..|paths| - 1];
      FirstOccurrencesAre(front);
      var seen := FirstOccurrences(front);
      var p := CString(paths[|paths| - 1]);
      assert Views(paths) == Views(front) + [p];
      forall x | x in seen
        ensures FirstIndex(Views(paths), x) == FirstIndex(Views(front), x)
      {
        FirstIndexAppend(Views(front), p, x);
      }
      if p !in seen {
        FirstIndexAppend(Views(front), p, p);
        var r := seen + [p];
        forall i, j | 0 <= i < j < |r|
          ensures Differ(r, i, j)
        {
          if j < |seen| {
            assert Differ(seen, i, j);
          }
        }
        forall i, j | 0 <= i < j < |r|
          ensures FirstIndex(Views(paths), r[i]) < FirstIndex(Views(paths), r[j])
        {
          if j == |seen| {
            assert r[i] in seen;
          }
        }
      }
    }
  }

  /** The dedupe loop of `main`: every collected path goes through
      `stringSetAdd`. */
  method DedupePaths(paths: seq<Str>) returns (pathsSet: StringSet)
    ensures pathsSet.Valid() && fresh(pathsSet.Repr)
    ensures pathsSet.Contents == FirstOccurrences(paths)
  {
    pathsSet := new StringSet();
    for i := 0 to |paths|
      invariant pathsSet.Valid() && fresh(pathsSet.Repr)
      invariant pathsSet.Contents == FirstOccurrences(paths[..i])
    {
      FirstOccurrencesStep(paths, i);
      var _ := pathsSet.Add(paths[i]);
    }
    assert paths[..|paths|] == paths;
  }

  /** One more path is added to the distinct paths unless already seen. */
  lemma FirstOccurrencesStep(paths: seq<Str>, i: nat)
    requires i < |paths|
    ensures var seen := FirstOccurrences(paths[..i]);
      FirstOccurrences(paths[..i + 1]) ==
        if CString(paths[i]) in seen then seen else seen + [CString(paths[i])]
  {
    assert paths[..i + 1][..i] == paths[..i];
  }

  /** The visit loop of `main`: the set's strings, by index. */
  method VisitOrder(pathsSet: StringSet) returns (visited: seq<Str>)
    requires pathsSet.Valid()
    ensures visited == pathsSet.Contents
  {
    visited := [];
    for i := 0 to pathsSet.strings.size
      invariant visited == pathsSet.Contents[..i]
    {
      var filePath := pathsSet.GetString(i);
      visited := visited + [filePath];
    }
  }

  /** The paths `main` visits: each distinct collected path once, in the
      order of first occurrence. */
  method VisitPaths(paths: seq<Str>) returns (visited: seq<Str>)
    ensures visited == FirstOccurrences(paths)
  {
    var pathsSet := DedupePaths(paths);
    visited := VisitOrder(pathsSet);
  }

  // ---------------------------------------------------------------------
  // Retrieval-pointer batches

  const U64: int := 0x1_0000_0000_0000_0000

  type u64 = x: int | 0 <= x < 0x1_0000_0000_0000_0000
  type i64 = x: int | -0x8000_0000_0000_0000 <= x < 0x8000_0000_0000_0000

  /** The `lcn` of a pair with no clusters behind it: `(ULONGLONG) -1`. */
  const LLINVALID: u64 := U64 - 1

  /** `MAPPING_PAIR`: the pair's run of virtual clusters ends at `vcn`. */
  datatype MappingPair = MappingPair(vcn: u64, lcn: u64)

  /** `GET_RETRIEVAL_DESCRIPTOR`: `numPairs` is `|pairs|`. */
  datatype Batch = Batch(startVcn: i64, pairs: seq<MappingPair>)

  /** One reported extent: its first cluster, or -1 when unmapped, and its
      length in clusters. */
  datatype Extent = Extent(lcn: int, length: u64)

  /** The batch's starting VCN once assigned to the `uint64_t startVcn`. */
  function Start(batch: Batch): (v: u64)
    ensures batch.startVcn >= 0 ==> v == batch.startVcn
    ensures batch.startVcn < 0 ==> v == batch.startVcn + U64
  {
    batch.startVcn % U64
  }

  /** The VCN before pair `i` of `pairs` when the first follows `start`. */
  function PreviousVcn(pairs: seq<MappingPair>, start: u64, i: nat): u64
    requires i <= |pairs|
  {
    if i == 0 then start else pairs[i - 1].vcn
  }

  /** The VCN before pair `i` of a batch: its start, then each pair's end. */
  function Previous(batch: Batch, i: nat): u64
    requires i <= |batch.pairs|
  {
    PreviousVcn(batch.pairs, Start(batch), i)
  }

  /** How a pair's lcn is reported: -1 when unmapped. */
  function ReportedLcn(pair: MappingPair): int
  {
    if pair.lcn == LLINVALID then -1 else pair.lcn
  }

  /** The extents of `pairs` when the VCN before them is `previous`. */
  function Extents(pairs: seq<MappingPair>, previous: u64): (r: seq<Extent>)
    ensures |r| == |pairs|
  {
    if pairs == [] then []
    else [Extent(ReportedLcn(pairs[0]), (pairs[0].vcn - previous) % U64)] + Extents(pairs[1..], pairs[0].vcn)
  }

  /** The extents `main` prints for one batch: one per mapping pair. */
  function BatchExtents(batch: Batch): (r: seq<Extent>)
    ensures |r| == |batch.pairs|
  {
    Extents(batch.pairs, Start(batch))
  }

  /** Extent `i` comes from pair `i` and the VCN before it. */
  lemma {:induction false} ExtentAt(pairs: seq<MappingPair>, start: u64, i: nat)
    requires i < |pairs|
    ensures |Extents(pairs, start)| == |pairs|
    ensures Extents(pairs, start)[i] ==
      Extent(ReportedLcn(pairs[i]), (pairs[i].vcn - PreviousVcn(pairs, start, i)) % U64)
    decreases i
  {
    if i > 0 {
      ExtentAt(pairs[1..], pairs[0].vcn, i - 1);
      assert pairs[1..][i - 1] == pairs[i];
      if i > 1 {
        assert pairs[1..][i - 2] == pairs[i - 1];
      }
      assert PreviousVcn(pairs[1..], pairs[0].vcn, i - 1) == PreviousVcn(pairs, start, i);
    }
  }

  /** Every pair gives its own extent, never merged with a neighbour: the
      extent of pair `i` runs from the previous VCN to the pair's, in 64-bit
      wrap-around arithmetic, and is unmapped exactly when its lcn is
      `LLINVALID`. */
  lemma BatchExtentsAre(batch: Batch)
    ensures |BatchExtents(batch)| == |batch.pairs|
    ensures forall i :: 0 <= i < |batch.pairs| ==>
      && BatchExtents(batch)[i].length == (batch.pairs[i].vcn - Previous(batch, i)) % U64
      && (batch.pairs[i].lcn == LLINVALID ==> BatchExtents(batch)[i].lcn == -1)
      && (batch.pairs[i].lcn != LLINVALID ==> BatchExtents(batch)[i].lcn == batch.pairs[i].lcn)
  {
    forall i | 0 <= i < |batch.pairs|
      ensures BatchExtents(batch)[i] ==
        Extent(ReportedLcn(batch.pairs[i]), (batch.pairs[i].vcn - Previous(batch, i)) % U64)
    {
      ExtentAt(batch.pairs, Start(batch), i);
    }
  }

  /** The sum of the extents' lengths. */
  function TotalLength(extents: seq<Extent>): (r: int)
    ensures r >= 0
  {
    if extents == [] then 0 else TotalLength(extents[..|extents| - 1]) + extents[|extents| - 1].length
  }

  /** The VCNs of a batch never go down from its start. */
  ghost predicate NonDecreasing(batch: Batch)
  {
    forall i :: 0 <= i < |batch.pairs| ==> Previous(batch, i) <= batch.pairs[i].vcn
  }

  /** On a batch whose VCNs never go down nothing wraps around: each extent
      is exactly the distance between its VCNs, and together they cover
      the batch from its start to its last VCN. */
  lemma {:induction false} NonDecreasingTotal(batch: Batch, k: nat)
    requires NonDecreasing(batch) && k <= |batch.pairs|
    ensures |BatchExtents(batch)| == |batch.pairs|
    ensures TotalLength(BatchExtents(batch)[..k]) == Previous(batch, k) - Start(batch)
    decreases k
  {
    if k > 0 {
      NonDecreasingTotal(batch, k - 1);
      var e := BatchExtents(batch);
      ExtentAt(batch.pairs, Start(batch), k - 1);
      assert Previous(batch, k - 1) <= batch.pairs[k - 1].vcn;
      assert e[k - 1].length == batch.pairs[k - 1].vcn - Previous(batch, k - 1);
      assert e[..k][..k - 1] == e[..k - 1];
    }
  }

  /** The stitching loop of `main` for one batch: each pair's extent runs
      from the running VCN, which starts at the batch's `startVcn`, to the
      pair's VCN, and `totalLen` grows by its length, modulo 2^64. The
      lengths telescope: `totalLen` grows by the last VCN minus the start. */
  method StitchBatch(batch: Batch, totalLen: u64) returns (extents: seq<Extent>, newTotal: u64)
    ensures extents == BatchExtents(batch)
    ensures newTotal == (totalLen + Previous(batch, |batch.pairs|) - Start(batch)) % U64
  {
    var startVcn: u64 := batch.startVcn % U64;
    newTotal := totalLen;
    extents := [];
    for i := 0 to |batch.pairs|
      invariant startVcn == Previous(batch, i)
      invariant extents + Extents(batch.pairs[i..], startVcn) == BatchExtents(batch)
      invariant newTotal == (totalLen + startVcn - Start(batch)) % U64
    {
      var pair := batch.pairs[i];
      var len: u64 := (pair.vcn - startVcn) % U64;
      StitchStep(batch, totalLen, i, startVcn, newTotal);
      extents := extents + [Extent(ReportedLcn(pair), len)];
      newTotal := (newTotal + len) % U64;
      startVcn := pair.vcn;
    }
  }

  /** One pass of the stitching loop: pair `i` gives the first of the
      remaining extents, and adding its length moves the total on to the
      pair's VCN. */
  lemma StitchStep(batch: Batch, totalLen: u64, i: nat, startVcn: u64, newTotal: u64)
    requires i < |batch.pairs| && startVcn == Previous(batch, i)
    requires newTotal == (totalLen + startVcn - Start(batch)) % U64
    ensures var pair := batch.pairs[i];
      && Extents(batch.pairs[i..], startVcn) ==
        [Extent(ReportedLcn(pair), (pair.vcn - startVcn) % U64)] + Extents(batch.pairs[i + 1..], pair.vcn)
      && (newTotal + (pair.vcn - startVcn) % U64) % U64 == (totalLen + pair.vcn - Start(batch)) % U64
  {
    assert batch.pairs[i..][1..] == batch.pairs[i + 1..];
    AddLength(totalLen, Start(batch), startVcn, batch.pairs[i].vcn);
  }

  /** Adding the length of the next extent to a running total moves the
      span it covers on to the extent's end. */
  lemma AddLength(total: u64, start: u64, previous: u64, vcn: u64)
    ensures ((total + previous - start) % U64 + (vcn - previous) % U64) % U64 == (total + vcn - start) % U64
  {
    ModAdd(total + previous - start, vcn - previous);
  }

  /** Reducing the summands modulo 2^64 does not change the sum's residue. */
  lemma ModAdd(a: int, b: int)
    ensures (a % U64 + b % U64) % U64 == (a + b) % U64
  {
    var r, q := a % U64 + b % U64, a / U64 + b / U64;
    assert a + b == q * U64 + r;
    var d := r / U64;
    assert a + b == (q + d) * U64 + r % U64;
    ModUnique(a + b, q + d, r % U64);
  }

  /** The remainder of `y` is the `r` of any split `y == d * 2^64 + r`
      with `0 <= r < 2^64`. */
  lemma ModUnique(y: int, d: int, r: int)
    requires 0 <= r < U64 && y == d * U64 + r
    ensures y % U64 == r
  {
  }

  /** With its VCNs never going down, a batch adds exactly the span from its
      start to its last VCN to `totalLen`, and nothing without pairs. */
  lemma NonDecreasingBatch(batch: Batch)
    requires NonDecreasing(batch)
    ensures TotalLength(BatchExtents(batch)) == Previous(batch, |batch.pairs|) - Start(batch)
    ensures (Previous(batch, |batch.pairs|) - Start(batch)) % U64 == Previous(batch, |batch.pairs|) - Start(batch)
    ensures batch.pairs == [] ==> TotalLength(BatchExtents(batch)) == 0
  {
    NonDecreasingTotal(batch, |batch.pairs|);
    assert BatchExtents(batch)[..|batch.pairs|] == BatchExtents(batch);
  }

  // ---------------------------------------------------------------------
  // The retrieval loop

  const STATUS_SUCCESS: int := 0x0000_0000
  const STATUS_BUFFER_OVERFLOW: int := 0x8000_0005
  const STATUS_PENDING: int := 0x0000_0103

  predicate Continues(status: int)
  {
    status == STATUS_SUCCESS || status == STATUS_BUFFER_OVERFLOW || status == STATUS_PENDING
  }

  /** `n` copies of `s`. */
  function Repeat(s: seq<Extent>, n: nat): (r: seq<Extent>)
    ensures |r| == n * |s|
  {
    if n == 0 then [] else Repeat(s, n - 1) + s
  }

  /** The loop of `main` over the first answer `status` to the retrieval
      request for one file, whose buffer holds `batch`; `waitStatus` is the
      I/O status once a pending request completes. The request is never
      issued again, so the loop reprocesses the same batch until it stops;
      `fuel` bounds the passes, and `exited` says whether the loop left on
      its own. */
  method RetrieveExtents(status: int, waitStatus: int, batch: Batch, fuel: nat)
    returns (extents: seq<Extent>, totalLen: u64, passes: nat, exited: bool)
    ensures !Continues(status) ==> exited && passes == 0 && extents == [] && totalLen == 0
    ensures status == STATUS_PENDING && waitStatus != STATUS_SUCCESS && waitStatus != STATUS_BUFFER_OVERFLOW && fuel > 0 ==>
      exited && passes == 0 && extents == [] && totalLen == 0
    ensures status == STATUS_SUCCESS && fuel > 0 ==>
      && exited && passes == 1 && extents == BatchExtents(batch)
      && totalLen == (Previous(batch, |batch.pairs|) - Start(batch)) % U64
    ensures (status == STATUS_BUFFER_OVERFLOW ||
             (status == STATUS_PENDING && (waitStatus == STATUS_SUCCESS || waitStatus == STATUS_BUFFER_OVERFLOW))) ==>
      !exited && passes == fuel && extents == Repeat(BatchExtents(batch), fuel)
  {
    totalLen := 0;
    extents := [];
    passes := 0;
    exited := !Continues(status);
    while Continues(status) && passes < fuel
      invariant passes <= fuel
      invariant extents == Repeat(BatchExtents(batch), passes)
      invariant passes == 0 ==> totalLen == 0
      invariant exited <==> !Continues(status)
      invariant !Continues(status) ==> passes == 0
      invariant status == STATUS_SUCCESS ==> passes == 0
      invariant status == STATUS_PENDING && waitStatus != STATUS_SUCCESS && waitStatus != STATUS_BUFFER_OVERFLOW ==> passes == 0
      decreases fuel - passes
    {
      if status == STATUS_PENDING {
        if waitStatus != STATUS_SUCCESS && waitStatus != STATUS_BUFFER_OVERFLOW {
          exited := true;
          break;
        }
      }
      var batchExtents;
      batchExtents, totalLen := StitchBatch(batch, totalLen);
      extents := extents + batchExtents;
      passes := passes + 1;
      if status == STATUS_SUCCESS {
        exited := true;
        break;
      }
    }
  }
}
