/** The trace CSV tokenizer of csvParse.c.

    The behaviour is given twice: as functions over the input bytes
    (`QuotedRest`, `UnquotedRest`, `ParseFrom`/`AfterCell`, `Parse`), and as
    the source's imperative procedures (`ParseQuoted`, `ParseUnquoted`,
    `CsvParse`), which advance a cursor and push cells into a `StringArray`
    and are proved to compute the functions. */
module CsvParse {
  import opened Common

  const QUOTE: byte := 0x22
  const COMMA: byte := 0x2C
  const LF: byte := 0x0A
  const CR: byte := 0x0D
  const BOM: Str := [0xEF, 0xBB, 0xBF]

  /** One scanned cell and the cursor position after it. */
  datatype Scan = Scan(cell: Str, next: nat)

  /** What `csvParse` leaves in its `CsvParseState`: every stored cell in
      row-major order, the number of newline-terminated rows and the number
      of cells the first such row had. */
  datatype CsvTable = CsvTable(strings: seq<Str>, numRows: nat, numColumns: nat)

  /** The loop state of `csvParse`. */
  datatype ParseState = ParseState(strings: seq<Str>, numRows: nat, numColumns: nat, columnIndex: nat)
  {
    function Table(): CsvTable { CsvTable(strings, numRows, numColumns) }
    /** A cell has been parsed. */
    function Push(cell: Str): ParseState { this.(strings := strings + [cell], columnIndex := columnIndex + 1) }
    /** A `\n` ended the current row (when it is accepted). */
    function EndRow(): ParseState
    {
      ParseState(strings, numRows + 1, if numRows > 0 then numColumns else columnIndex, 0)
    }
  }

  /** The facts the lookup functions rely on. */
  ghost predicate WellFormed(t: CsvTable)
  {
    && t.numRows * t.numColumns <= |t.strings|
    && t.numColumns <= |t.strings|
    && (t.numRows > 0 ==> t.numColumns > 0)
  }

  predicate NoCR(s: Str)
  {
    forall k :: 0 <= k < |s| ==> s[k] != CR
  }

  /** Where parsing starts: after a UTF-8 byte-order mark, if there is one. */
  function StartOffset(d: Str): (i: nat)
    ensures i == 3 <==> |d| >= 3 && d[..3] == BOM
    ensures i == 0 <==> !(|d| >= 3 && d[..3] == BOM)
  {
    if |d| >= 3 && d[0] == 0xEF && d[1] == 0xBB && d[2] == 0xBF then 3 else 0
  }

  /** The rest of a quoted cell from position `j`, just after its opening
      quote: `""` gives one quote, a lone `"` ends the cell and is consumed,
      `\r` is dropped and everything else (`,` and `\n` included) is kept. */
  function QuotedRest(d: Str, j: nat): (r: Scan)
    requires j <= |d|
    ensures j <= r.next <= |d|
    ensures NoCR(r.cell)
    ensures r.next < |d| ==> j < r.next && d[r.next - 1] == QUOTE
    decreases |d| - j
  {
    if j == |d| then Scan([], j)
    else if d[j] == QUOTE then
      if j + 1 < |d| && d[j + 1] == QUOTE then
        var rest := QuotedRest(d, j + 2);
        Scan([QUOTE] + rest.cell, rest.next)
      else Scan([], j + 1)
    else if d[j] == CR then QuotedRest(d, j + 1)
    else
      var rest := QuotedRest(d, j + 1);
      Scan([d[j]] + rest.cell, rest.next)
  }

  /** The unquoted cell starting at `j`: it stops at `,` or `\n` without
      consuming it, and `\r` is dropped. */
  function UnquotedRest(d: Str, j: nat): (r: Scan)
    requires j <= |d|
    ensures j <= r.next <= |d|
    ensures r.next < |d| ==> d[r.next] == COMMA || d[r.next] == LF
    ensures NoCR(r.cell) && COMMA !in r.cell && LF !in r.cell
    decreases |d| - j
  {
    if j == |d| || d[j] == COMMA || d[j] == LF then Scan([], j)
    else if d[j] == CR then UnquotedRest(d, j + 1)
    else
      var rest := UnquotedRest(d, j + 1);
      Scan([d[j]] + rest.cell, rest.next)
  }

  /** `s` with every `\r` removed. */
  function DropCR(s: Str): (r: Str)
    ensures NoCR(r) && |r| <= |s|
  {
    if s == [] then [] else (if s[0] == CR then [] else [s[0]]) + DropCR(s[1..])
  }

  /** An unquoted cell runs from `j` to the first `,` or `\n` after it (or
      to the end of the data), and its text is those bytes with every `\r`
      removed. */
  lemma {:induction false} UnquotedCell(d: Str, j: nat)
    requires j <= |d|
    ensures var r := UnquotedRest(d, j);
      && (forall k :: j <= k < r.next ==> d[k] != COMMA && d[k] != LF)
      && r.cell == DropCR(d[j..r.next])
    decreases |d| - j
  {
    var r := UnquotedRest(d, j);
    if j == |d| || d[j] == COMMA || d[j] == LF {
      assert d[j..r.next] == [];
    } else {
      UnquotedCell(d, j + 1);
      assert d[j..r.next][1..] == d[j + 1..r.next];
    }
  }

  /** The cell starting at `i`, quoted when its first byte is `"`. */
  function ScanCell(d: Str, i: nat): (r: Scan)
    requires i < |d|
    ensures i <= r.next <= |d|
    ensures NoCR(r.cell)
  {
    if d[i] == QUOTE then QuotedRest(d, i + 1) else UnquotedRest(d, i)
  }

  /** Parsing on from `st` only appends cells and counts rows: the cells
      stored so far stay in front, and once a row is counted the width is
      fixed. */
  ghost predicate Extends(st: ParseState, t: CsvTable)
  {
    && st.strings <= t.strings
    && st.numRows <= t.numRows
    && (st.numRows > 0 ==> t.numColumns == st.numColumns)
  }

  /** The main loop of `csvParse` from cursor `i`: a `\r` before a cell is
      skipped, otherwise one cell is parsed. */
  function ParseFrom(d: Str, i: nat, st: ParseState): (r: Result<CsvTable>)
    requires i <= |d|
    ensures r.Ok? ==> Extends(st, r.value)
    decreases |d| - i, 1
  {
    if i == |d| then Ok(st.Table())
    else if d[i] == CR then ParseFrom(d, i + 1, st)
    else
      var sc := ScanCell(d, i);
      AfterCell(d, sc.next, st.Push(sc.cell))
  }

  /** After a cell, exactly one byte is consumed, whatever it is; it ends the
      row only when it is `\n`. The first row fixes the column count and a
      later row with another count fails the whole parse. */
  function AfterCell(d: Str, e: nat, st: ParseState): (r: Result<CsvTable>)
    requires e <= |d|
    ensures r.Ok? ==> Extends(st, r.value)
    decreases |d| - e, 0
  {
    if e == |d| then Ok(st.Table())
    else if d[e] == LF then
      if st.numRows > 0 && st.columnIndex != st.numColumns then Failed
      else ParseFrom(d, e + 1, st.EndRow())
    else ParseFrom(d, e + 1, st)
  }

  const Initial := ParseState([], 0, 0, 0)

  /** csvParse */
  function Parse(d: Str): Result<CsvTable>
  {
    ParseFrom(d, StartOffset(d), Initial)
  }

  // ---------------------------------------------------------------------
  // The imperative procedures of csvParse.c

  /** csvParseQuoted: `i` is at the opening quote. */
  method ParseQuoted(strings: StringArray, data: Str, i: nat) returns (next: nat)
    requires strings.Valid() && strings.capacity > 0
    requires i < |data| && data[i] == QUOTE
    modifies strings.Repr
    ensures strings.Valid() && fresh(strings.Repr - old(strings.Repr)) && strings.capacity > 0
    ensures strings.Contents == old(strings.Contents) + [QuotedRest(data, i + 1).cell]
    ensures next == QuotedRest(data, i + 1).next
  {
    var cell := new GrowableString();
    next := ReadQuoted(cell, data, i + 1);
    var _ := strings.AddCopy(cell.data[..], cell.size);
    cell.Free();
  }

  /** The scanning loop of `csvParseQuoted`, from `j` just after the opening
      quote: the kept bytes are appended to `cell`. */
  method ReadQuoted(cell: GrowableString, data: Str, j: nat) returns (next: nat)
    requires cell.Valid() && cell.Contents == [] && j <= |data|
    modifies cell.Repr
    ensures cell.Valid() && fresh(cell.Repr - old(cell.Repr))
    ensures cell.data[..][..cell.size] == QuotedRest(data, j).cell
    ensures next == QuotedRest(data, j).next
  {
    ghost var total := QuotedRest(data, j);
    ghost var built: Str := [];
    next := j;
    while next < |data|
      invariant j <= next <= |data|
      invariant cell.Valid() && fresh(cell.Repr - old(cell.Repr)) && cell.Contents == built
      invariant built + QuotedRest(data, next).cell == total.cell
      invariant QuotedRest(data, next).next == total.next
      decreases |data| - next
    {
      var c := data[next];
      var following := if next + 1 < |data| then data[next + 1] else NUL;
      if c == QUOTE {
        if following == QUOTE {
          QuotedKeeps(data, next, built, total);
          cell.Append(QUOTE);
          built := built + [QUOTE];
          next := next + 2;
        } else {
          next := next + 1;
          break;
        }
      } else if c == CR {
        next := next + 1;
      } else {
        QuotedKeeps(data, next, built, total);
        cell.Append(c);
        built := built + [c];
        next := next + 1;
      }
    }
  }

  /** One byte kept by `csvParseQuoted` at position `j`: the cell built so
      far grows by that byte and the scan goes on after the one or two bytes
      consumed. */
  lemma QuotedKeeps(d: Str, j: nat, built: Str, total: Scan)
    requires j < |d| && d[j] != CR
    requires d[j] == QUOTE ==> j + 1 < |d| && d[j + 1] == QUOTE
    requires built + QuotedRest(d, j).cell == total.cell
    requires QuotedRest(d, j).next == total.next
    ensures var k := if d[j] == QUOTE then j + 2 else j + 1;
      (built + [d[j]]) + QuotedRest(d, k).cell == total.cell && QuotedRest(d, k).next == total.next
  {
  }

  /** One byte kept by `csvParseUnquoted` at position `j`. */
  lemma UnquotedKeeps(d: Str, j: nat, built: Str, total: Scan)
    requires j < |d| && d[j] != CR && d[j] != COMMA && d[j] != LF
    requires built + UnquotedRest(d, j).cell == total.cell
    requires UnquotedRest(d, j).next == total.next
    ensures (built + [d[j]]) + UnquotedRest(d, j + 1).cell == total.cell
    ensures UnquotedRest(d, j + 1).next == total.next
  {
  }

  /** csvParseUnquoted: `i` is at the first byte of the cell. */
  method ParseUnquoted(strings: StringArray, data: Str, i: nat) returns (next: nat)
    requires strings.Valid() && strings.capacity > 0
    requires i <= |data|
    modifies strings.Repr
    ensures strings.Valid() && fresh(strings.Repr - old(strings.Repr)) && strings.capacity > 0
    ensures strings.Contents == old(strings.Contents) + [UnquotedRest(data, i).cell]
    ensures next == UnquotedRest(data, i).next
  {
    var cell := new GrowableString();
    next := ReadUnquoted(cell, data, i);
    var _ := strings.AddCopy(cell.data[..], cell.size);
    cell.Free();
  }

  /** The scanning loop of `csvParseUnquoted`: the kept bytes are appended to `cell`. */
  method ReadUnquoted(cell: GrowableString, data: Str, i: nat) returns (next: nat)
    requires cell.Valid() && cell.Contents == [] && i <= |data|
    modifies cell.Repr
    ensures cell.Valid() && fresh(cell.Repr - old(cell.Repr))
    ensures cell.data[..][..cell.size] == UnquotedRest(data, i).cell
    ensures next == UnquotedRest(data, i).next
  {
    ghost var total := UnquotedRest(data, i);
    ghost var built: Str := [];
    next := i;
    while next < |data|
      invariant i <= next <= |data|
      invariant cell.Valid() && fresh(cell.Repr - old(cell.Repr)) && cell.Contents == built
      invariant built + UnquotedRest(data, next).cell == total.cell
      invariant UnquotedRest(data, next).next == total.next
      decreases |data| - next
    {
      var c := data[next];
      if c == COMMA || c == LF {
        break;
      } else if c == CR {
        next := next + 1;
      } else {
        UnquotedKeeps(data, next, built, total);
        cell.Append(c);
        built := built + [c];
        next := next + 1;
      }
    }
  }

  /** The cell dispatch of `csvParse`: a cell is quoted when it starts with `"`. */
  method ParseCell(strings: StringArray, data: Str, i: nat) returns (next: nat)
    requires strings.Valid() && strings.capacity > 0
    requires i < |data|
    modifies strings.Repr
    ensures strings.Valid() && fresh(strings.Repr - old(strings.Repr)) && strings.capacity > 0
    ensures strings.Contents == old(strings.Contents) + [ScanCell(data, i).cell]
    ensures next == ScanCell(data, i).next
  {
    if data[i] == QUOTE {
      next := ParseQuoted(strings, data, i);
    } else {
      next := ParseUnquoted(strings, data, i);
    }
  }

  /** csvParse: the whole tokenizer, computing exactly `Parse(data)`. */
  method CsvParse(data: Str) returns (r: Result<CsvTable>)
    ensures r == Parse(data)
  {
    var strings := new StringArray();
    var numRows: nat, numColumns: nat := 0, 0;
    var i: nat := 0;
    var columnIndex: nat := 0;
    if |data| >= 3 && data[0] == 0xEF && data[1] == 0xBB && data[2] == 0xBF {
      i := 3;
    }

    ghost var st := Initial;
    while i < |data|
      invariant i <= |data|
      invariant strings.Valid() && fresh(strings.Repr) && strings.capacity > 0
      invariant st == ParseState(strings.Contents, numRows, numColumns, columnIndex)
      invariant ParseFrom(data, i, st) == Parse(data)
      decreases |data| - i
    {
      if data[i] == CR {
        SkipCR(data, i, st);
        i := i + 1;
        continue;
      }
      CellParsed(data, i, st);
      ghost var cell := ScanCell(data, i).cell;
      i := ParseCell(strings, data, i);
      columnIndex := columnIndex + 1;
      st := st.Push(cell);
      assert AfterCell(data, i, st) == Parse(data);

      if i >= |data| {
        assert Parse(data) == Ok(CsvTable(strings.Contents, numRows, numColumns));
        break;
      }

      if data[i] == LF {
        AfterNewline(data, i, st);
        if numRows > 0 {
          if columnIndex != numColumns {
            strings.Free();
            return Failed;
          }
        } else {
          numColumns := columnIndex;
        }
        columnIndex := 0;
        numRows := numRows + 1;
        st := st.EndRow();
      } else {
        AfterSeparator(data, i, st);
      }
      i := i + 1;
    }

    r := Ok(CsvTable(strings.strings[..strings.size], numRows, numColumns));
  }

  /** A `\r` before a cell is skipped. */
  lemma SkipCR(d: Str, i: nat, st: ParseState)
    requires i < |d| && d[i] == CR
    ensures ParseFrom(d, i, st) == ParseFrom(d, i + 1, st)
  {
  }

  /** Any other byte starts a cell, which is pushed. */
  lemma CellParsed(d: Str, i: nat, st: ParseState)
    requires i < |d| && d[i] != CR
    ensures ParseFrom(d, i, st) == AfterCell(d, ScanCell(d, i).next, st.Push(ScanCell(d, i).cell))
  {
  }

  /** A byte after a cell that is not `\n` is consumed and the row goes on. */
  lemma AfterSeparator(d: Str, e: nat, st: ParseState)
    requires e < |d| && d[e] != LF
    ensures AfterCell(d, e, st) == ParseFrom(d, e + 1, st)
  {
  }

  /** A `\n` after a cell ends the row, or fails the parse when the row's
      width differs from the fixed one. */
  lemma AfterNewline(d: Str, e: nat, st: ParseState)
    requires e < |d| && d[e] == LF
    ensures AfterCell(d, e, st) ==
      if st.numRows > 0 && st.columnIndex != st.numColumns then Failed
      else ParseFrom(d, e + 1, st.EndRow())
  {
  }

  // ---------------------------------------------------------------------
  // Lookups on a parsed table

  /** The first of the header cells `k .. n-1` equal to `name` as C strings. */
  function FindHeader(strings: seq<Str>, name: Str, k: nat, n: nat): (r: int)
    requires k <= n <= |strings|
    ensures r == -1 || k <= r < n
    ensures r >= 0 ==> CString(strings[r]) == CString(name)
    ensures r >= 0 ==> forall j :: k <= j < r ==> CString(strings[j]) != CString(name)
    ensures r == -1 ==> forall j :: k <= j < n ==> CString(strings[j]) != CString(name)
    decreases n - k
  {
    if k == n then -1
    else if CString(strings[k]) == CString(name) then k
    else FindHeader(strings, name, k + 1, n)
  }

  /** The column `csvGetColumnIndex` reports for `name`. */
  function ColumnIndexOf(t: CsvTable, name: Str): int
    requires WellFormed(t)
  {
    FindHeader(t.strings, name, 0, t.numColumns)
  }

  /** csvGetColumnIndex: the first header cell equal to `name` (an exact,
      case-sensitive `strcmp`), or -1 when there is none. */
  method ColumnIndex(t: CsvTable, name: Str) returns (r: int)
    requires WellFormed(t)
    ensures r == ColumnIndexOf(t, name)
    ensures -1 <= r < t.numColumns
  {
    for i := 0 to t.numColumns
      invariant forall j :: 0 <= j < i ==> CString(t.strings[j]) != CString(name)
    {
      if CString(t.strings[i]) == CString(name) {
        return i;
      }
    }
    return -1;
  }

  /** csvGetNumRows: the data rows, that is the counted rows but the header. */
  function NumRows(t: CsvTable): int
  {
    t.numRows - 1
  }

  /** What `csvGetCell` yields: the cell (as `strlen` sees it), `Status_FAILED`
      when its bounds check rejects the request, or `BadIndex` when the check
      lets through a position that `stringArrayGet` does not hold. */
  datatype CellLookup = Cell(text: Str) | CellFailed | BadIndex

  /** csvGetCell, with the bounds check as written (`>`, not `>=`). */
  function GetCell(t: CsvTable, row: int, column: int): (r: CellLookup)
    ensures r != CellFailed <==> row < t.numRows && column <= t.numColumns
  {
    var stored := row + 1;
    if stored > t.numRows || column > t.numColumns then CellFailed
    else
      var index := stored * t.numColumns + column;
      if 0 <= index < |t.strings| then Cell(CString(t.strings[index])) else BadIndex
  }

  /** The column check uses `>`, so column `numColumns` passes it and reads
      the first cell of the next row. */
  lemma GetCellPastWidth(t: CsvTable, row: int)
    requires row + 1 < t.numRows
    ensures GetCell(t, row, t.numColumns) == GetCell(t, row + 1, 0)
  {
    assert (row + 1) * t.numColumns + t.numColumns == (row + 2) * t.numColumns;
  }

  /** Every lookup the trace reader makes succeeds: a data row before the
      last counted one, and a column found in the header or the -1 of a
      missing one. With -1 the cell read is the last one of the previous row. */
  lemma GetCellInTable(t: CsvTable, row: int, column: int)
    requires WellFormed(t)
    requires 0 <= row < t.numRows - 1 && -1 <= column < t.numColumns
    ensures var k := (row + 1) * t.numColumns + column;
      0 <= k < |t.strings| && GetCell(t, row, column) == Cell(CString(t.strings[k]))
  {
    var n, a := t.numColumns, row + 1;
    MulGrows(a + 1, t.numRows, n);
    MulGrows(1, a, n);
    assert (a + 1) * n == a * n + n;
  }

  lemma MulGrows(a: int, b: int, n: nat)
    requires a <= b
    ensures a * n <= b * n
  {
  }

  /** The bounds check lets through the row just past the last counted one:
      with every row terminated by `\n`, that lookup reads past the stored cells. */
  lemma GetCellPastLastRow(t: CsvTable, column: int)
    requires WellFormed(t) && t.numRows > 0
    requires |t.strings| == t.numRows * t.numColumns
    requires 0 <= column <= t.numColumns
    ensures GetCell(t, t.numRows - 1, column) == BadIndex
  {
  }

  // ---------------------------------------------------------------------
  // Properties of the parse

  /** Invariant of the parse loop: the counted rows are full and no stored
      cell holds a `\r`. */
  ghost predicate Sound(st: ParseState)
  {
    && |st.strings| == st.numRows * st.numColumns + st.columnIndex
    && (st.numRows > 0 ==> st.numColumns > 0)
    && (st.numRows == 0 ==> st.numColumns == 0)
    && forall k :: 0 <= k < |st.strings| ==> NoCR(st.strings[k])
  }

  ghost predicate SoundTable(t: CsvTable)
  {
    WellFormed(t) && forall k :: 0 <= k < |t.strings| ==> NoCR(t.strings[k])
  }

  lemma {:induction false} SoundTableOf(st: ParseState)
    requires Sound(st)
    ensures SoundTable(st.Table())
  {
    if st.numRows > 0 {
      assert st.numColumns <= st.numRows * st.numColumns;
    }
  }

  lemma {:induction false} ParseFromSound(d: Str, i: nat, st: ParseState)
    requires i <= |d| && Sound(st)
    ensures ParseFrom(d, i, st).Ok? ==> SoundTable(ParseFrom(d, i, st).value)
    decreases |d| - i, 1
  {
    if i == |d| {
      SoundTableOf(st);
    } else if d[i] == CR {
      ParseFromSound(d, i + 1, st);
    } else {
      var sc := ScanCell(d, i);
      AfterCellSound(d, sc.next, st.Push(sc.cell));
    }
  }

  lemma {:induction false} AfterCellSound(d: Str, e: nat, st: ParseState)
    requires e <= |d|
    requires st.columnIndex > 0
    requires |st.strings| == st.numRows * st.numColumns + st.columnIndex
    requires st.numRows > 0 ==> st.numColumns > 0
    requires st.numRows == 0 ==> st.numColumns == 0
    requires forall k :: 0 <= k < |st.strings| ==> NoCR(st.strings[k])
    ensures AfterCell(d, e, st).Ok? ==> SoundTable(AfterCell(d, e, st).value)
    decreases |d| - e, 0
  {
    if e == |d| {
      SoundTableOf(st);
    } else if d[e] == LF {
      if !(st.numRows > 0 && st.columnIndex != st.numColumns) {
        var st' := st.EndRow();
        if st.numRows > 0 {
          assert |st'.strings| == st'.numRows * st'.numColumns by {
            assert (st.numRows + 1) * st.numColumns == st.numRows * st.numColumns + st.numColumns;
          }
        }
        ParseFromSound(d, e + 1, st');
      }
    } else {
      ParseFromSound(d, e + 1, st);
    }
  }

  /** A successful parse stores no `\r` in any cell, its counted rows are all
      full, and at least one header cell exists once a row is counted. */
  lemma ParseSound(d: Str, t: CsvTable)
    requires Parse(d) == Ok(t)
    ensures SoundTable(t)
  {
    assert ParseFrom(d, StartOffset(d), Initial) == Ok(t);
    ParseFromSoundOk(d, StartOffset(d), Initial, t);
  }

  lemma ParseFromSoundOk(d: Str, i: nat, st: ParseState, t: CsvTable)
    requires i <= |d| && Sound(st) && ParseFrom(d, i, st) == Ok(t)
    ensures SoundTable(t)
  {
    ParseFromSound(d, i, st);
  }
}
