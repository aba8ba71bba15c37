/** A reference writer for the CSV dialect `csvParse` reads, and what the
    parser makes of its output: every cell quoted (a quote inside a cell is
    doubled, as section 2 of RFC 4180 asks), cells separated by `,`, rows
    ended by `\n`, and optionally a last row with no `\n`. */
module CsvFormat {
  import opened Common
  import opened CsvParse

  /** One cell byte as written inside quotes. */
  function EscapeByte(c: byte): Str
  {
    if c == QUOTE then [QUOTE, QUOTE] else [c]
  }

  /** The body of a quoted cell: each quote doubled. */
  function Escape(s: Str): (r: Str)
    ensures |r| >= |s|
  {
    if s == [] then [] else EscapeByte(s[0]) + Escape(s[1..])
  }

  function QuoteCell(s: Str): Str
  {
    [QUOTE] + (Escape(s) + [QUOTE])
  }

  /** Quoted cells joined by `,`. */
  function EncodeCells(cells: seq<Str>): Str
  {
    if cells == [] then []
    else if |cells| == 1 then QuoteCell(cells[0])
    else QuoteCell(cells[0]) + ([COMMA] + EncodeCells(cells[1..]))
  }

  /** Rows, each ended by `\n`. */
  function EncodeRows(rows: seq<seq<Str>>): Str
  {
    if rows == [] then [] else (EncodeCells(rows[0]) + [LF]) + EncodeRows(rows[1..])
  }

  /** The cells of `rows` in row-major order. */
  function Flatten(rows: seq<seq<Str>>): seq<Str>
  {
    if rows == [] then [] else rows[0] + Flatten(rows[1..])
  }

  /** Cells the writer can represent: no `\r`, which the parser drops. */
  ghost predicate Writable(cells: seq<Str>)
  {
    forall k :: 0 <= k < |cells| ==> NoCR(cells[k])
  }

  /** Rows the writer can represent: each has a cell (an empty line reads as
      one empty cell) and no cell holds a `\r`. */
  ghost predicate WritableRows(rows: seq<seq<Str>>)
  {
    forall r :: 0 <= r < |rows| ==> |rows[r]| > 0 && Writable(rows[r])
  }

  ghost predicate AllWidth(rows: seq<seq<Str>>, w: nat)
  {
    forall r :: 0 <= r < |rows| ==> |rows[r]| == w
  }

  /** Every row has as many cells as the first. */
  ghost predicate Rectangular(rows: seq<seq<Str>>)
  {
    rows == [] || AllWidth(rows, |rows[0]|)
  }

  /** The parse state after the cells of `cells` were pushed. */
  function PushAll(st: ParseState, cells: seq<Str>): ParseState
  {
    st.(strings := st.strings + cells, columnIndex := st.columnIndex + |cells|)
  }

  // ---------------------------------------------------------------------
  // Positions in the input

  /** `d` holds the bytes `w` from position `i`. */
  ghost predicate At(d: Str, i: nat, w: Str)
    decreases |w|
  {
    i + |w| <= |d| && (w == [] || (d[i] == w[0] && At(d, i + 1, w[1..])))
  }

  /** The byte at `k`, if any, is not a quote. */
  ghost predicate NoQuoteAt(d: Str, k: nat)
  {
    k < |d| ==> d[k] != QUOTE
  }

  lemma {:induction false} AtSplit(d: Str, i: nat, a: Str, b: Str)
    requires At(d, i, a + b)
    ensures At(d, i, a) && At(d, i + |a|, b)
    decreases |a|
  {
    if a == [] {
      assert a + b == b;
    } else {
      assert (a + b)[0] == a[0];
      assert (a + b)[1..] == a[1..] + b;
      AtSplit(d, i + 1, a[1..], b);
    }
  }

  lemma {:induction false} AtByte(d: Str, i: nat, w: Str, k: nat)
    requires At(d, i, w) && k < |w|
    ensures d[i + k] == w[k]
    decreases k
  {
    if k > 0 {
      AtByte(d, i + 1, w[1..], k - 1);
    }
  }

  lemma {:induction false} AtSuffix(d: Str, i: nat)
    requires i <= |d|
    ensures At(d, i, d[i..])
    decreases |d| - i
  {
    if i < |d| {
      assert d[i..][1..] == d[i + 1..];
      AtSuffix(d, i + 1);
    }
  }

  lemma AtAll(d: Str)
    ensures At(d, 0, d)
  {
    AtSuffix(d, 0);
    assert d[0..] == d;
  }

  // ---------------------------------------------------------------------
  // One quoted cell

  lemma NoCRTail(s: Str)
    requires s != [] && NoCR(s)
    ensures NoCR(s[1..]) && s[0] != CR
  {
    assert forall k :: 0 <= k < |s| - 1 ==> s[1..][k] == s[k + 1];
  }

  /** One written byte of a quoted cell: `""` stands for a quote, any other
      byte but `\r` for itself. */
  lemma QuotedStep(d: Str, j: nat, c: byte, rest: Scan)
    requires c != CR && j + |EscapeByte(c)| <= |d|
    requires d[j] == c && (c == QUOTE ==> d[j + 1] == QUOTE)
    requires QuotedRest(d, j + |EscapeByte(c)|) == rest
    ensures QuotedRest(d, j) == Scan([c] + rest.cell, rest.next)
  {
  }

  /** How a written non-empty cell body lies in `d`: its first byte
      (doubled when it is a quote), then the rest. */
  lemma QuotedLayout(d: Str, j: nat, s: Str)
    requires s != [] && At(d, j, Escape(s) + [QUOTE])
    ensures var w := EscapeByte(s[0]);
      && j + |w| <= |d| && d[j] == s[0] && (s[0] == QUOTE ==> d[j + 1] == QUOTE)
      && At(d, j + |w|, Escape(s[1..]) + [QUOTE])
      && |Escape(s)| == |w| + |Escape(s[1..])|
  {
    var w := EscapeByte(s[0]);
    assert Escape(s) + [QUOTE] == w + (Escape(s[1..]) + [QUOTE]);
    AtSplit(d, j, w, Escape(s[1..]) + [QUOTE]);
    AtByte(d, j, w, 0);
    if s[0] == QUOTE {
      AtByte(d, j, w, 1);
    }
  }

  /** Reading a quoted cell written by `QuoteCell` gives back the cell and
      consumes its closing quote, provided the next byte is not a quote. */
  lemma {:induction false} QuotedRoundTrip(d: Str, j: nat, s: Str)
    requires NoCR(s)
    requires At(d, j, Escape(s) + [QUOTE])
    requires NoQuoteAt(d, j + |Escape(s)| + 1)
    ensures QuotedRest(d, j) == Scan(s, j + |Escape(s)| + 1)
    decreases |s|
  {
    if s == [] {
      AtByte(d, j, Escape(s) + [QUOTE], 0);
    } else {
      var k := j + |EscapeByte(s[0])|;
      NoCRTail(s);
      QuotedLayout(d, j, s);
      QuotedRoundTrip(d, k, s[1..]);
      QuotedStep(d, j, s[0], QuotedRest(d, k));
      assert s == [s[0]] + s[1..];
    }
  }

  /** A text without `\r` is its own `DropCR`. */
  lemma {:induction false} DropCRNoCR(s: Str)
    requires NoCR(s)
    ensures DropCR(s) == s
  {
    if s != [] {
      DropCRNoCR(s[1..]);
    }
  }

  /** A cell written unquoted, without `,`, `\n` or `\r`, and followed by a
      separator or the end of the data, reads back as itself and stops at
      the separator. */
  lemma UnquotedRoundTrip(s: Str, rest: Str)
    requires NoCR(s) && COMMA !in s && LF !in s
    requires rest == [] || rest[0] == COMMA || rest[0] == LF
    ensures UnquotedRest(s + rest, 0) == Scan(s, |s|)
  {
    var d := s + rest;
    UnquotedCell(d, 0);
    assert d[..|s|] == s;
    if rest != [] {
      assert d[|s|] == rest[0];
    }
    DropCRNoCR(s);
  }

  /** Parsing one written cell pushes exactly that cell. */
  lemma CellStep(d: Str, i: nat, c: Str, st: ParseState)
    requires NoCR(c)
    requires At(d, i, QuoteCell(c))
    requires NoQuoteAt(d, i + |QuoteCell(c)|)
    ensures ParseFrom(d, i, st) == AfterCell(d, i + |QuoteCell(c)|, st.Push(c))
  {
    AtSplit(d, i, [QUOTE], Escape(c) + [QUOTE]);
    AtByte(d, i, [QUOTE], 0);
    QuotedRoundTrip(d, i + 1, c);
  }

  lemma EncodeCellsCons(cells: seq<Str>)
    requires |cells| > 1
    ensures EncodeCells(cells) == QuoteCell(cells[0]) + ([COMMA] + EncodeCells(cells[1..]))
  {
  }

  lemma WritableTail(cells: seq<Str>)
    requires cells != [] && Writable(cells)
    ensures NoCR(cells[0]) && Writable(cells[1..])
  {
    assert forall k :: 0 <= k < |cells| - 1 ==> cells[1..][k] == cells[k + 1];
  }

  lemma AppendFirst(a: seq<Str>, cells: seq<Str>)
    requires cells != []
    ensures (a + [cells[0]]) + cells[1..] == a + cells
  {
    assert cells == [cells[0]] + cells[1..];
  }

  /** How a written run of two or more cells lies in `d`: the first quoted
      cell, a `,`, then the others. */
  lemma CellsLayout(d: Str, i: nat, cells: seq<Str>)
    requires |cells| > 1 && At(d, i, EncodeCells(cells))
    ensures var q := |QuoteCell(cells[0])|;
      && At(d, i, QuoteCell(cells[0]))
      && i + q < |d| && d[i + q] == COMMA
      && At(d, i + q + 1, EncodeCells(cells[1..]))
      && |EncodeCells(cells)| == q + 1 + |EncodeCells(cells[1..])|
  {
    var q := |QuoteCell(cells[0])|;
    EncodeCellsCons(cells);
    AtSplit(d, i, QuoteCell(cells[0]), [COMMA] + EncodeCells(cells[1..]));
    AtSplit(d, i + q, [COMMA], EncodeCells(cells[1..]));
    AtByte(d, i + q, [COMMA], 0);
  }

  /** A written cell followed by `,`: the parse goes on after the `,` with
      the cell pushed. */
  lemma CellThenComma(d: Str, i: nat, c: Str, st: ParseState)
    requires NoCR(c) && At(d, i, QuoteCell(c))
    requires i + |QuoteCell(c)| < |d| && d[i + |QuoteCell(c)|] == COMMA
    ensures ParseFrom(d, i, st) == ParseFrom(d, i + |QuoteCell(c)| + 1, st.Push(c))
  {
    CellStep(d, i, c, st);
    AfterSeparator(d, i + |QuoteCell(c)|, st.Push(c));
  }

  /** Parsing a written run of cells pushes exactly those cells, and stops
      on the byte after the last one. */
  lemma {:induction false} CellsStep(d: Str, i: nat, cells: seq<Str>, st: ParseState)
    requires |cells| > 0 && Writable(cells)
    requires At(d, i, EncodeCells(cells))
    requires NoQuoteAt(d, i + |EncodeCells(cells)|)
    ensures ParseFrom(d, i, st) == AfterCell(d, i + |EncodeCells(cells)|, PushAll(st, cells))
    decreases |cells|
  {
    var c := cells[0];
    WritableTail(cells);
    if |cells| == 1 {
      CellStep(d, i, c, st);
      assert PushAll(st, cells) == st.Push(c);
    } else {
      CellsLayout(d, i, cells);
      CellThenComma(d, i, c, st);
      CellsStep(d, i + |QuoteCell(c)| + 1, cells[1..], st.Push(c));
      AppendFirst(st.strings, cells);
    }
  }

  // ---------------------------------------------------------------------
  // Whole tables

  /** `d` holds, from `i` to its end, the written `rows` followed by the
      written last row `tail`. */
  ghost predicate RowsAt(d: Str, i: nat, rows: seq<seq<Str>>, tail: seq<Str>)
    decreases |rows|
  {
    if rows == [] then At(d, i, EncodeCells(tail)) && i + |EncodeCells(tail)| == |d|
    else At(d, i, EncodeCells(rows[0]) + [LF]) && RowsAt(d, i + |EncodeCells(rows[0])| + 1, rows[1..], tail)
  }

  lemma {:induction false} RowsAtOf(d: Str, i: nat, rows: seq<seq<Str>>, tail: seq<Str>)
    requires At(d, i, EncodeRows(rows) + EncodeCells(tail))
    requires i + |EncodeRows(rows) + EncodeCells(tail)| == |d|
    ensures RowsAt(d, i, rows, tail)
    decreases |rows|
  {
    if rows == [] {
      assert EncodeRows(rows) + EncodeCells(tail) == EncodeCells(tail);
    } else {
      var line := EncodeCells(rows[0]) + [LF];
      var after := EncodeRows(rows[1..]) + EncodeCells(tail);
      assert EncodeRows(rows) + EncodeCells(tail) == line + after;
      AtSplit(d, i, line, after);
      RowsAtOf(d, i + |line|, rows[1..], tail);
    }
  }

  /** The cells of a written row that ends in `\n`, read after a row
      boundary: the row is pushed and ended, or the parse fails when a width
      is already fixed and the row has another. */
  lemma RowStep(d: Str, i: nat, row: seq<Str>, st: ParseState)
    requires |row| > 0 && Writable(row) && st.columnIndex == 0
    requires At(d, i, EncodeCells(row) + [LF])
    ensures ParseFrom(d, i, st) ==
      if st.numRows > 0 && |row| != st.numColumns then Failed
      else ParseFrom(d, i + |EncodeCells(row)| + 1, PushAll(st, row).EndRow())
  {
    var n := |EncodeCells(row)|;
    AtSplit(d, i, EncodeCells(row), [LF]);
    AtByte(d, i + n, [LF], 0);
    CellsStep(d, i, row, st);
    AfterNewline(d, i + n, PushAll(st, row));
  }

  /** A last row written without `\n` is pushed and the parse ends. */
  lemma TailStep(d: Str, i: nat, tail: seq<Str>, st: ParseState)
    requires Writable(tail)
    requires At(d, i, EncodeCells(tail)) && i + |EncodeCells(tail)| == |d|
    ensures ParseFrom(d, i, st) == Ok(PushAll(st, tail).Table())
  {
    if tail == [] {
      assert PushAll(st, tail) == st;
    } else {
      CellsStep(d, i, tail, st);
    }
  }

  lemma RowsCons(rows: seq<seq<Str>>, w: nat)
    requires rows != [] && WritableRows(rows)
    ensures |rows[0]| > 0 && Writable(rows[0]) && WritableRows(rows[1..])
    ensures AllWidth(rows, w) <==> |rows[0]| == w && AllWidth(rows[1..], w)
    ensures Flatten(rows) == rows[0] + Flatten(rows[1..])
  {
    var more := rows[1..];
    assert forall r :: 0 <= r < |more| ==> more[r] == rows[r + 1];
    if |rows[0]| == w && AllWidth(more, w) {
      forall r | 0 <= r < |rows| ensures |rows[r]| == w {
        if r > 0 {
          assert rows[r] == more[r - 1];
        }
      }
    }
  }

  /** What parsing the written `rows` and `tail` yields once the header
      fixed the width `st.numColumns`. */
  ghost function AfterHeader(st: ParseState, rows: seq<seq<Str>>, tail: seq<Str>): Result<CsvTable>
  {
    if AllWidth(rows, st.numColumns)
    then Ok(CsvTable(st.strings + Flatten(rows) + tail, st.numRows + |rows|, st.numColumns))
    else Failed
  }

  lemma AfterHeaderEmpty(st: ParseState, tail: seq<Str>)
    ensures AfterHeader(st, [], tail) == Ok(PushAll(st, tail).Table())
  {
    assert st.strings + Flatten([]) + tail == st.strings + tail;
  }

  /** One more row: rejected unless it has the fixed width. */
  lemma AfterHeaderCons(st: ParseState, rows: seq<seq<Str>>, tail: seq<Str>)
    requires rows != [] && WritableRows(rows) && st.numRows > 0 && st.columnIndex == 0
    ensures AfterHeader(st, rows, tail) ==
      if |rows[0]| != st.numColumns then Failed
      else AfterHeader(PushAll(st, rows[0]).EndRow(), rows[1..], tail)
  {
    RowsCons(rows, st.numColumns);
    var st1 := PushAll(st, rows[0]).EndRow();
    assert st1.numColumns == st.numColumns;
    assert st1.strings + Flatten(rows[1..]) + tail == st.strings + Flatten(rows) + tail;
  }

  /** Once the header fixed the width `st.numColumns`, the written rows are
      accepted exactly when each has that width; a last row without `\n`
      (`tail`) is stored whatever its width, and not counted. */
  lemma {:induction false} RowsAfterHeader(d: Str, i: nat, rows: seq<seq<Str>>, tail: seq<Str>, st: ParseState)
    requires st.numRows > 0 && st.columnIndex == 0
    requires WritableRows(rows) && Writable(tail)
    requires RowsAt(d, i, rows, tail)
    ensures ParseFrom(d, i, st) == AfterHeader(st, rows, tail)
    decreases |rows|
  {
    if rows == [] {
      TailStep(d, i, tail, st);
      AfterHeaderEmpty(st, tail);
    } else {
      RowsCons(rows, st.numColumns);
      RowStep(d, i, rows[0], st);
      AfterHeaderCons(st, rows, tail);
      if |rows[0]| == st.numColumns {
        RowsAfterHeader(d, i + |EncodeCells(rows[0])| + 1, rows[1..], tail, PushAll(st, rows[0]).EndRow());
      }
    }
  }

  /** The header row read from the initial state fixes the width. */
  lemma HeaderRow(rows: seq<seq<Str>>, tail: seq<Str>)
    requires rows != [] && WritableRows(rows)
    ensures PushAll(Initial, rows[0]).EndRow() == ParseState(rows[0], 1, |rows[0]|, 0)
    ensures AfterHeader(ParseState(rows[0], 1, |rows[0]|, 0), rows[1..], tail) ==
      if Rectangular(rows) then Ok(CsvTable(Flatten(rows) + tail, |rows|, |rows[0]|)) else Failed
  {
    RowsCons(rows, |rows[0]|);
    assert rows[0] + Flatten(rows[1..]) + tail == Flatten(rows) + tail;
  }

  /** The first written row fixes the width; the rest follow `RowsAfterHeader`. */
  lemma ParseWrittenAt(d: Str, rows: seq<seq<Str>>, tail: seq<Str>)
    requires WritableRows(rows) && Writable(tail)
    requires RowsAt(d, 0, rows, tail)
    ensures ParseFrom(d, 0, Initial) ==
      if rows == [] then Ok(CsvTable(tail, 0, 0))
      else if Rectangular(rows) then Ok(CsvTable(Flatten(rows) + tail, |rows|, |rows[0]|))
      else Failed
  {
    if rows == [] {
      TailStep(d, 0, tail, Initial);
      assert PushAll(Initial, tail).Table() == CsvTable(tail, 0, 0);
    } else {
      RowsCons(rows, 0);
      RowStep(d, 0, rows[0], Initial);
      HeaderRow(rows, tail);
      RowsAfterHeader(d, |EncodeCells(rows[0])| + 1, rows[1..], tail, ParseState(rows[0], 1, |rows[0]|, 0));
    }
  }

  /** Written output starts with a quote, so it never looks like a BOM. */
  lemma WrittenStart(rows: seq<seq<Str>>, tail: seq<Str>)
    requires WritableRows(rows)
    ensures var d := EncodeRows(rows) + EncodeCells(tail); d != [] ==> d[0] == QUOTE
  {
    if rows != [] {
      RowsCons(rows, 0);
    }
  }

  /** Parsing a written table gives back its cells in row-major order, its
      row count and its width when it is rectangular, and fails when it is
      not; a last row written without `\n` is kept among the cells but is
      neither counted nor checked against the width. */
  lemma ParseWritten(rows: seq<seq<Str>>, tail: seq<Str>)
    requires WritableRows(rows) && Writable(tail)
    ensures Parse(EncodeRows(rows) + EncodeCells(tail)) ==
      if rows == [] then Ok(CsvTable(tail, 0, 0))
      else if Rectangular(rows) then Ok(CsvTable(Flatten(rows) + tail, |rows|, |rows[0]|))
      else Failed
  {
    var d := EncodeRows(rows) + EncodeCells(tail);
    WrittenStart(rows, tail);
    assert StartOffset(d) == 0;
    AtAll(d);
    RowsAtOf(d, 0, rows, tail);
    ParseWrittenAt(d, rows, tail);
  }

  /** csvGetNumRows on a written table: the header row is not a data row,
      and a last row written without `\n` is not counted. */
  lemma NumRowsWritten(rows: seq<seq<Str>>, tail: seq<Str>, t: CsvTable)
    requires WritableRows(rows) && Writable(tail)
    requires Parse(EncodeRows(rows) + EncodeCells(tail)) == Ok(t)
    ensures rows != [] ==> NumRows(t) == |rows| - 1
    ensures rows == [] ==> NumRows(t) == -1
  {
    ParseWritten(rows, tail);
  }
}
