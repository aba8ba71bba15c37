# diskify, modelled in Dafny

diskify reads a Process Monitor trace saved as CSV. It collects the `Path` of every
row whose `Operation` is `ReadFile`, `WriteFile` or `CreateFile`, and keeps each
distinct path once, in first-seen order. For each such file it then asks NTFS for
the file's retrieval pointers: the mapping from virtual cluster numbers (VCNs) to
logical cluster numbers (LCNs). It writes each extent as `lcn,length` to an output
file.

This project models the core of the tool:

- **`Common`** (`common.dfy`) models `common.h`.
  - `StringArray` and `GrowableString` are classes over arrays, with the source's
    growth policy.
  - `CString` gives the view that `strlen` and `strcmp` have of a buffer.
- **`CsvParse`** (`csv_parse.dfy`) models `csvParse.c`.
  - `Parse` is a functional reference for the parser. The imperative `CsvParse`
    method, with its quoted and unquoted cell readers, is proved equal to it.
  - It also covers column lookup, the row count and cell lookup.
  - `ParseSound` proves the shape of every table `Parse` returns.
- **`CsvFormat`** (`csv_format.dfy`) is a reference writer for the quoting rules
  of section 2 of RFC 4180.
  - It writes every cell quoted, with `""` for a quote inside a cell.
  - `ParseWritten` proves that the parser reads back exactly the cells written.
    It also proves that the parser rejects a ragged table.
- **`StringHash`** (`string_hash.dfy`) models the string hash of `stringSet.h`. The
  hash is a Fibonacci-style rotate-multiply-xor on 32-bit words, with `char`
  sign-extended.
- **`LinearProbing`** (`linear_probing.dfy`) is the set's open-addressing table as
  values. Its invariant is that every stored string sits on the probe chain from
  its home slot. Its lemmas cover insertion, lookup, and the fact that a probe
  never runs through a table that is not full.
- **`StringSets`** (`string_set.dfy`) is the `StringSet` class.
  - It covers lookup-or-insert, doubling, and rehashing.
  - It keeps the distinct strings in insertion order, and its index table
    satisfies the `LinearProbing` invariant.
- **`Diskify`** (`diskify.dfy`) is the modellable part of `diskify.c`:
  - the `strncmp` operation filter;
  - `getPathsFromCSV`, proved to collect exactly the `Path` cells of the rows that
    pass the filter, in order;
  - argument selection;
  - deduplication into a `StringSet` and the visit order;
  - stitching one retrieval-pointer batch into extents, with 64-bit unsigned
    wrap-around;
  - the status loop around the retrieval request.

Bytes are the `byte` newtype (0..255), and strings are `seq<byte>`. `Status_OK` and
`Status_FAILED` become `Ok(...)` and `Failed` of `Common.Result`.

Some behaviour of the code is easy to miss; the model keeps it:

- **One retrieval request per file.** The retrieval request is issued once per
  file (`diskify.c:235-243`), and the status loop (`diskify.c:245-275`) re-reads
  the same buffer. After `STATUS_BUFFER_OVERFLOW`, or after a `STATUS_PENDING`
  whose wait ends in success or overflow (`diskify.c:249-257`), the loop
  therefore never exits.
  `Diskify.RetrieveExtents` models this with a fuel bound and reports whether the
  loop left on its own.
- **Running VCN.** The running VCN restarts from each batch's own `startVcn`
  (`diskify.c:259`); it is not carried over from an earlier batch.
  `Diskify.StitchBatch` follows this.
- **Column-count check.** Only rows ended by a newline have their width checked
  (`csvParse.c:90-104`). A last row without a newline is stored but not
  counted, so its width is never checked.
- **Missing columns.** The `Operation` and `Path` columns are looked up, and a
  missing one gives column `-1` (`csvParse.c:118`). `csvGetCell` then reads the
  last cell of the previous row, with no error. `Diskify.PathsFromCsvAre` states
  this behaviour.
- **The operation filter.** `strncmp` compares only as many bytes as the
  `Operation` cell has (`diskify.c:133-135`). The filter therefore accepts every
  prefix of the three names, the empty cell included.
  `Diskify.TraceOperationIsPrefix` states it.

## Model

| member | source | states |
|---|---|---|
| Common.CString | csvParse.c:136 | the bytes a C string function sees: no NUL among them, a prefix of the buffer, and followed by a NUL whenever shorter than the buffer |
| Common.StringArray.constructor | common.h:20-24 | a new array is empty with room for 16 strings |
| Common.StringArray.Add | common.h:26-37 | the string is appended at index `size`, which is returned; the capacity doubles exactly when the new size would exceed it |
| Common.StringArray.AddCopy | common.h:55-60 | a copy of the first `length` bytes is appended, with the same growth and index as `Add` |
| Common.StringArray.Get | common.h:39-42 | returns the string stored at index `i`; the index must be below the size |
| Common.StringArray.Free | common.h:44-53 | afterwards the array holds no string and has size and capacity 0 |
| Common.GrowableString.constructor | common.h:68-72 | a new buffer is empty with capacity 16 |
| Common.GrowableString.Append | common.h:81-90 | the byte is appended, a NUL follows the contents, and the capacity doubles exactly when the contents and the NUL would not fit |
| Common.GrowableString.Free | common.h:74-79 | afterwards size and capacity are 0 and no buffer is held |
| StringHash.RotateLeft | stringSet.h:26-28 | rotating by 11, the amount the hash uses, moves the low 21 bits to the top and the 11 bits pushed out back to the bottom |
| StringHash.HashStep | stringSet.h:34 | one step multiplies the rotated accumulator by the golden-ratio constant and then xors in the widened byte, so from 0 it yields the widened byte itself |
| StringHash.HashValues | stringSet.h:30-38 | two pinned values: the string 0x01 hashes to 1, and `AB` to 0xAF3FC842, which fixes `*` binding tighter than `^` |
| StringHash.RotateLeftInverse | stringSet.h:26-28 | rotating left by 11 and then by 21 gives back the word: the rotation loses no bit |
| StringHash.CharToU32 | stringSet.h:33 | a `char` widened to 32 bits keeps its low byte and is sign-extended: ASCII stays below 128, and bytes from 128 up land at 0xFFFFFF80 or above |
| StringHash.HashFromAppend | stringSet.h:31-36 | hashing `a + b` is hashing `b` starting from the hash of `a` |
| StringHash.HashOfCString | stringSet.h:32 | the hash stops at the first NUL: a buffer hashes like its C string |
| StringHash.HashString | stringSet.h:30-38 | the loop's result is the hash of the string, as defined by the reference fold |
| LinearProbing.Bucket | stringSet.h:44-45 | the home slot is inside the table |
| LinearProbing.ProbeIsMod | stringSet.h:56 | step `k` of a probe from `home` visits slot `(home + k) mod capacity` |
| LinearProbing.ProbeNext | stringSet.h:56 | advancing the index by one modulo the capacity moves to the next step of the probe |
| LinearProbing.DistProbe | stringSet.h:45-57 | every slot is visited by exactly one step of a probe through the whole table |
| LinearProbing.EmptyTable | stringSet.h:22-23 | a zeroed table satisfies the table invariant with no string indexed |
| LinearProbing.TableInsert | stringSet.h:69 | storing `n + 1` in an empty slot reached from string `n`'s home slot keeps the invariant, now with `n + 1` strings |
| LinearProbing.Pigeonhole | stringSet.h:46-58 | distinct numbers from 1 to `n` can fill at most `n` slots |
| LinearProbing.TableFull | stringSet.h:46-58 | a probe can only pass every slot without stopping when the table holds at least as many strings as slots, so the `assert(false)` after the loop is unreachable while fewer are stored |
| LinearProbing.NotInTable | stringSet.h:47-50 | meeting an empty slot before an equal string proves the string is not stored, and the empty slot is on its probe chain |
| LinearProbing.NotStoredAt | stringSet.h:47-50 | the same conclusion for one stored string at a time |
| LinearProbing.InsertKeepsInv | stringSet.h:85-88 | adding a new string at the end and numbering it in the empty slot its probe stopped at keeps the set invariant: distinct strings, a power-of-two table at most half full, every string on its chain |
| LinearProbing.DistinctAppend | stringSet.h:85-87 | appending a string not yet present keeps the strings distinct |
| LinearProbing.SameHome | stringSet.h:82-84 | a stored string equal to the C string of `str` has the same home slot as `str` |
| StringSets.StringSet.constructor | stringSet.h:18-24 | a new set is empty, has capacity 16 and an all-zero table, and satisfies the set invariant |
| StringSets.StringSet.TakeSlot | stringSet.h:40-60 | returns `true` exactly when an equal string is stored, with the slot numbering it; otherwise returns an empty slot on the string's probe chain |
| StringSets.StringSet.Rehash | stringSet.h:62-71 | re-indexing every string into an empty table yields a valid index of all of them, each on the probe chain from its home slot |
| StringSets.StringSet.RehashString | stringSet.h:63-69 | one string, different from those already indexed, goes into an empty slot on its chain, and the invariant grows by one string |
| StringSets.StringSet.Grow | stringSet.h:74-80 | the capacity doubles and the table is rebuilt, so the set is valid at most half full; the strings are unchanged |
| StringSets.StringSet.Add | stringSet.h:73-91 | returns the index of the string in insertion order; a new string is appended at index `size` and a present one leaves the set unchanged; the table doubles first when more than half full |
| StringSets.StringSet.Place | stringSet.h:82-90 | lookup-or-insert on a table at most half full: same result as `Add`, and the capacity is unchanged |
| StringSets.StringSet.Insert | stringSet.h:85-89 | the copy goes to the end of the strings and its number `size + 1` into the empty slot; the set invariant is kept |
| StringSets.StringSet.GetString | stringSet.h:93-95 | returns the `i`-th distinct string in insertion order |
| CsvParse.StartOffset | csvParse.c:64-70 | parsing starts at byte 3 exactly when the data begins with the UTF-8 byte order mark, and at 0 otherwise |
| CsvParse.QuotedRest | csvParse.c:11-29 | a quoted cell ends within the data, right after its closing quote unless the data ran out; its text has no carriage return |
| CsvParse.UnquotedRest | csvParse.c:40-51 | an unquoted cell ends at a comma, a newline or the end of the data; its text has no comma, newline or carriage return |
| CsvParse.DropCR | csvParse.c:45-46 | removing every carriage return leaves none and does not lengthen the text |
| CsvParse.UnquotedCell | csvParse.c:40-51 | an unquoted cell ends at the FIRST comma or newline after its start, and its text is exactly the bytes before it with every `\r` removed |
| CsvParse.ParseFrom | csvParse.c:72-106 | the parser loop only ever adds to what it has stored: the cells are extended, the row count does not go down, and a width already fixed stays |
| CsvParse.AfterCell | csvParse.c:84-105 | the same after one cell, whether a comma, a newline or the end of the data follows |
| CsvParse.ScanCell | csvParse.c:79-83 | a cell read at `i` ends at or after `i` and within the data |
| CsvParse.ParseQuoted | csvParse.c:5-32 | appends the quoted cell's text, with `""` undoubled and `\r` dropped, and returns the index after the closing quote |
| CsvParse.ReadQuoted | csvParse.c:12-29 | the loop builds exactly the reference cell text and stops where the reference scan does |
| CsvParse.QuotedKeeps | csvParse.c:15-27 | one byte of a quoted cell (or a doubled quote) extends the built text towards the final cell |
| CsvParse.ParseUnquoted | csvParse.c:34-54 | appends the unquoted cell's text, with `\r` dropped, and returns the index of its terminator |
| CsvParse.ReadUnquoted | csvParse.c:40-51 | the loop builds exactly the reference cell text and stops where the reference scan does |
| CsvParse.UnquotedKeeps | csvParse.c:47-49 | one ordinary byte extends the built unquoted text towards the final cell |
| CsvParse.ParseCell | csvParse.c:79-83 | a cell starting with `"` is read as quoted and any other as unquoted |
| CsvParse.CsvParse | csvParse.c:56-109 | the imperative parser returns exactly the reference `Parse`: the same cells, row count and width, or `Failed` on a width mismatch |
| CsvParse.SkipCR | csvParse.c:73-76 | proof step: a carriage return before a cell is skipped |
| CsvParse.CellParsed | csvParse.c:77-84 | proof step: any other byte starts a cell, which is stored before the parser goes on |
| CsvParse.AfterSeparator | csvParse.c:105 | proof step: exactly one byte after a cell is consumed when it is not a newline, so `a,,b` has an empty middle cell |
| CsvParse.AfterNewline | csvParse.c:90-104 | proof step: a newline ends a row: the first row fixes the width, and a later row of another width fails |
| CsvParse.FindHeader | csvParse.c:111-119 | returns the first header column whose C string equals the name, or -1 when none does |
| CsvParse.ColumnIndex | csvParse.c:111-119 | the lookup scans the header row and returns a column between -1 and the width |
| CsvParse.GetCell | csvParse.c:125-138 | the lookup fails exactly when `row + 1 > numRows` or `column > numColumns`; the bound checks use `>` |
| CsvParse.GetCellInTable | csvParse.c:130-136 | for a data row before the last and a column from -1 up, the lookup finds stored cell `(row + 1) * numColumns + column` |
| CsvParse.GetCellPastWidth | csvParse.c:130-135 | column `numColumns` passes the `>` check and reads the first cell of the next row, whenever that row is counted |
| CsvParse.GetCellPastLastRow | csvParse.c:130-135 | on a full table, row `numRows - 1` passes the `>` check but indexes past the stored cells |
| CsvParse.SoundTableOf | csvParse.c:56-109 | a parser state satisfying the shape invariant yields a sound table |
| CsvParse.ParseFromSound | csvParse.c:72-106 | from a sound state, every table the parser loop returns is sound |
| CsvParse.AfterCellSound | csvParse.c:86-105 | after a cell, every table the parser returns is sound |
| CsvParse.ParseSound | csvParse.c:56-109 | a parsed table has at least `numRows * numColumns` cells: those of its counted rows, followed by the cells of an unterminated last row, any number of them; it has a width when it has rows, and no `\r` in any cell |
| CsvParse.ParseFromSoundOk | csvParse.c:72-106 | the soundness of `ParseFromSound`, specialised to one successful result |
| CsvFormat.QuotedStep | csvParse.c:15-27 | one escaped byte of a written cell reads back as that byte |
| CsvFormat.QuotedRoundTrip | csvParse.c:5-32 | a cell written quoted with doubled quotes reads back as exactly the original text, ending right after the closing quote |
| CsvFormat.CellStep | csvParse.c:79-84 | a written cell is read back as one stored cell |
| CsvFormat.CellThenComma | csvParse.c:105 | a written cell followed by a comma leaves the parser at the next cell |
| CsvFormat.CellsStep | csvParse.c:72-106 | a written row of cells is read back cell by cell, in order |
| CsvFormat.RowStep | csvParse.c:90-104 | a written row plus newline is one counted row, or `Failed` when its width differs from the header's |
| CsvFormat.TailStep | csvParse.c:86-88 | cells written without a final newline are stored but do not count as a row |
| CsvFormat.RowsAfterHeader | csvParse.c:72-106 | the rows after the header read back as their cells when all have the header's width, and fail otherwise |
| CsvFormat.HeaderRow | csvParse.c:99-101 | proof step: the first row fixes the width |
| CsvFormat.ParseWrittenAt | csvParse.c:72-106 | written rows and tail read back from the first byte |
| CsvFormat.WrittenStart | csvParse.c:64-70 | written data starts with a quote, so it is never mistaken for a byte order mark |
| CsvFormat.DropCRNoCR | csvParse.c:45-46 | text without a carriage return is left as it is |
| CsvFormat.UnquotedRoundTrip | csvParse.c:34-54 | a cell written unquoted, without comma, newline or carriage return, and followed by a comma, a newline or the end, reads back as exactly its text, ending where it ends |
| CsvFormat.NumRowsWritten | csvParse.c:121-123 | on a table written as rectangular rows plus an unterminated tail, `csvGetNumRows` is the number of written rows minus the header: neither the header nor the unterminated last row is counted |
| CsvFormat.ParseWritten | csvParse.c:56-109 | parsing written rows and a trailing partial row gives back all the cells, the row count and the width when the rows are rectangular; otherwise it fails; with no complete row it gives the partial row's cells with 0 rows and width 0 |
| Diskify.StrNEqual | diskify.c:133-135 | `strncmp(a, b, n) == 0` compares at most `n` bytes: when both strings are that long, it holds exactly when their first `n` bytes agree |
| Diskify.StrNEqualIsPrefix | diskify.c:133-135 | `strncmp(name, cell, len(cell)) == 0` holds exactly when the cell is a prefix of the name |
| Diskify.TraceOperationIsPrefix | diskify.c:133-135 | a row passes the filter exactly when its Operation cell is a prefix of `ReadFile`, `WriteFile` or `CreateFile` |
| Diskify.LongOperationIsNotTrace | diskify.c:133-135 | a cell longer than `CreateFile` never passes, while the empty cell always does |
| Diskify.RowCount | diskify.c:118-122 | the loop runs over `numRows - 1` data rows, or none when nothing was counted |
| Diskify.RowPaths | diskify.c:126-143 | a data row contributes at most one path, and when both lookups succeed it contributes one exactly when its Operation cell passes the filter |
| Diskify.CollectStep | diskify.c:122-145 | proof step: one more row extends the collected paths by that row's contribution, or makes collection fail |
| Diskify.CollectFailedStays | diskify.c:126-141 | once a cell lookup has failed, the collection result stays `Failed` |
| Diskify.GetPathsFromCsv | diskify.c:103-149 | parsing, column lookup and the row loop give exactly the reference result for the file contents |
| Diskify.CollectPaths | diskify.c:118-148 | the row loop returns the paths of the reference collection over every data row |
| Diskify.AddRowPaths | diskify.c:123-144 | the loop body succeeds exactly when the row's lookups do, and then appends exactly the row's contribution |
| Diskify.FilterAre | diskify.c:122-135 | the selected rows are listed in increasing order, and a row is listed exactly when it passes |
| Diskify.PickAre | diskify.c:133-143 | the collected cells match the selected rows one for one |
| Diskify.AccumulatePick | diskify.c:122-145 | a loop in which each row adds its cell exactly when it passes collects the cells of the passing rows in order |
| Diskify.TraceRowsAre | diskify.c:122-135 | the trace rows are listed in increasing order, and a row is listed exactly when its Operation cell passes the filter |
| Diskify.RowPathsInTable | diskify.c:126-141 | on a parsed table both lookups of every data row succeed |
| Diskify.CollectSelected | diskify.c:122-145 | when no lookup fails, the loop collects the Path cells of the trace rows, in order |
| Diskify.CollectNeverFails | diskify.c:126-141 | on a parsed table the loop never fails, and collects the Path cells of the trace rows |
| Diskify.PathsFromCsvAre | diskify.c:103-149 | when the CSV parses, the result is the list of Path cells of exactly the trace rows, in row order; each is the C string stored at `(row + 1) * numColumns + column`, with `column` the first matching header or -1 when none matches |
| Diskify.PathsFromCsvFails | diskify.c:106-114 | the collection fails exactly when the CSV does not parse |
| Diskify.SelectArguments | diskify.c:151-175 | arguments are accepted exactly as `-o out csv` or as one non-`-o` csv path; the CSV path is the last argument and the output defaults to `output.diskify` |
| Diskify.FirstIndexAppend | diskify.c:186-187 | appending a string leaves where earlier strings first occur unchanged |
| Diskify.FirstOccurrencesAre | diskify.c:183-188 | the deduplicated paths are distinct, contain exactly the paths seen (as C strings), and keep the order of their first occurrences |
| Diskify.DedupePaths | diskify.c:183-188 | adding every path to a new set leaves in it exactly the distinct paths in first-occurrence order |
| Diskify.FirstOccurrencesStep | diskify.c:186-187 | one more path extends the deduplicated list exactly when it was not seen before |
| Diskify.VisitOrder | diskify.c:215-216 | the visit loop reads the set's strings in index order |
| Diskify.VisitPaths | diskify.c:183-216 | the files are visited in the order of the first occurrence of each distinct path |
| Diskify.Start | diskify.c:259 | the signed `startVcn` is read as unsigned 64-bit, adding 2^64 when it is negative |
| Diskify.Extents | diskify.c:260-270 | one extent per mapping pair |
| Diskify.BatchExtents | diskify.c:259-270 | one extent per mapping pair of the batch, starting from its `startVcn` |
| Diskify.ExtentAt | diskify.c:260-269 | extent `i` has the LCN of pair `i`, or -1 when unmapped, and length `vcn - previous VCN` modulo 2^64 |
| Diskify.BatchExtentsAre | diskify.c:259-270 | the same for a whole batch whose first pair follows its `startVcn` |
| Diskify.NonDecreasingTotal | diskify.c:259-270 | when the VCNs never go down, the first `k` extents add up to the span from the start to the end of pair `k - 1` |
| Diskify.StitchBatch | diskify.c:259-270 | the pass yields exactly the reference extents, and the running total grows by the batch's span modulo 2^64 |
| Diskify.StitchStep | diskify.c:261-269 | proof step: one pair moves the running total and the previous VCN forward consistently |
| Diskify.AddLength | diskify.c:262-268 | adding one length modulo 2^64 to a total that is already reduced gives the reduced total up to the new VCN |
| Diskify.NonDecreasingBatch | diskify.c:259-270 | when the VCNs never go down, nothing wraps around: the lengths add up to the span the batch covers, and an empty batch adds nothing |
| Diskify.RetrieveExtents | diskify.c:244-275 | any status other than success, overflow or pending never enters the loop; a failed wait leaves with nothing; success makes one pass; overflow, or pending followed by a successful wait, repeats the same batch for as long as the fuel lasts |

## Left out

- Reading the trace file (`readEntireFile`, `diskify.c:63-101`) is I/O. The file's contents are a parameter of `Diskify.GetPathsFromCsv`.
- Opening the volume and each file (`CreateFile`), the `fopen_s` of the output file, and the `BAD`/`OK`/extent lines written with `fprintf` are I/O. They are not modelled. The extents the loop would print are returned instead.
- `NtFsControlFile`, `WaitForSingleObject` and the `GetProcAddress` lookup are calls into the operating system. The first status, the status after a wait and the returned batch are parameters of `Diskify.RetrieveExtents`. The size limit of the output buffer is not modelled.
- Diskify.RetrieveExtents: the overflow loop and the loop after a successful pending wait never end in the source. The model bounds them by `fuel` and reports `exited == false` when the fuel runs out.
- The `USAGE` text and the exit codes are not modelled; a rejected command line is `Failed`.
- LinearProbing.Bucket: `hash & (capacity - 1)` is modelled as `hash mod capacity`, and the probe step `(index + 1) & (capacity - 1)` of `StringSets.StringSet.TakeSlot` (`stringSet.h:56`) as `(index + 1) mod capacity`. The two agree for the power-of-two capacities that the set invariant keeps. That bit identity is not proved.
- Allocation failure of `malloc` and `realloc` is not modelled, and neither are leaks. On success, `getPathsFromCSV` never calls `csvFree`, and `main` frees nothing.
- Common.GrowableString.constructor: `growableStringNew` leaves the buffer uninitialised until the first append. In the model it is zero-filled. Nothing in the source reads it before writing it.
- Common.StringArray.Get: `stringArrayGet`'s `assert(i < size)` becomes a precondition. In `csvGetCell` the assertion can fire on the last counted row; `CsvParse.GetCell` returns `BadIndex` there. `Diskify.RowPathsInTable` proves that the row loop of `getPathsFromCSV` never reaches it.
- Integer widths: the `int` and `int64_t` counters and indices, the `uint32_t` index that `stringArrayAdd` returns, and the `int` capacity shifted by `stringSetAdd` are unbounded in the model. These widths are reachable with a trace `readEntireFile` accepts (up to 4 GiB, `diskify.c:76`), and none of the overflows is modelled: `stringSetAdd`'s `capacity <<= 1` (`stringSet.h:75`) overflows once the set holds more than 2^29 distinct paths; `growableStringAppend`'s `capacity * 2` (`common.h:85`) overflows for a cell of about 2^30 bytes; and `csvGetCell`'s `row * numColumns + column` (`csvParse.c:135`) wraps past 2^31 cells. The 64-bit VCN arithmetic and the 32-bit hash are modelled exactly.
- `NTSTATUS` values are compared only for equality, so they are plain integers. Their sign is not modelled.
- Diskify.StrNEqualIsPrefix: the prefix reading of `strncmp` holds for cells without a NUL byte. Cells obtained through `CString` never contain one.
- `csvGetCell`'s `cellLength` out-parameter is the length of the returned C string. It is not a separate value in the model.
- `stringSetAdd`'s result is unused in `main` (`diskify.c:187`); it is still modelled and specified.
- `STATUS_PENDING` is not defined in the program's files; it comes from the Windows headers, with the value 0x103.
