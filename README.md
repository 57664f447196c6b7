# Random sampling locations along a road segment: the selection core

The Streamlit tool `aleatorioMOC1.py` picks M sampling points along a
road segment. It uses a precomputed lookup table of random numbers. The
table is read from `aleat.csv` and is grouped in column triples: an index
column, a longitudinal fraction and a transverse fraction. A random
integer N in [1, 28] chooses the starting triple, at column
`col_inicial = (N - 1) * 3`.

The selection loop then works as follows:

- It scans the index column of the current triple, row by row.
- It accepts each value that is at most M and not yet among the accepted
  records, as a record `(valor, fila, col)`.
- When the triple is exhausted, it moves three columns to the right. Past
  the last column it wraps to column 0.
- It stops as soon as M records are held, or when the next column was
  already visited.
- Finally it sorts the records by value.

A strictly positive offset to the road axis is classified "Izquierdo"
(left), and any other offset "Derecho" (right).

This project models that core in Dafny:

- `blocks.dfy` (module `Blocks`): the order in which columns are visited,
  with the wrap-around step, and proofs that no triple repeats within one
  full turn.
- `scan.dfy` (module `Scan`): the table, the scan positions, and the
  acceptance rule. The rule is written as a fold `Accepted` over a sequence
  of positions, with its soundness, distinctness, saturation, completeness
  and first-occurrence properties.
- `ordering.dfy` (module `Ordering`): the sort by value, written as a
  stable insertion sort. It is proved to be a permutation, ordered, and
  strictly ascending when the values are distinct.
- `sampler.dfy` (module `Sampler`): the imperative loops.
  - `ScanBlock` is the `for` row scan with its early exit.
  - `CollectSamples` is the `while` loop over triples.
  - `SelectSamples` is the loop followed by the sort.

  Each method is proved against the fold, and so against the full-turn
  specification `Selection`.
- `side.dfy` (module `Side`): the side rule.

Two details of the acceptance test (lines 66-67) matter:

- The duplicate test compares a value against every record accepted so
  far, from every triple visited, not only the current triple.
- Only the upper bound `valor <= M` is tested, so a cell holding 0 or a
  negative number is accepted as well.

## Model

| member | source | states |
|---|---|---|
| Blocks.NextBlock | aleatorioMOC1.py:72-74 | moving on from an index column gives an index column of the table, and the result is column 0 exactly when the current triple is the last one |
| Blocks.ColAt | aleatorioMOC1.py:58-59 | every column the loop can visit is a multiple of 3 whose triple lies inside the table (col + 2 < C, so the reads at lines 82-83 stay in range) |
| Blocks.VisitOrder | aleatorioMOC1.py:72-77 | every column in the visiting order is a multiple of 3, and its triple lies inside the table |
| Blocks.ColAtClosedForm | aleatorioMOC1.py:72-74 | the i-th visited column is (N-1)*3 + 3i, wrapped once by the table width |
| Blocks.ColAtDistinct | aleatorioMOC1.py:75-77 | within one turn of the table no triple is visited twice |
| Blocks.ColAtFullTurn | aleatorioMOC1.py:72-76 | after C/3 moves the loop is back at its starting column |
| Blocks.VisitOrderDistinct | aleatorioMOC1.py:59-77 | the list of visited columns holds no column twice |
| Blocks.NextVisitIsFresh | aleatorioMOC1.py:75-77 | the next column is already visited exactly when all C/3 triples have been visited; this is the termination argument of the outer loop |
| Scan.Values | aleatorioMOC1.py:66 | the held values (`valores_existentes`) are one per record accepted so far |
| Scan.InValues | aleatorioMOC1.py:66-67 | a value is among the held values if and only if some accepted record has it |
| Scan.Admits | aleatorioMOC1.py:67 | a cell passes the test if and only if it is at most M and no accepted record, from any triple, has its value |
| Scan.Step | aleatorioMOC1.py:65-68 | one row of the scan keeps every record held and adds at most one; it adds one if and only if fewer than M are held, the cell is at most M and no held record has its value, and the added record is (cell, row, column) |
| Scan.StepKeepsDistinct | aleatorioMOC1.py:66-68 | accepting a cell never duplicates a value already held |
| Scan.Accepted | aleatorioMOC1.py:63-70 | the accepted records number at most M and have pairwise distinct values; each value is at most M, comes from a scanned position, and equals the table cell at the record's row and column |
| Scan.AcceptedSaturated | aleatorioMOC1.py:69-70 | once M records are held, scanning further positions changes nothing, so stopping early is sound |
| Scan.AcceptedComplete | aleatorioMOC1.py:63-76 | while fewer than M records are held, every scanned value at most M is among the accepted values |
| Scan.AcceptsFirstOccurrence | aleatorioMOC1.py:64-68 | before saturation, a position adds a record if and only if its value is at most M and no earlier position in scan order holds that value (first occurrence wins) |
| Scan.BlockOrder | aleatorioMOC1.py:64-65 | the row scan of one triple reads one position per row of the table |
| Scan.BlockOrderCovers | aleatorioMOC1.py:64-65 | the row scan of one triple reads its index column at every row and nowhere else, rows ascending |
| Scan.ScanOrder | aleatorioMOC1.py:63-65 | visiting k triples scans rows * k positions |
| Scan.ScanOrderCovers | aleatorioMOC1.py:63-65 | a position is scanned if and only if its row is in the table and its column is a visited index column |
| Scan.ScanOrderInTable | aleatorioMOC1.py:65 | every scanned cell of a rectangular table is in range |
| Ordering.InsertByValor | aleatorioMOC1.py:79 | inserting into a list ordered by value gives an ordered list holding exactly the old records plus the new one |
| Ordering.InsertKeepsStrict | aleatorioMOC1.py:79 | inserting a value not yet present keeps a strictly ascending list strictly ascending |
| Ordering.SortByValor | aleatorioMOC1.py:79 | the sorted list is a permutation of its input, ordered by value, and strictly ascending when the values are distinct |
| Ordering.SortKeepsRecords | aleatorioMOC1.py:79 | sorting keeps the length, the set of records and the set of values |
| Sampler.StartColumn | aleatorioMOC1.py:58 | the starting column (N-1)*3 is a multiple of 3 |
| Sampler.Selection | aleatorioMOC1.py:58-79 | the reference selection (the sorted records a full turn accepts) holds at most M records, strictly ascending by value, and exactly the records the full-turn scan accepts |
| Sampler.ScanBlock | aleatorioMOC1.py:64-70 | the row scan of one triple, with its early break, returns what the fold accepts over the positions scanned so far followed by that triple's rows |
| Sampler.SaturatedBlock | aleatorioMOC1.py:69-70 | breaking out of the row scan at M records gives the same records as scanning the rest of the triple |
| Sampler.CollectSamples | aleatorioMOC1.py:58-77 | the loop visits 1..C/3 columns in visiting order from (N-1)*3 and returns the fold over the visited triples; a result with fewer than M records means that every triple was visited; when M > 0, the visited triples before the last one hold fewer than M records, so the loop stops at the triple where the M-th record is accepted |
| Sampler.SelectSamples | aleatorioMOC1.py:58-79 | the returned list equals `Selection`, the sorted full-turn fold; the visited columns are distinct multiples of 3 inside the table; the list holds at most M sound records in strictly ascending order of value; a partial list holds every value at most M found in the visited index columns; when M > 0, the triples visited before the last one hold fewer than M records, so the loop stopped at the first triple that completed M |
| Sampler.VisitedScanSuffices | aleatorioMOC1.py:63-77 | when the loop stops, either because M records are held or because every triple was visited, the visited triples accept exactly what a full turn accepts |
| Sampler.SelectionSound | aleatorioMOC1.py:64-68 | every selected record is a cell of a visited index column with value at most M; there are at most M records, in strictly ascending order of value |
| Sampler.SelectionComplete | aleatorioMOC1.py:63-76 | a partial selection holds every value at most M that appears in a visited index column |
| Side.SideOf | aleatorioMOC1.py:89 | the side rule: an offset is classified "Derecho" if and only if it is zero or negative |
| Side.AxisIsDerecho | aleatorioMOC1.py:89 | an offset of exactly zero is classified "Derecho" |
| Side.SidesSplitAtAxis | aleatorioMOC1.py:89 | an offset is "Izquierdo" exactly when it is strictly positive, and mirroring a non-zero offset changes its side |
| Side.SideIsMonotone | aleatorioMOC1.py:89 | moving an offset to the left never changes "Izquierdo" to "Derecho" |

## Left out

- Loading `aleat.csv` and its missing-file error (lines 10-14) are left out. The table is a parameter of type `seq<seq<int>>`, already truncated by `int(...)`.
- The Streamlit form, its input checks and `st.stop()` (lines 16-53) are left out as user interface.
- `random.randint(1, 28)` (line 55) is left out because it is a source of randomness. N is a parameter. The model requires only `1 <= N` and `(N - 1) * 3 < C`, which is what the indexing needs; the bound N <= 28 comes from the draw and the table width.
- The coordinate mapping (lines 82-88) is left out because it is floating-point arithmetic with `round`. This covers the distances, the station value, and the offset `d4_p`. `Side.SideOf` takes the rounded offset as a real.
- The chainage string, the `%02d` index, and the display rounding (lines 92-97) are left out as presentation.
- The plot, the PDF, the timestamp and the download button (lines 102-161) are left out as rendering and export.
- `Sampler.SelectSamples`: the source sorts `muestras` in place with Python's library sort. The model reassigns the list to `SortByValor(muestras)`, which is a stable insertion sort. The values are distinct, so any correct sort gives the same list; in-place mutation is not modelled.
- `Sampler.SelectSamples` and `Sampler.CollectSamples` also return the visited-column list `columnas_visitadas`, which the source keeps local. This is done so the visited-column properties can be stated.
