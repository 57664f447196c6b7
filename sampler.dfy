/** The sampling-selection loop: starting at the triple chosen by N, scan the
    index column of each triple row by row, accept each value that is at most
    M and not yet accepted, move on to the next triple (wrapping to column 0)
    until M values are held or the next triple was already visited, then
    order the accepted records by value. */
module Sampler {
  import opened Blocks
  import opened Scan
  import opened Ordering

  /** What the selection requires of its table and of N: a rectangular table
      of column triples, and a starting triple `(N - 1) * 3` inside it. */
  predicate ValidRun(t: Table, cols: nat, n: int)
  {
    Rectangular(t, cols) && cols % 3 == 0 && 1 <= n && (n - 1) * 3 < cols
  }

  /** The index column of the first triple scanned (`col_inicial`). */
  function StartColumn(n: int): (c: nat)
    requires 1 <= n
    ensures c % 3 == 0 && c == 3 * n - 3
  {
    (n - 1) * 3
  }

  /** Every position a full turn of the table scans, in scan order: the
      triples in visiting order from the starting one, rows ascending. */
  function FullScan(t: Table, cols: nat, n: int): (ps: seq<Pos>)
    requires ValidRun(t, cols, n)
    ensures InTable(t, ps)
  {
    var visits := VisitOrder(StartColumn(n), cols, cols / 3);
    ScanOrderInTable(t, cols, visits);
    ScanOrder(|t|, visits)
  }

  /** The selection as a value: the records a full turn accepts, ordered by
      value. The loop stops scanning early, and this is what it returns. */
  function Selection(t: Table, cols: nat, n: int, m: int): (r: seq<Sample>)
    requires ValidRun(t, cols, n)
    ensures |r| <= m || r == []
    ensures StrictlyAscending(r)
    ensures multiset(r) == multiset(Accepted(t, m, FullScan(t, cols, n)))
  {
    SortByValor(Accepted(t, m, FullScan(t, cols, n)))
  }

  /** The row scan of one triple (the `for` loop): reads the index column
      `col` row by row and accepts each admitted value, stopping as soon as
      M records are held. `scanned` is what the loop scanned before. */
  method ScanBlock(t: Table, m: int, col: nat, acc: seq<Sample>, ghost scanned: seq<Pos>) returns (muestras: seq<Sample>)
    requires InTable(t, scanned)
    requires forall f :: 0 <= f < |t| ==> col < |t[f]|
    requires acc == Accepted(t, m, scanned)
    requires |acc| < m
    ensures InTable(t, scanned + BlockOrder(|t|, col))
    ensures muestras == Accepted(t, m, scanned + BlockOrder(|t|, col))
  {
    muestras := acc;
    ghost var seen := scanned;
    assert scanned + BlockOrder(0, col) == seen;
    for fila := 0 to |t|
      invariant seen == scanned + BlockOrder(fila, col)
      invariant InTable(t, seen)
      invariant muestras == Accepted(t, m, seen)
      invariant |muestras| < m
    {
      AcceptedSnoc(t, m, seen, Pos(fila, col));
      BlockOrderSnoc(scanned, fila, col);
      seen := seen + [Pos(fila, col)];
      var valor := t[fila][col];
      var existentes := Values(muestras);
      if valor <= m && valor !in existentes {
        muestras := muestras + [Sample(valor, fila, col)];
        if |muestras| == m {
          SaturatedBlock(t, m, col, scanned, fila + 1);
          return;
        }
      }
    }
  }

  /** A row scan that stops once M records are held after row k - 1 returns
      what the scan of the whole index column would. */
  lemma SaturatedBlock(t: Table, m: int, col: nat, scanned: seq<Pos>, k: nat)
    requires k <= |t|
    requires forall f :: 0 <= f < |t| ==> col < |t[f]|
    requires InTable(t, scanned + BlockOrder(k, col))
    requires |Accepted(t, m, scanned + BlockOrder(k, col))| >= m
    ensures InTable(t, scanned + BlockOrder(|t|, col))
    ensures Accepted(t, m, scanned + BlockOrder(|t|, col)) == Accepted(t, m, scanned + BlockOrder(k, col))
  {
    var rest := BlockOrder(|t|, col)[k..];
    BlockOrderSplit(|t|, col, k);
    assert scanned + BlockOrder(|t|, col) == (scanned + BlockOrder(k, col)) + rest;
    AcceptedSaturated(t, m, scanned + BlockOrder(k, col), rest);
  }

  /** The selection loop: visits triples from the starting one, scanning
      each, until M records are held or the next triple was already visited.
      Returns the records in acceptance order and the visited columns
      (`columnas_visitadas`). */
  method CollectSamples(t: Table, cols: nat, n: int, m: int) returns (muestras: seq<Sample>, visited: seq<nat>)
    requires ValidRun(t, cols, n)
    ensures 1 <= |visited| <= cols / 3
    ensures visited == VisitOrder(StartColumn(n), cols, |visited|)
    ensures InTable(t, ScanOrder(|t|, visited))
    ensures muestras == Accepted(t, m, ScanOrder(|t|, visited))
    ensures |muestras| < m ==> |visited| == cols / 3
    // the loop stops at the triple where the M-th record is accepted
    ensures 0 < m ==> |Accepted(t, m, ScanOrder(|t|, visited[..|visited| - 1]))| < m
  {
    var colInicial := StartColumn(n);
    ghost var nb := cols / 3;
    visited := [colInicial];
    muestras := [];
    var col: nat := colInicial;
    // the visited columns whose triples are fully scanned: all but the current one
    ghost var done: seq<nat> := [];
    assert visited == done + [col];
    ScanOrderInTable(t, cols, visited);
    if m <= 0 {
      AcceptedSaturated(t, m, [], ScanOrder(|t|, visited));
    }
    while |muestras| < m
      invariant 1 <= |visited| <= nb
      invariant visited == VisitOrder(colInicial, cols, |visited|)
      invariant visited == done + [col]
      invariant done == visited[..|visited| - 1]
      invariant InTable(t, ScanOrder(|t|, done))
      invariant 0 < m ==> |Accepted(t, m, ScanOrder(|t|, done))| < m
      invariant InTable(t, ScanOrder(|t|, visited))
      invariant |muestras| <= m || muestras == []
      invariant |muestras| < m ==> muestras == Accepted(t, m, ScanOrder(|t|, done))
      invariant |muestras| >= m ==> muestras == Accepted(t, m, ScanOrder(|t|, visited))
      decreases nb - |visited|, m - |muestras|
    {
      ScanOrderSnoc(|t|, done, col);
      muestras := ScanBlock(t, m, col, muestras, ScanOrder(|t|, done));
      if |muestras| < m {
        ghost var k := |visited|;
        col := NextBlock(col, cols);
        NextVisitIsFresh(colInicial, cols, k);
        if col in visited {
          break;
        }
        VisitOrderSnoc(colInicial, cols, k);
        done := visited;
        visited := visited + [col];
        ScanOrderInTable(t, cols, visited);
      }
    }
  }

  /** The selection loop and the sort that follows it. `visited` is the list
      of index columns the loop visited. */
  method SelectSamples(t: Table, cols: nat, n: int, m: int) returns (muestras: seq<Sample>, visited: seq<nat>)
    requires ValidRun(t, cols, n)
    // the result is the selection function, and depends on the visited triples only
    ensures muestras == Selection(t, cols, n, m)
    ensures InTable(t, ScanOrder(|t|, visited))
    ensures muestras == SortByValor(Accepted(t, m, ScanOrder(|t|, visited)))
    // the visited columns: the visiting order from the start, with no repeats
    ensures 1 <= |visited| <= cols / 3
    ensures visited == VisitOrder(StartColumn(n), cols, |visited|)
    ensures forall c :: c in visited ==> c % 3 == 0 && c + 2 < cols
    ensures forall i, j :: 0 <= i < j < |visited| ==> visited[i] != visited[j]
    // the records
    ensures |muestras| <= m || muestras == []
    ensures forall x :: x in muestras ==> SoundRecord(t, m, visited, x)
    ensures StrictlyAscending(muestras)
    // a partial result: every triple was visited and every value at most M found was taken
    ensures |muestras| < m ==> |visited| == cols / 3
    ensures 0 < m ==> |Accepted(t, m, ScanOrder(|t|, visited[..|visited| - 1]))| < m
    ensures |muestras| < m ==> forall f, c :: 0 <= f < |t| && c in visited && t[f][c] <= m ==> t[f][c] in Values(muestras)
  {
    var raw;
    raw, visited := CollectSamples(t, cols, n, m);
    muestras := SortByValor(raw);
    VisitedScanSuffices(t, cols, n, m, visited);
    VisitOrderDistinct(StartColumn(n), cols, |visited|);
    SelectionSound(t, m, visited);
    if |raw| < m {
      SelectionComplete(t, m, visited);
    }
  }

  /** Stopping early loses nothing: when M records are held, or every triple
      was visited, the visited triples accept what a full turn accepts. */
  lemma VisitedScanSuffices(t: Table, cols: nat, n: int, m: int, visited: seq<nat>)
    requires ValidRun(t, cols, n)
    requires 1 <= |visited| <= cols / 3
    requires visited == VisitOrder(StartColumn(n), cols, |visited|)
    requires InTable(t, ScanOrder(|t|, visited))
    requires |Accepted(t, m, ScanOrder(|t|, visited))| < m ==> |visited| == cols / 3
    ensures Accepted(t, m, ScanOrder(|t|, visited)) == Accepted(t, m, FullScan(t, cols, n))
  {
    var all := VisitOrder(StartColumn(n), cols, cols / 3);
    var rest := all[|visited|..];
    assert all == visited + rest;
    ScanOrderInTable(t, cols, rest);
    ScanOrderConcat(|t|, visited, rest);
    if |Accepted(t, m, ScanOrder(|t|, visited))| >= m {
      AcceptedSaturated(t, m, ScanOrder(|t|, visited), ScanOrder(|t|, rest));
    } else {
      assert visited == all;
    }
  }

  /** A record the selection may return: its value is at most M and is the
      cell of the table at the row and visited index column the record names. */
  predicate SoundRecord(t: Table, m: int, visited: seq<nat>, x: Sample)
  {
    && x.valor <= m
    && x.fila < |t|
    && x.col in visited
    && x.col < |t[x.fila]|
    && x.valor == t[x.fila][x.col]
  }

  /** Every selected record is sound, there are at most M of them, and they
      are in strictly ascending order of value. */
  lemma SelectionSound(t: Table, m: int, visited: seq<nat>)
    requires InTable(t, ScanOrder(|t|, visited))
    ensures
      var r := SortByValor(Accepted(t, m, ScanOrder(|t|, visited)));
      && (|r| <= m || r == [])
      && StrictlyAscending(r)
      && forall x :: x in r ==> SoundRecord(t, m, visited, x)
  {
    var raw := Accepted(t, m, ScanOrder(|t|, visited));
    forall x | x in raw
      ensures SoundRecord(t, m, visited, x)
    {
      var k :| 0 <= k < |raw| && raw[k] == x;
      ScanOrderCovers(|t|, visited, Pos(x.fila, x.col));
    }
    SortKeepsRecords(raw);
  }

  /** A partial selection holds every value at most M that appears in the
      index column of a visited triple. */
  lemma SelectionComplete(t: Table, m: int, visited: seq<nat>)
    requires InTable(t, ScanOrder(|t|, visited))
    requires |Accepted(t, m, ScanOrder(|t|, visited))| < m
    ensures forall f, c :: 0 <= f < |t| && c in visited && c < |t[f]| && t[f][c] <= m ==>
      t[f][c] in Values(SortByValor(Accepted(t, m, ScanOrder(|t|, visited))))
  {
    var raw := Accepted(t, m, ScanOrder(|t|, visited));
    AcceptedComplete(t, m, ScanOrder(|t|, visited));
    SortKeepsRecords(raw);
    forall f, c | 0 <= f < |t| && c in visited && c < |t[f]| && t[f][c] <= m
      ensures t[f][c] in Values(SortByValor(raw))
    {
      ScanOrderCovers(|t|, visited, Pos(f, c));
      assert Cell(t, Pos(f, c)) == t[f][c];
    }
  }
}
