/** The lookup table, the records the selection accepts, and the greedy
    acceptance rule read as a fold over a sequence of scan positions. */
module Scan {

  /** The lookup table: rows of already truncated integer cells. */
  type Table = seq<seq<int>>

  /** Every row has exactly `cols` cells. */
  predicate Rectangular(t: Table, cols: nat)
  {
    forall f :: 0 <= f < |t| ==> |t[f]| == cols
  }

  /** A scan position: a row and an index column. */
  datatype Pos = Pos(fila: nat, col: nat)

  /** An accepted record: the index value read, the row and the index column
      it was read from (the tuple `(valor, fila, col)` of the source). */
  datatype Sample = Sample(valor: int, fila: nat, col: nat)

  predicate InTable(t: Table, ps: seq<Pos>)
  {
    forall p :: p in ps ==> p.fila < |t| && p.col < |t[p.fila]|
  }

  function Cell(t: Table, p: Pos): int
    requires p.fila < |t| && p.col < |t[p.fila]|
  {
    t[p.fila][p.col]
  }

  /** The values of the records accepted so far (`valores_existentes`). */
  function Values(s: seq<Sample>): (vs: seq<int>)
    ensures |vs| == |s|
  {
    seq(|s|, i requires 0 <= i < |s| => s[i].valor)
  }

  /** A value is among the held values exactly when some held record has it. */
  lemma InValues(s: seq<Sample>, v: int)
    ensures v in Values(s) <==> exists x :: x in s && x.valor == v
  {
    if v in Values(s) {
      var i :| 0 <= i < |s| && Values(s)[i] == v;
      assert s[i] in s;
    }
    if x :| x in s && x.valor == v {
      var i :| 0 <= i < |s| && s[i] == x;
      assert Values(s)[i] == v;
    }
  }

  predicate DistinctValues(s: seq<Sample>)
  {
    forall i, j :: 0 <= i < j < |s| ==> s[i].valor != s[j].valor
  }

  /** The acceptance test of the scan: at most M, and not the value of any
      record accepted so far, whichever block it came from. Only the upper
      bound is tested, so zero and negative values pass. */
  predicate Admits(acc: seq<Sample>, m: int, v: int)
    ensures Admits(acc, m, v) <==> v <= m && forall x :: x in acc ==> x.valor != v
  {
    InValues(acc, v);
    v <= m && v !in Values(acc)
  }

  /** One scan position: accept its cell while fewer than M records are held
      and the cell is admitted; otherwise keep what is held. */
  function Step(t: Table, m: int, acc: seq<Sample>, p: Pos): (r: seq<Sample>)
    requires p.fila < |t| && p.col < |t[p.fila]|
    ensures |acc| <= |r| <= |acc| + 1 && r[..|acc|] == acc
    ensures |r| == |acc| + 1 <==> |acc| < m && t[p.fila][p.col] <= m && forall x :: x in acc ==> x.valor != t[p.fila][p.col]
    ensures |r| == |acc| + 1 ==> r[|acc|] == Sample(t[p.fila][p.col], p.fila, p.col)
  {
    if |acc| < m && Admits(acc, m, Cell(t, p)) then acc + [Sample(Cell(t, p), p.fila, p.col)] else acc
  }

  /** A step never accepts a value that is already held. */
  lemma StepKeepsDistinct(t: Table, m: int, acc: seq<Sample>, p: Pos)
    requires p.fila < |t| && p.col < |t[p.fila]|
    requires DistinctValues(acc)
    ensures DistinctValues(Step(t, m, acc, p))
  {
    var r := Step(t, m, acc, p);
    if |acc| < m && Admits(acc, m, Cell(t, p)) {
      forall i, j | 0 <= i < j < |r|
        ensures r[i].valor != r[j].valor
      {
        if j == |acc| {
          assert Values(acc)[i] == r[i].valor;
        }
      }
    }
  }

  /** The records accepted, in acceptance order, by scanning the positions
      `ps` from an empty list with sample count m. */
  function Accepted(t: Table, m: int, ps: seq<Pos>): (r: seq<Sample>)
    requires InTable(t, ps)
    ensures |r| <= m || r == []
    ensures DistinctValues(r)
    ensures forall i :: 0 <= i < |r| ==> r[i].valor <= m && Pos(r[i].fila, r[i].col) in ps
    ensures forall i :: 0 <= i < |r| ==> r[i].fila < |t| && r[i].col < |t[r[i].fila]| && r[i].valor == t[r[i].fila][r[i].col]
    decreases |ps|
  {
    if ps == [] then []
    else
      var acc := Accepted(t, m, ps[..|ps| - 1]);
      var p := ps[|ps| - 1];
      StepKeepsDistinct(t, m, acc, p);
      Step(t, m, acc, p)
  }

  /** Scanning one more position is one more step of the fold. */
  lemma AcceptedSnoc(t: Table, m: int, ps: seq<Pos>, p: Pos)
    requires InTable(t, ps) && p.fila < |t| && p.col < |t[p.fila]|
    ensures InTable(t, ps + [p])
    ensures Accepted(t, m, ps + [p]) == Step(t, m, Accepted(t, m, ps), p)
  {
    assert (ps + [p])[..|ps|] == ps;
  }

  /** Once M records are held, scanning further positions accepts nothing:
      this is what lets the loop stop early. */
  lemma {:induction false} AcceptedSaturated(t: Table, m: int, ps: seq<Pos>, qs: seq<Pos>)
    requires InTable(t, ps) && InTable(t, qs)
    requires |Accepted(t, m, ps)| >= m
    ensures InTable(t, ps + qs)
    ensures Accepted(t, m, ps + qs) == Accepted(t, m, ps)
    decreases |qs|
  {
    if qs == [] {
      assert ps + qs == ps;
    } else {
      var init := qs[..|qs| - 1];
      assert (ps + qs)[..|ps + qs| - 1] == ps + init;
      AcceptedSaturated(t, m, ps, init);
    }
  }

  /** Completeness of a partial result: while fewer than M records are held,
      every scanned cell whose value is at most M has its value among the
      accepted ones. */
  lemma {:induction false} AcceptedComplete(t: Table, m: int, ps: seq<Pos>)
    requires InTable(t, ps)
    requires |Accepted(t, m, ps)| < m
    ensures forall p :: p in ps && Cell(t, p) <= m ==> Cell(t, p) in Values(Accepted(t, m, ps))
    decreases |ps|
  {
    if ps != [] {
      var init := ps[..|ps| - 1];
      var last := ps[|ps| - 1];
      var before := Accepted(t, m, init);
      var after := Accepted(t, m, ps);
      AcceptedComplete(t, m, init);
      assert ps == init + [last];
      forall p | p in ps && Cell(t, p) <= m
        ensures Cell(t, p) in Values(after)
      {
        if Cell(t, p) in Values(before) {
          var k :| 0 <= k < |before| && Values(before)[k] == Cell(t, p);
          assert Values(after)[k] == Cell(t, p);
        } else {
          assert p == last;
          assert Values(after)[|before|] == Cell(t, p);
        }
      }
    }
  }

  /** The first occurrence wins: while fewer than M records are held, the
      position at index j adds a record exactly when its value is at most M
      and no earlier position holds the same value. */
  lemma AcceptsFirstOccurrence(t: Table, m: int, ps: seq<Pos>, j: nat)
    requires InTable(t, ps)
    requires j < |ps|
    requires |Accepted(t, m, ps[..j])| < m
    ensures
      var v := Cell(t, ps[j]);
      Accepted(t, m, ps[..j + 1]) == Accepted(t, m, ps[..j]) + [Sample(v, ps[j].fila, ps[j].col)]
      <==> v <= m && forall k :: 0 <= k < j ==> Cell(t, ps[k]) != v
  {
    var v := Cell(t, ps[j]);
    var pre := ps[..j];
    var before := Accepted(t, m, pre);
    assert ps[..j + 1][..j] == pre;
    AcceptedComplete(t, m, pre);
    if v <= m && !(forall k :: 0 <= k < j ==> Cell(t, ps[k]) != v) {
      var k :| 0 <= k < j && Cell(t, ps[k]) == v;
      assert pre[k] in pre;
    }
  }

  /** The positions of one triple's index column, rows ascending. */
  function BlockOrder(rows: nat, col: nat): (ps: seq<Pos>)
    ensures |ps| == rows
  {
    seq(rows, f requires 0 <= f => Pos(f, col))
  }

  /** One index column is scanned at every row of the table and nowhere
      else, rows ascending. */
  lemma BlockOrderCovers(rows: nat, col: nat, q: Pos)
    ensures q in BlockOrder(rows, col) <==> q.fila < rows && q.col == col
    ensures forall i, j :: 0 <= i < j < rows ==> BlockOrder(rows, col)[i].fila < BlockOrder(rows, col)[j].fila
  {
    if q.fila < rows && q.col == col {
      assert BlockOrder(rows, col)[q.fila] == q;
    }
  }

  /** The rows of one index column are scanned one at a time, after the
      positions `scanned` before them. */
  lemma BlockOrderSnoc(scanned: seq<Pos>, rows: nat, col: nat)
    ensures scanned + BlockOrder(rows + 1, col) == (scanned + BlockOrder(rows, col)) + [Pos(rows, col)]
  {
    assert BlockOrder(rows + 1, col) == BlockOrder(rows, col) + [Pos(rows, col)];
  }

  /** The rows of one index column split at any row k. */
  lemma BlockOrderSplit(rows: nat, col: nat, k: nat)
    requires k <= rows
    ensures BlockOrder(rows, col) == BlockOrder(k, col) + BlockOrder(rows, col)[k..]
  {
  }

  /** The positions scanned when the index columns `cols` are visited in
      order, each one row by row. */
  function ScanOrder(rows: nat, cols: seq<nat>): (ps: seq<Pos>)
    ensures |ps| == rows * |cols|
  {
    if cols == [] then [] else ScanOrder(rows, cols[..|cols| - 1]) + BlockOrder(rows, cols[|cols| - 1])
  }

  /** Visiting one more index column scans its rows after everything before. */
  lemma ScanOrderSnoc(rows: nat, cols: seq<nat>, c: nat)
    ensures ScanOrder(rows, cols + [c]) == ScanOrder(rows, cols) + BlockOrder(rows, c)
  {
    assert (cols + [c])[..|cols|] == cols;
  }

  /** A position is scanned exactly when its row is in the table and its
      column is one of the visited index columns. */
  lemma {:induction false} ScanOrderCovers(rows: nat, cols: seq<nat>, p: Pos)
    ensures p in ScanOrder(rows, cols) <==> p.fila < rows && p.col in cols
  {
    if cols != [] {
      var init := cols[..|cols| - 1];
      ScanOrderCovers(rows, init, p);
      assert cols == init + [cols[|cols| - 1]];
      if p.fila < rows && p.col == cols[|cols| - 1] {
        assert BlockOrder(rows, p.col)[p.fila] == p;
      }
    }
  }

  /** Visiting the columns of a then those of b scans the positions of a,
      then those of b. */
  lemma {:induction false} ScanOrderConcat(rows: nat, a: seq<nat>, b: seq<nat>)
    ensures ScanOrder(rows, a + b) == ScanOrder(rows, a) + ScanOrder(rows, b)
    decreases |b|
  {
    if b == [] {
      assert a + b == a;
    } else {
      var init := b[..|b| - 1];
      assert (a + b)[..|a + b| - 1] == a + init;
      ScanOrderConcat(rows, a, init);
    }
  }

  /** Every scanned position of a rectangular table lies inside it when the
      visited columns do. */
  lemma ScanOrderInTable(t: Table, width: nat, cols: seq<nat>)
    requires Rectangular(t, width)
    requires forall c :: c in cols ==> c < width
    ensures InTable(t, ScanOrder(|t|, cols))
  {
    forall p | p in ScanOrder(|t|, cols)
      ensures p.fila < |t| && p.col < |t[p.fila]|
    {
      ScanOrderCovers(|t|, cols, p);
    }
  }
}
