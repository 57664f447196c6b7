/** The order in which the selection loop visits the column triples of the
    lookup table: it starts at the triple chosen by N, moves three columns to
    the right after each exhausted triple, and wraps from the last triple back
    to column 0. */
module Blocks {

  /** A table of `cols` columns grouped in triples, and a starting column that
      is the index column of one of those triples. */
  predicate ValidStart(c0: nat, cols: nat)
  {
    cols % 3 == 0 && c0 % 3 == 0 && c0 < cols
  }

  /** The column the loop moves to after exhausting the triple at `col`:
      three further, or column 0 once that runs past the last column. */
  function NextBlock(col: nat, cols: nat): (next: nat)
    requires ValidStart(col, cols)
    ensures ValidStart(next, cols)
    ensures next == 0 <==> col + 3 == cols
  {
    if col + 3 >= cols then 0 else col + 3
  }

  /** The index column of the i-th triple visited when the loop starts at c0. */
  function ColAt(c0: nat, cols: nat, i: nat): (c: nat)
    requires ValidStart(c0, cols)
    ensures ValidStart(c, cols)
    ensures c + 2 < cols
  {
    if i == 0 then c0 else NextBlock(ColAt(c0, cols, i - 1), cols)
  }

  /** The first k columns visited from c0, in visiting order. */
  function VisitOrder(c0: nat, cols: nat, k: nat): (vs: seq<nat>)
    requires ValidStart(c0, cols)
    ensures forall c :: c in vs ==> c % 3 == 0 && c + 2 < cols
  {
    seq(k, i requires 0 <= i => ColAt(c0, cols, i))
  }

  /** Visiting one more triple appends the next column to the visiting order. */
  lemma VisitOrderSnoc(c0: nat, cols: nat, k: nat)
    requires ValidStart(c0, cols)
    ensures VisitOrder(c0, cols, k + 1) == VisitOrder(c0, cols, k) + [ColAt(c0, cols, k)]
  {
  }

  /** Closed form of the visiting order: the i-th visited column is c0 + 3i,
      less the table width once that passes the last column. */
  lemma {:induction false} ColAtClosedForm(c0: nat, cols: nat, i: nat)
    requires ValidStart(c0, cols)
    requires i <= cols / 3
    ensures ColAt(c0, cols, i) == if c0 + 3 * i < cols then c0 + 3 * i else c0 + 3 * i - cols
  {
    if i > 0 {
      ColAtClosedForm(c0, cols, i - 1);
    }
  }

  /** No triple is visited twice within one full turn of the table. */
  lemma ColAtDistinct(c0: nat, cols: nat, i: nat, j: nat)
    requires ValidStart(c0, cols)
    requires i < j < cols / 3
    ensures ColAt(c0, cols, i) != ColAt(c0, cols, j)
  {
    ColAtClosedForm(c0, cols, i);
    ColAtClosedForm(c0, cols, j);
  }

  /** After one full turn of the table the loop is back at its starting column. */
  lemma ColAtFullTurn(c0: nat, cols: nat)
    requires ValidStart(c0, cols)
    ensures ColAt(c0, cols, cols / 3) == c0
  {
    ColAtClosedForm(c0, cols, cols / 3);
  }

  /** The first k visited columns, k at most the number of triples, are
      pairwise distinct. */
  lemma VisitOrderDistinct(c0: nat, cols: nat, k: nat)
    requires ValidStart(c0, cols)
    requires k <= cols / 3
    ensures forall i, j :: 0 <= i < j < k ==> VisitOrder(c0, cols, k)[i] != VisitOrder(c0, cols, k)[j]
  {
    forall i, j | 0 <= i < j < k
      ensures VisitOrder(c0, cols, k)[i] != VisitOrder(c0, cols, k)[j]
    {
      ColAtDistinct(c0, cols, i, j);
    }
  }

  /** The column reached after k visits is new exactly when fewer than all
      triples have been visited: before a full turn it is not among the
      visited ones, and after a full turn it is the first of them. */
  lemma NextVisitIsFresh(c0: nat, cols: nat, k: nat)
    requires ValidStart(c0, cols)
    requires 1 <= k <= cols / 3
    ensures ColAt(c0, cols, k) in VisitOrder(c0, cols, k) <==> k == cols / 3
  {
    var vs := VisitOrder(c0, cols, k);
    if k < cols / 3 {
      forall i | 0 <= i < k
        ensures vs[i] != ColAt(c0, cols, k)
      {
        ColAtDistinct(c0, cols, i, k);
      }
    } else {
      ColAtFullTurn(c0, cols);
      assert vs[0] == c0;
    }
  }
}
