/** A value that may be absent. */
module Optional {
  datatype Option<T> = None | Some(value: T)
}

/**
 Dense `rows x cols` tables of probabilities, as `vector<vector<double>>`
 holds them: allocated zero-filled, then written one cell at a time.
 */
module Matrix {
  import opened Optional

  /** One assignment `table[row][col] = value`. */
  datatype Write = Write(row: nat, col: nat, value: real)

  predicate IsMatrix(t: seq<seq<real>>, rows: nat, cols: nat)
  {
    |t| == rows && forall r :: 0 <= r < rows ==> |t[r]| == cols
  }

  /** Every write addresses a cell inside a `rows x cols` table. */
  predicate Fits(ws: seq<Write>, rows: nat, cols: nat)
  {
    forall i :: 0 <= i < |ws| ==> ws[i].row < rows && ws[i].col < cols
  }

  /** The table `assign(rows, vector<double>(cols, 0))` produces. */
  function Zeros(rows: nat, cols: nat): (z: seq<seq<real>>)
    ensures IsMatrix(z, rows, cols)
    ensures forall r, c :: 0 <= r < rows && 0 <= c < cols ==> z[r][c] == 0.0
  {
    seq(rows, _ => seq(cols, _ => 0.0))
  }

  /** The table after performing the writes `ws` in order. */
  function ApplyWrites(t: seq<seq<real>>, rows: nat, cols: nat, ws: seq<Write>): (r: seq<seq<real>>)
    requires IsMatrix(t, rows, cols) && Fits(ws, rows, cols)
    ensures IsMatrix(r, rows, cols)
    decreases |ws|
  {
    if ws == [] then t
    else
      var before := ApplyWrites(t, rows, cols, ws[..|ws| - 1]);
      var w := ws[|ws| - 1];
      before[w.row := before[w.row][w.col := w.value]]
  }

  /**
   The value of the last write in `ws` to cell (row, col), if any write
   addresses that cell.
   */
  function LastWrite(ws: seq<Write>, row: nat, col: nat): (v: Option<real>)
    ensures v.None? <==> forall i :: 0 <= i < |ws| ==> !(ws[i].row == row && ws[i].col == col)
    ensures v.Some? ==>
      exists i :: 0 <= i < |ws| && Hits(ws, i, row, col) && ws[i].value == v.value
    decreases |ws|
  {
    if ws == [] then None
    else
      var w := ws[|ws| - 1];
      if w.row == row && w.col == col then
        assert Hits(ws, |ws| - 1, row, col);
        Some(w.value)
      else
        var v := LastWrite(ws[..|ws| - 1], row, col);
        assert forall i :: 0 <= i < |ws| - 1 ==> ws[..|ws| - 1][i] == ws[i];
        assert forall i :: 0 <= i < |ws| - 1 && Hits(ws[..|ws| - 1], i, row, col) ==> Hits(ws, i, row, col);
        v
  }

  /** The `i`-th write of `ws` addresses cell (row, col) and no later write does. */
  ghost predicate Hits(ws: seq<Write>, i: nat, row: nat, col: nat)
    requires i < |ws|
  {
    ws[i].row == row && ws[i].col == col &&
    forall j :: i < j < |ws| ==> !(ws[j].row == row && ws[j].col == col)
  }

  /**
   A cell of the written table holds the value of the last write to it, and
   keeps its initial value when no write addresses it.
   */
  lemma {:induction false} ApplyWritesAt(t: seq<seq<real>>, rows: nat, cols: nat, ws: seq<Write>, row: nat, col: nat)
    requires IsMatrix(t, rows, cols) && Fits(ws, rows, cols)
    requires row < rows && col < cols
    ensures ApplyWrites(t, rows, cols, ws)[row][col] ==
      match LastWrite(ws, row, col)
      case Some(v) => v
      case None => t[row][col]
    decreases |ws|
  {
    if ws != [] {
      ApplyWritesAt(t, rows, cols, ws[..|ws| - 1], row, col);
    }
  }
}
