/**
 * The 3x3 grid: cells, boards as flat sequences of nine cells, the count of
 * occupied cells and the 1-based row/column coordinates recorded for a move.
 */
module Board {
  /** One square. `Empty` is the source's `null`; `X` and `O` are the two marks. */
  datatype Cell = Empty | X | O

  /** A board position, numbered 0..8 row by row. */
  type Pos = p: nat | p < 9

  const EmptyBoard: seq<Cell> := [Empty, Empty, Empty, Empty, Empty, Empty, Empty, Empty, Empty]

  /** A board is a flat sequence of exactly nine cells. */
  type Board = b: seq<Cell> | |b| == 9 witness EmptyBoard

  /** The mark of the player whose turn it is. */
  function Mark(xIsNext: bool): (c: Cell)
    ensures c != Empty
    ensures c == X <==> xIsNext
  {
    if xIsNext then X else O
  }

  /** Every cell holds a mark. */
  predicate Full(b: seq<Cell>) {
    forall p :: 0 <= p < |b| ==> b[p] != Empty
  }

  /** No cell holds a mark. */
  predicate Blank(b: seq<Cell>) {
    forall p :: 0 <= p < |b| ==> b[p] == Empty
  }

  /** The number of cells that hold a mark. */
  function Occupied(b: seq<Cell>): (n: nat)
    ensures n <= |b|
  {
    if b == [] then 0 else (if b[0] == Empty then 0 else 1) + Occupied(b[1..])
  }

  /** The count reaches its two extremes exactly on a blank and on a full board. */
  lemma {:induction false} OccupiedExtremes(b: seq<Cell>)
    ensures Occupied(b) == 0 <==> Blank(b)
    ensures Occupied(b) == |b| <==> Full(b)
  {
    if b != [] {
      OccupiedExtremes(b[1..]);
      assert forall p :: 1 <= p < |b| ==> b[p] == b[1..][p - 1];
      if Full(b) {
        assert forall q :: 0 <= q < |b| - 1 ==> b[1..][q] == b[q + 1];
      }
      if Blank(b) {
        assert forall q :: 0 <= q < |b| - 1 ==> b[1..][q] == b[q + 1];
      }
    }
  }

  /** Marking one empty cell raises the count by exactly one. */
  lemma {:induction false} OccupiedPlace(b: seq<Cell>, i: nat, c: Cell)
    requires i < |b| && b[i] == Empty && c != Empty
    ensures Occupied(b[i := c]) == Occupied(b) + 1
  {
    if i == 0 {
      assert b[i := c][1..] == b[1..];
    } else {
      assert b[i := c][1..] == b[1..][i - 1 := c];
      OccupiedPlace(b[1..], i - 1, c);
    }
  }

  /** The 1-based row recorded for a move at `i` (`Math.floor(i/3)+1`). */
  function Row(i: Pos): (r: nat)
    ensures 1 <= r <= 3
  {
    i / 3 + 1
  }

  /** The 1-based column recorded for a move at `i` (`i%3+1`). */
  function Col(i: Pos): (c: nat)
    ensures 1 <= c <= 3
  {
    i % 3 + 1
  }

  /** The position named by a 1-based row and column. */
  function CellAt(row: nat, col: nat): Pos
    requires 1 <= row <= 3 && 1 <= col <= 3
  {
    (row - 1) * 3 + (col - 1)
  }

  /** A move's recorded row and column lead back to its position. */
  lemma CellAtRowCol(i: Pos)
    ensures CellAt(Row(i), Col(i)) == i
  {
  }

  /** Distinct row/column pairs name distinct positions: the other round trip. */
  lemma RowColCellAt(row: nat, col: nat)
    requires 1 <= row <= 3 && 1 <= col <= 3
    ensures Row(CellAt(row, col)) == row && Col(CellAt(row, col)) == col
  {
  }
}
