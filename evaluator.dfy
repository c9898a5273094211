/**
 * The winner evaluator (`calculateWinner`): a fixed scan over the eight lines
 * of the grid that reports the first line holding three equal marks.
 */
module Evaluator {
  import opened Wrappers
  import opened Board

  /** Three positions that win when they hold the same mark. */
  datatype Line = Line(a: Pos, b: Pos, c: Pos)

  /** The winning lines in the order the evaluator tries them. */
  const Lines: seq<Line> := [
    Line(0, 1, 2), Line(3, 4, 5), Line(6, 7, 8),
    Line(0, 3, 6), Line(1, 4, 7), Line(2, 5, 8),
    Line(0, 4, 8), Line(2, 4, 6)
  ]

  /** The evaluator's non-null result: the winning mark and its line. */
  datatype Win = Win(player: Cell, line: Line)

  /** The three cells of `l` hold the same mark. */
  predicate Completes(b: Board, l: Line) {
    b[l.a] != Empty && b[l.a] == b[l.b] && b[l.a] == b[l.c]
  }

  /** The scan of `Lines` from index `k` on: the first completed line, if any. */
  function WinnerFrom(b: Board, k: nat): (r: Option<Win>)
    requires k <= |Lines|
    ensures r.Some? ==> Completes(b, r.value.line) && r.value.player == b[r.value.line.a]
    decreases |Lines| - k
  {
    if k == |Lines| then None
    else if Completes(b, Lines[k]) then Some(Win(b[Lines[k].a], Lines[k]))
    else WinnerFrom(b, k + 1)
  }

  /** What `calculateWinner` returns for board `b` (`None` for `null`). */
  function Winner(b: Board): (r: Option<Win>)
    ensures r.Some? ==> r.value.line in Lines && Completes(b, r.value.line) && r.value.player == b[r.value.line.a]
  {
    WinnerFromIn(b, 0);
    WinnerFrom(b, 0)
  }

  /** `calculateWinner` itself: the loop with its early return. */
  method CalculateWinner(squares: Board) returns (r: Option<Win>)
    ensures r == Winner(squares)
  {
    var i := 0;
    while i < |Lines|
      invariant 0 <= i <= |Lines|
      invariant WinnerFrom(squares, i) == Winner(squares)
    {
      var line := Lines[i];
      if squares[line.a] != Empty && squares[line.a] == squares[line.b] && squares[line.a] == squares[line.c] {
        return Some(Win(squares[line.a], line));
      }
      i := i + 1;
    }
    return None;
  }

  lemma {:induction false} WinnerFromIn(b: Board, k: nat)
    requires k <= |Lines|
    ensures WinnerFrom(b, k).Some? ==> WinnerFrom(b, k).value.line in Lines
    decreases |Lines| - k
  {
    if k < |Lines| && !Completes(b, Lines[k]) {
      WinnerFromIn(b, k + 1);
    }
  }

  lemma {:induction false} WinnerFromNone(b: Board, k: nat)
    requires k <= |Lines|
    ensures WinnerFrom(b, k).None? <==> forall j :: k <= j < |Lines| ==> !Completes(b, Lines[j])
    decreases |Lines| - k
  {
    if k < |Lines| {
      WinnerFromNone(b, k + 1);
    }
  }

  lemma {:induction false} WinnerFromFirst(b: Board, k: nat)
    requires k <= |Lines| && WinnerFrom(b, k).Some?
    ensures exists j :: k <= j < |Lines| && WinnerFrom(b, k).value == Win(b[Lines[j].a], Lines[j])
                        && Completes(b, Lines[j]) && forall q :: k <= q < j ==> !Completes(b, Lines[q])
    decreases |Lines| - k
  {
    if !Completes(b, Lines[k]) {
      WinnerFromFirst(b, k + 1);
      var j :| k + 1 <= j < |Lines| && WinnerFrom(b, k + 1).value == Win(b[Lines[j].a], Lines[j])
               && Completes(b, Lines[j]) && forall q :: k + 1 <= q < j ==> !Completes(b, Lines[q]);
      assert forall q :: k <= q < j ==> !Completes(b, Lines[q]);
    }
  }

  lemma {:induction false} WinnerFromReaches(b: Board, m: nat, k: nat)
    requires m <= k < |Lines| && Completes(b, Lines[k])
    requires forall q :: m <= q < k ==> !Completes(b, Lines[q])
    ensures WinnerFrom(b, m) == Some(Win(b[Lines[k].a], Lines[k]))
    decreases k - m
  {
    if m < k {
      WinnerFromReaches(b, m + 1, k);
    }
  }

  /** The evaluator returns `null` exactly when no line is complete. */
  lemma WinnerNone(b: Board)
    ensures Winner(b).None? <==> forall k :: 0 <= k < |Lines| ==> !Completes(b, Lines[k])
  {
    WinnerFromNone(b, 0);
  }

  /**
   * A non-null result is the first completed line in the fixed order, with
   * the mark its three cells share.
   */
  lemma WinnerIsFirstMatch(b: Board)
    requires Winner(b).Some?
    ensures exists k :: 0 <= k < |Lines| && Winner(b).value == Win(b[Lines[k].a], Lines[k])
                        && Completes(b, Lines[k]) && forall j :: 0 <= j < k ==> !Completes(b, Lines[j])
    ensures var w := Winner(b).value;
            w.player != Empty && w.player == b[w.line.a] == b[w.line.b] == b[w.line.c]
  {
    WinnerFromFirst(b, 0);
  }

  /** Conversely, the first completed line in the fixed order is what the evaluator returns. */
  lemma FirstMatchIsWinner(b: Board, k: nat)
    requires k < |Lines| && Completes(b, Lines[k])
    requires forall j :: 0 <= j < k ==> !Completes(b, Lines[j])
    ensures Winner(b) == Some(Win(b[Lines[k].a], Lines[k]))
  {
    WinnerFromReaches(b, 0, k);
  }

  /** Row `r` (0-based), left to right. */
  function RowLine(r: nat): Line
    requires r < 3
  {
    Line(3 * r, 3 * r + 1, 3 * r + 2)
  }

  /** Column `c` (0-based), top to bottom. */
  function ColLine(c: nat): Line
    requires c < 3
  {
    Line(c, c + 3, c + 6)
  }

  const MainDiagonal := Line(0, 4, 8)
  const AntiDiagonal := Line(2, 4, 6)

  /** Rows top to bottom, columns left to right, then the two diagonals. */
  lemma LinesOrder()
    ensures Lines == [RowLine(0), RowLine(1), RowLine(2),
                      ColLine(0), ColLine(1), ColLine(2),
                      MainDiagonal, AntiDiagonal]
  {
  }

  /** Some row, column or diagonal holds three equal marks. */
  predicate ThreeInARow(b: Board) {
    (exists r :: 0 <= r < 3 && Completes(b, RowLine(r))) ||
    (exists c :: 0 <= c < 3 && Completes(b, ColLine(c))) ||
    Completes(b, MainDiagonal) || Completes(b, AntiDiagonal)
  }

  /** The evaluator finds a winner exactly when some row, column or diagonal is complete. */
  lemma WinnerIffThreeInARow(b: Board)
    ensures Winner(b).Some? <==> ThreeInARow(b)
  {
    WinnerNone(b);
    LinesOrder();
    if ThreeInARow(b) {
      if r :| 0 <= r < 3 && Completes(b, RowLine(r)) {
        assert Completes(b, Lines[r]);
      } else if c :| 0 <= c < 3 && Completes(b, ColLine(c)) {
        assert Completes(b, Lines[3 + c]);
      } else if Completes(b, MainDiagonal) {
        assert Completes(b, Lines[6]);
      } else {
        assert Completes(b, Lines[7]);
      }
    }
    if Winner(b).Some? {
      var k :| 0 <= k < |Lines| && Completes(b, Lines[k]);
      if k < 3 {
        assert Completes(b, RowLine(k));
      } else if k < 6 {
        assert Completes(b, ColLine(k - 3));
      }
    }
  }
}
