/**
 * What `Game.render` derives from the state: the status line, the order of
 * the move list and its emphasised entry, the "last move" coordinates and
 * the highlighted squares.
 */
module View {
  import opened Wrappers
  import opened Board
  import opened Evaluator
  import opened Rules

  /** The three kinds of status line. */
  datatype Status = Won(player: Cell) | Draw | NextPlayer(player: Cell)

  /** The status: a winner first, else a draw at step 9, else whose turn it is. */
  function StatusOf(s: GameState): (r: Status)
    requires s.stepNumber < |s.history|
    ensures r.Won? <==> Winner(Current(s)).Some?
    ensures r.Won? ==> r.player == Winner(Current(s)).value.player
    ensures r == Draw <==> Winner(Current(s)).None? && s.stepNumber == 9
    ensures !r.Draw? ==> r.player != Empty
    ensures r.NextPlayer? ==> (r.player == X <==> s.xIsNext)
  {
    match Winner(Current(s))
    case Some(w) => Won(w.player)
    case None => if s.stepNumber == 9 then Draw else NextPlayer(Mark(s.xIsNext))
  }

  function Symbol(c: Cell): string {
    match c
    case X => "X"
    case O => "O"
    case Empty => ""
  }

  /** The status line as displayed. */
  function StatusText(st: Status): (r: string)
    ensures |r| > 0
    ensures !st.Draw? && st.player != Empty ==> r[|r| - 1] == (if st.player == X then 'X' else 'O')
  {
    match st
    case Won(p) => "Winner: " + Symbol(p)
    case Draw => "Game is a draw"
    case NextPlayer(p) => "Next player: " + Symbol(p)
  }

  /**
   * On a reachable state the status means what it says: "Winner" exactly when
   * a row, column or diagonal is complete, naming the mark on it; "draw"
   * exactly when the board is full without one; otherwise the player whose
   * turn it is, by the parity of the marks on the board.
   */
  lemma StatusMeaning(s: GameState)
    requires Inv(s)
    ensures StatusOf(s).Won? <==> ThreeInARow(Current(s))
    ensures StatusOf(s).Won? ==>
              exists k :: 0 <= k < |Lines| && Completes(Current(s), Lines[k]) &&
                          StatusOf(s).player == Current(s)[Lines[k].a]
    ensures StatusOf(s) == Draw <==> !ThreeInARow(Current(s)) && Full(Current(s))
    ensures StatusOf(s).NextPlayer? ==>
              !Full(Current(s)) && StatusOf(s).player == (if Occupied(Current(s)) % 2 == 0 then X else O)
  {
    WinnerIffThreeInARow(Current(s));
    StepNineIffFull(s);
    OccupiedIsStep(s, s.stepNumber);
    if Winner(Current(s)).Some? {
      WinnerIsFirstMatch(Current(s));
    }
  }

  /** Different statuses (with a real mark) read differently. */
  lemma StatusTextDistinct(st1: Status, st2: Status)
    requires !st1.Draw? ==> st1.player != Empty
    requires !st2.Draw? ==> st2.player != Empty
    requires st1 != st2
    ensures StatusText(st1) != StatusText(st2)
  {
    var t1, t2 := StatusText(st1), StatusText(st2);
    if (st1.Won? && st2.Won?) || (st1.NextPlayer? && st2.NextPlayer?) {
      assert t1[|t1| - 1] != t2[|t2| - 1];
    } else {
      assert t1[0] != t2[0];
    }
  }

  /** The step each row of the move list jumps to, top to bottom. */
  function MoveOrder(n: nat, ascend: bool): (r: seq<nat>)
    ensures |r| == n
    ensures forall k :: 0 <= k < n ==> r[k] < n
  {
    seq(n, move requires 0 <= move < n => if ascend then move else n - move - 1)
  }

  /** Either order lists every step exactly once. */
  lemma MoveOrderIsPermutation(n: nat, ascend: bool)
    ensures var r := MoveOrder(n, ascend);
            (forall m :: 0 <= m < n ==> m in r) &&
            (forall j, k :: 0 <= j < k < n ==> r[j] != r[k])
  {
    var r := MoveOrder(n, ascend);
    forall m | 0 <= m < n
      ensures m in r
    {
      var k := if ascend then m else n - m - 1;
      assert r[k] == m;
    }
  }

  /** The ascending list is the steps in play order; the descending one is it read backwards. */
  lemma MoveOrderDescending(n: nat)
    ensures forall k :: 0 <= k < n ==> MoveOrder(n, true)[k] == k
    ensures forall k :: 0 <= k < n ==> MoveOrder(n, false)[k] == MoveOrder(n, true)[n - 1 - k]
  {
  }

  /** Exactly one row of the move list is the current step, in either order. */
  lemma OneCurrentMove(s: GameState)
    requires Inv(s)
    ensures var r := MoveOrder(|s.history|, s.sortAscend);
            (exists k :: 0 <= k < |r| && r[k] == s.stepNumber) &&
            (forall j, k :: 0 <= j < |r| && 0 <= k < |r| && r[j] == s.stepNumber && r[k] == s.stepNumber ==> j == k)
  {
    var n := |s.history|;
    MoveOrderIsPermutation(n, s.sortAscend);
    var k := if s.sortAscend then s.stepNumber else n - s.stepNumber - 1;
    assert MoveOrder(n, s.sortAscend)[k] == s.stepNumber;
  }

  /** The "last move" coordinates, shown only when a column is recorded. */
  function LastMove(e: Entry): (r: Option<(nat, nat)>)
    ensures r.Some? <==> e.col != 0
    ensures r.Some? ==> r.value == (e.row, e.col)
  {
    if e.col != 0 then Some((e.row, e.col)) else None
  }

  /**
   * On a reachable state, "last move" is shown for every entry but the start,
   * and names the cell the move at that entry filled with the mover's mark.
   */
  lemma LastMoveShown(s: GameState, k: nat)
    requires Inv(s) && k < |s.history|
    ensures LastMove(s.history[k]).Some? <==> k > 0
    ensures LastMove(s.history[k]).Some? ==>
              var (row, col) := LastMove(s.history[k]).value;
              1 <= row <= 3 && 1 <= col <= 3 &&
              s.history[k - 1].squares[CellAt(row, col)] == Empty &&
              s.history[k].squares[CellAt(row, col)] == (if (k - 1) % 2 == 0 then X else O)
  {
    if k > 0 {
      assert LegalAt(s.history, k - 1);
    }
  }

  /** A square is drawn highlighted when it lies on the winning line. */
  predicate Highlighted(b: Board, p: Pos)
    ensures Highlighted(b, p) ==> Winner(b).Some? && b[p] != Empty
  {
    match Winner(b)
    case None => false
    case Some(w) => p == w.line.a || p == w.line.b || p == w.line.c
  }

  /** Highlighted squares all carry the winner's mark; with no winner none is highlighted. */
  lemma HighlightedCarryWinner(b: Board, p: Pos)
    ensures Highlighted(b, p) ==> b[p] != Empty && b[p] == Winner(b).value.player
    ensures Highlighted(b, p) ==> ThreeInARow(b)
  {
    if Winner(b).Some? {
      WinnerIsFirstMatch(b);
      WinnerIffThreeInARow(b);
    }
  }
}
