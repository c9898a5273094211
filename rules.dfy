/**
 * The game controller's state and its three transitions (`handleClick`,
 * `jumpTo`, `toggleSort`) as pure functions, with the invariant every
 * reachable state keeps.
 */
module Rules {
  import opened Wrappers
  import opened Board
  import opened Evaluator

  /** One history snapshot: the board and the 1-based row/column of the move that produced it (0, 0 for the start). */
  datatype Entry = Entry(squares: Board, row: nat, col: nat)

  /** The controller's state: `history`, `stepNumber`, `xIsNext`, `sortAscend`. */
  datatype GameState = GameState(history: seq<Entry>, stepNumber: nat, xIsNext: bool, sortAscend: bool)

  const Start: Entry := Entry(EmptyBoard, 0, 0)

  /** The state the constructor builds. */
  function Initial(): (r: GameState)
    ensures r.history == [Start] && r.stepNumber == 0
    ensures Inv(r) && Blank(Current(r)) && r.xIsNext && r.sortAscend
  {
    GameState([Start], 0, true, true)
  }

  /** The board at the current step. */
  function Current(s: GameState): Board
    requires s.stepNumber < |s.history|
  {
    s.history[s.stepNumber].squares
  }

  /** A click on `i` is acted on: the current board has no winner and cell `i` is empty. */
  predicate Accepts(s: GameState, i: Pos)
    requires s.stepNumber < |s.history|
  {
    Winner(Current(s)).None? && Current(s)[i] == Empty
  }

  /**
   * The state after `handleClick(i)`: either unchanged, or one entry past
   * the current step with that entry the last one.
   */
  function AfterClick(s: GameState, i: Pos): (r: GameState)
    requires s.stepNumber < |s.history|
    ensures r.sortAscend == s.sortAscend
    ensures r == s || (r.stepNumber == s.stepNumber + 1 && |r.history| == s.stepNumber + 2)
  {
    var history := s.history[..s.stepNumber + 1];
    var squares := history[|history| - 1].squares;
    if Winner(squares).Some? || squares[i] != Empty then s
    else GameState(history + [Move(s, i)], |history|, !s.xIsNext, s.sortAscend)
  }

  /** The snapshot an accepted click on `i` appends. */
  function Move(s: GameState, i: Pos): Entry
    requires s.stepNumber < |s.history|
  {
    Entry(Current(s)[i := Mark(s.xIsNext)], Row(i), Col(i))
  }

  /** The state after an accepted click, as truncate-then-append. */
  lemma AcceptedShape(s: GameState, i: Pos)
    requires s.stepNumber < |s.history| && Accepts(s, i)
    ensures AfterClick(s, i) ==
            GameState(s.history[..s.stepNumber + 1] + [Move(s, i)], s.stepNumber + 1, !s.xIsNext, s.sortAscend)
  {
    assert s.history[..s.stepNumber + 1][s.stepNumber] == s.history[s.stepNumber];
  }

  /** The state after `jumpTo(step)`. */
  function AfterJump(s: GameState, step: nat): (r: GameState)
    requires step < |s.history|
    ensures r.history == s.history && r.sortAscend == s.sortAscend
    ensures r.stepNumber < |r.history| && r.stepNumber == step
    ensures r.xIsNext == (step % 2 == 0)
  {
    s.(stepNumber := step, xIsNext := step % 2 == 0)
  }

  /** The state after `toggleSort()`. */
  function AfterToggle(s: GameState): (r: GameState)
    ensures r.sortAscend != s.sortAscend
    ensures r.history == s.history && r.stepNumber == s.stepNumber && r.xIsNext == s.xIsNext
  {
    s.(sortAscend := !s.sortAscend)
  }

  /**
   * `next` follows `prev` by the move made at step `k`: the move's cell was
   * empty, now holds the mark of the player of that parity, nothing else
   * changed, and `prev` had no winner.
   */
  predicate Legal(prev: Entry, next: Entry, k: nat) {
    1 <= next.row <= 3 && 1 <= next.col <= 3 &&
    var i := CellAt(next.row, next.col);
    Winner(prev.squares).None? && prev.squares[i] == Empty &&
    next.squares == prev.squares[i := Mark(k % 2 == 0)]
  }

  /** Each entry of `h` follows the one before it by a legal move. */
  predicate Chain(h: seq<Entry>) {
    forall k :: 0 <= k < |h| - 1 ==> LegalAt(h, k)
  }

  /** Entry k + 1 of `h` follows entry k by a legal move. */
  predicate LegalAt(h: seq<Entry>, k: nat)
    requires k + 1 < |h|
  {
    Legal(h[k], h[k + 1], k)
  }

  /** Cutting a chain after entry n and appending a legal move keeps a chain. */
  lemma ChainExtend(h: seq<Entry>, n: nat, e: Entry)
    requires n < |h| && Chain(h) && Legal(h[n], e, n)
    ensures Chain(h[..n + 1] + [e])
  {
    var h' := h[..n + 1] + [e];
    forall k | 0 <= k < |h'| - 1
      ensures LegalAt(h', k)
    {
      if k < n {
        assert LegalAt(h, k);
        assert h'[k] == h[k] && h'[k + 1] == h[k + 1];
      } else {
        assert h'[k] == h[n] && h'[k + 1] == e;
      }
    }
  }

  /** The invariant of every state reachable from the constructor. */
  predicate Inv(s: GameState) {
    |s.history| >= 1 && s.stepNumber < |s.history| &&
    s.history[0] == Start && Chain(s.history) &&
    s.xIsNext == (s.stepNumber % 2 == 0)
  }

  /** A click is ignored exactly when the board has a winner or the cell is taken. */
  lemma ClickIgnored(s: GameState, i: Pos)
    requires s.stepNumber < |s.history|
    ensures AfterClick(s, i) == s <==> !Accepts(s, i)
  {
  }

  /**
   * An accepted click keeps entries 0..stepNumber, drops the rest, appends
   * one snapshot that differs from the current board only at `i`, where the
   * mover's mark now stands, records the move's row and column, advances the
   * step and passes the turn.
   */
  lemma ClickAccepted(s: GameState, i: Pos)
    requires s.stepNumber < |s.history| && Accepts(s, i)
    ensures var r := AfterClick(s, i);
            |r.history| == s.stepNumber + 2 && r.stepNumber == s.stepNumber + 1 &&
            r.history[..s.stepNumber + 1] == s.history[..s.stepNumber + 1] &&
            r.xIsNext == !s.xIsNext && r.sortAscend == s.sortAscend
    ensures var e := AfterClick(s, i).history[s.stepNumber + 1];
            e.squares[i] == Mark(s.xIsNext) &&
            (forall p :: 0 <= p < 9 && p != i ==> e.squares[p] == Current(s)[p]) &&
            1 <= e.row <= 3 && 1 <= e.col <= 3 && CellAt(e.row, e.col) == i
  {
  }

  /** On a reachable state the snapshot an accepted click appends is a legal move. */
  lemma MoveIsLegal(s: GameState, i: Pos)
    requires Inv(s) && Accepts(s, i)
    ensures Legal(s.history[s.stepNumber], Move(s, i), s.stepNumber)
  {
    CellAtRowCol(i);
  }

  lemma AcceptedPreservesInv(s: GameState, i: Pos)
    requires Inv(s) && Accepts(s, i)
    ensures Inv(AfterClick(s, i))
  {
    var n := s.stepNumber;
    var h := s.history[..n + 1] + [Move(s, i)];
    MoveIsLegal(s, i);
    ChainExtend(s.history, n, Move(s, i));
    assert h[0] == Start;
    assert Inv(GameState(h, n + 1, !s.xIsNext, s.sortAscend));
    AcceptedShape(s, i);
  }

  lemma ClickPreservesInv(s: GameState, i: Pos)
    requires Inv(s)
    ensures Inv(AfterClick(s, i))
  {
    if Accepts(s, i) {
      AcceptedPreservesInv(s, i);
    } else {
      ClickIgnored(s, i);
    }
  }

  /** `jumpTo` moves only the current step and re-derives the turn from its parity. */
  lemma JumpPreservesInv(s: GameState, step: nat)
    requires Inv(s) && step < |s.history|
    ensures Inv(AfterJump(s, step))
    ensures AfterJump(s, step).history == s.history && AfterJump(s, step).sortAscend == s.sortAscend
  {
  }

  lemma TogglePreservesInv(s: GameState)
    requires Inv(s)
    ensures Inv(AfterToggle(s))
    ensures AfterToggle(s).sortAscend != s.sortAscend
  {
  }

  /** The board at entry k holds exactly k marks. */
  lemma {:induction false} OccupiedIsStep(s: GameState, k: nat)
    requires Inv(s) && k < |s.history|
    ensures Occupied(s.history[k].squares) == k
  {
    if k == 0 {
      OccupiedExtremes(EmptyBoard);
    } else {
      OccupiedIsStep(s, k - 1);
      assert LegalAt(s.history, k - 1);
      OccupiedAfterMove(s.history[k - 1], s.history[k], k - 1);
    }
  }

  /** A legal move adds exactly one mark. */
  lemma OccupiedAfterMove(prev: Entry, next: Entry, k: nat)
    requires Legal(prev, next, k)
    ensures Occupied(next.squares) == Occupied(prev.squares) + 1
  {
    OccupiedPlace(prev.squares, CellAt(next.row, next.col), Mark(k % 2 == 0));
  }

  /** History never grows past the start plus nine moves. */
  lemma HistoryBound(s: GameState)
    requires Inv(s)
    ensures |s.history| <= 10 && s.stepNumber <= 9
  {
    OccupiedIsStep(s, |s.history| - 1);
  }

  /** Step 9 is reached exactly when the current board is full. */
  lemma StepNineIffFull(s: GameState)
    requires Inv(s)
    ensures s.stepNumber == 9 <==> Full(Current(s))
  {
    OccupiedIsStep(s, s.stepNumber);
    OccupiedExtremes(Current(s));
  }

  /** A mark, once placed, stays in every later entry of the same history. */
  lemma {:induction false} MarksPersist(s: GameState, j: nat, k: nat, p: Pos)
    requires Inv(s) && j <= k < |s.history|
    requires s.history[j].squares[p] != Empty
    ensures s.history[k].squares[p] == s.history[j].squares[p]
    decreases k - j
  {
    if j < k {
      MarksPersist(s, j, k - 1, p);
      assert LegalAt(s.history, k - 1);
    }
  }

  /** Only the last entry of a history can show a winner: play stops at a win. */
  lemma NoPlayAfterWin(s: GameState, k: nat)
    requires Inv(s) && k < |s.history| - 1
    ensures Winner(s.history[k].squares).None?
  {
    assert LegalAt(s.history, k);
  }

  /** Jumping back to step k and then making a move leaves k + 2 entries, the first k + 1 untouched. */
  lemma JumpThenClick(s: GameState, k: nat, i: Pos)
    requires Inv(s) && k < |s.history|
    requires s.history[k].squares[i] == Empty && Winner(s.history[k].squares).None?
    ensures var r := AfterClick(AfterJump(s, k), i);
            |r.history| == k + 2 && r.stepNumber == k + 1 &&
            r.history[..k + 1] == s.history[..k + 1] &&
            r.history[k + 1].squares[i] == (if k % 2 == 0 then X else O)
  {
  }

  /** The clicks of the scenario below. */
  const ScenarioClicks: seq<Pos> := [0, 1, 3, 4, 6]

  /** The boards of the scenario below, after 0..5 of its clicks. */
  function ScenarioBoard(n: nat): Board
    requires n <= 5
  {
    [ EmptyBoard,
      [X, Empty, Empty, Empty, Empty, Empty, Empty, Empty, Empty],
      [X, O, Empty, Empty, Empty, Empty, Empty, Empty, Empty],
      [X, O, Empty, X, Empty, Empty, Empty, Empty, Empty],
      [X, O, Empty, X, O, Empty, Empty, Empty, Empty],
      [X, O, Empty, X, O, Empty, X, Empty, Empty] ][n]
  }

  /** Each board of the scenario is the one before with the n-th click's mark added. */
  lemma ScenarioBoardStep(n: nat)
    requires n < 5
    ensures ScenarioBoard(n)[ScenarioClicks[n]] == Empty
    ensures ScenarioBoard(n + 1) == ScenarioBoard(n)[ScenarioClicks[n] := Mark(n % 2 == 0)]
  {
  }

  lemma ScenarioNoEarlyWinner(n: nat)
    requires n < 5
    ensures Winner(ScenarioBoard(n)).None?
  {
  }

  lemma ScenarioFinalWinner()
    ensures Winner(ScenarioBoard(5)) == Some(Win(X, Line(0, 3, 6)))
  {
  }

  /** The n-th click of the scenario is accepted and yields board n + 1. */
  lemma ScenarioStep(s: GameState, n: nat) returns (r: GameState)
    requires n < 5 && s.stepNumber < |s.history|
    requires Current(s) == ScenarioBoard(n) && s.xIsNext == (n % 2 == 0)
    ensures r == AfterClick(s, ScenarioClicks[n])
    ensures r.stepNumber == s.stepNumber + 1 && r.stepNumber < |r.history|
    ensures Current(r) == ScenarioBoard(n + 1) && r.xIsNext == ((n + 1) % 2 == 0)
  {
    var i := ScenarioClicks[n];
    ScenarioBoardStep(n);
    ScenarioNoEarlyWinner(n);
    assert Accepts(s, i);
    AcceptedShape(s, i);
    r := AfterClick(s, i);
    assert r.history[r.stepNumber] == Move(s, i);
  }

  /**
   * Clicks 0, 1, 3, 4, 6 (X, O, X, O, X) complete the left column for X.
   * The start state is a parameter equal to `Initial()` rather than the call
   * itself, so that the verifier does not evaluate the nested clicks eagerly.
   */
  lemma LeftColumnScenario(s0: GameState)
    requires s0 == Initial()
    ensures var s := AfterClick(AfterClick(AfterClick(AfterClick(AfterClick(s0, 0), 1), 3), 4), 6);
            s.stepNumber == 5 && Winner(Current(s)) == Some(Win(X, Line(0, 3, 6)))
  {
    var s1 := ScenarioStep(s0, 0);
    var s2 := ScenarioStep(s1, 1);
    var s3 := ScenarioStep(s2, 2);
    var s4 := ScenarioStep(s3, 3);
    var s5 := ScenarioStep(s4, 4);
    ScenarioFinalWinner();
  }
}
