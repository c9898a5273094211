/**
 * The `Game` component's state and handlers: four fields updated in place by
 * `handleClick`, `jumpTo` and `toggleSort`, each an atomic state update.
 */
module Controller {
  import opened Board
  import opened Evaluator
  import opened Rules

  class Game {
    var history: seq<Entry>
    var stepNumber: nat
    var xIsNext: bool
    var sortAscend: bool

    /** The fields as one value. */
    function State(): GameState
      reads this
    {
      GameState(history, stepNumber, xIsNext, sortAscend)
    }

    ghost predicate Valid()
      reads this
    {
      Inv(State())
    }

    /** One empty board, X to move, ascending move list. */
    constructor ()
      ensures Valid() && State() == Initial()
    {
      history := [Start];
      xIsNext := true;
      stepNumber := 0;
      sortAscend := true;
    }

    /** Place the mover's mark on cell `i`, unless the game is won or the cell is taken. */
    method HandleClick(i: Pos)
      requires Valid()
      modifies this
      ensures Valid() && State() == AfterClick(old(State()), i)
      ensures !old(Accepts(State(), i)) ==>
                history == old(history) && stepNumber == old(stepNumber) && xIsNext == old(xIsNext)
      ensures sortAscend == old(sortAscend)
    {
      ghost var s := State();
      var h := history[..stepNumber + 1];
      var current := h[|h| - 1];
      assert current == s.history[s.stepNumber];
      var squares := current.squares;
      var win := CalculateWinner(squares);
      if win.Some? || squares[i] != Empty {
        ClickIgnored(s, i);
        return;
      }
      squares := squares[i := if xIsNext then X else O];
      history := h + [Entry(squares, i / 3 + 1, i % 3 + 1)];
      xIsNext := !xIsNext;
      stepNumber := |h|;
      assert State() == AfterClick(s, i);
      ClickPreservesInv(s, i);
    }

    /** Show the board after `step` moves; the mover follows from the parity of `step`. */
    method JumpTo(step: nat)
      requires Valid() && step < |history|
      modifies this
      ensures Valid() && State() == AfterJump(old(State()), step)
      ensures history == old(history) && sortAscend == old(sortAscend)
    {
      stepNumber := step;
      xIsNext := step % 2 == 0;
    }

    /** Reverse the display order of the move list. */
    method ToggleSort()
      requires Valid()
      modifies this
      ensures Valid() && State() == AfterToggle(old(State()))
      ensures sortAscend == !old(sortAscend)
      ensures history == old(history) && stepNumber == old(stepNumber) && xIsNext == old(xIsNext)
    {
      sortAscend := !sortAscend;
    }
  }
}
