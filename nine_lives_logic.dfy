/** The earlier board of the `nine_lives_logic` crate: the same 9x9 array of optional
    cat-symbol indices, with only creation, clearing and cycling. */
module NineLivesLogic {
  import opened Grid

  class BoardState {
    /** `cells[row, col]`: `None` for an empty cell, `Some(i)` for cat symbol `i`. */
    var cells: array2<Cell>
    /** The board as a value. */
    ghost var board: Board

    ghost predicate Valid()
      reads this, cells
    {
      cells.Length0 == GridSize && cells.Length1 == GridSize && WellFormed(board) &&
      forall r, c :: InRange(r, c) ==> board[r][c] == cells[r, c]
    }

    /** A new board has all 81 cells empty. */
    constructor ()
      ensures Valid() && fresh(cells)
      ensures board == EmptyBoard()
    {
      cells := new Cell[GridSize, GridSize]((_, _) => None);
      board := EmptyBoard();
    }

    /** Resets every cell to empty, whatever it held. */
    method Clear()
      requires Valid()
      modifies this
      ensures Valid() && fresh(cells)
      ensures board == EmptyBoard()
    {
      cells := new Cell[GridSize, GridSize]((_, _) => None);
      board := EmptyBoard();
    }

    /** One click on `(row, col)` with `numEmojis` symbols: the cell takes its next value
        and the other 80 cells are unchanged. */
    method CycleCell(row: nat, col: nat, numEmojis: nat)
      requires Valid() && InRange(row, col)
      requires numEmojis > 0 || cells[row, col].None?
      modifies this, cells
      ensures Valid() && cells == old(cells)
      ensures board == Set(old(board), row, col, NextCell(old(board)[row][col], numEmojis))
    {
      var next := match cells[row, col]
        case None => Some(0)
        case Some(idx) => Some((idx + 1) % numEmojis);
      cells[row, col] := next;
      board := Set(board, row, col, next);
    }
  }
}
