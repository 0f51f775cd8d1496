/** The board of the `nine_lives_core` crate: a fixed 9x9 array of optional cat-symbol
    indices, with the player's edits and the rule queries. */
module NineLivesCore {
  import opened Grid
  import opened Rules

  class BoardState {
    /** `cells[row, col]`: `None` for an empty cell, `Some(i)` for cat symbol `i`. */
    var cells: array2<Cell>
    /** The board as a value. */
    ghost var board: Board

    ghost predicate Valid()
      reads this, cells
    {
      cells.Length0 == GridSize && cells.Length1 == GridSize && WellFormed(board) &&
      forall r, c :: InRange(r, c) ==> board[r][c] == cells[r, c]
    }

    /** A new board has all 81 cells empty. */
    constructor ()
      ensures Valid() && fresh(cells)
      ensures board == EmptyBoard()
    {
      cells := new Cell[GridSize, GridSize]((_, _) => None);
      board := EmptyBoard();
    }

    /** Resets every cell to empty, whatever it held. */
    method Clear()
      requires Valid()
      modifies this
      ensures Valid() && fresh(cells)
      ensures board == EmptyBoard()
    {
      cells := new Cell[GridSize, GridSize]((_, _) => None);
      board := EmptyBoard();
    }

    /** One click on `(row, col)` with `numEmojis` symbols: the cell takes its next value
        and no other cell changes. */
    method CycleCell(row: nat, col: nat, numEmojis: nat)
      requires Valid() && InRange(row, col)
      requires numEmojis > 0 || cells[row, col].None?
      modifies this, cells
      ensures Valid() && cells == old(cells)
      ensures board == Set(old(board), row, col, NextCell(old(board)[row][col], numEmojis))
    {
      var next := match cells[row, col]
        case None => Some(0)
        case Some(idx) => Some((idx + 1) % numEmojis);
      cells[row, col] := next;
      board := Set(board, row, col, next);
    }

    /** Whether symbol `value` may stand at `(row, col)`: scans the row, the column and the
        3x3 box, skipping `(row, col)` itself. */
    method IsValidPlacement(row: nat, col: nat, value: nat) returns (ok: bool)
      requires Valid() && InRange(row, col)
      ensures ok == ValidPlacement(board, row, col, value)
    {
      for c := 0 to GridSize
        invariant forall c': nat :: c' < c && c' != col ==> cells[row, c'] != Some(value)
      {
        if c != col && cells[row, c] == Some(value) {
          assert Peers(row, col, row, c);
          return false;
        }
      }
      for r := 0 to GridSize
        invariant forall r': nat :: r' < r && r' != row ==> cells[r', col] != Some(value)
      {
        if r != row && cells[r, col] == Some(value) {
          assert Peers(row, col, r, col);
          return false;
        }
      }
      var boxRowStart := (row / 3) * 3;
      var boxColStart := (col / 3) * 3;
      for r := boxRowStart to boxRowStart + 3
        invariant forall r': nat, c': nat ::
          boxRowStart <= r' < r && boxColStart <= c' < boxColStart + 3 && (r', c') != (row, col)
          ==> cells[r', c'] != Some(value)
      {
        for c := boxColStart to boxColStart + 3
          invariant forall r': nat, c': nat ::
            ((boxRowStart <= r' < r && boxColStart <= c' < boxColStart + 3) ||
             (r' == r && boxColStart <= c' < c)) && (r', c') != (row, col)
            ==> cells[r', c'] != Some(value)
        {
          if (r != row || c != col) && cells[r, c] == Some(value) {
            assert Peers(row, col, r, c);
            return false;
          }
        }
      }
      return true;
    }

    /** The cells that break the rule, scanned in row-major order. */
    method GetConflicts() returns (conflicts: seq<Pos>)
      requires Valid()
      ensures conflicts == Conflicts(board)
    {
      conflicts := [];
      for row: nat := 0 to GridSize
        invariant conflicts == ConflictsBefore(board, row)
      {
        for col: nat := 0 to GridSize
          invariant conflicts == ConflictsBefore(board, row) + RowConflicts(board, row, col)
        {
          ghost var before := conflicts;
          var cell := cells[row, col];
          var ok := true;
          if cell.Some? {
            ok := IsValidPlacement(row, col, cell.value);
            if !ok {
              var p: Pos := (row, col);
              conflicts := conflicts + [p];
            }
          }
          ConflictsScanStep(board, row, col, ok, before, conflicts);
        }
      }
    }

    /** Whether the puzzle is solved: every cell filled and no conflicts. */
    method IsComplete() returns (complete: bool)
      requires Valid()
      ensures complete == Completed(board)
    {
      for row := 0 to GridSize
        invariant forall r: nat, c: nat :: r < row && c < GridSize ==> cells[r, c].Some?
      {
        for col := 0 to GridSize
          invariant forall r: nat, c: nat :: ((r < row && c < GridSize) || (r == row && c < col)) ==> cells[r, c].Some?
        {
          if cells[row, col].None? {
            return false;
          }
        }
      }
      var conflicts := GetConflicts();
      return conflicts == [];
    }
  }
}
