/** The unit-test scenarios of `nine_lives_core`, stated as lemmas about the value view of
    a board and as clients of the board class that rely on its contracts alone. */
module Scenarios {
  import opened Grid
  import opened Rules
  import NineLivesCore
  import NineLivesLogic

  /** `b` holds symbol `m[p]` at every cell `p` of `m` and is empty elsewhere. */
  ghost predicate Holds(b: Board, m: map<Pos, nat>) {
    WellFormed(b) &&
    forall r: nat, c: nat :: InRange(r, c) ==> b[r][c] == if (r, c) in m then Some(m[(r, c)]) else None
  }

  /** Symbol 0 at `(0, 0)` rules out symbol 0 elsewhere in row 0, but not other symbols. */
  lemma RowRule(b: Board)
    requires Holds(b, map[(0, 0) := 0])
    ensures !ValidPlacement(b, 0, 1, 0) && !ValidPlacement(b, 0, 8, 0)
    ensures ValidPlacement(b, 0, 1, 1) && ValidPlacement(b, 0, 8, 8)
  {
    assert Peers(0, 1, 0, 0) && Peers(0, 8, 0, 0) && b[0][0] == Some(0);
  }

  /** Symbol 1 at `(0, 0)` rules out symbol 1 elsewhere in column 0, but not other symbols. */
  lemma ColumnRule(b: Board)
    requires Holds(b, map[(0, 0) := 1])
    ensures !ValidPlacement(b, 1, 0, 1) && !ValidPlacement(b, 8, 0, 1)
    ensures ValidPlacement(b, 1, 0, 2) && ValidPlacement(b, 8, 0, 0)
  {
    assert Peers(1, 0, 0, 0) && Peers(8, 0, 0, 0) && b[0][0] == Some(1);
  }

  /** Symbol 2 at `(0, 0)` rules out symbol 2 in the top-left box, in row 0 and in column 0,
      and nowhere else. */
  lemma BoxRule(b: Board)
    requires Holds(b, map[(0, 0) := 2])
    ensures !ValidPlacement(b, 0, 1, 2) && !ValidPlacement(b, 1, 0, 2) && !ValidPlacement(b, 2, 2, 2)
    ensures !ValidPlacement(b, 0, 3, 2) && !ValidPlacement(b, 3, 0, 2)
    ensures ValidPlacement(b, 4, 4, 2) && ValidPlacement(b, 3, 4, 2)
    ensures forall r: nat, c: nat :: InRange(r, c) ==> (ValidPlacement(b, r, c, 2) <==> !Peers(r, c, 0, 0))
  {
    assert b[0][0] == Some(2);
    assert Peers(0, 1, 0, 0) && Peers(1, 0, 0, 0) && Peers(2, 2, 0, 0);
    assert Peers(0, 3, 0, 0) && Peers(3, 0, 0, 0);
  }

  /** A symbol standing alone never conflicts with itself. */
  lemma SelfPosition(b: Board)
    requires Holds(b, map[(4, 4) := 3])
    ensures ValidPlacement(b, 4, 4, 3)
  {
    assert Set(b, 4, 4, None) == EmptyBoard() by {
      BoardExtensionality(Set(b, 4, 4, None), EmptyBoard());
    }
    PlacementIgnoresOwnCell(b, 4, 4, 3, None);
    EmptyBoardAllValid(4, 4, 3);
  }

  /** Three distinct symbols at `(0, 0)`, `(0, 1)` and `(1, 0)` raise no conflict. */
  lemma ValidPartialBoard(b: Board)
    requires Holds(b, map[(0, 0) := 0, (0, 1) := 1, (1, 0) := 2])
    ensures Conflicts(b) == []
  {
    NoConflictsIffConsistent(b);
  }

  /** The same symbol twice in row 0: both cells are flagged, in row-major order. */
  lemma RowViolation(b: Board)
    requires Holds(b, map[(0, 0) := 0, (0, 1) := 0])
    ensures Conflicts(b) == [(0, 0), (0, 1)]
  {
    assert Peers(0, 0, 0, 1) && b[0][0] == b[0][1] == Some(0);
    ConflictsSymmetric(b, 0, 0, 0, 1);
    forall p
      ensures p in Conflicts(b) <==> p in [(0, 0), (0, 1)]
    {
      ConflictsMembers(b, p);
    }
    ConflictsRowMajor(b);
    RowMajorUnique([(0, 0), (0, 1)], Conflicts(b));
  }

  /** Symbol 0 at `(0, 0)`, `(0, 1)` and `(1, 0)`: all three are flagged. */
  lemma MultipleViolations(b: Board)
    requires Holds(b, map[(0, 0) := 0, (0, 1) := 0, (1, 0) := 0])
    ensures Conflicts(b) == [(0, 0), (0, 1), (1, 0)]
  {
    assert Peers(0, 0, 0, 1) && Peers(0, 0, 1, 0);
    assert b[0][0] == b[0][1] == b[1][0] == Some(0);
    ConflictsSymmetric(b, 0, 0, 0, 1);
    ConflictsSymmetric(b, 0, 0, 1, 0);
    forall p
      ensures p in Conflicts(b) <==> p in [(0, 0), (0, 1), (1, 0)]
    {
      ConflictsMembers(b, p);
    }
    ConflictsRowMajor(b);
    RowMajorUnique([(0, 0), (0, 1), (1, 0)], Conflicts(b));
  }

  /** Row 0 holding symbols 0 to 4 and the rest empty is not solved. */
  lemma PartialBoardNotCompleted()
    ensures var b := seq(GridSize, r => seq(GridSize, c => if r == 0 && c < 5 then Some(c) else None));
      !Completed(b)
  {
    var b: Board := seq(GridSize, r => seq(GridSize, c => if r == 0 && c < 5 then Some(c) else None));
    EmptyCellNotCompleted(b, 0, 5);
  }

  /** Every cell holding symbol 0 is full but not solved. */
  lemma FullInvalidBoard()
    ensures var b := seq(GridSize, _ => seq(GridSize, _ => Some(0)));
      AllFilled(b) && !Completed(b)
  {
    var b: Board := seq(GridSize, _ => seq(GridSize, _ => Some(0)));
    UniformBoardNotCompleted(b, 0);
  }

  /** The shifted pattern `(row + col) % 9` is full, but `(0, 1)` and `(1, 0)` share the
      top-left box and both hold symbol 1, so it is not solved. */
  lemma ShiftedPatternNotCompleted()
    ensures var b := seq(GridSize, r => seq(GridSize, c => Some((r + c) % GridSize)));
      AllFilled(b) && !Completed(b)
  {
    var b: Board := seq(GridSize, r => seq(GridSize, c => Some((r + c) % GridSize)));
    assert Peers(0, 1, 1, 0) && b[0][1] == Some(1) && b[1][0] == Some(1);
    ConflictsSymmetric(b, 0, 1, 1, 0);
  }

  /** A new board's corner cells are empty. */
  method NewBoardClient() returns (topLeft: Cell, bottomRight: Cell)
    ensures topLeft == None && bottomRight == None
  {
    var board := new NineLivesCore.BoardState();
    topLeft := board.cells[0, 0];
    bottomRight := board.cells[8, 8];
  }

  /** Four clicks on an empty cell with three symbols, through the board class: the cell
      shows 0, 1, 2 and then wraps back to 0. */
  method CycleCellClient() returns (shown: seq<Cell>)
    ensures shown == [Some(0), Some(1), Some(2), Some(0)]
  {
    var board := new NineLivesCore.BoardState();
    board.CycleCell(0, 0, 3);
    var first := board.cells[0, 0];
    board.CycleCell(0, 0, 3);
    var second := board.cells[0, 0];
    board.CycleCell(0, 0, 3);
    var third := board.cells[0, 0];
    board.CycleCell(0, 0, 3);
    shown := [first, second, third, board.cells[0, 0]];
  }

  /** Clearing after two clicks empties both clicked cells again. */
  method ClearClient() returns (beforeClear: (Cell, Cell), afterClear: (Cell, Cell))
    ensures beforeClear == (Some(0), Some(0))
    ensures afterClear == (None, None)
  {
    var board := new NineLivesCore.BoardState();
    board.CycleCell(1, 1, 5);
    board.CycleCell(2, 3, 5);
    beforeClear := (board.cells[1, 1], board.cells[2, 3]);
    board.Clear();
    afterClear := (board.cells[1, 1], board.cells[2, 3]);
  }

  /** On a new board the three sample placements are valid. */
  method EmptyBoardPlacementsClient() returns (placements: seq<bool>)
    ensures placements == [true, true, true]
  {
    var board := new NineLivesCore.BoardState();
    EmptyBoardAllValid(0, 0, 0);
    EmptyBoardAllValid(4, 4, 5);
    EmptyBoardAllValid(8, 8, 8);
    var ok1 := board.IsValidPlacement(0, 0, 0);
    var ok2 := board.IsValidPlacement(4, 4, 5);
    var ok3 := board.IsValidPlacement(8, 8, 8);
    placements := [ok1, ok2, ok3];
  }

  /** On a new board there are no conflicts, and the puzzle is not solved. */
  method EmptyBoardClient() returns (conflicts: seq<Pos>, complete: bool)
    ensures conflicts == [] && !complete
  {
    var board := new NineLivesCore.BoardState();
    conflicts := board.GetConflicts();
    EmptyBoardNoConflicts();
    complete := board.IsComplete();
    EmptyCellNotCompleted(board.board, 0, 0);
  }

  /** The older board behaves the same under clicks and clearing: two clicks show 0 then 1,
      a cell never clicked stays empty, and clearing empties the clicked cell. */
  method LogicBoardClient() returns (shown: seq<Cell>, untouched: Cell)
    ensures shown == [Some(0), Some(1), None]
    ensures untouched == None
  {
    var board := new NineLivesLogic.BoardState();
    board.CycleCell(1, 1, 5);
    var first := board.cells[1, 1];
    board.CycleCell(1, 1, 5);
    var second := board.cells[1, 1];
    untouched := board.cells[2, 3];
    board.Clear();
    shown := [first, second, board.cells[1, 1]];
  }
}
