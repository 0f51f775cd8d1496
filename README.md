# Nine Lives Cat Sudoku — board model

Nine Lives is a Sudoku game played with cat symbols instead of digits. Its board is a fixed
9x9 grid of cells. Each cell is empty (`None`) or holds the index `i` of a cat symbol
(`Some(i)`). This project models the board logic of two crates:

- `nine_lives_core`: creating and clearing the board; cycling a cell through the symbols
  on each click; checking whether a symbol may be placed in a cell (row, column and 3x3-box
  uniqueness); listing the conflicting cells; and deciding whether the puzzle is solved.
- `nine_lives_logic`: the earlier version of the same board, with creation, clearing and
  cycling only.

The project has five modules:

- `Grid` (`grid.dfy`): the grid size, cells and boards as values, and the one-click step
  `NextCell`. `Cycled` repeats that step. Lemmas cover the cycle's period and how many
  steps stay within one round.
- `Rules` (`rules.dfy`): the placement rule (`ValidPlacement`), the conflict list
  (`Conflicts`) and the solved predicate (`Completed`), each defined over the value view of
  a board. `Conflicts` is built row by row, the way the source scans the board. Lemmas
  characterise it:
  - its members are exactly the filled cells that break the rule;
  - it is in strict row-major order, so it has no duplicates;
  - a pair of equal peers puts both cells into it;
  - it is empty exactly when no two peers hold the same symbol;
  - `Completed` means "every cell filled and consistent".
- `NineLivesCore` (`nine_lives_core.dfy`): the `BoardState` class. It keeps the Rust
  `[[Option<usize>; 9]; 9]` as an `array2<Cell>` plus a ghost value copy of the board.
  The constructor, `Clear` and `CycleCell` state the new board through `Grid.EmptyBoard`,
  `Grid.Set` and `Grid.NextCell`. The three queries (`IsValidPlacement`, `GetConflicts`,
  `IsComplete`) are proved against `ValidPlacement`, `Conflicts` and `Completed` in `Rules`,
  and keep the source's loops, early returns and box arithmetic.
- `NineLivesLogic` (`nine_lives_logic.dfy`): the earlier `BoardState` class, which has the
  same constructor, `Clear` and `CycleCell`.
- `Scenarios` (`scenarios.dfy`): the crate's unit tests, stated as lemmas about any board
  with the given cells filled. The tests that go through the class's methods become client
  methods. Each one drives a `BoardState` through its contracts alone and states in its
  `ensures` what the test observes.

`usize` becomes `nat`. The index preconditions (`row, col < 9`) stand for the source's
out-of-bounds panics. `CycleCell` requires `numEmojis > 0` only when the clicked cell is
filled, because only a filled cell reaches the `% num_emojis`; an empty cell becomes
`Some(0)` whatever the count.

## Model

| member | source | states |
|---|---|---|
| Grid.EmptyBoard | nine_lives_core/src/lib.rs:30 | the new board is 9x9 and every cell is `None` |
| Grid.Set | nine_lives_core/src/lib.rs:54 | writing one cell changes that cell to the new value and leaves the other 80 cells as they were |
| Grid.BoardExtensionality | nine_lives_core/src/lib.rs:19-24 | two 9x9 boards that agree on every cell are equal |
| Grid.NextCell | nine_lives_core/src/lib.rs:48-55 | one click always yields a symbol, an empty cell becomes symbol 0, and with at least one symbol the index is below the number of symbols; a count of 0 is allowed on an empty cell |
| Grid.NextCellSteps | nine_lives_core/src/lib.rs:50-53 | from symbol `i` a click moves to `i + 1`, or wraps to 0 after the last symbol |
| Grid.CycledWithinRound | nine_lives_core/src/lib.rs:39-55 | `k <= n` clicks from symbol `v` land on `v + k`, reduced by `n` once it passes the last symbol |
| Grid.CycleReturns | nine_lives_core/src/lib.rs:39-55 | `n` clicks bring any symbol back to itself, so the cycle has period `n` |
| Grid.MinimalPeriod | nine_lives_core/src/lib.rs:41 | fewer than `n` (but at least one) clicks never bring a symbol back, so exactly `n` clicks are needed |
| Grid.CycledNeverEmpty | nine_lives_core/src/lib.rs:48-55 | after at least one click, a cell is never empty again and holds a symbol index below `n` |
| Grid.CycleOfThree | nine_lives_core/src/lib.rs:157-171 | with three symbols, an empty cell goes through 0, 1, 2 and back to 0 |
| Rules.InBoxIff | nine_lives_core/src/lib.rs:84-93 | the box scanned from `((row/3)*3, (col/3)*3)` holds exactly the cells with the same row third and column third |
| Rules.BoxStartIff | nine_lives_core/src/lib.rs:85-87 | row `j` is among the three rows scanned from `(i/3)*3` exactly when `i/3 == j/3` |
| Rules.PeersSymmetric | nine_lives_core/src/lib.rs:69-96 | sharing a row, column or box is symmetric |
| Rules.PlacementIgnoresOwnCell | nine_lives_core/src/lib.rs:69-96 | what the cell itself holds never affects whether a symbol may be placed there |
| Rules.EmptyBoardAllValid | nine_lives_core/src/lib.rs:184-191 | on an empty board every symbol may be placed in every cell |
| Rules.RowConflictsMembers | nine_lives_core/src/lib.rs:106-112 | the row scan lists exactly the scanned cells of that row that are filled and break the rule |
| Rules.ConflictsBeforeMembers | nine_lives_core/src/lib.rs:105-113 | the scan of the first `r` rows lists exactly their filled cells that break the rule |
| Rules.ConflictsScanStep | nine_lives_core/src/lib.rs:107-111 | a cell is pushed exactly when it is filled and its placement check fails, which extends the scan by one cell |
| Rules.ConflictsMembers | nine_lives_core/src/lib.rs:98-116 | the conflict list holds exactly the filled cells whose symbol appears again in their row, column or box |
| Rules.RowConflictsRowMajor | nine_lives_core/src/lib.rs:106-112 | one row's scan is in increasing column order and stays within its row |
| Rules.ConflictsBeforeRowMajor | nine_lives_core/src/lib.rs:105-113 | the scan of the first `r` rows is in strict row-major order and lies within those rows |
| Rules.ConflictsRowMajor | nine_lives_core/src/lib.rs:98-116 | the conflict list is in strict row-major order and lists no cell twice |
| Rules.ConflictsSymmetric | nine_lives_core/src/lib.rs:272-283 | two peers holding the same symbol are both in the conflict list |
| Rules.NoConflictsIffConsistent | nine_lives_core/src/lib.rs:98-116 | the conflict list is empty exactly when no two peers hold the same symbol |
| Rules.RowMajorUnique | nine_lives_core/src/lib.rs:102-116 | two row-major lists with the same members are equal, so members and order fix the conflict list |
| Rules.EmptyBoardNoConflicts | nine_lives_core/src/lib.rs:253-258 | the empty board has no conflicts |
| Rules.CompletedIffSolved | nine_lives_core/src/lib.rs:118-135 | solved means every cell filled and no two peers holding the same symbol |
| Rules.EmptyCellNotCompleted | nine_lives_core/src/lib.rs:124-131 | a board with an empty cell is never solved |
| Rules.UniformBoardNotCompleted | nine_lives_core/src/lib.rs:317-328 | a board with the same symbol in every cell is full but not solved |
| NineLivesCore.BoardState.constructor | nine_lives_core/src/lib.rs:27-32 | a new board has all 81 cells empty |
| NineLivesCore.BoardState.Clear | nine_lives_core/src/lib.rs:34-37 | afterwards every cell is empty, whatever the board held |
| NineLivesCore.BoardState.CycleCell | nine_lives_core/src/lib.rs:39-55 | the clicked cell takes its next value in the cycle, and the other 80 cells are unchanged |
| NineLivesCore.BoardState.IsValidPlacement | nine_lives_core/src/lib.rs:57-96 | true exactly when no other cell of the row, column or box holds the symbol |
| NineLivesCore.BoardState.GetConflicts | nine_lives_core/src/lib.rs:98-116 | returns exactly the conflict list: every filled cell that breaks the rule, in row-major order |
| NineLivesCore.BoardState.IsComplete | nine_lives_core/src/lib.rs:118-135 | true exactly when every cell is filled and there are no conflicts |
| NineLivesLogic.BoardState.constructor | nine_lives_logic/src/lib.rs:27-32 | a new board has all 81 cells empty |
| NineLivesLogic.BoardState.Clear | nine_lives_logic/src/lib.rs:34-37 | afterwards every cell is empty |
| NineLivesLogic.BoardState.CycleCell | nine_lives_logic/src/lib.rs:39-55 | the clicked cell takes its next value in the cycle, and the other cells are unchanged |
| Scenarios.RowRule | nine_lives_core/src/lib.rs:193-206 | symbol 0 at `(0, 0)` forbids symbol 0 at `(0, 1)` and `(0, 8)`, and allows symbols 1 and 8 there |
| Scenarios.ColumnRule | nine_lives_core/src/lib.rs:208-221 | symbol 1 at `(0, 0)` forbids symbol 1 at `(1, 0)` and `(8, 0)`, and allows other symbols there |
| Scenarios.BoxRule | nine_lives_core/src/lib.rs:223-241 | symbol 2 at `(0, 0)` forbids symbol 2 at the five cells the test names and allows it at `(4, 4)` and `(3, 4)`; in general it is allowed exactly at the cells outside the row, column and box of `(0, 0)` |
| Scenarios.SelfPosition | nine_lives_core/src/lib.rs:243-251 | a lone symbol at `(4, 4)` is a valid placement of itself |
| Scenarios.ValidPartialBoard | nine_lives_core/src/lib.rs:260-270 | three distinct symbols at `(0, 0)`, `(0, 1)` and `(1, 0)` produce no conflict |
| Scenarios.RowViolation | nine_lives_core/src/lib.rs:272-283 | the same symbol at `(0, 0)` and `(0, 1)` gives exactly the conflict list `[(0, 0), (0, 1)]` |
| Scenarios.MultipleViolations | nine_lives_core/src/lib.rs:285-298 | the same symbol at `(0, 0)`, `(0, 1)` and `(1, 0)` gives exactly `[(0, 0), (0, 1), (1, 0)]` |
| Scenarios.PartialBoardNotCompleted | nine_lives_core/src/lib.rs:306-315 | a board with only symbols 0 to 4 in row 0 is not solved |
| Scenarios.FullInvalidBoard | nine_lives_core/src/lib.rs:317-328 | symbol 0 in every cell is full but not solved |
| Scenarios.ShiftedPatternNotCompleted | nine_lives_core/src/lib.rs:330-360 | the pattern `(row + col) % 9` is full but not solved, because `(0, 1)` and `(1, 0)` share a box and both hold 1 |
| Scenarios.NewBoardClient | nine_lives_core/src/lib.rs:150-155 | a new board's cells `(0, 0)` and `(8, 8)` are empty |
| Scenarios.CycleCellClient | nine_lives_core/src/lib.rs:157-171 | four clicks with three symbols show `Some(0)`, `Some(1)`, `Some(2)`, then `Some(0)` again |
| Scenarios.ClearClient | nine_lives_core/src/lib.rs:173-182 | after one click each, `(1, 1)` and `(2, 3)` hold symbol 0, and after `Clear` both are empty |
| Scenarios.EmptyBoardPlacementsClient | nine_lives_core/src/lib.rs:184-191 | on a new board, placing 0 at `(0, 0)`, 5 at `(4, 4)` and 8 at `(8, 8)` is valid |
| Scenarios.EmptyBoardClient | nine_lives_core/src/lib.rs:253-258 | on a new board `GetConflicts` returns `[]`; it also runs the empty-board completion test (lib.rs:300-304): `IsComplete` returns false |
| Scenarios.LogicBoardClient | nine_lives_logic/src/lib.rs:27-55 | on the older board, two clicks show 0 then 1, an unclicked cell stays empty, and `Clear` empties the clicked cell |

## Left out

- The Rust arrays are values: `clear` assigns a new array into the field. The model's
  `Clear` points `cells` at a freshly allocated `array2` instead. Any other alias of the old
  array would keep its contents, which Rust's ownership rules out in any case.
- `BoardState::default` just calls `new`, so the constructor covers it. The `Debug`,
  `Clone` and Bevy `Resource` derives have no behaviour to model.
- `GRID_SIZE` is the constant `Grid.GridSize`. Its duplicate in `nine_lives_logic` is
  the same constant.
- Grid.NextCell: a symbol index of `usize::MAX` would overflow in `idx + 1` (a panic in
  debug builds, wrap-around in release builds). The model uses unbounded `nat`, because
  indices are always below `num_emojis`.
- NineLivesCore.BoardState.CycleCell: `num_emojis == 0` panics (`% 0`) only on a filled cell;
  on an empty cell the source stores `Some(0)`, and so does the model. The panic on a filled
  cell is a precondition here, as is the index panic for `row` or `col` of 9 or more.
- NineLivesLogic.BoardState.CycleCell: the same two panics (nine_lives_logic/src/lib.rs:49-54)
  are the same two preconditions here, and an empty cell is likewise allowed with a count of 0.
- NineLivesCore.BoardState.IsValidPlacement: `row` of 9 or more always panics, at the first
  read of the row scan. `col` of 9 or more panics only once the column scan reads
  `cells[r][col]`. If the row scan first finds `value` in row `row`, the source returns false
  without panicking: `c != col` always holds there. The model requires both indices in range,
  as `get_conflicts`, the only caller, guarantees; it does not model that early `false` for
  an out-of-range `col`. The symbol `value` is not bounded; any `nat` is allowed, as in the
  source.
- Rendering, input handling and the game controller (the `nine_lives_ui` and
  `nine_lives_controller` crates, the Bevy app) are not part of this model.
- Puzzle generation, solving, hints, undo/redo history and "given" (fixed) cells do not
  exist in the modelled code. `cycle_cell` edits any cell and returns nothing, so the model
  follows the code.
