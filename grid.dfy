/** Cells, boards and the player's cycling step shared by both board crates. */
module Grid {

  /** Length of one side of the board. */
  const GridSize: nat := 9

  datatype Option<T> = None | Some(value: T)

  /** A cell is empty (`None`) or holds the index of a cat symbol. */
  type Cell = Option<nat>

  /** Value view of the board: `b[row][col]`. */
  type Board = seq<seq<Cell>>

  /** A `(row, col)` coordinate. */
  type Pos = (nat, nat)

  predicate WellFormed(b: Board) {
    |b| == GridSize && forall r :: 0 <= r < GridSize ==> |b[r]| == GridSize
  }

  predicate InRange(r: int, c: int) {
    0 <= r < GridSize && 0 <= c < GridSize
  }

  /** The board in which every one of the 81 cells is empty. */
  function EmptyBoard(): (b: Board)
    ensures WellFormed(b)
    ensures forall r, c :: InRange(r, c) ==> b[r][c] == None
  {
    seq(GridSize, _ => seq(GridSize, _ => None))
  }

  /** The board `b` with cell `(r, c)` overwritten by `x`. */
  function Set(b: Board, r: nat, c: nat, x: Cell): (b': Board)
    requires WellFormed(b) && InRange(r, c)
    ensures WellFormed(b')
    ensures b'[r][c] == x
    ensures forall r', c' :: InRange(r', c') && (r', c') != (r, c) ==> b'[r'][c'] == b[r'][c']
  {
    b[r := b[r][c := x]]
  }

  /** A well-formed board is determined by its 81 cells. */
  lemma {:induction false} BoardExtensionality(a: Board, b: Board)
    requires WellFormed(a) && WellFormed(b)
    requires forall r, c :: InRange(r, c) ==> a[r][c] == b[r][c]
    ensures a == b
  {
    forall r | 0 <= r < GridSize
      ensures a[r] == b[r]
    {
      assert forall c :: 0 <= c < GridSize ==> a[r][c] == b[r][c] by {
        forall c | 0 <= c < GridSize ensures a[r][c] == b[r][c] {
          assert InRange(r, c);
        }
      }
    }
  }

  /** One player click on a cell holding `cell`, with `n` cat symbols:
      empty becomes the first symbol, a symbol becomes the next one, wrapping to the first.
      Only a filled cell divides by `n`, so an empty cell may be clicked even with `n == 0`. */
  function NextCell(cell: Cell, n: nat): (next: Cell)
    requires n > 0 || cell.None?
    ensures next.Some? && (n > 0 ==> next.value < n)
    ensures cell.None? ==> next == Some(0)
  {
    match cell
    case None => Some(0)
    case Some(i) => Some((i + 1) % n)
  }

  /** A symbol below `n - 1` steps to its successor; the last symbol `n - 1` wraps to 0. */
  lemma NextCellSteps(i: nat, n: nat)
    requires n > 0 && i < n
    ensures NextCell(Some(i), n) == if i + 1 < n then Some(i + 1) else Some(0)
  {
  }

  /** The cell after `k` successive clicks. */
  function Cycled(cell: Cell, n: nat, k: nat): Cell
    requires n > 0
  {
    if k == 0 then cell else NextCell(Cycled(cell, n, k - 1), n)
  }

  /** Within one round of `k <= n` clicks a symbol `v < n` counts up and wraps past `n - 1` to 0. */
  lemma {:induction false} CycledWithinRound(v: nat, n: nat, k: nat)
    requires v < n && k <= n
    ensures Cycled(Some(v), n, k) == if v + k < n then Some(v + k) else Some(v + k - n)
  {
    if k > 0 {
      CycledWithinRound(v, n, k - 1);
      var p := if v + k - 1 < n then v + k - 1 else v + k - 1 - n;
      NextCellSteps(p, n);
    }
  }

  /** Exactly `n` clicks bring a symbol `v < n` back to itself, and from then on the
      clicks repeat with period `n`. */
  lemma {:induction false} CycleReturns(v: nat, n: nat, k: nat)
    requires v < n
    ensures Cycled(Some(v), n, n) == Some(v)
    ensures Cycled(Some(v), n, k + n) == Cycled(Some(v), n, k)
  {
    CycledWithinRound(v, n, n);
    if k > 0 {
      CycleReturns(v, n, k - 1);
    }
  }

  /** No positive number of clicks below `n` brings a symbol back, so `n` is the least period. */
  lemma MinimalPeriod(v: nat, n: nat, k: nat)
    requires v < n && 0 < k < n
    ensures Cycled(Some(v), n, k) != Some(v)
  {
    CycledWithinRound(v, n, k);
  }

  /** Once a cell is filled, no number of clicks empties it again. */
  lemma {:induction false} CycledNeverEmpty(cell: Cell, n: nat, k: nat)
    requires n > 0 && k > 0
    ensures Cycled(cell, n, k).Some?
    ensures Cycled(cell, n, k).value < n
  {
  }

  /** With three symbols an empty cell goes 0, 1, 2 and then wraps to 0, not to empty. */
  lemma CycleOfThree()
    ensures Cycled(None, 3, 1) == Some(0)
    ensures Cycled(None, 3, 2) == Some(1)
    ensures Cycled(None, 3, 3) == Some(2)
    ensures Cycled(None, 3, 4) == Some(0)
  {
  }
}
