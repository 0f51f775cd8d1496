/** The classic row / column / 3x3-box uniqueness rule, stated over the value view of a board. */
module Rules {
  import opened Grid

  /** First row (or column) of the 3x3 box holding row (or column) `i`. */
  function BoxStart(i: nat): nat {
    (i / 3) * 3
  }

  /** `(r2, c2)` lies in the 3x3 box that starts at `(BoxStart(r), BoxStart(c))`. */
  predicate InBox(r: nat, c: nat, r2: nat, c2: nat) {
    BoxStart(r) <= r2 < BoxStart(r) + 3 && BoxStart(c) <= c2 < BoxStart(c) + 3
  }

  /** `(r2, c2)` is another cell sharing a row, a column or a box with `(r, c)`. */
  predicate Peers(r: nat, c: nat, r2: nat, c2: nat) {
    (r2, c2) != (r, c) && (r2 == r || c2 == c || InBox(r, c, r2, c2))
  }

  /** Placing symbol `v` at `(r, c)` keeps the rule: no other cell of its row, column
      or box holds `v`. The cell `(r, c)` itself is never compared. */
  ghost predicate ValidPlacement(b: Board, r: nat, c: nat, v: nat)
    requires WellFormed(b) && InRange(r, c)
  {
    forall r2: nat, c2: nat :: InRange(r2, c2) && Peers(r, c, r2, c2) ==> b[r2][c2] != Some(v)
  }

  /** Cell `(r, c)` is filled and its symbol breaks the rule. */
  ghost predicate IsConflict(b: Board, r: nat, c: nat)
    requires WellFormed(b) && InRange(r, c)
  {
    b[r][c].Some? && !ValidPlacement(b, r, c, b[r][c].value)
  }

  /** `p` comes before `q` in row-major order. */
  predicate Precedes(p: Pos, q: Pos) {
    p.0 < q.0 || (p.0 == q.0 && p.1 < q.1)
  }

  /** The conflicting cells among `(r, 0)`, ..., `(r, n - 1)`, in that order. */
  ghost function RowConflicts(b: Board, r: nat, n: nat): seq<Pos>
    requires WellFormed(b) && r < GridSize && n <= GridSize
  {
    if n == 0 then []
    else RowConflicts(b, r, n - 1) + if IsConflict(b, r, n - 1) then [(r, n - 1)] else []
  }

  /** The conflicting cells of rows `0` to `r - 1`, in row-major order. */
  ghost function ConflictsBefore(b: Board, r: nat): seq<Pos>
    requires WellFormed(b) && r <= GridSize
  {
    if r == 0 then [] else ConflictsBefore(b, r - 1) + RowConflicts(b, r - 1, GridSize)
  }

  /** All conflicting cells, in row-major order. */
  ghost function Conflicts(b: Board): seq<Pos>
    requires WellFormed(b)
  {
    ConflictsBefore(b, GridSize)
  }

  ghost predicate AllFilled(b: Board)
    requires WellFormed(b)
  {
    forall r: nat, c: nat :: InRange(r, c) ==> b[r][c].Some?
  }

  /** The puzzle is solved: every cell filled and no conflicts. */
  ghost predicate Completed(b: Board)
    requires WellFormed(b)
  {
    AllFilled(b) && Conflicts(b) == []
  }

  /** No two filled cells that are peers hold the same symbol. */
  ghost predicate Consistent(b: Board)
    requires WellFormed(b)
  {
    forall r: nat, c: nat, r2: nat, c2: nat ::
      InRange(r, c) && InRange(r2, c2) && Peers(r, c, r2, c2) && b[r][c].Some? ==> b[r2][c2] != b[r][c]
  }

  /** Strictly increasing in row-major order; in particular free of duplicates. */
  predicate RowMajor(ps: seq<Pos>) {
    forall i, j :: 0 <= i < j < |ps| ==> Precedes(ps[i], ps[j])
  }

  // ---------------------------------------------------------------------------
  // The box and peer relations

  /** The box that starts at `(BoxStart(r), BoxStart(c))` is the set of cells with the same
      row third and column third; hence box membership is symmetric. */
  lemma InBoxIff(r: nat, c: nat, r2: nat, c2: nat)
    ensures InBox(r, c, r2, c2) <==> r / 3 == r2 / 3 && c / 3 == c2 / 3
  {
    BoxStartIff(r, r2);
    BoxStartIff(c, c2);
  }

  lemma BoxStartIff(i: nat, j: nat)
    ensures BoxStart(i) <= j < BoxStart(i) + 3 <==> i / 3 == j / 3
  {
    var q := i / 3;
    if BoxStart(i) <= j < BoxStart(i) + 3 {
      assert j == q * 3 + (j - q * 3) && 0 <= j - q * 3 < 3;
      assert j / 3 == q;
    }
    if i / 3 == j / 3 {
      assert j == (j / 3) * 3 + j % 3;
    }
  }

  lemma {:induction false} PeersSymmetric(r: nat, c: nat, r2: nat, c2: nat)
    ensures Peers(r, c, r2, c2) <==> Peers(r2, c2, r, c)
  {
    InBoxIff(r, c, r2, c2);
    InBoxIff(r2, c2, r, c);
  }

  // ---------------------------------------------------------------------------
  // ValidPlacement

  /** Self-exclusion: whatever cell `(r, c)` itself holds does not affect whether a symbol
      may be placed there; in particular a cell never conflicts with its own symbol. */
  lemma {:induction false} PlacementIgnoresOwnCell(b: Board, r: nat, c: nat, v: nat, x: Cell)
    requires WellFormed(b) && InRange(r, c)
    ensures ValidPlacement(Set(b, r, c, x), r, c, v) == ValidPlacement(b, r, c, v)
  {
    var b' := Set(b, r, c, x);
    if ValidPlacement(b, r, c, v) {
      forall r2: nat, c2: nat | InRange(r2, c2) && Peers(r, c, r2, c2)
        ensures b'[r2][c2] != Some(v)
      {
        assert b'[r2][c2] == b[r2][c2];
      }
    } else {
      var r2: nat, c2: nat :| InRange(r2, c2) && Peers(r, c, r2, c2) && b[r2][c2] == Some(v);
      assert b'[r2][c2] == Some(v);
    }
  }

  /** On an empty board every placement is valid. */
  lemma EmptyBoardAllValid(r: nat, c: nat, v: nat)
    requires InRange(r, c)
    ensures ValidPlacement(EmptyBoard(), r, c, v)
  {
  }

  // ---------------------------------------------------------------------------
  // Conflicts

  lemma {:induction false} RowConflictsMembers(b: Board, r: nat, n: nat, p: Pos)
    requires WellFormed(b) && r < GridSize && n <= GridSize
    ensures p in RowConflicts(b, r, n) <==> p.0 == r && p.1 < n && IsConflict(b, r, p.1)
  {
    if n > 0 {
      RowConflictsMembers(b, r, n - 1, p);
    }
  }

  /** The conflicts of the first `r` rows are exactly the conflicting cells above row `r`. */
  lemma {:induction false} ConflictsBeforeMembers(b: Board, r: nat, p: Pos)
    requires WellFormed(b) && r <= GridSize
    ensures p in ConflictsBefore(b, r) <==> InRange(p.0, p.1) && p.0 < r && IsConflict(b, p.0, p.1)
  {
    if r > 0 {
      var above, last := ConflictsBefore(b, r - 1), RowConflicts(b, r - 1, GridSize);
      ConflictsBeforeMembers(b, r - 1, p);
      RowConflictsMembers(b, r - 1, GridSize, p);
      assert p in above + last <==> p in above || p in last;
    }
  }

  /** Scanning cell `(r, c)` after the cells before it in row-major order: `after` is the
      list so far, extended by `(r, c)` when its symbol is not a valid placement there. */
  lemma ConflictsScanStep(b: Board, r: nat, c: nat, ok: bool, before: seq<Pos>, after: seq<Pos>)
    requires WellFormed(b) && InRange(r, c)
    requires before == ConflictsBefore(b, r) + RowConflicts(b, r, c)
    requires b[r][c].Some? ==> ok == ValidPlacement(b, r, c, b[r][c].value)
    requires after == if b[r][c].Some? && !ok then before + [(r, c)] else before
    ensures after == ConflictsBefore(b, r) + RowConflicts(b, r, c + 1)
  {
  }

  /** `Conflicts` lists exactly the filled cells whose symbol is not a valid placement there. */
  lemma ConflictsMembers(b: Board, p: Pos)
    requires WellFormed(b)
    ensures p in Conflicts(b) <==>
      InRange(p.0, p.1) && b[p.0][p.1].Some? && !ValidPlacement(b, p.0, p.1, b[p.0][p.1].value)
  {
    ConflictsBeforeMembers(b, GridSize, p);
  }

  lemma {:induction false} RowConflictsRowMajor(b: Board, r: nat, n: nat)
    requires WellFormed(b) && r < GridSize && n <= GridSize
    ensures RowMajor(RowConflicts(b, r, n))
    ensures forall p :: p in RowConflicts(b, r, n) ==> p.0 == r && p.1 < n
  {
    if n > 0 {
      RowConflictsRowMajor(b, r, n - 1);
    }
  }

  lemma {:induction false} ConflictsBeforeRowMajor(b: Board, r: nat)
    requires WellFormed(b) && r <= GridSize
    ensures RowMajor(ConflictsBefore(b, r))
    ensures forall p :: p in ConflictsBefore(b, r) ==> p.0 < r
  {
    if r > 0 {
      ConflictsBeforeRowMajor(b, r - 1);
      RowConflictsRowMajor(b, r - 1, GridSize);
      var xs, ys := ConflictsBefore(b, r - 1), RowConflicts(b, r - 1, GridSize);
      forall i, j | 0 <= i < j < |xs + ys|
        ensures Precedes((xs + ys)[i], (xs + ys)[j])
      {
        if j < |xs| {
          assert (xs + ys)[i] == xs[i] && (xs + ys)[j] == xs[j];
        } else if i >= |xs| {
          assert (xs + ys)[i] == ys[i - |xs|] && (xs + ys)[j] == ys[j - |xs|];
        } else {
          assert (xs + ys)[i] == xs[i] && (xs + ys)[j] == ys[j - |xs|];
          assert xs[i] in xs && ys[j - |xs|] in ys;
        }
      }
    }
  }

  /** `Conflicts` is in row-major order, so it holds no cell twice. */
  lemma ConflictsRowMajor(b: Board)
    requires WellFormed(b)
    ensures RowMajor(Conflicts(b))
    ensures forall i, j :: 0 <= i < j < |Conflicts(b)| ==> Conflicts(b)[i] != Conflicts(b)[j]
  {
    ConflictsBeforeRowMajor(b, GridSize);
  }

  /** Conflicts are symmetric: two filled peers holding the same symbol are both listed. */
  lemma ConflictsSymmetric(b: Board, r: nat, c: nat, r2: nat, c2: nat)
    requires WellFormed(b) && InRange(r, c) && InRange(r2, c2)
    requires Peers(r, c, r2, c2) && b[r][c].Some? && b[r2][c2] == b[r][c]
    ensures (r, c) in Conflicts(b) && (r2, c2) in Conflicts(b)
  {
    PeersSymmetric(r, c, r2, c2);
    ConflictsMembers(b, (r, c));
    ConflictsMembers(b, (r2, c2));
  }

  /** There are no conflicts exactly when no two filled peers hold the same symbol. */
  lemma NoConflictsIffConsistent(b: Board)
    requires WellFormed(b)
    ensures Conflicts(b) == [] <==> Consistent(b)
  {
    if Conflicts(b) == [] {
      forall r: nat, c: nat, r2: nat, c2: nat |
        InRange(r, c) && InRange(r2, c2) && Peers(r, c, r2, c2) && b[r][c].Some?
        ensures b[r2][c2] != b[r][c]
      {
        if b[r2][c2] == b[r][c] {
          ConflictsSymmetric(b, r, c, r2, c2);
        }
      }
    } else {
      var p := Conflicts(b)[0];
      ConflictsMembers(b, p);
      var r2: nat, c2: nat :|
        InRange(r2, c2) && Peers(p.0, p.1, r2, c2) && b[r2][c2] == Some(b[p.0][p.1].value);
      assert !Consistent(b);
    }
  }

  /** Two row-major lists with the same members are equal. */
  lemma {:induction false} RowMajorUnique(xs: seq<Pos>, ys: seq<Pos>)
    requires RowMajor(xs) && RowMajor(ys)
    requires forall p :: p in xs <==> p in ys
    ensures xs == ys
  {
    // A non-empty list has a member, which the other list must then share.
    if xs != [] {
      assert xs[0] in xs;
    }
    if ys != [] {
      assert ys[0] in ys;
    }
    if xs != [] && ys != [] {
      assert xs[0] == ys[0] by {
        assert xs[0] in ys && ys[0] in xs;
        var i :| 0 <= i < |ys| && ys[i] == xs[0];
        var j :| 0 <= j < |xs| && xs[j] == ys[0];
      }
      forall p
        ensures p in xs[1..] <==> p in ys[1..]
      {
        if p in xs[1..] {
          var i :| 1 <= i < |xs| && xs[i] == p;
          assert p in ys;
          var j :| 0 <= j < |ys| && ys[j] == p;
          assert j != 0;
          assert ys[1..][j - 1] == p;
        }
        if p in ys[1..] {
          var j :| 1 <= j < |ys| && ys[j] == p;
          assert p in xs;
          var i :| 0 <= i < |xs| && xs[i] == p;
          assert i != 0;
          assert xs[1..][i - 1] == p;
        }
      }
      RowMajorUnique(xs[1..], ys[1..]);
    } else if xs != [] {
      assert false;
    } else if ys != [] {
      assert false;
    }
  }

  /** An empty board has no conflicts. */
  lemma EmptyBoardNoConflicts()
    ensures Conflicts(EmptyBoard()) == []
  {
    NoConflictsIffConsistent(EmptyBoard());
  }

  // ---------------------------------------------------------------------------
  // Completed

  /** Solved means every cell filled and no two peers holding the same symbol. */
  lemma CompletedIffSolved(b: Board)
    requires WellFormed(b)
    ensures Completed(b) <==> AllFilled(b) && Consistent(b)
  {
    NoConflictsIffConsistent(b);
  }

  /** A board with an empty cell is not solved; so an empty board is not. */
  lemma EmptyCellNotCompleted(b: Board, r: nat, c: nat)
    requires WellFormed(b) && InRange(r, c) && b[r][c] == None
    ensures !Completed(b)
  {
  }

  /** A board holding one symbol everywhere is full but not solved. */
  lemma UniformBoardNotCompleted(b: Board, v: nat)
    requires WellFormed(b)
    requires forall r: nat, c: nat :: InRange(r, c) ==> b[r][c] == Some(v)
    ensures AllFilled(b) && !Completed(b)
  {
    assert Peers(0, 0, 0, 1);
    ConflictsSymmetric(b, 0, 0, 0, 1);
  }
}
