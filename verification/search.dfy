/** The backtracking search of the solver (`solve`) with its scans
    `is_solved` and `next_empty`.

    What the search can reach is described declaratively by `IsCompletion`:
    a board that keeps every non-zero cell of the start board and fills every
    empty one with a digit 1..9 that no peer repeats. `Solve` succeeds exactly
    when such a completion exists, returns the least one in row-major
    lexicographic order, and on failure hands back the start board. */
module Search {
  import opened Grid
  import opened Legality

  datatype Option<T> = None | Some(value: T)

  /** The result of `solve`: `Ok(())` or `Err("No solution found!")`. */
  datatype Outcome = Ok | Err(message: string)

  const NoSolution: string := "No solution found!"

  /** No cell of the board is empty. */
  ghost predicate Full(b: Board)
    requires b.Valid()
  {
    forall r, c :: InRange(r, c) ==> b.data[r][c] != 0
  }

  /** Cell (r, c) comes strictly before (r2, c2) in row-major order. */
  predicate Before(r: int, c: int, r2: int, c2: int) {
    r < r2 || (r == r2 && c < c2)
  }

  /** `is_solved`: true exactly when no cell holds 0. Clashing digits are not
      looked at, so a full board with repeated digits counts as solved. */
  method IsSolved(b: Board) returns (solved: bool)
    requires b.Valid()
    ensures solved <==> Full(b)
  {
    var r := 0;
    while r < 9
      invariant 0 <= r <= 9
      invariant forall i, j :: 0 <= i < r && 0 <= j < 9 ==> b.data[i][j] != 0
    {
      var c := 0;
      while c < 9
        invariant 0 <= c <= 9
        invariant forall j :: 0 <= j < c ==> b.data[r][j] != 0
      {
        if b.data[r][c] == 0 {
          return false;
        }
        c := c + 1;
      }
      r := r + 1;
    }
    return true;
  }

  /** `next_empty`: the first empty cell in row-major order, or `None` when
      there is none. */
  method NextEmpty(b: Board) returns (pos: Option<(nat, nat)>)
    requires b.Valid()
    ensures pos.None? <==> Full(b)
    ensures pos.Some? ==> var (row, col) := pos.value;
      && InRange(row, col)
      && b.data[row][col] == 0
      && forall r, c :: InRange(r, c) && Before(r, c, row, col) ==> b.data[r][c] != 0
  {
    var r := 0;
    while r < 9
      invariant 0 <= r <= 9
      invariant forall i, j :: 0 <= i < r && 0 <= j < 9 ==> b.data[i][j] != 0
    {
      var c := 0;
      while c < 9
        invariant 0 <= c <= 9
        invariant forall j :: 0 <= j < c ==> b.data[r][j] != 0
      {
        if b.data[r][c] == 0 {
          return Some((r, c));
        }
        c := c + 1;
      }
      r := r + 1;
    }
    return None;
  }

  /** `g` completes `b`: it keeps every non-zero cell of `b` and fills every
      empty cell of `b` with a digit 1..9 that no peer of that cell holds. */
  ghost predicate IsCompletion(b: Board, g: Board) {
    && b.Valid()
    && g.Valid()
    && forall r, c :: InRange(r, c) ==>
         if b.data[r][c] != 0 then g.data[r][c] == b.data[r][c]
         else 1 <= g.data[r][c] <= 9 && NoConflict(g, r, c)
  }

  /** Some completion of `b` exists. */
  ghost predicate Completable(b: Board) {
    exists g :: IsCompletion(b, g)
  }

  /** `x` is `y` or comes first in row-major lexicographic order. */
  ghost predicate LexLeq(x: Board, y: Board)
    requires x.Valid() && y.Valid()
  {
    || x == y
    || exists r, c :: InRange(r, c) && x.data[r][c] < y.data[r][c] && SamePrefix(x, y, r, c)
  }

  /** `x` and `y` agree on every cell before (r, c) in row-major order. */
  ghost predicate SamePrefix(x: Board, y: Board, r: int, c: int)
    requires x.Valid() && y.Valid()
  {
    forall r2, c2 :: InRange(r2, c2) && Before(r2, c2, r, c) ==> x.data[r2][c2] == y.data[r2][c2]
  }

  /** A full board is its own and only completion. */
  lemma FullOnlyCompletion(b: Board)
    requires b.Valid() && Full(b)
    ensures IsCompletion(b, b)
    ensures forall g :: IsCompletion(b, g) ==> g == b
  {
    forall g | IsCompletion(b, g)
      ensures g == b
    {
      forall r | 0 <= r < 9
        ensures g.data[r] == b.data[r]
      {
        assert forall c :: 0 <= c < 9 ==> g.data[r][c] == b.data[r][c];
      }
    }
  }

  /** Every completion puts at an empty cell a digit that is legal there on
      the start board. */
  lemma CompletionDigitLegal(b: Board, g: Board, row: nat, col: nat)
    requires IsCompletion(b, g) && InRange(row, col) && b.data[row][col] == 0
    ensures Legal(b, row, col, g.data[row][col])
  {
    var v := g.data[row][col];
    forall r, c | InRange(r, c) && Peer(row, col, r, c)
      ensures b.data[r][c] != v
    {
      assert NoConflict(g, row, col);
    }
  }

  /** Every digit a completion puts in an empty cell of `b` would still be a
      legal move there with the rest of the completion in place. */
  lemma CompletionCellsLegal(b: Board, g: Board)
    requires IsCompletion(b, g)
    ensures forall r: nat, c: nat :: InRange(r, c) && b.data[r][c] == 0 ==>
      Legal(SetNum(g, r, c, 0), r, c, g.data[r][c])
  {
    forall r: nat, c: nat | InRange(r, c) && b.data[r][c] == 0
      ensures Legal(SetNum(g, r, c, 0), r, c, g.data[r][c])
    {
      var e := SetNum(g, r, c, 0);
      SetNumUndo(g, r, c, 0);
      LegalIffNoConflictAfter(e, r, c, g.data[r][c]);
    }
  }

  /** A completion of `b` that agrees with a legal placement completes the
      board after that placement too. */
  lemma CompletionAfterPlacement(b: Board, g: Board, row: nat, col: nat, value: u8)
    requires IsCompletion(b, g) && InRange(row, col) && b.data[row][col] == 0
    requires g.data[row][col] == value
    ensures IsCompletion(SetNum(b, row, col, value), g)
  {
  }

  /** A completion of the board after a legal placement also completes the
      board before it. */
  lemma CompletionBeforePlacement(b: Board, g: Board, row: nat, col: nat, value: u8)
    requires b.Valid() && Legal(b, row, col, value) && value <= 9
    requires IsCompletion(SetNum(b, row, col, value), g)
    ensures IsCompletion(b, g)
  {
    var b1 := SetNum(b, row, col, value);
    assert NoConflict(g, row, col) by {
      forall r, c | InRange(r, c) && Peer(row, col, r, c)
        ensures g.data[r][c] != g.data[row][col]
      {
        if b.data[r][c] == 0 {
          assert b1.data[r][c] == 0;
          assert NoConflict(g, r, c);
          assert Peer(r, c, row, col);
        }
      }
    }
    forall r, c | InRange(r, c)
      ensures if b.data[r][c] != 0 then g.data[r][c] == b.data[r][c]
              else 1 <= g.data[r][c] <= 9 && NoConflict(g, r, c)
    {
      if r != row || c != col {
        assert b1.data[r][c] == b.data[r][c];
      }
    }
  }

  /** If the search found the least completion `s` after placing `value` at the
      first empty cell, and no completion uses a smaller digit there, then `s`
      is the least completion of the board before the placement. */
  lemma LeastAfterPlacement(b: Board, s: Board, row: nat, col: nat, value: u8)
    requires b.Valid() && Legal(b, row, col, value) && value <= 9
    requires forall r, c :: InRange(r, c) && Before(r, c, row, col) ==> b.data[r][c] != 0
    requires forall g :: IsCompletion(b, g) ==> g.data[row][col] >= value
    requires IsCompletion(SetNum(b, row, col, value), s)
    requires forall g :: IsCompletion(SetNum(b, row, col, value), g) ==> LexLeq(s, g)
    ensures IsCompletion(b, s)
    ensures forall g :: IsCompletion(b, g) ==> LexLeq(s, g)
  {
    CompletionBeforePlacement(b, s, row, col, value);
    forall g | IsCompletion(b, g)
      ensures LexLeq(s, g)
    {
      if g.data[row][col] == value {
        CompletionAfterPlacement(b, g, row, col, value);
      } else {
        assert SamePrefix(s, g, row, col);
      }
    }
  }

  /** After trying `value` at the empty cell without success, no completion
      holds `value` there. */
  lemma DigitExcluded(b: Board, row: nat, col: nat, value: u8)
    requires b.Valid() && InRange(row, col) && b.data[row][col] == 0 && value != 0
    requires Legal(b, row, col, value) ==> !Completable(SetNum(b, row, col, value))
    ensures forall g :: IsCompletion(b, g) ==> g.data[row][col] != value
  {
    forall g | IsCompletion(b, g) && g.data[row][col] == value
      ensures false
    {
      CompletionDigitLegal(b, g, row, col);
      CompletionAfterPlacement(b, g, row, col, value);
    }
  }

  /** `solve`: when the board is full succeed at once; otherwise take the
      first empty cell, try the digits 1..9 in ascending order, keep a legal
      one when the recursive search succeeds and reset the cell to 0 when it
      fails. The board is passed in and handed back, standing for the
      `&mut self` the search mutates in place. Each recursive call sees one
      empty cell fewer. */
  method Solve(b: Board) returns (res: Outcome, b': Board)
    requires b.Valid()
    ensures b'.Valid()
    ensures res.Ok? <==> Completable(b)
    ensures res.Ok? ==> IsCompletion(b, b') && forall g :: IsCompletion(b, g) ==> LexLeq(b', g)
    ensures res.Err? ==> res.message == NoSolution && b' == b
    ensures Full(b) ==> res.Ok? && b' == b
    ensures ZeroCount(b) == 0 ==> res.Ok? && b' == b
    ensures Consistent(b) ==> Consistent(b')
    decreases ZeroCount(b)
  {
    ZeroCountNone(b);
    var solved := IsSolved(b);
    if solved {
      FullOnlyCompletion(b);
      return Ok, b;
    }
    b' := b;
    var next := NextEmpty(b);
    if next.Some? {
      var (row, col) := next.value;
      var i: u8 := 1;
      while i <= 9
        invariant 1 <= i <= 10
        invariant b' == b
        invariant forall g :: IsCompletion(b, g) ==> g.data[row][col] >= i
      {
        var legal := ValidMove(b', row, col, i);
        if legal {
          b' := SetNum(b', row, col, i);
          PlacementDecreasesZeros(b, row, col, i);
          if Consistent(b) {
            StepKeepsConsistent(b, row, col, i);
          }
          res, b' := Solve(b');
          if res.Ok? {
            LeastAfterPlacement(b, b', row, col, i);
            return;
          }
          SetNumUndo(b, row, col, i);
          b' := SetNum(b', row, col, 0);
        }
        DigitExcluded(b, row, col, i);
        i := i + 1;
      }
    }
    res := Err(NoSolution);
  }
}
