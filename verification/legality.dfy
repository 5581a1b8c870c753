/** The legality check of the solver (`valid_move` with its scans `in_row`,
    `in_col` and `in_grid`), and the declarative notion it decides: a value may
    go into an empty cell when no peer of that cell already holds it. */
module Legality {
  import opened Grid

  /** Cells (r, c) and (r2, c2) lie in the same 3x3 box. */
  predicate SameBox(r: int, c: int, r2: int, c2: int) {
    r2 / 3 == r / 3 && c2 / 3 == c / 3
  }

  /** (r2, c2) is a peer of (r, c): a different cell sharing its row, its
      column or its box. */
  predicate Peer(r: int, c: int, r2: int, c2: int) {
    (r2 != r || c2 != c) && (r2 == r || c2 == c || SameBox(r, c, r2, c2))
  }

  /** `value` may be written at (row, col): the position is on the board, the
      cell is empty, `value` is not the empty marker and no peer holds it. */
  ghost predicate Legal(b: Board, row: nat, col: nat, value: u8)
    requires b.Valid()
  {
    && InRange(row, col)
    && b.data[row][col] == 0
    && value != 0
    && forall r, c :: InRange(r, c) && Peer(row, col, r, c) ==> b.data[r][c] != value
  }

  /** The value at (r, c) occurs at no peer of (r, c). */
  ghost predicate NoConflict(g: Board, r: int, c: int)
    requires g.Valid() && InRange(r, c)
  {
    forall r2, c2 :: InRange(r2, c2) && Peer(r, c, r2, c2) ==> g.data[r2][c2] != g.data[r][c]
  }

  /** `in_row`: scan row `row` for `value`. */
  method InRow(b: Board, row: nat, value: u8) returns (found: bool)
    requires b.Valid() && row < 9
    ensures found <==> exists c :: 0 <= c < 9 && b.data[row][c] == value
  {
    var c := 0;
    while c < 9
      invariant 0 <= c <= 9
      invariant forall j :: 0 <= j < c ==> b.data[row][j] != value
    {
      if b.data[row][c] == value {
        return true;
      }
      c := c + 1;
    }
    return false;
  }

  /** `in_col`: scan column `col` for `value`. */
  method InCol(b: Board, col: nat, value: u8) returns (found: bool)
    requires b.Valid() && col < 9
    ensures found <==> exists r :: 0 <= r < 9 && b.data[r][col] == value
  {
    var r := 0;
    while r < 9
      invariant 0 <= r <= 9
      invariant forall i :: 0 <= i < r ==> b.data[i][col] != value
    {
      if b.data[r][col] == value {
        return true;
      }
      r := r + 1;
    }
    return false;
  }

  /** The box of (row, col) starts at (row - row % 3, col - col % 3). */
  lemma BoxOrigin(row: nat, r: int)
    ensures row - row % 3 <= r < row - row % 3 + 3 <==> 0 <= r && r / 3 == row / 3
  {
  }

  /** `in_grid`: scan the 3x3 box of (row, col) for `value`, starting at the
      box origin (row - row % 3, col - col % 3). */
  method InGrid(b: Board, row: nat, col: nat, value: u8) returns (found: bool)
    requires b.Valid() && row < 9 && col < 9
    ensures found <==> exists r, c :: InRange(r, c) && SameBox(row, col, r, c) && b.data[r][c] == value
  {
    var startRow := row - row % 3;
    var startCol := col - col % 3;
    var i := startRow;
    while i < startRow + 3
      invariant startRow <= i <= startRow + 3
      invariant forall r, c :: startRow <= r < i && startCol <= c < startCol + 3 ==> b.data[r][c] != value
    {
      var j := startCol;
      while j < startCol + 3
        invariant startCol <= j <= startCol + 3
        invariant forall c :: startCol <= c < j ==> b.data[i][c] != value
      {
        if b.data[i][j] == value {
          BoxOrigin(row, i);
          BoxOrigin(col, j);
          return true;
        }
        j := j + 1;
      }
      i := i + 1;
    }
    forall r, c | InRange(r, c) && SameBox(row, col, r, c)
      ensures b.data[r][c] != value
    {
      BoxOrigin(row, r);
      BoxOrigin(col, c);
    }
    return false;
  }

  /** `valid_move`: false off the board or on a filled cell, otherwise true
      exactly when `value` is in neither the row, the column nor the box. */
  method ValidMove(b: Board, row: nat, col: nat, value: u8) returns (ok: bool)
    requires b.Valid()
    ensures ok <==> Legal(b, row, col, value)
  {
    if row >= 9 || col >= 9 {
      return false;
    }
    if b.data[row][col] != 0 {
      return false;
    }
    var inRow := InRow(b, row, value);
    var inCol := InCol(b, col, value);
    var inGrid := InGrid(b, row, col, value);
    ok := !inRow && !inCol && !inGrid;
    if value == 0 {
      assert inRow by { assert b.data[row][col] == value; }
    }
  }

  /** Legality is exactly what keeps the placed cell free of conflicts: an
      empty cell may receive a digit precisely when, after writing it, no peer
      holds the same digit. */
  lemma LegalIffNoConflictAfter(b: Board, row: nat, col: nat, value: u8)
    requires b.Valid() && row < 9 && col < 9
    requires b.data[row][col] == 0 && value != 0
    ensures Legal(b, row, col, value) <==> NoConflict(SetNum(b, row, col, value), row, col)
  {
    var g := SetNum(b, row, col, value);
    if NoConflict(g, row, col) {
      forall r, c | InRange(r, c) && Peer(row, col, r, c)
        ensures b.data[r][c] != value
      {
        assert g.data[r][c] == b.data[r][c];
      }
    }
  }

  /** Every cell holds 0..9 and no non-zero digit is repeated by a peer. */
  ghost predicate Consistent(b: Board)
    requires b.Valid()
  {
    forall r, c :: InRange(r, c) ==> b.data[r][c] <= 9 && (b.data[r][c] != 0 ==> NoConflict(b, r, c))
  }

  /** The legality invariant of the search: a legal placement of a digit
      1..9 keeps a consistent board consistent. */
  lemma StepKeepsConsistent(b: Board, row: nat, col: nat, value: u8)
    requires b.Valid() && Consistent(b) && Legal(b, row, col, value) && value <= 9
    ensures Consistent(SetNum(b, row, col, value))
  {
    var g := SetNum(b, row, col, value);
    forall r, c | InRange(r, c) && g.data[r][c] != 0
      ensures NoConflict(g, r, c)
    {
      forall r2, c2 | InRange(r2, c2) && Peer(r, c, r2, c2)
        ensures g.data[r2][c2] != g.data[r][c]
      {
        if r == row && c == col {
          assert g.data[r2][c2] == b.data[r2][c2];
        } else if r2 == row && c2 == col {
          assert Peer(row, col, r, c);
          assert g.data[r][c] == b.data[r][c];
        } else {
          assert NoConflict(b, r, c);
        }
      }
    }
  }
}
