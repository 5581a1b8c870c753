/** The board representation of the solver: a 9x9 matrix of Rust `u8` cells
    stored row by row, where 0 marks an empty cell. This module holds the
    construction from a flat row-major sequence (`Board::new`), the flattening
    back to a sequence (`get_nums`), the single-cell write (`set_num`) and the
    count of empty cells that the search decreases. */
module Grid {

  /** A Rust `u8`. */
  type u8 = x: int | 0 <= x < 256

  /** The board: `data[r][c]` is the cell in row `r`, column `c`. */
  datatype Board = Board(data: seq<seq<u8>>) {

    /** Every board the program builds has exactly 9 rows of 9 cells. */
    predicate Valid() {
      |data| == 9 && forall r :: 0 <= r < 9 ==> |data[r]| == 9
    }
  }

  predicate InRange(r: int, c: int) {
    0 <= r < 9 && 0 <= c < 9
  }

  /** `n` zero cells. */
  function Zeros(n: nat): (z: seq<u8>)
    ensures |z| == n
    ensures forall i :: 0 <= i < n ==> z[i] == 0
  {
    seq(n, _ => 0)
  }

  /** The board with nothing filled in. */
  function Empty(): (b: Board)
    ensures b.Valid()
    ensures forall r, c :: InRange(r, c) ==> b.data[r][c] == 0
  {
    Board(seq(9, _ => Zeros(9)))
  }

  /** Value of flat position `k` of `data`, reading past its end as 0. */
  function At(data: seq<u8>, k: nat): u8 {
    if k < |data| then data[k] else 0
  }

  /** The board whose cell (k / 9, k % 9) holds `data[k]` and whose other
      cells hold 0: the declarative description of what `Board::new` builds. */
  function FromFlat(data: seq<u8>): Board {
    Board(seq(9, r requires 0 <= r < 9 => FlatRow(data, r)))
  }

  /** Row `r` of `FromFlat(data)`. */
  function FlatRow(data: seq<u8>, r: nat): seq<u8> {
    seq<u8>(9, c requires 0 <= c < 9 => At(data, 9 * r + c))
  }

  /** `Board::new`: walks `data` keeping a row and a column cursor, moving to
      the next row at every multiple of 9 after the first, and writes each
      value at the cursor. Index 81 would move the row cursor to 9 and index
      out of bounds, so the input may hold at most 81 values. */
  method New(data: seq<u8>) returns (b: Board)
    requires |data| <= 81
    ensures b.Valid()
    ensures b == FromFlat(data)
  {
    var rows: seq<seq<u8>> := Empty().data;
    var curRow := 0;
    var curCol := 0;
    var index := 0;
    while index < |data|
      invariant 0 <= index <= |data|
      invariant index == 0 ==> curRow == 0 && curCol == 0
      invariant 0 < index ==> curRow == (index - 1) / 9 && curCol == (index - 1) % 9 + 1
      invariant Board(rows).Valid()
      invariant forall r, c :: InRange(r, c) ==> rows[r][c] == (if 9 * r + c < index then data[9 * r + c] else 0)
    {
      if index % 9 == 0 && index != 0 {
        curRow := curRow + 1;
      }
      if curCol == 9 {
        curCol := 0;
      }
      assert curRow == index / 9 && curCol == index % 9;
      var line: seq<u8> := rows[curRow][curCol := data[index]];
      rows := rows[curRow := line];
      curCol := curCol + 1;
      index := index + 1;
    }
    b := Board(rows);
    assert forall r :: 0 <= r < 9 ==> rows[r] == FromFlat(data).data[r];
  }

  /** Row-major concatenation of rows of width 9. */
  function Flatten(rows: seq<seq<u8>>): (s: seq<u8>)
    requires forall r :: 0 <= r < |rows| ==> |rows[r]| == 9
    ensures |s| == 9 * |rows|
    ensures forall r, c :: 0 <= r < |rows| && 0 <= c < 9 ==> s[9 * r + c] == rows[r][c]
  {
    if |rows| == 0 then [] else Flatten(rows[..|rows| - 1]) + rows[|rows| - 1]
  }

  /** `get_nums`: the board's cells in row-major order. */
  function GetNums(b: Board): (s: seq<u8>)
    requires b.Valid()
    ensures |s| == 81
    ensures forall r, c :: InRange(r, c) ==> s[9 * r + c] == b.data[r][c]
  {
    Flatten(b.data)
  }

  /** Flattening a constructed board gives back the input, padded with zeros
      to 81 values. */
  lemma GetNumsFromFlat(data: seq<u8>)
    requires |data| <= 81
    ensures GetNums(FromFlat(data)) == data + Zeros(81 - |data|)
  {
    var s := GetNums(FromFlat(data));
    var t := data + Zeros(81 - |data|);
    forall k | 0 <= k < 81
      ensures s[k] == t[k]
    {
      var r, c := k / 9, k % 9;
      assert k == 9 * r + c && InRange(r, c);
      assert FromFlat(data).data[r] == FlatRow(data, r);
      assert s[k] == FromFlat(data).data[r][c];
    }
  }

  /** On a full-length input the round trip is the identity. */
  lemma GetNumsFromFlatFull(data: seq<u8>)
    requires |data| == 81
    ensures GetNums(FromFlat(data)) == data
  {
    GetNumsFromFlat(data);
    assert data + Zeros(0) == data;
  }

  /** Reading a board's flattening back in rebuilds the same board. */
  lemma FromFlatGetNums(b: Board)
    requires b.Valid()
    ensures FromFlat(GetNums(b)) == b
  {
    var b' := FromFlat(GetNums(b));
    forall r | 0 <= r < 9
      ensures b'.data[r] == b.data[r]
    {
    }
  }

  /** `set_num`: overwrite one cell, leaving every other cell alone. */
  function SetNum(b: Board, row: nat, col: nat, value: u8): (b': Board)
    requires b.Valid() && row < 9 && col < 9
    ensures b'.Valid()
    ensures b'.data[row][col] == value
    ensures forall r, c :: InRange(r, c) && (r != row || c != col) ==> b'.data[r][c] == b.data[r][c]
  {
    var line: seq<u8> := b.data[row][col := value];
    Board(b.data[row := line])
  }

  /** Writing a cell's old value back undoes a write. */
  lemma SetNumUndo(b: Board, row: nat, col: nat, value: u8)
    requires b.Valid() && row < 9 && col < 9
    ensures SetNum(SetNum(b, row, col, value), row, col, b.data[row][col]) == b
  {
    var b' := SetNum(SetNum(b, row, col, value), row, col, b.data[row][col]);
    forall r | 0 <= r < 9
      ensures b'.data[r] == b.data[r]
    {
    }
  }

  /** Number of zeros in a sequence. */
  function CountZeros(s: seq<u8>): nat {
    if |s| == 0 then 0 else CountZeros(s[..|s| - 1]) + (if s[|s| - 1] == 0 then 1 else 0)
  }

  /** Number of empty cells of a board: the measure the search decreases. */
  function ZeroCount(b: Board): nat
    requires b.Valid()
  {
    CountZeros(GetNums(b))
  }

  /** Replacing one zero of a sequence by a non-zero value removes exactly one zero. */
  lemma {:induction false} CountZerosFill(s: seq<u8>, k: nat, v: u8)
    requires k < |s| && s[k] == 0 && v != 0
    ensures CountZeros(s[k := v]) == CountZeros(s) - 1
    decreases |s|
  {
    var n := |s| - 1;
    if k == n {
      assert s[k := v][..n] == s[..n];
    } else {
      assert s[k := v][..n] == s[..n][k := v];
      CountZerosFill(s[..n], k, v);
    }
  }

  /** A sequence has no zero exactly when it counts none. */
  lemma {:induction false} CountZerosNone(s: seq<u8>)
    ensures CountZeros(s) == 0 <==> forall i :: 0 <= i < |s| ==> s[i] != 0
    decreases |s|
  {
    if |s| > 0 {
      var n := |s| - 1;
      CountZerosNone(s[..n]);
      assert forall i :: 0 <= i < n ==> s[..n][i] == s[i];
    }
  }

  /** Writing one cell changes exactly that position of the flattening. */
  lemma GetNumsSetNum(b: Board, row: nat, col: nat, value: u8)
    requires b.Valid() && row < 9 && col < 9
    ensures GetNums(SetNum(b, row, col, value)) == GetNums(b)[9 * row + col := value]
  {
    var s := GetNums(SetNum(b, row, col, value));
    var t := GetNums(b)[9 * row + col := value];
    forall k | 0 <= k < 81
      ensures s[k] == t[k]
    {
      var r, c := k / 9, k % 9;
      assert k == 9 * r + c && InRange(r, c);
    }
  }

  /** Placing a non-zero value in an empty cell leaves exactly one fewer
      empty cell: the measure of every recursive call of the search. */
  lemma PlacementDecreasesZeros(b: Board, row: nat, col: nat, value: u8)
    requires b.Valid() && row < 9 && col < 9
    requires b.data[row][col] == 0 && value != 0
    ensures ZeroCount(SetNum(b, row, col, value)) == ZeroCount(b) - 1
  {
    GetNumsSetNum(b, row, col, value);
    CountZerosFill(GetNums(b), 9 * row + col, value);
  }

  /** A board counts no empty cell exactly when every cell is non-zero. */
  lemma ZeroCountNone(b: Board)
    requires b.Valid()
    ensures ZeroCount(b) == 0 <==> forall r, c :: InRange(r, c) ==> b.data[r][c] != 0
  {
    var s := GetNums(b);
    CountZerosNone(s);
    if ZeroCount(b) != 0 {
      var k :| 0 <= k < 81 && s[k] == 0;
      var r, c := k / 9, k % 9;
      assert k == 9 * r + c && InRange(r, c);
    }
  }
}
