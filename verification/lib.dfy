/** The embedding wrapper of the solver (`solve` in `lib.rs`): build a board
    from a flat row-major sequence, run the search, and return the solved
    board flattened, or the input unchanged when the search fails. */
module Lib {
  import opened Grid
  import Search

  /** `solve(numbers)`: on success the row-major flattening of the least
      completion of the board built from `numbers`; when no completion exists
      the input itself. More than 81 values make `Board::new` panic. */
  method Solve(numbers: seq<u8>) returns (out: seq<u8>)
    requires |numbers| <= 81
    ensures var b := FromFlat(numbers);
      Search.Completable(b) ==>
        && |out| == 81
        && Search.IsCompletion(b, FromFlat(out))
        && forall g :: Search.IsCompletion(b, g) ==> Search.LexLeq(FromFlat(out), g)
    ensures !Search.Completable(FromFlat(numbers)) ==> out == numbers
    ensures |numbers| == 81 ==> |out| == 81
    ensures |numbers| == 81 && (forall i :: 0 <= i < 81 ==> numbers[i] != 0) ==> out == numbers
  {
    var board := New(numbers);
    var res, solved := Search.Solve(board);
    if res.Ok? {
      out := GetNums(solved);
      FromFlatGetNums(solved);
      if |numbers| == 81 && (forall i :: 0 <= i < 81 ==> numbers[i] != 0) {
        assert Search.Full(board) by {
          forall r, c | InRange(r, c)
            ensures board.data[r][c] != 0
          {
            assert board.data[r] == FlatRow(numbers, r);
          }
        }
        GetNumsFromFlatFull(numbers);
      }
    } else {
      out := numbers;
    }
  }
}
