# Sudoku board solver in Dafny

A model of the solving engine of a small Rust Sudoku solver: the `Board` type
of `src/board.rs` (a 9x9 grid of `u8` cells, 0 meaning empty) with its
construction from a flat row-major slice, its flattening, its legality check
and its recursive backtracking search, plus the embedding wrapper `solve` of
`src/lib.rs`, which returns the solved board flattened or echoes its input.

Modules, one per concern of `board.rs` / `lib.rs`:

- `Grid` (`grid.dfy`): the `Board` datatype, `Board::new` (`New`, proved equal
  to the declarative `FromFlat`), `get_nums` (`GetNums`/`Flatten`) with both
  round trips, `set_num` (`SetNum`) and the empty-cell count that the search
  decreases.
- `Legality` (`legality.dfy`): `in_row`, `in_col`, `in_grid` and `valid_move`
  as loops, each proved against a declarative statement; `Legal` says a value
  may go where no *peer* (other cell of the same row, column or 3x3 box)
  holds it.
- `Search` (`search.dfy`): `is_solved`, `next_empty` and `solve`. The board
  passed by `&mut self` is threaded through `Solve` as an input and an output.
  A *completion* of a board keeps every non-zero cell and fills every empty
  one with a digit 1..9 that no peer repeats. `Solve` succeeds exactly when a
  completion exists. On success it returns the least completion in row-major
  lexicographic order; on failure it returns the start board unchanged.
  It terminates because each recursive call sees exactly one empty cell fewer.
- `Sudoku` (`sudoku.dfy`): for a start board whose cells are 0..9 and whose
  clues clash with no peer, completions are exactly the solved Sudokus that
  keep the clues. In a solved Sudoku every row, column and box holds each
  digit once. The empty board has a solution. The least completion is unique.
- `Lib` (`lib.dfy`): the `solve(numbers)` wrapper.

The model follows what the code does, including behaviour a stricter design would reject:

- `Board::new` zero-pads an input shorter than 81 values instead of rejecting it.
  It also accepts any `u8` value.
- The clues are never checked. A full board with repeated digits counts as solved
  (`Sudoku.ClashingFullBoardCompletable`). A start board with duplicate clues can
  still be solved when its empty cells can be filled without clashing
  (`Sudoku.ClashingCluesCompletable`).

## Model

| member | source | states |
|---|---|---|
| Grid.New | src/board.rs:13-30 | the cursor walk writes `data[i]` at row i/9, column i%9, leaves every other cell 0, and needs at most 81 values (index 81 would move the row cursor to 9) |
| Grid.GetNums | src/board.rs:133-135 | `get_nums` gives 81 values, cell (r, c) at position 9r+c |
| Grid.Flatten | src/board.rs:133-135 | row-major flattening: 9 values per row, cell (r, c) lands at position 9r+c |
| Grid.GetNumsFromFlat | src/board.rs:13-30 | flattening a board built from `data` gives `data` followed by 81-\|data\| zeros |
| Grid.GetNumsFromFlatFull | src/board.rs:133-135 | for an 81-value input, `get_nums(new(v)) == v` |
| Grid.FromFlatGetNums | src/board.rs:133-135 | building a board from a board's flattening gives back the same board |
| Grid.SetNum | src/board.rs:89-91 | the board stays 9x9, the target cell holds the value, every other cell is unchanged |
| Grid.SetNumUndo | src/board.rs:100-104 | writing the old value back (the reset to 0 after a failed trial) restores the board exactly |
| Grid.PlacementDecreasesZeros | src/board.rs:97-101 | a digit written into an empty cell leaves exactly one empty cell fewer, the measure of each recursive call |
| Grid.ZeroCountNone | src/board.rs:111-120 | the board has no empty cell exactly when its empty-cell count is 0; `Search.Solve` uses it to show a count of 0 is the base case of the recursion |
| Legality.InRow | src/board.rs:58-65 | true exactly when some cell of the row holds the value |
| Legality.InCol | src/board.rs:67-74 | true exactly when some cell of the column holds the value |
| Legality.InGrid | src/board.rs:76-87 | scanning from the origin (row - row%3, col - col%3) finds the value exactly when some cell of the same 3x3 box holds it |
| Legality.ValidMove | src/board.rs:45-56 | false off the board or on a filled cell, otherwise true exactly when the value is non-zero and no peer holds it |
| Legality.LegalIffNoConflictAfter | src/board.rs:45-56 | a digit is legal in an empty cell exactly when, once written, no peer repeats it |
| Legality.StepKeepsConsistent | src/board.rs:99-101 | on a board whose cells are 0..9 and whose digits clash with no peer, writing a digit that `valid_move` accepts keeps the board clash-free |
| Search.IsSolved | src/board.rs:111-120 | true exactly when no cell is 0; repeated digits are not looked at |
| Search.NextEmpty | src/board.rs:122-131 | the first empty cell in row-major order; None exactly when the board is full |
| Search.Solve | src/board.rs:93-109 | Ok exactly when a completion exists; on Ok the board is the row-major least completion (full, clues kept, each filled digit clashing with no peer); on Err the message is "No solution found!" and the board is unchanged; a full board (empty-cell count 0) gives Ok at once with nothing changed; a clash-free board stays clash-free |
| Search.FullOnlyCompletion | src/board.rs:94-96 | a full board is its own and only completion |
| Search.CompletionCellsLegal | src/board.rs:99-100 | each digit a completion puts in an empty cell would still pass `valid_move` there with the rest of the completion in place |
| Search.CompletionDigitLegal | src/board.rs:98-99 | whatever digit a completion puts in an empty cell is a legal move on the start board |
| Search.CompletionAfterPlacement | src/board.rs:99-101 | a completion that agrees with a trial placement still completes the board after it |
| Search.CompletionBeforePlacement | src/board.rs:99-102 | a completion found after a legal placement also completes the board before it |
| Search.LeastAfterPlacement | src/board.rs:98-103 | the least completion found after placing the smallest viable digit at the first empty cell is the least completion of the board |
| Search.DigitExcluded | src/board.rs:98-106 | after a digit was illegal or its recursive search failed, no completion holds that digit in the cell |
| Sudoku.CompletionIsSolution | src/board.rs:93-109 | from clues in 0..9 that clash with no peer, every completion (so every successful solve) is a full, valid Sudoku keeping the clues |
| Sudoku.SolutionIsCompletion | src/board.rs:93-109 | every valid full Sudoku keeping the clues is a completion, so the solver finds one whenever one exists |
| Sudoku.LeastCompletionUnique | src/board.rs:93-109 | two least completions of one board are equal: the outcome of a solve is determined by its input |
| Sudoku.SolutionRowHoldsEveryDigit | src/board.rs:93-109 | in a solved Sudoku (what the search returns from clash-free clues) each row holds every digit 1..9 and no two of its cells are equal, so each digit exactly once |
| Sudoku.SolutionColHoldsEveryDigit | src/board.rs:93-109 | in a solved Sudoku (what the search returns from clash-free clues) each column holds every digit 1..9 and no two of its cells are equal, so each digit exactly once |
| Sudoku.SolutionBoxHoldsEveryDigit | src/board.rs:93-109 | in a solved Sudoku (what the search returns from clash-free clues) each 3x3 box holds every digit 1..9 and no two of its cells are equal, so each digit exactly once |
| Sudoku.EmptyBoardSolvable | src/board.rs:93-109 | the board built from 81 zeros is the empty board, which has a completion and clashes nowhere, so solving it succeeds with a valid full grid |
| Sudoku.ClashingFullBoardCompletable | src/board.rs:111-120 | a full board repeating one digit everywhere clashes, yet is its own completion, so solving it succeeds |
| Sudoku.ClashingCluesCompletable | src/board.rs:93-109 | a board whose clues repeat a digit in a row, with one cell empty, is not clash-free yet has a completion, so solving it succeeds: clues are never checked |
| Lib.Solve | src/lib.rs:14-20 | when a completion exists, 81 values flattening the least completion; otherwise the input unchanged; 81 values in give 81 out; a fully filled 81-value input comes back unchanged whatever its digits |

## Left out

- `Board::from_csv` (file opening, line reading, `parse::<u8>().unwrap()`): I/O and a library parse.
- The `Display` implementation: text formatting for printing only.
- `src/main.rs` (argument handling and printing) and `greet` / the foreign `alert` of `src/lib.rs`: glue with no logic of the engine.
- Inputs longer than 81 values: `Board::new` panics on them, so `Grid.New` and `Lib.Solve` require at most 81.
- Running time: the search is exponential in the worst case. Only termination is proved.
- Mutation in place: the board that `solve` mutates through `&mut self` is passed in and returned as a value. On failure it is returned equal to the input.
