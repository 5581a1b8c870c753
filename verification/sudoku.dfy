/** What the search's completions mean for a well-posed puzzle. The solver
    never checks the clues it is given; when they are digits 0..9 that clash
    with no peer, a completion is exactly a solved Sudoku that keeps them, and
    the least completion is unique. */
module Sudoku {
  import opened Grid
  import opened Legality
  import opened Search

  /** A solved Sudoku: full, digits only, no digit repeated in a row, a column
      or a box. */
  ghost predicate Solution(g: Board)
    requires g.Valid()
  {
    Full(g) && Consistent(g)
  }

  /** `g` keeps every non-zero cell of `b`. */
  ghost predicate KeepsClues(b: Board, g: Board)
    requires b.Valid() && g.Valid()
  {
    forall r, c :: InRange(r, c) && b.data[r][c] != 0 ==> g.data[r][c] == b.data[r][c]
  }

  /** From a consistent start, every completion is a solved Sudoku that keeps
      the clues: the placements never break the rules of the puzzle. */
  lemma CompletionIsSolution(b: Board, g: Board)
    requires b.Valid() && Consistent(b) && IsCompletion(b, g)
    ensures Solution(g) && KeepsClues(b, g)
  {
    forall r, c | InRange(r, c) && b.data[r][c] != 0
      ensures NoConflict(g, r, c)
    {
      forall r2, c2 | InRange(r2, c2) && Peer(r, c, r2, c2)
        ensures g.data[r2][c2] != g.data[r][c]
      {
        assert NoConflict(b, r, c);
        if b.data[r2][c2] == 0 {
          assert NoConflict(g, r2, c2);
          assert Peer(r2, c2, r, c);
        }
      }
    }
  }

  /** Conversely, a solved Sudoku that keeps the clues of `b` completes `b`. */
  lemma SolutionIsCompletion(b: Board, g: Board)
    requires b.Valid() && g.Valid() && Solution(g) && KeepsClues(b, g)
    ensures IsCompletion(b, g)
  {
  }

  /** A board that comes strictly first at some cell, agreeing before it,
      does not also come after. */
  lemma LexLessNotReversed(x: Board, y: Board, r: int, c: int)
    requires x.Valid() && y.Valid()
    requires InRange(r, c) && x.data[r][c] < y.data[r][c] && SamePrefix(x, y, r, c)
    ensures !LexLeq(y, x)
  {
    forall r', c' | InRange(r', c') && SamePrefix(y, x, r', c')
      ensures y.data[r'][c'] >= x.data[r'][c']
    {
      if Before(r', c', r, c) {
        assert x.data[r'][c'] == y.data[r'][c'];
      }
    }
  }

  /** Row-major lexicographic order is antisymmetric. */
  lemma LexLeqAntisymmetric(x: Board, y: Board)
    requires x.Valid() && y.Valid()
    ensures LexLeq(x, y) && LexLeq(y, x) ==> x == y
  {
    forall r, c | InRange(r, c) && x.data[r][c] < y.data[r][c] && SamePrefix(x, y, r, c)
      ensures !LexLeq(y, x)
    {
      LexLessNotReversed(x, y, r, c);
    }
  }

  /** The search is deterministic in what it promises: two boards that are
      both least completions of the same start board are equal. */
  lemma LeastCompletionUnique(b: Board, x: Board, y: Board)
    requires IsCompletion(b, x) && (forall g :: IsCompletion(b, g) ==> LexLeq(x, g))
    requires IsCompletion(b, y) && (forall g :: IsCompletion(b, g) ==> LexLeq(y, g))
    ensures x == y
  {
    LexLeqAntisymmetric(x, y);
  }

  /** The board with every cell 1. */
  function AllOnes(): (b: Board)
    ensures b.Valid()
  {
    Board(seq(9, _ => seq<u8>(9, _ => 1)))
  }

  /** Clues are never checked: a full board repeating one digit everywhere is
      its own completion, so the search reports success on it. */
  lemma ClashingFullBoardCompletable()
    ensures Full(AllOnes()) && !Consistent(AllOnes())
    ensures Completable(AllOnes())
  {
    var b := AllOnes();
    assert b.data[0][0] == 1 && b.data[0][1] == 1 && Peer(0, 0, 0, 1);
    FullOnlyCompletion(b);
  }

  /** Clues are never checked: a board whose clues repeat a digit in a row,
      with one cell left empty, still has a completion (a 2 in the empty
      cell), so the search succeeds on it. */
  lemma ClashingCluesCompletable()
    ensures !Consistent(SetNum(AllOnes(), 0, 0, 0))
    ensures IsCompletion(SetNum(AllOnes(), 0, 0, 0), SetNum(AllOnes(), 0, 0, 2))
  {
    var b := SetNum(AllOnes(), 0, 0, 0);
    var g := SetNum(AllOnes(), 0, 0, 2);
    assert b.data[0][1] == 1 && b.data[0][2] == 1 && Peer(0, 1, 0, 2);
    assert NoConflict(g, 0, 0) by {
      forall r, c | InRange(r, c) && Peer(0, 0, r, c)
        ensures g.data[r][c] != g.data[0][0]
      {
        assert g.data[r][c] == 1;
      }
    }
  }

  /** Row `r` of a board holds digit `d` somewhere. */
  ghost predicate RowHas(g: Board, r: int, d: int)
    requires g.Valid()
  {
    exists c :: 0 <= c < 9 && 0 <= r < 9 && g.data[r][c] == d
  }

  /** Column `c` of a board holds digit `d` somewhere. */
  ghost predicate ColHas(g: Board, c: int, d: int)
    requires g.Valid()
  {
    exists r :: 0 <= r < 9 && 0 <= c < 9 && g.data[r][c] == d
  }

  /** Box (br, bc), counted in boxes from the top left, holds digit `d` somewhere. */
  ghost predicate BoxHas(g: Board, br: int, bc: int, d: int)
    requires g.Valid()
  {
    exists r, c :: InRange(r, c) && r / 3 == br && c / 3 == bc && g.data[r][c] == d
  }

  /** `s` holds no value twice. */
  ghost predicate Distinct(s: seq<int>) {
    forall i, j :: 0 <= i < j < |s| ==> s[i] != s[j]
  }

  /** Pairwise different values drawn from `t` number at most `|t|`. */
  lemma {:induction false} Pigeonhole(s: seq<int>, t: set<int>)
    requires Distinct(s)
    requires forall i :: 0 <= i < |s| ==> s[i] in t
    ensures |s| <= |t|
    decreases |s|
  {
    if |s| > 0 {
      var n := |s| - 1;
      var rest := s[..n];
      assert forall i :: 0 <= i < n ==> rest[i] == s[i];
      Pigeonhole(rest, t - {s[n]});
    }
  }

  /** Nine pairwise different digits 1..9 include every digit. */
  lemma NineDistinctDigits(s: seq<int>)
    requires |s| == 9 && Distinct(s)
    requires forall i :: 0 <= i < 9 ==> 1 <= s[i] <= 9
    ensures forall d :: 1 <= d <= 9 ==> d in s
  {
    var digits: set<int> := {1, 2, 3, 4, 5, 6, 7, 8, 9};
    assert |digits| == 9;
    forall d | 1 <= d <= 9
      ensures d in s
    {
      if d !in s {
        Pigeonhole(s, digits - {d});
      }
    }
  }

  /** In a solved Sudoku every row holds each of the digits 1..9; having
      nine cells and no repeats, it holds each exactly once. */
  lemma SolutionRowHoldsEveryDigit(g: Board, r: int, d: int)
    requires g.Valid() && Solution(g) && 0 <= r < 9 && 1 <= d <= 9
    ensures RowHas(g, r, d)
    ensures forall c, c2 :: 0 <= c < c2 < 9 ==> g.data[r][c] != g.data[r][c2]
  {
    forall c, c2 | 0 <= c < c2 < 9
      ensures g.data[r][c] != g.data[r][c2]
    {
      assert NoConflict(g, r, c) && Peer(r, c, r, c2);
    }
    var s: seq<int> := g.data[r];
    assert Distinct(s) by {
      forall i, j | 0 <= i < j < 9
        ensures s[i] != s[j]
      {
        assert NoConflict(g, r, i) && Peer(r, i, r, j);
      }
    }
    NineDistinctDigits(s);
    assert d in s;
    var c :| 0 <= c < 9 && s[c] == d;
  }

  /** In a solved Sudoku every column holds each of the digits 1..9 exactly once. */
  lemma SolutionColHoldsEveryDigit(g: Board, c: int, d: int)
    requires g.Valid() && Solution(g) && 0 <= c < 9 && 1 <= d <= 9
    ensures ColHas(g, c, d)
    ensures forall r, r2 :: 0 <= r < r2 < 9 ==> g.data[r][c] != g.data[r2][c]
  {
    forall r, r2 | 0 <= r < r2 < 9
      ensures g.data[r][c] != g.data[r2][c]
    {
      assert NoConflict(g, r, c) && Peer(r, c, r2, c);
    }
    var s: seq<int> := seq(9, i requires 0 <= i < 9 => g.data[i][c]);
    assert Distinct(s) by {
      forall i, j | 0 <= i < j < 9
        ensures s[i] != s[j]
      {
        assert NoConflict(g, i, c) && Peer(i, c, j, c);
      }
    }
    NineDistinctDigits(s);
    assert d in s;
    var r :| 0 <= r < 9 && s[r] == d;
  }

  /** No two cells of one box of a solved Sudoku hold the same digit. */
  lemma BoxNoRepeat(g: Board, br: int, bc: int)
    requires g.Valid() && Solution(g)
    ensures forall r, c, r2, c2 ::
      && InRange(r, c) && r / 3 == br && c / 3 == bc
      && InRange(r2, c2) && r2 / 3 == br && c2 / 3 == bc
      && (r != r2 || c != c2)
      ==> g.data[r][c] != g.data[r2][c2]
  {
    forall r, c, r2, c2 |
      && InRange(r, c) && r / 3 == br && c / 3 == bc
      && InRange(r2, c2) && r2 / 3 == br && c2 / 3 == bc
      && (r != r2 || c != c2)
      ensures g.data[r][c] != g.data[r2][c2]
    {
      assert NoConflict(g, r, c) && Peer(r, c, r2, c2);
    }
  }

  /** In a solved Sudoku every 3x3 box holds each of the digits 1..9 exactly once. */
  lemma SolutionBoxHoldsEveryDigit(g: Board, br: int, bc: int, d: int)
    requires g.Valid() && Solution(g) && 0 <= br < 3 && 0 <= bc < 3 && 1 <= d <= 9
    ensures BoxHas(g, br, bc, d)
    ensures forall r, c, r2, c2 ::
      && InRange(r, c) && r / 3 == br && c / 3 == bc
      && InRange(r2, c2) && r2 / 3 == br && c2 / 3 == bc
      && (r != r2 || c != c2)
      ==> g.data[r][c] != g.data[r2][c2]
  {
    BoxNoRepeat(g, br, bc);
    var s: seq<int> := seq(9, k requires 0 <= k < 9 => g.data[3 * br + k / 3][3 * bc + k % 3]);
    assert Distinct(s) by {
      forall i, j | 0 <= i < j < 9
        ensures s[i] != s[j]
      {
        var r, c, r2, c2 := 3 * br + i / 3, 3 * bc + i % 3, 3 * br + j / 3, 3 * bc + j % 3;
        assert r / 3 == br && c / 3 == bc && r2 / 3 == br && c2 / 3 == bc;
        assert r != r2 || c != c2;
        assert NoConflict(g, r, c) && Peer(r, c, r2, c2);
      }
    }
    NineDistinctDigits(s);
    assert d in s;
    var k :| 0 <= k < 9 && s[k] == d;
    var r, c := 3 * br + k / 3, 3 * bc + k % 3;
    assert InRange(r, c) && r / 3 == br && c / 3 == bc && g.data[r][c] == d;
  }

  /** A fixed solved Sudoku: row r is the digits shifted by 3 * (r % 3) + r / 3. */
  function Pattern(r: int, c: int): u8
    requires InRange(r, c)
  {
    (3 * (r % 3) + r / 3 + c) % 9 + 1
  }

  function PatternBoard(): (g: Board)
    ensures g.Valid()
  {
    Board(seq(9, r requires 0 <= r < 9 => seq<u8>(9, c requires 0 <= c < 9 => Pattern(r, c))))
  }

  lemma Mod9Injective(u: int, v: int)
    requires 0 <= u <= 16 && 0 <= v <= 16 && u != v && u != v + 9 && v != u + 9
    ensures u % 9 != v % 9
  {
  }

  /** Peers of the pattern never hold the same digit. */
  lemma PatternDistinct(r: int, c: int, r2: int, c2: int)
    requires InRange(r, c) && InRange(r2, c2) && Peer(r, c, r2, c2)
    ensures Pattern(r, c) != Pattern(r2, c2)
  {
    var a, b, a2, b2 := r / 3, r % 3, r2 / 3, r2 % 3;
    assert r == 3 * a + b && r2 == 3 * a2 + b2;
    assert 0 <= a < 3 && 0 <= a2 < 3;
    var d, d2 := c % 3, c2 % 3;
    assert c == 3 * (c / 3) + d && c2 == 3 * (c2 / 3) + d2;
    Mod9Injective(3 * b + a + c, 3 * b2 + a2 + c2);
  }

  /** The empty board, and so the board built from 81 zeros, has a completion,
      and every completion of it is a solved Sudoku: solving it succeeds with
      a valid full grid. */
  lemma EmptyBoardSolvable()
    ensures FromFlat(Zeros(81)) == Empty()
    ensures Completable(Empty()) && Consistent(Empty())
  {
    var z := FromFlat(Zeros(81));
    forall r | 0 <= r < 9
      ensures z.data[r] == Empty().data[r]
    {
      assert z.data[r] == FlatRow(Zeros(81), r);
      forall c | 0 <= c < 9
        ensures FlatRow(Zeros(81), r)[c] == 0
      {
        assert FlatRow(Zeros(81), r)[c] == At(Zeros(81), 9 * r + c);
      }
    }
    var g := PatternBoard();
    forall r, c | InRange(r, c)
      ensures 1 <= g.data[r][c] <= 9 && NoConflict(g, r, c)
    {
      forall r2, c2 | InRange(r2, c2) && Peer(r, c, r2, c2)
        ensures g.data[r2][c2] != g.data[r][c]
      {
        PatternDistinct(r, c, r2, c2);
      }
    }
    assert IsCompletion(Empty(), g);
  }
}
