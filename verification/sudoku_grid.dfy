/*
 * The Sudoku grid shared by the generator (sudoku.js) and the solver
 * (sudoku-solver.js).
 *
 * The source keeps a 9x9 array of cells; the model flattens it row-major into
 * 81 values (cell (r, c) at index 9*r + c), which is also how fillBoard
 * already walks the grid (`pos`, `r = pos / 9`, `c = pos % 9`).  A value of 0
 * is an empty cell and 1..9 are digits.
 */
module SudokuGrid {

  predicate InRange(r: int, c: int) {
    0 <= r < 9 && 0 <= c < 9
  }

  /** The value of cell (r, c) of a flattened grid. */
  function At(g: seq<int>, r: int, c: int): int
    requires |g| == 81 && InRange(r, c)
  {
    g[9 * r + c]
  }

  /** Two cells share a row, a column or a 3x3 box (a cell is its own peer). */
  predicate Peer(r1: int, c1: int, r2: int, c2: int) {
    r1 == r2 || c1 == c2 || (r1 / 3 == r2 / 3 && c1 / 3 == c2 / 3)
  }

  /**
   * `n` occurs nowhere in the row, the column or the box of (r, c), the
   * cell itself included: the predicate computed both by isSafe and by
   * isValid in sudoku.js.
   */
  predicate Safe(g: seq<int>, r: int, c: int, n: int)
    requires |g| == 81 && InRange(r, c)
  {
    forall r2, c2 | 0 <= r2 < 9 && 0 <= c2 < 9 :: Peer(r, c, r2, c2) ==> At(g, r2, c2) != n
  }

  /** No digit occurs twice in any row, column or box. */
  predicate Consistent(g: seq<int>)
    requires |g| == 81
  {
    forall r1, c1, r2, c2 | 0 <= r1 < 9 && 0 <= c1 < 9 && 0 <= r2 < 9 && 0 <= c2 < 9 ::
      (r1 != r2 || c1 != c2) && Peer(r1, c1, r2, c2) && At(g, r1, c1) != 0
      ==> At(g, r1, c1) != At(g, r2, c2)
  }

  /** Every cell holds a non-zero value. */
  predicate Complete(g: seq<int>) {
    forall p :: 0 <= p < |g| ==> g[p] != 0
  }

  /** Every cell holds 0 or a digit 1..9. */
  predicate Digits(g: seq<int>) {
    forall p :: 0 <= p < |g| ==> 0 <= g[p] <= 9
  }

  /** The number of empty cells. */
  function Empties(g: seq<int>): (n: nat)
    ensures n <= |g|
  {
    if |g| == 0 then 0
    else (if g[0] == 0 then 1 else 0) + Empties(g[1..])
  }

  /** A grid has no empty cell exactly when it is Complete. */
  lemma {:induction false} EmptiesZero(g: seq<int>)
    ensures Empties(g) == 0 <==> Complete(g)
  {
    if |g| > 0 {
      EmptiesZero(g[1..]);
      if Complete(g) {
        assert Complete(g[1..]) by {
          forall p | 0 <= p < |g| - 1 ensures g[1..][p] != 0 {
            assert g[1..][p] == g[p + 1];
          }
        }
      }
      if Empties(g) == 0 {
        forall p | 0 <= p < |g| ensures g[p] != 0 {
          if p > 0 {
            assert g[p] == g[1..][p - 1];
          }
        }
      }
    }
  }

  lemma IdxInjective(r1: int, c1: int, r2: int, c2: int)
    requires InRange(r1, c1) && InRange(r2, c2)
    ensures 9 * r1 + c1 == 9 * r2 + c2 <==> r1 == r2 && c1 == c2
  {
  }

  lemma IdxSplit(p: int)
    requires 0 <= p < 81
    ensures InRange(p / 9, p % 9) && 9 * (p / 9) + p % 9 == p
  {
  }

  /**
   * Filling an empty cell with a digit that is Safe there keeps the grid
   * Consistent: the invariant behind fillBoard.
   */
  lemma {:induction false} PlaceKeepsConsistent(g: seq<int>, r: int, c: int, n: int)
    requires |g| == 81 && InRange(r, c) && Consistent(g)
    requires Safe(g, r, c, n)
    ensures Consistent(g[9 * r + c := n])
  {
    var h := g[9 * r + c := n];
    forall r1, c1, r2, c2 |
      InRange(r1, c1) && InRange(r2, c2) && (r1 != r2 || c1 != c2) &&
      Peer(r1, c1, r2, c2) && At(h, r1, c1) != 0
      ensures At(h, r1, c1) != At(h, r2, c2)
    {
      IdxInjective(r1, c1, r, c);
      IdxInjective(r2, c2, r, c);
      if r1 == r && c1 == c {
        assert At(g, r2, c2) != n;
      } else if r2 == r && c2 == c {
        assert Peer(r, c, r1, c1);
        assert At(g, r1, c1) != n;
      } else {
        assert At(h, r1, c1) == At(g, r1, c1) && At(h, r2, c2) == At(g, r2, c2);
      }
    }
  }

  // ---------------------------------------------------------------------
  // Candidates of an empty cell (updateCandidates in both files)

  /** The digits 1..k that are Safe at (r, c), in ascending order. */
  function SafeDigitsUpTo(g: seq<int>, r: int, c: int, k: int): seq<int>
    requires |g| == 81 && InRange(r, c) && 0 <= k <= 9
  {
    if k == 0 then []
    else SafeDigitsUpTo(g, r, c, k - 1) + (if Safe(g, r, c, k) then [k] else [])
  }

  /** The candidate list updateCandidates computes for an empty cell. */
  function CandidatesOf(g: seq<int>, r: int, c: int): seq<int>
    requires |g| == 81 && InRange(r, c)
  {
    SafeDigitsUpTo(g, r, c, 9)
  }

  predicate StrictlyIncreasing(s: seq<int>) {
    forall i, j :: 0 <= i < j < |s| ==> s[i] < s[j]
  }

  lemma {:induction false} SafeDigitsUpToSpec(g: seq<int>, r: int, c: int, k: int)
    requires |g| == 81 && InRange(r, c) && 0 <= k <= 9
    ensures forall n :: n in SafeDigitsUpTo(g, r, c, k) <==> 1 <= n <= k && Safe(g, r, c, n)
    ensures StrictlyIncreasing(SafeDigitsUpTo(g, r, c, k))
    ensures forall i :: 0 <= i < |SafeDigitsUpTo(g, r, c, k)| ==> 1 <= SafeDigitsUpTo(g, r, c, k)[i] <= k
  {
    if k > 0 {
      SafeDigitsUpToSpec(g, r, c, k - 1);
    }
  }

  /**
   * A digit is a candidate of (r, c) exactly when it is 1..9 and Safe there,
   * and the candidate list is strictly ascending.
   */
  lemma CandidatesOfSpec(g: seq<int>, r: int, c: int)
    requires |g| == 81 && InRange(r, c)
    ensures forall n :: n in CandidatesOf(g, r, c) <==> 1 <= n <= 9 && Safe(g, r, c, n)
    ensures StrictlyIncreasing(CandidatesOf(g, r, c))
    ensures forall i :: 0 <= i < |CandidatesOf(g, r, c)| ==> 1 <= CandidatesOf(g, r, c)[i] <= 9
  {
    SafeDigitsUpToSpec(g, r, c, 9);
  }

  // ---------------------------------------------------------------------
  // The two safety checks of sudoku.js

  /** isSafe (inside generateFullBoard): row and column scan, then the box. */
  method IsSafe(g: array<int>, r: int, c: int, num: int) returns (b: bool)
    requires g.Length == 81 && InRange(r, c)
    ensures b == Safe(g[..], r, c, num)
  {
    for i := 0 to 9
      invariant forall j :: 0 <= j < i ==> At(g[..], r, j) != num && At(g[..], j, c) != num
    {
      if g[9 * r + i] == num {
        assert At(g[..], r, i) == num && Peer(r, c, r, i);
        return false;
      }
      if g[9 * i + c] == num {
        assert At(g[..], i, c) == num && Peer(r, c, i, c);
        return false;
      }
    }
    var boxRow := (r / 3) * 3;
    var boxCol := (c / 3) * 3;
    for rr := boxRow to boxRow + 3
      invariant forall r2, c2 :: boxRow <= r2 < rr && boxCol <= c2 < boxCol + 3 ==> At(g[..], r2, c2) != num
    {
      for cc := boxCol to boxCol + 3
        invariant forall r2, c2 :: boxRow <= r2 < rr && boxCol <= c2 < boxCol + 3 ==> At(g[..], r2, c2) != num
        invariant forall c2 :: boxCol <= c2 < cc ==> At(g[..], rr, c2) != num
      {
        if g[9 * rr + cc] == num {
          assert At(g[..], rr, cc) == num && Peer(r, c, rr, cc);
          return false;
        }
      }
    }
    return true;
  }

  /**
   * isValid (used by countSolutions): one loop that checks, for i in 0..8,
   * the i-th cell of the row, of the column and of the box.
   */
  method IsValid(g: array<int>, row: int, col: int, val: int) returns (b: bool)
    requires g.Length == 81 && InRange(row, col)
    ensures b == Safe(g[..], row, col, val)
  {
    var br := 3 * (row / 3);
    var bc := 3 * (col / 3);
    for i := 0 to 9
      invariant forall j :: 0 <= j < i ==> At(g[..], row, j) != val && At(g[..], j, col) != val
      invariant forall r2, c2 :: br <= r2 < br + 3 && bc <= c2 < bc + 3 && 3 * (r2 - br) + (c2 - bc) < i ==> At(g[..], r2, c2) != val
    {
      if g[9 * row + i] == val || g[9 * i + col] == val {
        assert At(g[..], row, i) == val || At(g[..], i, col) == val;
        assert Peer(row, col, row, i) && Peer(row, col, i, col);
        return false;
      }
      var boxRow := br + i / 3;
      var boxCol := bc + i % 3;
      BoxOffset(i);
      if g[9 * boxRow + boxCol] == val {
        SameBox(row, boxRow);
        SameBox(col, boxCol);
        assert At(g[..], boxRow, boxCol) == val && Peer(row, col, boxRow, boxCol);
        return false;
      }
      BoxScanStep(g[..], br, bc, i, val);
    }
    SafeFromScans(g[..], row, col, val);
    return true;
  }

  /** isValid's box scan, one cell further: the i-th cell of the box, row by row. */
  lemma BoxScanStep(g: seq<int>, br: int, bc: int, i: int, val: int)
    requires |g| == 81 && 0 <= br <= 6 && 0 <= bc <= 6 && 0 <= i < 9
    requires forall r2, c2 :: br <= r2 < br + 3 && bc <= c2 < bc + 3 && 3 * (r2 - br) + (c2 - bc) < i ==> At(g, r2, c2) != val
    requires At(g, br + i / 3, bc + i % 3) != val
    ensures forall r2, c2 :: br <= r2 < br + 3 && bc <= c2 < bc + 3 && 3 * (r2 - br) + (c2 - bc) < i + 1 ==> At(g, r2, c2) != val
  {
    BoxOffset(i);
    forall r2, c2 | br <= r2 < br + 3 && bc <= c2 < bc + 3 && 3 * (r2 - br) + (c2 - bc) < i + 1
      ensures At(g, r2, c2) != val
    {
      if 3 * (r2 - br) + (c2 - bc) == i {
        assert r2 == br + i / 3 && c2 == bc + i % 3;
      }
    }
  }

  /** Two coordinates lie in the same band of three. */
  lemma SameBox(x: int, y: int)
    requires 0 <= x < 9 && 0 <= y < 9
    ensures x / 3 == y / 3 <==> 3 * (x / 3) <= y < 3 * (x / 3) + 3
  {
  }

  /** Scanning the row, the column and the 3x3 box of (r, c) is enough for Safe. */
  lemma SafeFromScans(g: seq<int>, r: int, c: int, n: int)
    requires |g| == 81 && InRange(r, c)
    requires forall j :: 0 <= j < 9 ==> At(g, r, j) != n && At(g, j, c) != n
    requires forall r2, c2 :: 3 * (r / 3) <= r2 < 3 * (r / 3) + 3 && 3 * (c / 3) <= c2 < 3 * (c / 3) + 3 ==> At(g, r2, c2) != n
    ensures Safe(g, r, c, n)
  {
    forall r2, c2 | InRange(r2, c2) && Peer(r, c, r2, c2)
      ensures At(g, r2, c2) != n
    {
      if r2 != r && c2 != c {
        SameBox(r, r2);
        SameBox(c, c2);
      }
    }
  }

  /** The i-th cell of a box is at offset (i / 3, i % 3) from its corner. */
  lemma BoxOffset(i: int)
    requires 0 <= i < 9
    ensures 0 <= i / 3 < 3 && 0 <= i % 3 < 3 && 3 * (i / 3) + i % 3 == i
  {
  }

  // ---------------------------------------------------------------------
  // Counting completions (countSolutions)

  /**
   * The number of ways the backtracking of countSolutions can fill the
   * empty cells from `pos` on, placing at each empty cell, in row-major
   * order, a digit that is Safe at that moment.
   */
  ghost function NumFills(g: seq<int>, pos: int): nat
    requires |g| == 81 && 0 <= pos <= 81
    decreases 81 - pos, 11
  {
    if pos == 81 then 1
    else if g[pos] != 0 then NumFills(g, pos + 1)
    else SumFills(g, pos, 1)
  }

  /** Sum of NumFills over the Safe digits k..9 placed at `pos`. */
  ghost function SumFills(g: seq<int>, pos: int, k: int): nat
    requires |g| == 81 && 0 <= pos < 81 && 1 <= k <= 10
    decreases 81 - pos, 10 - k
  {
    if k == 10 then 0
    else
      (if Safe(g, pos / 9, pos % 9, k) then NumFills(g[pos := k], pos + 1) else 0)
      + SumFills(g, pos, k + 1)
  }

  /** A complete grid has exactly one completion: itself. */
  lemma {:induction false} NumFillsComplete(g: seq<int>, pos: int)
    requires |g| == 81 && 0 <= pos <= 81 && Complete(g)
    ensures NumFills(g, pos) == 1
    decreases 81 - pos
  {
    if pos < 81 {
      NumFillsComplete(g, pos + 1);
    }
  }

  // ---------------------------------------------------------------------
  // What the count counts

  /** A solved Sudoku: every cell holds a digit 1..9 and no unit repeats one. */
  predicate Solution(s: seq<int>) {
    |s| == 81 && Complete(s) && Digits(s) && Consistent(s)
  }

  /** Every filled cell of `g` holds the value `s` has there. */
  predicate Agrees(g: seq<int>, s: seq<int>) {
    |g| == 81 && |s| == 81 && forall p :: 0 <= p < 81 ==> g[p] == 0 || g[p] == s[p]
  }

  /** At an empty cell of a grid that agrees with a solution, the solution's digit is Safe. */
  lemma SolutionDigitSafe(g: seq<int>, s: seq<int>, pos: int)
    requires Solution(s) && Agrees(g, s) && 0 <= pos < 81 && g[pos] == 0
    ensures 1 <= s[pos] <= 9 && Safe(g, pos / 9, pos % 9, s[pos])
    ensures Agrees(g[pos := s[pos]], s)
  {
    var r, c := pos / 9, pos % 9;
    IdxSplit(pos);
    forall r2, c2 | 0 <= r2 < 9 && 0 <= c2 < 9 && Peer(r, c, r2, c2)
      ensures At(g, r2, c2) != s[pos]
    {
      if r2 == r && c2 == c {
        assert At(g, r2, c2) == g[pos] == 0;
      } else if At(g, r2, c2) != 0 {
        IdxInjective(r, c, r2, c2);
        assert At(s, r, c) == s[pos] && At(g, r2, c2) == At(s, r2, c2);
      }
    }
  }

  /** The sum over the digits from k on counts at least the completions after a Safe digit d >= k. */
  lemma {:induction false} SumFillsAtLeast(g: seq<int>, pos: int, k: int, d: int)
    requires |g| == 81 && 0 <= pos < 81 && 1 <= k <= d <= 9 && Safe(g, pos / 9, pos % 9, d)
    ensures SumFills(g, pos, k) >= NumFills(g[pos := d], pos + 1)
    decreases d - k
  {
    if k < d {
      SumFillsAtLeast(g, pos, k + 1, d);
    }
  }

  /** ... and at least both counts for two different Safe digits. */
  lemma {:induction false} SumFillsAtLeastTwo(g: seq<int>, pos: int, k: int, d1: int, d2: int)
    requires |g| == 81 && 0 <= pos < 81 && 1 <= k <= d1 < d2 <= 9
    requires Safe(g, pos / 9, pos % 9, d1) && Safe(g, pos / 9, pos % 9, d2)
    ensures SumFills(g, pos, k) >= NumFills(g[pos := d1], pos + 1) + NumFills(g[pos := d2], pos + 1)
    decreases d1 - k
  {
    if k < d1 {
      SumFillsAtLeastTwo(g, pos, k + 1, d1, d2);
    } else {
      SumFillsAtLeast(g, pos, k + 1, d2);
    }
  }

  /** Every solution that agrees with `g` is one of the completions counted. */
  lemma {:induction false} SolutionCounted(g: seq<int>, s: seq<int>, pos: int)
    requires Solution(s) && Agrees(g, s) && 0 <= pos <= 81
    ensures NumFills(g, pos) >= 1
    decreases 81 - pos
  {
    if pos < 81 {
      if g[pos] != 0 {
        SolutionCounted(g, s, pos + 1);
      } else {
        SolutionDigitSafe(g, s, pos);
        SolutionCounted(g[pos := s[pos]], s, pos + 1);
        SumFillsAtLeast(g, pos, 1, s[pos]);
      }
    }
  }

  /** Two solutions that agree with `g` but differ from `pos` on are counted twice. */
  lemma {:induction false} TwoSolutionsCounted(g: seq<int>, s1: seq<int>, s2: seq<int>, pos: int)
    requires Solution(s1) && Solution(s2) && Agrees(g, s1) && Agrees(g, s2) && 0 <= pos <= 81
    requires exists q :: pos <= q < 81 && s1[q] != s2[q]
    ensures NumFills(g, pos) >= 2
    decreases 81 - pos
  {
    var q :| pos <= q < 81 && s1[q] != s2[q];
    if g[pos] != 0 {
      assert q != pos;
      TwoSolutionsCounted(g, s1, s2, pos + 1);
    } else if s1[pos] == s2[pos] {
      assert q != pos;
      SolutionDigitSafe(g, s1, pos);
      SolutionDigitSafe(g, s2, pos);
      TwoSolutionsCounted(g[pos := s1[pos]], s1, s2, pos + 1);
      SumFillsAtLeast(g, pos, 1, s1[pos]);
    } else {
      SolutionDigitSafe(g, s1, pos);
      SolutionDigitSafe(g, s2, pos);
      SolutionCounted(g[pos := s1[pos]], s1, pos + 1);
      SolutionCounted(g[pos := s2[pos]], s2, pos + 1);
      if s1[pos] < s2[pos] {
        SumFillsAtLeastTwo(g, pos, 1, s1[pos], s2[pos]);
      } else {
        SumFillsAtLeastTwo(g, pos, 1, s2[pos], s1[pos]);
      }
    }
  }

  /**
   * A grid whose count is 1 has exactly one solution agreeing with it: the
   * uniqueness countSolutions(board, 2) === 1 is meant to establish.
   */
  lemma UniqueCompletion(g: seq<int>, s1: seq<int>, s2: seq<int>)
    requires Solution(s1) && Solution(s2) && Agrees(g, s1) && Agrees(g, s2)
    requires NumFills(g, 0) == 1
    ensures s1 == s2
  {
    if s1 != s2 {
      var q :| 0 <= q < 81 && s1[q] != s2[q];
      TwoSolutionsCounted(g, s1, s2, 0);
    }
  }
}
