/*
 * The Sudoku game page (puzzle-hub/public/sudoku/sudoku.js): a random full
 * grid by backtracking (fillBoard), a bounded solution counter
 * (countSolutions) and a generator that clears cells one at a time in a
 * random order, keeping a clearing only while the puzzle still has exactly
 * one solution; then the player's keys and the win check.
 *
 * The page state is one object: the cell values (row-major, cell (r, c) at
 * 9*r + c), the `given` flags, the `solution` snapshot, the selected cell
 * and `finished`.  The cells' candidate lists only matter to the solver
 * passes of sudoku.js, which are modelled on their own arrays (modules
 * SudokuPasses, SudokuHidden and SudokuLocked).
 */
module SudokuGame {
  import opened Common
  import opened SudokuGrid
  import opened SudokuPasses

  function Min(a: int, b: int): int { if a < b then a else b }
  function Max(a: int, b: int): int { if a < b then b else a }

  /** The nine digits in order, `[...Array(9).keys()].map(x => x + 1)`. */
  function Digits19(): (s: seq<int>)
    ensures |s| == 9 && forall k :: k in s <==> 1 <= k <= 9
  {
    [1, 2, 3, 4, 5, 6, 7, 8, 9]
  }

  /** SumFills is 0 when no Safe digit from k on leads to a completion. */
  lemma {:induction false} SumFillsZero(g: seq<int>, pos: int, k: int)
    requires |g| == 81 && 0 <= pos < 81 && 1 <= k <= 10
    requires forall d :: k <= d <= 9 && Safe(g, pos / 9, pos % 9, d) ==> NumFills(g[pos := d], pos + 1) == 0
    ensures SumFills(g, pos, k) == 0
    decreases 10 - k
  {
    if k < 10 {
      SumFillsZero(g, pos, k + 1);
    }
  }

  /** The digits 1..9 in a shuffled order, as fillBoard tries them. */
  method ShuffledDigits(rng: Random) returns (nums: array<int>)
    modifies rng
    ensures fresh(nums) && nums.Length == 9 && multiset(nums[..]) == multiset(Digits19())
  {
    nums := new int[9](i => i + 1);
    assert nums[..] == Digits19();
    Shuffle(nums, rng);
  }

  /** A rearrangement of 1..9 holds nine digits 1..9. */
  lemma ShuffledInRange(order: seq<int>)
    requires multiset(order) == multiset(Digits19())
    ensures |order| == 9 && forall j | 0 <= j < |order| :: 1 <= order[j] <= 9
  {
    assert |order| == |multiset(order)| == |Digits19()|;
    forall j | 0 <= j < |order|
      ensures 1 <= order[j] <= 9
    {
      assert order[j] in multiset(Digits19());
    }
  }

  /** The first `i` digits of `order` are dead ends at `pos`. */
  ghost predicate DeadPrefix(g: seq<int>, pos: int, order: seq<int>, i: int)
    requires |g| == 81 && 0 <= pos < 81 && 0 <= i <= |order|
  {
    forall j :: 0 <= j < i ==> DeadEnd(g, pos, order[j])
  }

  lemma DeadPrefixStep(g: seq<int>, pos: int, order: seq<int>, i: int)
    requires |g| == 81 && 0 <= pos < 81 && 0 <= i < |order|
    requires DeadPrefix(g, pos, order, i) && DeadEnd(g, pos, order[i])
    ensures DeadPrefix(g, pos, order, i + 1)
  {
  }

  /** When every digit of a shuffled 1..9 is a dead end at the empty cell `pos`, nothing completes `g` from there. */
  lemma NoDigitCompletes(g: seq<int>, pos: int, order: seq<int>)
    requires |g| == 81 && 0 <= pos < 81 && g[pos] == 0
    requires multiset(order) == multiset(Digits19())
    requires DeadPrefix(g, pos, order, |order|)
    ensures NumFills(g, pos) == 0
  {
    forall d | 1 <= d <= 9 && Safe(g, pos / 9, pos % 9, d)
      ensures NumFills(g[pos := d], pos + 1) == 0
    {
      assert d in multiset(order);
      var j :| 0 <= j < |order| && order[j] == d;
      assert DeadEnd(g, pos, order[j]);
    }
    SumFillsZero(g, pos, 1);
  }

  /**
   * `v` completes `v0` from `pos` on: only empty cells were filled, the
   * cells before `pos` are untouched, every cell from `pos` on is filled,
   * and a consistent `v0` of digits gives a consistent `v` of digits.
   */
  ghost predicate CompletesFrom(v0: seq<int>, v: seq<int>, pos: int)
    requires |v0| == 81 && 0 <= pos <= 81
  {
    Fills(v0, v) && v[..pos] == v0[..pos] && (forall p :: pos <= p < 81 ==> v[p] != 0) &&
    (Consistent(v0) ==> Consistent(v)) && (Digits(v0) ==> Digits(v))
  }

  /** Digit `d` placed at the empty cell `pos` of `g` leads to no completion, or is not Safe there. */
  ghost predicate DeadEnd(g: seq<int>, pos: int, d: int)
    requires |g| == 81 && 0 <= pos < 81
  {
    Safe(g, pos / 9, pos % 9, d) ==> NumFills(g[pos := d], pos + 1) == 0
  }

  lemma CompletesFromEnd(v: seq<int>)
    requires |v| == 81
    ensures CompletesFrom(v, v, 81)
  {
  }

  /** A filled cell at `pos` adds nothing to complete. */
  lemma CompletesFromFilled(v0: seq<int>, v: seq<int>, pos: int)
    requires |v0| == 81 && 0 <= pos < 81 && v0[pos] != 0
    requires CompletesFrom(v0, v, pos + 1)
    ensures CompletesFrom(v0, v, pos)
  {
    assert v[..pos] == v[..pos + 1][..pos] == v0[..pos + 1][..pos];
  }

  /** A Safe digit placed in the empty cell at `pos`, then the rest completed. */
  lemma CompletesFromPlace(v0: seq<int>, n: int, v: seq<int>, pos: int)
    requires |v0| == 81 && 0 <= pos < 81 && v0[pos] == 0 && 1 <= n <= 9
    requires Safe(v0, pos / 9, pos % 9, n)
    requires CompletesFrom(v0[pos := n], v, pos + 1)
    ensures CompletesFrom(v0, v, pos)
  {
    var v1 := v0[pos := n];
    IdxSplit(pos);
    assert At(v0, pos / 9, pos % 9) == 0 && Peer(pos / 9, pos % 9, pos / 9, pos % 9);
    assert v[..pos] == v[..pos + 1][..pos] == v1[..pos + 1][..pos] == v0[..pos];
    assert v[pos] == v[..pos + 1][pos] == v1[pos] == n;
    if Consistent(v0) {
      IdxSplit(pos);
      PlaceKeepsConsistent(v0, pos / 9, pos % 9, n);
      assert 9 * (pos / 9) + pos % 9 == pos;
    }
  }

  /** countSolutions: the number of completions, capped at `maxCount` (and at least at 1). */
  method CountSolutions(g: array<int>, maxCount: int) returns (count: int)
    requires g.Length == 81
    modifies g
    ensures count == Min(NumFills(old(g[..]), 0), Max(maxCount, 1))
    ensures count < Max(maxCount, 1) ==> g[..] == old(g[..])
  {
    var more;
    count, more := Backtrack(g, 0, 0, maxCount, 0);
  }

  /**
   * backtrack(r, c) with the running `count` passed in and out: counts the
   * completions of the cells from (r, c) on, stopping with `false` as soon
   * as the count reaches `maxCount`.  On a `true` return every cell it
   * wrote is back to 0; on a `false` return the board is left as it was
   * when the limit was reached.
   */
  method Backtrack(g: array<int>, r: int, c: int, maxCount: int, count0: int) returns (count: int, more: bool)
    requires g.Length == 81 && 0 <= r <= 9 && 0 <= c < 9 && (r == 9 ==> c == 0)
    requires 0 <= count0 < Max(maxCount, 1)
    modifies g
    ensures count == Min(count0 + NumFills(old(g[..]), 9 * r + c), Max(maxCount, 1))
    ensures more <==> count0 + NumFills(old(g[..]), 9 * r + c) < Max(maxCount, 1)
    ensures more ==> g[..] == old(g[..])
    decreases 81 - (9 * r + c), 2
  {
    if r == 9 {
      count := count0 + 1;
      return count, count < maxCount;
    }
    var pos := 9 * r + c;
    if g[pos] != 0 {
      var nr, nc := if c == 8 then r + 1 else r, if c == 8 then 0 else c + 1;
      assert 9 * nr + nc == pos + 1;
      count, more := Backtrack(g, nr, nc, maxCount, count0);
      return;
    }
    count, more := TryDigits(g, r, c, maxCount, count0);
  }

  /** backtrack's loop over the digits 1..9 at the empty cell (r, c). */
  method TryDigits(g: array<int>, r: int, c: int, maxCount: int, count0: int) returns (count: int, more: bool)
    requires g.Length == 81 && 0 <= r < 9 && 0 <= c < 9 && g[9 * r + c] == 0
    requires 0 <= count0 < Max(maxCount, 1)
    modifies g
    ensures count == Min(count0 + SumFills(old(g[..]), 9 * r + c, 1), Max(maxCount, 1))
    ensures more <==> count0 + SumFills(old(g[..]), 9 * r + c, 1) < Max(maxCount, 1)
    ensures more ==> g[..] == old(g[..])
    decreases 81 - (9 * r + c), 1
  {
    var pos := 9 * r + c;
    assert pos / 9 == r && pos % 9 == c;
    ghost var g0 := g[..];
    count := count0;
    for num := 1 to 10
      invariant g[..] == g0
      invariant count == count0 + SumFills(g0, pos, 1) - SumFills(g0, pos, num)
      invariant count0 <= count < Max(maxCount, 1)
    {
      assert SumFills(g0, pos, num) ==
        (if Safe(g0, r, c, num) then NumFills(g0[pos := num], pos + 1) else 0) + SumFills(g0, pos, num + 1);
      count, more := CountDigit(g, r, c, num, maxCount, count);
      if !more {
        return;
      }
    }
    more := true;
  }

  /** One pass of backtrack's loop: digit `num` at the empty cell (r, c), if isValid allows it. */
  method CountDigit(g: array<int>, r: int, c: int, num: int, maxCount: int, count0: int) returns (count: int, more: bool)
    requires g.Length == 81 && 0 <= r < 9 && 0 <= c < 9 && g[9 * r + c] == 0 && 1 <= num <= 9
    requires 0 <= count0 < Max(maxCount, 1)
    modifies g
    ensures var n := if Safe(old(g[..]), r, c, num) then NumFills(old(g[..])[9 * r + c := num], 9 * r + c + 1) else 0;
      count == Min(count0 + n, Max(maxCount, 1)) && (more <==> count0 + n < Max(maxCount, 1))
    ensures more ==> g[..] == old(g[..])
    decreases 81 - (9 * r + c), 0
  {
    var nr, nc := if c == 8 then r + 1 else r, if c == 8 then 0 else c + 1;
    var pos := 9 * r + c;
    assert 9 * nr + nc == pos + 1;
    ghost var g0 := g[..];
    var ok := IsValid(g, r, c, num);
    if !ok {
      return count0, true;
    }
    g[pos] := num;
    assert g[..] == g0[pos := num];
    count, more := Backtrack(g, nr, nc, maxCount, count0);
    if more {
      g[pos] := 0;
      assert g[..] == g0;
    }
  }



  class SudokuGame {
    var values: array<int>
    var given: array<bool>
    var solution: seq<int>
    var selected: Option<int>
    var finished: bool

    predicate Valid()
      reads this
    {
      values.Length == 81 && given.Length == 81 && (selected.Some? ==> 0 <= selected.value < 81)
    }

    /** The page right after createEmptyBoard. */
    constructor ()
      ensures Valid() && values[..] == seq(81, p => 0) && given[..] == seq(81, p => false)
      ensures selected == None && !finished
    {
      values := new int[81](p => 0);
      given := new bool[81](p => false);
      solution := [];
      selected := None;
      finished := false;
    }

    /** createEmptyBoard: fresh all-empty cells, no givens, nothing selected. */
    method CreateEmptyBoard()
      modifies this
      ensures Valid() && fresh(values) && fresh(given)
      ensures values[..] == seq(81, p => 0) && given[..] == seq(81, p => false)
      ensures selected == None && !finished && solution == old(solution)
    {
      values := new int[81](p => 0);
      given := new bool[81](p => false);
      selected := None;
      finished := false;
    }

    /**
     * fillBoard(pos): fill the empty cells from `pos` on, trying the nine
     * digits in a shuffled order at each.  On success every cell from `pos`
     * on is filled, no filled cell was changed, and a consistent grid stays
     * consistent; on failure nothing changed and no completion exists.
     */
    method FillBoard(pos: int, rng: Random) returns (ok: bool)
      requires Valid() && 0 <= pos <= 81
      modifies values, rng
      ensures Valid()
      ensures ok ==> CompletesFrom(old(values[..]), values[..], pos)
      ensures !ok ==> values[..] == old(values[..]) && NumFills(values[..], pos) == 0
      decreases 81 - pos, 3
    {
      if pos == 81 {
        CompletesFromEnd(values[..]);
        return true;
      }
      if values[pos] != 0 {
        ghost var g := values[..];
        ok := FillBoard(pos + 1, rng);
        if ok {
          CompletesFromFilled(g, values[..], pos);
        }
        return;
      }
      ok := FillEmpty(pos, rng);
    }

    /** fillBoard at an empty cell: the nine digits in a shuffled order, each tried in turn. */
    method FillEmpty(pos: int, rng: Random) returns (ok: bool)
      requires Valid() && 0 <= pos < 81 && values[pos] == 0
      modifies values, rng
      ensures Valid()
      ensures ok ==> CompletesFrom(old(values[..]), values[..], pos)
      ensures !ok ==> values[..] == old(values[..]) && NumFills(values[..], pos) == 0
      decreases 81 - pos, 2
    {
      var nums := ShuffledDigits(rng);
      ok := TryInOrder(pos, nums[..], rng);
    }

    /** fillBoard's loop at an empty cell over the digits of `order`, a rearrangement of 1..9. */
    method TryInOrder(pos: int, order: seq<int>, rng: Random) returns (ok: bool)
      requires Valid() && 0 <= pos < 81 && values[pos] == 0
      requires multiset(order) == multiset(Digits19())
      modifies values, rng
      ensures Valid()
      ensures ok ==> CompletesFrom(old(values[..]), values[..], pos)
      ensures !ok ==> values[..] == old(values[..]) && NumFills(values[..], pos) == 0
      decreases 81 - pos, 1
    {
      ghost var g := values[..];
      ShuffledInRange(order);
      for i := 0 to 9
        invariant values[..] == g && values[pos] == 0
        invariant DeadPrefix(g, pos, order, i)
      {
        ok := TryDigit(pos, order[i], rng);
        if ok {
          return;
        }
        DeadPrefixStep(g, pos, order, i);
      }
      assert g[pos] == 0;
      NoDigitCompletes(g, pos, order);
      return false;
    }

    /** One digit of fillBoard's loop: place it if isSafe allows, and fill the rest. */
    method TryDigit(pos: int, num: int, rng: Random) returns (ok: bool)
      requires Valid() && 0 <= pos < 81 && values[pos] == 0 && 1 <= num <= 9
      modifies values, rng
      ensures Valid()
      ensures ok ==> CompletesFrom(old(values[..]), values[..], pos)
      ensures !ok ==> values[..] == old(values[..]) && DeadEnd(values[..], pos, num)
      decreases 81 - pos, 0
    {
      ghost var g := values[..];
      IdxSplit(pos);
      var safe := IsSafe(values, pos / 9, pos % 9, num);
      if !safe {
        return false;
      }
      values[pos] := num;
      assert values[..] == g[pos := num];
      ok := FillBoard(pos + 1, rng);
      if ok {
        CompletesFromPlace(g, num, values[..], pos);
        return;
      }
      values[pos] := 0;
      assert values[..] == g;
    }

    /**
     * generateFullBoard: an empty board filled by fillBoard, copied into
     * `solution`.  Since a solved grid exists, fillBoard cannot fail on the
     * empty board, and the result is a solved grid.
     */
    method GenerateFullBoard(rng: Random)
      modifies this, rng
      ensures Valid() && fresh(values) && fresh(given) && !finished && selected == None
      ensures given[..] == seq(81, p => false) && solution == values[..]
      ensures Solution(solution)
    {
      CreateEmptyBoard();
      EmptyConsistent();
      var ok := FillBoard(0, rng);
      EmptyBoardCounted();
      solution := values[..];
    }

    /**
     * generatePuzzle: all cells given, then each cell, in a shuffled order
     * of all 81 positions, is cleared and kept cleared only when the board
     * then has exactly one completion (countSolutions on a copy returns 1).
     * Every value left is the solution's, the givens are exactly the
     * filled cells, the puzzle has exactly one completion, and `solution`
     * is the only solved grid that agrees with it.
     */
    method GeneratePuzzle(rng: Random)
      modifies this, rng
      ensures Valid() && fresh(values) && fresh(given) && !finished && selected == None
      ensures Solution(solution)
      ensures forall p :: 0 <= p < 81 ==> values[p] == 0 || values[p] == solution[p]
      ensures forall p :: 0 <= p < 81 ==> (given[p] <==> values[p] != 0)
      ensures NumFills(values[..], 0) == 1
      ensures forall s | Solution(s) && Agrees(values[..], s) :: s == solution
    {
      GenerateFullBoard(rng);
      MarkAllGiven();
      var positions := new int[81](i => i);
      assert positions[..] == Range(81);
      Shuffle(positions, rng);
      PermutationKeepsDistinct(positions[..], Range(81));
      ClearInOrder(positions[..]);
      OnlySolution(values[..], solution);
    }

    /** Every cell becomes a given. */
    method MarkAllGiven()
      requires Valid()
      modifies given
      ensures forall q :: 0 <= q < 81 ==> given[q]
    {
      for p := 0 to 81
        invariant forall q :: 0 <= q < p ==> given[q]
      {
        given[p] := true;
      }
    }

    /**
     * generatePuzzle's removal loop over a permutation of the 81 positions,
     * starting from the full solution with every cell given.
     */
    method ClearInOrder(positions: seq<int>)
      requires Valid() && |solution| == 81 && values[..] == solution && (forall q :: 0 <= q < 81 ==> given[q])
      requires multiset(positions) == multiset(Range(81)) && Distinct(positions)
      modifies values, given
      ensures forall p :: 0 <= p < 81 ==> values[p] == 0 || values[p] == solution[p]
      ensures Complete(solution) ==> forall p :: 0 <= p < 81 ==> (given[p] <==> values[p] != 0)
      ensures Complete(solution) ==> NumFills(values[..], 0) == 1
    {
      if Complete(solution) {
        NumFillsComplete(solution, 0);
      }
      for i := 0 to |positions|
        invariant forall p :: 0 <= p < 81 ==> values[p] == 0 || values[p] == solution[p]
        invariant forall p :: 0 <= p < 81 && p !in positions[..i] ==> values[p] == solution[p] && given[p]
        invariant Complete(solution) ==> forall p :: 0 <= p < 81 ==> (given[p] <==> values[p] != 0)
        invariant Complete(solution) ==> NumFills(values[..], 0) == 1
      {
        var p := positions[i];
        assert p in multiset(Range(81));
        assert p !in positions[..i];
        TryClear(p);
        assert positions[..i + 1] == positions[..i] + [p];
      }
    }

    /**
     * One step of generatePuzzle's loop: clear cell `p`, and put its value
     * and given flag back unless the cleared board has exactly one
     * completion.
     */
    method TryClear(p: int)
      requires Valid() && 0 <= p < 81
      modifies values, given
      ensures (values[..] == old(values[..]) && given[..] == old(given[..])[p := true]) ||
              (values[..] == old(values[..])[p := 0] && given[..] == old(given[..])[p := false] &&
               NumFills(values[..], 0) == 1)
      ensures NumFills(old(values[..])[p := 0], 0) == 1 ==>
        values[..] == old(values[..])[p := 0] && given[..] == old(given[..])[p := false]
      ensures NumFills(old(values[..])[p := 0], 0) != 1 ==>
        values[..] == old(values[..]) && given[..] == old(given[..])[p := true]
    {
      var original := values[p];
      values[p] := 0;
      given[p] := false;
      ghost var cleared, clearedGiven := values[..], given[..];
      var testBoard := DeepCopyBoard(values);
      var n := CountSolutions(testBoard, 2);
      assert values[..] == cleared && given[..] == clearedGiven;
      if n != 1 {
        values[p] := original;
        given[p] := true;
        assert values[..] == old(values[..]) && given[..] == old(given[..])[p := true];
      } else {
        assert NumFills(cleared, 0) == 1;
      }
    }

    /**
     * startGame: a new puzzle, every non-given cell emptied, the game not
     * finished; `solution` is its one and only completion.
     */
    method StartGame(rng: Random)
      modifies this, rng
      ensures Valid() && !finished && selected == None
      ensures Solution(solution)
      ensures forall p :: 0 <= p < 81 ==> values[p] == 0 || values[p] == solution[p]
      ensures forall p :: 0 <= p < 81 && !given[p] ==> values[p] == 0
      ensures forall p :: 0 <= p < 81 ==> (given[p] <==> values[p] != 0)
      ensures NumFills(values[..], 0) == 1
      ensures forall s | Solution(s) && Agrees(values[..], s) :: s == solution
    {
      GeneratePuzzle(rng);
      ghost var puzzle := values[..];
      ClearNonGiven();
      assert values[..] == puzzle;
      finished := false;
    }

    /** startGame's loop: every cell that is not a given becomes 0. */
    method ClearNonGiven()
      requires Valid()
      modifies values
      ensures forall q :: 0 <= q < 81 ==> values[q] == (if given[q] then old(values[q]) else 0)
    {
      for p := 0 to 81
        invariant forall q :: 0 <= q < 81 ==> values[q] == (if q < p && !given[q] then 0 else old(values[q]))
      {
        if !given[p] {
          values[p] := 0;
        }
      }
    }

    /** selectCell: a given cell cannot be selected (the previous selection stays). */
    method SelectCell(p: int)
      requires Valid() && 0 <= p < 81
      modifies this
      ensures Valid() && values == old(values) && given == old(given) && solution == old(solution)
      ensures finished == old(finished)
      ensures selected == if given[p] then old(selected) else Some(p)
    {
      if !given[p] {
        selected := Some(p);
      }
    }

    /**
     * handleKey: with a non-given cell selected, "1".."9" stores the digit
     * and "Backspace" stores 0, any other key stores nothing; then
     * checkForWin.  With a given cell selected nothing happens.
     */
    method HandleKey(key: string)
      requires Valid()
      modifies this, values
      ensures Valid() && values == old(values) && given == old(given) && solution == old(solution)
      ensures selected == old(selected)
      ensures forall p :: 0 <= p < 81 && given[p] ==> values[p] == old(values[p])
      ensures selected.None? ==> values[..] == old(values[..]) && finished == old(finished)
      ensures selected.Some? && !given[selected.value] ==>
        var p := selected.value;
        values[..] == old(values[..])[p := if |key| == 1 && '1' <= key[0] <= '9' then (key[0] - '0') as int
                                          else if key == "Backspace" then 0 else old(values[p])]
      ensures forall p :: 0 <= p < 81 ==> 0 <= values[p] <= 9 || values[p] == old(values[p])
      ensures finished ==> old(finished) || selected.Some?
      ensures selected.Some? && given[selected.value] ==> values[..] == old(values[..]) && finished == old(finished)
      ensures selected.Some? && !given[selected.value] ==> finished == (old(finished) || Solved(values[..], solution))
    {
      if selected.None? {
        return;
      }
      var p := selected.value;
      if given[p] {
        return;
      }
      if |key| == 1 && '1' <= key[0] <= '9' {
        values[p] := (key[0] - '0') as int;
      } else if key == "Backspace" {
        values[p] := 0;
      }
      assert finished == old(finished) && selected == Some(p);
      CheckForWin();
      assert !given[p];
    }

    /** checkForWin: finished becomes true only when every cell is filled and equals the solution. */
    method CheckForWin()
      requires Valid()
      modifies this
      ensures Valid() && values == old(values) && given == old(given) && solution == old(solution)
      ensures selected == old(selected)
      ensures finished == (old(finished) || Solved(values[..], solution))
    {
      if finished {
        return;
      }
      for p := 0 to 81
        invariant forall q :: 0 <= q < p ==> values[q] != 0 && q < |solution| && values[q] == solution[q]
      {
        if values[p] == 0 || p >= |solution| || values[p] != solution[p] {
          assert values[..][p] == values[p];
          return;
        }
      }
      forall q | 0 <= q < |values[..]|
        ensures values[..][q] != 0 && q < |solution| && values[..][q] == solution[q]
      {
        assert values[..][q] == values[q];
      }
      finished := true;
    }
  }

  /** Every cell is filled and agrees with the solution. */
  predicate Solved(v: seq<int>, solution: seq<int>) {
    forall p :: 0 <= p < |v| ==> v[p] != 0 && p < |solution| && v[p] == solution[p]
  }

  /** deepCopyBoard: a new board with the same values (and empty candidate lists). */
  method DeepCopyBoard(g: array<int>) returns (copy: array<int>)
    ensures fresh(copy) && copy[..] == g[..]
  {
    copy := new int[g.Length](i => 0);
    for i := 0 to g.Length
      invariant copy[..i] == g[..i]
    {
      copy[i] := g[i];
    }
  }

  lemma EmptyConsistent()
    ensures Consistent(seq(81, p => 0))
  {
  }

  /** A grid with exactly one completion has `s` as its only solution, when `s` agrees with it. */
  lemma OnlySolution(g: seq<int>, s: seq<int>)
    requires Solution(s) && Agrees(g, s) && NumFills(g, 0) == 1
    ensures forall s2 | Solution(s2) && Agrees(g, s2) :: s2 == s
  {
    forall s2 | Solution(s2) && Agrees(g, s2)
      ensures s2 == s
    {
      UniqueCompletion(g, s, s2);
    }
  }

  /**
   * A solved grid: cell (r, c) holds digit (3 (r mod 3) + r / 3 + c) mod 9 + 1,
   * each row shifting the one above so that rows, columns and boxes all
   * hold 1..9.
   */
  function PatternDigit(r: int, c: int): int
    requires InRange(r, c)
  {
    (3 * (r % 3) + r / 3 + c) % 9 + 1
  }

  function PatternGrid(): (s: seq<int>)
    ensures |s| == 81 && forall p | 0 <= p < 81 :: 1 <= s[p] <= 9
  {
    seq(81, p requires 0 <= p < 81 => PatternDigit(p / 9, p % 9))
  }

  /** Cell (r, c) of the pattern grid holds PatternDigit(r, c). */
  lemma PatternAt(r: int, c: int)
    requires InRange(r, c)
    ensures At(PatternGrid(), r, c) == PatternDigit(r, c)
  {
    var p := 9 * r + c;
    IdxSplit(p);
    IdxInjective(p / 9, p % 9, r, c);
  }

  /** Residues mod 9 differ for two numbers less than 9 apart. */
  lemma ModNine(x: int, y: int)
    requires 0 <= x && 0 <= y && x != y && -9 < x - y < 9
    ensures x % 9 != y % 9
  {
  }

  /** The pattern grid is a solved Sudoku. */
  lemma PatternIsSolution()
    ensures Solution(PatternGrid())
  {
    var s := PatternGrid();
    forall r1, c1, r2, c2 | 0 <= r1 < 9 && 0 <= c1 < 9 && 0 <= r2 < 9 && 0 <= c2 < 9 &&
      (r1 != r2 || c1 != c2) && Peer(r1, c1, r2, c2) && At(s, r1, c1) != 0
      ensures At(s, r1, c1) != At(s, r2, c2)
    {
      PatternAt(r1, c1);
      PatternAt(r2, c2);
      PatternApart(r1, c1, r2, c2);
    }
  }

  /** Two different peers get different pattern digits. */
  lemma PatternApart(r1: int, c1: int, r2: int, c2: int)
    requires InRange(r1, c1) && InRange(r2, c2) && (r1 != r2 || c1 != c2) && Peer(r1, c1, r2, c2)
    ensures PatternDigit(r1, c1) != PatternDigit(r2, c2)
  {
    var x := 3 * (r1 % 3) + r1 / 3 + c1;
    var y := 3 * (r2 % 3) + r2 / 3 + c2;
    if r1 == r2 {
      ModNine(x, y);
    } else if c1 == c2 {
      assert r1 == 3 * (r1 / 3) + r1 % 3 && r2 == 3 * (r2 / 3) + r2 % 3;
      ModNine(x, y);
    } else {
      assert r1 / 3 == r2 / 3 && c1 / 3 == c2 / 3;
      assert r1 == 3 * (r1 / 3) + r1 % 3 && r2 == 3 * (r2 / 3) + r2 % 3;
      assert c1 == 3 * (c1 / 3) + c1 % 3 && c2 == 3 * (c2 / 3) + c2 % 3;
      ModNine(x, y);
    }
  }

  /** The empty board has a completion, so fillBoard cannot fail on it. */
  lemma EmptyBoardCounted()
    ensures NumFills(seq(81, p => 0), 0) >= 1
  {
    PatternIsSolution();
    SolutionCounted(seq(81, p => 0), PatternGrid(), 0);
  }
}
