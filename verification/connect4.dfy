/*
 * Connect 4 (puzzle-hub/public/connect4/connect4.js): a 6×7 board of 0
 * (empty), 1 (red) and 2 (yellow).  A move drops the current player's disc
 * into the lowest empty row of a column; four equal discs in a row,
 * column or diagonal win, and a full board is a tie.
 */
module Connect4 {

  const Rows := 6
  const Cols := 7

  ghost predicate Shape(board: seq<seq<int>>) {
    |board| == Rows && forall r | 0 <= r < Rows :: |board[r]| == Cols
  }

  predicate InBounds(board: seq<seq<int>>, r: int, c: int) {
    0 <= r < |board| && 0 <= c < |board[r]|
  }

  /** A step of (dr, dc) is one of the eight neighbours' offsets. */
  predicate Direction(dr: int, dc: int) {
    -1 <= dr <= 1 && -1 <= dc <= 1 && (dr != 0 || dc != 0)
  }

  /** i times the offset d, for d in -1..1. */
  function Step(i: int, d: int): int {
    if d == 0 then 0 else if d > 0 then i else -i
  }

  /** The cell i steps from (r, c) along (dr, dc) is on the board and holds what (r, c) holds. */
  predicate Eq(board: seq<seq<int>>, r: int, c: int, dr: int, dc: int, i: int) {
    InBounds(board, r, c) && InBounds(board, r + Step(i, dr), c + Step(i, dc)) &&
    board[r + Step(i, dr)][c + Step(i, dc)] == board[r][c]
  }

  /** The first k cells beyond (r, c) along (dr, dc) all match it. */
  ghost predicate SameFor(board: seq<seq<int>>, r: int, c: int, dr: int, dc: int, k: nat) {
    forall i | 1 <= i <= k :: Eq(board, r, c, dr, dc, i)
  }

  /** The four cells s .. s+3 steps from (r, c) along (dr, dc) match it. */
  ghost predicate Window(board: seq<seq<int>>, r: int, c: int, dr: int, dc: int, s: int) {
    forall i | s <= i <= s + 3 :: Eq(board, r, c, dr, dc, i)
  }

  /** Four consecutive equal cells along (dr, dc), one of them (r, c). */
  ghost predicate Four(board: seq<seq<int>>, r: int, c: int, dr: int, dc: int) {
    exists s | -3 <= s <= 0 :: Window(board, r, c, dr, dc, s)
  }

  /** (r, c) lies in four in a row horizontally, vertically or on either diagonal. */
  ghost predicate WinAt(board: seq<seq<int>>, r: int, c: int) {
    Four(board, r, c, 0, 1) || Four(board, r, c, 1, 0) || Four(board, r, c, 1, 1) || Four(board, r, c, 1, -1)
  }

  /** Some occupied cell lies in four in a row. */
  ghost predicate HasWin(board: seq<seq<int>>) {
    exists r, c | InBounds(board, r, c) && board[r][c] != 0 :: WinAt(board, r, c)
  }

  /** board.flat().every(cell => cell !== 0) */
  predicate Full(board: seq<seq<int>>) {
    forall r, c | 0 <= r < |board| && 0 <= c < |board[r]| :: board[r][c] != 0
  }

  /** Every cell below an occupied cell is occupied. */
  ghost predicate Gravity(board: seq<seq<int>>)
    requires Shape(board)
  {
    forall c, r, r' | 0 <= c < Cols && 0 <= r <= r' < Rows && board[r][c] != 0 :: board[r'][c] != 0
  }

  /** createBoard: ROWS × COLS zeros. */
  function EmptyBoard(): (board: seq<seq<int>>)
    ensures Shape(board) && forall r, c | 0 <= r < Rows && 0 <= c < Cols :: board[r][c] == 0
  {
    seq(Rows, _ => seq(Cols, _ => 0))
  }

  lemma EmptyIsOpen()
    ensures Gravity(EmptyBoard()) && !HasWin(EmptyBoard()) && !Full(EmptyBoard())
  {
    assert EmptyBoard()[0][0] == 0;
  }

  /** The lowest empty row of column `col` at or above `row`, or -1. */
  function LowestFrom(board: seq<seq<int>>, col: int, row: int): (r: int)
    requires Shape(board) && 0 <= col < Cols && -1 <= row < Rows
    ensures -1 <= r <= row
    ensures r >= 0 ==> board[r][col] == 0 && forall r' | r < r' <= row :: board[r'][col] != 0
    ensures r < 0 ==> forall r' | 0 <= r' <= row :: board[r'][col] != 0
    decreases row + 1
  {
    if row < 0 then -1 else if board[row][col] == 0 then row else LowestFrom(board, col, row - 1)
  }

  /** Where a disc dropped into `col` lands, or -1 when the column is full. */
  function LowestEmpty(board: seq<seq<int>>, col: int): (row: int)
    requires Shape(board) && 0 <= col < Cols
    ensures -1 <= row < Rows
    ensures row >= 0 ==> board[row][col] == 0 && forall r | row < r < Rows :: board[r][col] != 0
    ensures row < 0 ==> forall r | 0 <= r < Rows :: board[r][col] != 0
  {
    LowestFrom(board, col, Rows - 1)
  }

  /**
   * Under gravity a column is full exactly when its top cell is taken,
   * and everything above the landing row is empty.
   */
  lemma LandingRow(board: seq<seq<int>>, col: int)
    requires Shape(board) && Gravity(board) && 0 <= col < Cols
    ensures LowestEmpty(board, col) < 0 <==> board[0][col] != 0
    ensures forall r | 0 <= r <= LowestEmpty(board, col) :: board[r][col] == 0
  {
  }

  /** Dropping a disc on the landing row keeps gravity. */
  lemma DropKeepsGravity(board: seq<seq<int>>, col: int, p: int)
    requires Shape(board) && Gravity(board) && 0 <= col < Cols && LowestEmpty(board, col) >= 0 && p != 0
    ensures var row := LowestEmpty(board, col);
      Shape(board[row := board[row][col := p]]) && Gravity(board[row := board[row][col := p]])
  {
  }

  lemma StepNeg(i: int, d: int)
    ensures Step(i, -d) == Step(-i, d)
  {
  }

  /** The reaches back and ahead of (r, c) decide whether it lies in four in a row. */
  lemma {:induction false} RunsMakeFour(board: seq<seq<int>>, r: int, c: int, dr: int, dc: int, back: nat, ahead: nat)
    requires InBounds(board, r, c) && Direction(dr, dc)
    requires SameFor(board, r, c, -dr, -dc, back) && !Eq(board, r, c, -dr, -dc, back + 1)
    requires SameFor(board, r, c, dr, dc, ahead) && !Eq(board, r, c, dr, dc, ahead + 1)
    ensures 1 + back + ahead >= 4 <==> Four(board, r, c, dr, dc)
  {
    forall i: int {:trigger Eq(board, r, c, dr, dc, i)}
      ensures Eq(board, r, c, -dr, -dc, -i) == Eq(board, r, c, dr, dc, i)
    {
      StepNeg(-i, dr);
      StepNeg(-i, dc);
    }
    if 1 + back + ahead >= 4 {
      var s: int := if back >= 3 then -3 else -(back as int);
      forall i | s <= i <= s + 3
        ensures Eq(board, r, c, dr, dc, i)
      {
        if i < 0 {
          assert Eq(board, r, c, -dr, -dc, -i);
        }
      }
      assert Window(board, r, c, dr, dc, s);
    } else {
      // every window of four reaches one of the two cells that end the run
      assert !Eq(board, r, c, dr, dc, -(back + 1)) && !Eq(board, r, c, dr, dc, ahead + 1);
    }
  }

  lemma StepAdd(i: int, j: int, d: int)
    ensures Step(i, d) + Step(j, d) == Step(i + j, d)
  {
  }

  /** Cell j steps from (r, c) along (dr, dc) is (row, col). */
  predicate Hits(r: int, c: int, dr: int, dc: int, j: int, row: int, col: int) {
    r + Step(j, dr) == row && c + Step(j, dc) == col
  }

  /** A window through (r, c) that holds (row, col) is a window through (row, col) too. */
  lemma {:induction false} WindowThrough(board: seq<seq<int>>, r: int, c: int, dr: int, dc: int, s: int, j: int, row: int, col: int)
    requires Window(board, r, c, dr, dc, s) && s <= j <= s + 3 && Hits(r, c, dr, dc, j, row, col)
    ensures Window(board, row, col, dr, dc, s - j)
  {
    assert Eq(board, r, c, dr, dc, j);
    forall i | s - j <= i <= s - j + 3
      ensures Eq(board, row, col, dr, dc, i)
    {
      StepAdd(i, j, dr);
      StepAdd(i, j, dc);
      assert Eq(board, r, c, dr, dc, i + j);
    }
  }

  /** A window that misses the dropped disc was there before the drop. */
  lemma {:induction false} WindowMissesDrop(before: seq<seq<int>>, row: int, col: int, p: int, r: int, c: int, dr: int, dc: int, s: int)
    requires Shape(before) && InBounds(before, row, col) && -3 <= s <= 0
    requires Window(before[row := before[row][col := p]], r, c, dr, dc, s)
    requires forall j | s <= j <= s + 3 :: !Hits(r, c, dr, dc, j, row, col)
    ensures InBounds(before, r, c) && before[r][c] == before[row := before[row][col := p]][r][c]
    ensures Window(before, r, c, dr, dc, s)
  {
    var after := before[row := before[row][col := p]];
    assert Eq(after, r, c, dr, dc, 0) && !Hits(r, c, dr, dc, 0, row, col);
    forall i | s <= i <= s + 3
      ensures Eq(before, r, c, dr, dc, i)
    {
      assert Eq(after, r, c, dr, dc, i) && !Hits(r, c, dr, dc, i, row, col);
    }
  }

  /**
   * Four in a row along (dr, dc) after a disc is dropped on (row, col)
   * either passes through (row, col) or was already there before.
   */
  lemma {:induction false} FourAfterDrop(before: seq<seq<int>>, row: int, col: int, p: int, r: int, c: int, dr: int, dc: int)
    requires Shape(before) && InBounds(before, row, col) && Four(before[row := before[row][col := p]], r, c, dr, dc)
    ensures var after := before[row := before[row][col := p]];
      Four(after, row, col, dr, dc) || (InBounds(before, r, c) && before[r][c] == after[r][c] && Four(before, r, c, dr, dc))
  {
    var after := before[row := before[row][col := p]];
    var s :| -3 <= s <= 0 && Window(after, r, c, dr, dc, s);
    if j :| s <= j <= s + 3 && Hits(r, c, dr, dc, j, row, col) {
      WindowThrough(after, r, c, dr, dc, s, j, row, col);
      assert Window(after, row, col, dr, dc, s - j);
    } else {
      WindowMissesDrop(before, row, col, p, r, c, dr, dc, s);
    }
  }

  /**
   * A board with no four in a row gains one from a drop only through the
   * dropped disc: so checking the new disc alone finds every win.
   */
  lemma {:induction false} WinsGoThroughDrop(before: seq<seq<int>>, row: int, col: int, p: int)
    requires Shape(before) && InBounds(before, row, col) && !HasWin(before)
    requires !WinAt(before[row := before[row][col := p]], row, col)
    ensures !HasWin(before[row := before[row][col := p]])
  {
    var after := before[row := before[row][col := p]];
    forall r, c | InBounds(after, r, c) && after[r][c] != 0
      ensures !WinAt(after, r, c)
    {
      if WinAt(after, r, c) {
        if Four(after, r, c, 0, 1) {
          FourAfterDrop(before, row, col, p, r, c, 0, 1);
        } else if Four(after, r, c, 1, 0) {
          FourAfterDrop(before, row, col, p, r, c, 1, 0);
        } else if Four(after, r, c, 1, 1) {
          FourAfterDrop(before, row, col, p, r, c, 1, 1);
        } else {
          FourAfterDrop(before, row, col, p, r, c, 1, -1);
        }
        assert WinAt(before, r, c);
      }
    }
  }

  class Game {
    var board: seq<seq<int>>
    var currentPlayer: int
    var finished: bool

    /**
     * The board is 6×7 with values 0..2 and gravity holds; the player is
     * 1 or 2; a game not finished has neither a win nor a full board.
     */
    ghost predicate Valid()
      reads this
    {
      Shape(board) && Gravity(board) &&
      (forall r, c | 0 <= r < Rows && 0 <= c < Cols :: 0 <= board[r][c] <= 2) &&
      (currentPlayer == 1 || currentPlayer == 2) &&
      (!finished ==> !HasWin(board) && !Full(board))
    }

    /** init: an empty board, player 1, not finished. */
    constructor ()
      ensures Valid() && board == EmptyBoard() && currentPlayer == 1 && !finished
    {
      board := EmptyBoard();
      currentPlayer := 1;
      finished := false;
      EmptyIsOpen();
    }

    /** createBoard: the board is emptied. */
    method CreateBoard()
      modifies this
      ensures board == EmptyBoard() && currentPlayer == old(currentPlayer) && finished == old(finished)
    {
      board := EmptyBoard();
    }

    /** resetGame as written: player 1 and an empty board, but `finished` is left as it was. */
    method ResetGameAsWritten()
      requires Valid()
      modifies this
      ensures Valid() && board == EmptyBoard() && currentPlayer == 1 && finished == old(finished)
    {
      currentPlayer := 1;
      CreateBoard();
      EmptyIsOpen();
    }

    /** resetGame as intended: a fresh game, as init starts one. */
    method ResetGame()
      modifies this
      ensures Valid() && board == EmptyBoard() && currentPlayer == 1 && !finished
    {
      currentPlayer := 1;
      finished := false;
      CreateBoard();
      EmptyIsOpen();
    }

    /**
     * After a finished game, the written reset leaves a board that ignores
     * clicks: a disc dropped into column 3 does not land.
     */
    method ReplayAfterFinishAsWritten()
      requires Valid() && finished
      modifies this
      ensures board == EmptyBoard() && finished
    {
      ResetGameAsWritten();
      HandleMove(3);
    }

    /** With the intended reset the first disc lands at the bottom of its column. */
    method ReplayAfterFinish()
      requires Valid()
      modifies this
      ensures Valid() && board == EmptyBoard()[Rows - 1 := EmptyBoard()[Rows - 1][3 := 1]] && currentPlayer == 2
    {
      ResetGame();
      assert board[Rows - 1][3] == 0;
      assert LowestEmpty(board, 3) == Rows - 1;
      HandleMove(3);
      assert board == EmptyBoard()[Rows - 1 := EmptyBoard()[Rows - 1][3 := 1]];
      assert !Full(board) by {
        assert board[0][0] == 0;
      }
      assert !WinAt(board, Rows - 1, 3) by {
        assert !Eq(board, Rows - 1, 3, 0, 1, -1) && !Eq(board, Rows - 1, 3, 0, 1, 1);
        assert !Eq(board, Rows - 1, 3, 1, 0, -1) && !Eq(board, Rows - 1, 3, 1, 0, 1);
        assert !Eq(board, Rows - 1, 3, 1, 1, -1) && !Eq(board, Rows - 1, 3, 1, 1, 1);
        assert !Eq(board, Rows - 1, 3, 1, -1, -1) && !Eq(board, Rows - 1, 3, 1, -1, 1);
      }
    }

    /** checkDirection's walk from (r, c) along (dr, dc) over cells equal to it. */
    method Reach(r: int, c: int, dr: int, dc: int) returns (k: nat)
      requires Shape(board) && InBounds(board, r, c) && Direction(dr, dc)
      ensures SameFor(board, r, c, dr, dc, k) && !Eq(board, r, c, dr, dc, k + 1)
    {
      var target := board[r][c];
      var row := r + dr;
      var col := c + dc;
      k := 0;
      while 0 <= row < Rows && 0 <= col < Cols && board[row][col] == target
        invariant row == r + Step(k + 1, dr) && col == c + Step(k + 1, dc)
        invariant SameFor(board, r, c, dr, dc, k)
        decreases (if dr > 0 then Rows - row else if dr < 0 then row + 1 else 0) +
                  (if dc > 0 then Cols - col else if dc < 0 then col + 1 else 0)
      {
        assert Eq(board, r, c, dr, dc, k + 1);
        k := k + 1;
        row := row + dr;
        col := col + dc;
      }
    }

    /** checkDirection: (r, c) lies in a run of at least four along (dr, dc). */
    method CheckDirection(r: int, c: int, dr: int, dc: int) returns (won: bool)
      requires Shape(board) && InBounds(board, r, c) && Direction(dr, dc)
      ensures won <==> Four(board, r, c, dr, dc)
    {
      var back := Reach(r, c, -dr, -dc);
      var ahead := Reach(r, c, dr, dc);
      var count := 1 + back + ahead;
      RunsMakeFour(board, r, c, dr, dc, back, ahead);
      won := count >= 4;
    }

    /** checkWin: four in a row through (r, c) in one of the four directions. */
    method CheckWin(r: int, c: int) returns (won: bool)
      requires Shape(board) && InBounds(board, r, c)
      ensures won <==> WinAt(board, r, c)
    {
      won := CheckDirection(r, c, 0, 1);
      if !won {
        won := CheckDirection(r, c, 1, 0);
      }
      if !won {
        won := CheckDirection(r, c, 1, 1);
      }
      if !won {
        won := CheckDirection(r, c, 1, -1);
      }
    }

    /** checkIfGameIsFinished: some occupied cell is in four in a row, or the board is full. */
    method CheckIfGameIsFinished() returns (done: bool)
      requires Shape(board)
      ensures done <==> HasWin(board) || Full(board)
    {
      for r := 0 to Rows
        invariant forall i, j | 0 <= i < r && 0 <= j < Cols && board[i][j] != 0 :: !WinAt(board, i, j)
      {
        for c := 0 to Cols
          invariant forall i, j | 0 <= i < r && 0 <= j < Cols && board[i][j] != 0 :: !WinAt(board, i, j)
          invariant forall j | 0 <= j < c && board[r][j] != 0 :: !WinAt(board, r, j)
        {
          if board[r][c] != 0 {
            var won := CheckWin(r, c);
            if won {
              return true;
            }
          }
        }
      }
      done := Full(board);
    }

    /**
     * handleMove: nothing happens once the game is finished or when the
     * column is full; otherwise the player's disc lands on the lowest empty
     * row, a win or a full board finishes the game with the player kept,
     * and otherwise the turn passes to 3 - currentPlayer.
     */
    method HandleMove(col: int)
      requires Valid() && 0 <= col < Cols
      modifies this
      ensures Valid()
      ensures old(finished) || LowestEmpty(old(board), col) < 0 ==>
        board == old(board) && currentPlayer == old(currentPlayer) && finished == old(finished)
      ensures !old(finished) && LowestEmpty(old(board), col) >= 0 ==>
        var row := LowestEmpty(old(board), col);
        board == old(board)[row := old(board)[row][col := old(currentPlayer)]] &&
        (if WinAt(board, row, col) || Full(board) then finished && currentPlayer == old(currentPlayer)
         else !finished && currentPlayer == 3 - old(currentPlayer))
    {
      if finished {
        return;
      }
      var row := Rows - 1;
      while row >= 0
        invariant -1 <= row < Rows
        invariant LowestEmpty(board, col) == LowestFrom(board, col, row)
      {
        if board[row][col] == 0 {
          ghost var before := board;
          DropKeepsGravity(board, col, currentPlayer);
          board := board[row := board[row][col := currentPlayer]];
          var won := CheckWin(row, col);
          if won {
            finished := true;
          } else if Full(board) {
            finished := true;
          } else {
            WinsGoThroughDrop(before, row, col, currentPlayer);
            currentPlayer := 3 - currentPlayer;
          }
          return;
        }
        row := row - 1;
      }
    }
  }
}
