/*
 * Tic-tac-toe (puzzle-hub/public/tictactoe/tictactoe.js): nine cells in
 * row-major order, each empty (null on the page), X or O.  X moves
 * first; a player who fills a row, column or diagonal wins, and a full
 * board without a winner is a draw.
 */
module TicTacToe {

  datatype Mark = Empty | X | O

  datatype Status = Turn(player: Mark) | Wins(winner: Mark) | Draw

  const Cells := 9

  /** winPatterns: the three rows, three columns and two diagonals. */
  const Lines: seq<seq<nat>> := [[0, 1, 2], [3, 4, 5], [6, 7, 8], [0, 3, 6], [1, 4, 7], [2, 5, 8], [0, 4, 8], [2, 4, 6]]

  function Other(p: Mark): Mark {
    if p == X then O else X
  }

  /** Row r, column c of the grid. */
  function At(board: seq<Mark>, r: nat, c: nat): Mark
    requires |board| == Cells && r < 3 && c < 3
  {
    board[3 * r + c]
  }

  ghost predicate RowOf(board: seq<Mark>, p: Mark)
    requires |board| == Cells
  {
    exists r: nat | r < 3 :: At(board, r, 0) == p && At(board, r, 1) == p && At(board, r, 2) == p
  }

  ghost predicate ColumnOf(board: seq<Mark>, p: Mark)
    requires |board| == Cells
  {
    exists c: nat | c < 3 :: At(board, 0, c) == p && At(board, 1, c) == p && At(board, 2, c) == p
  }

  ghost predicate DiagonalOf(board: seq<Mark>, p: Mark)
    requires |board| == Cells
  {
    (At(board, 0, 0) == p && At(board, 1, 1) == p && At(board, 2, 2) == p) ||
    (At(board, 0, 2) == p && At(board, 1, 1) == p && At(board, 2, 0) == p)
  }

  /** Every cell of pattern k holds `player`. */
  predicate LineOf(board: seq<Mark>, k: nat, player: Mark)
    requires |board| == Cells && k < |Lines|
  {
    board[Lines[k][0]] == player && board[Lines[k][1]] == player && board[Lines[k][2]] == player
  }

  /**
   * checkWinner: some pattern is entirely `player`, that is, `player`
   * fills a row, a column or a diagonal.
   */
  function CheckWinner(board: seq<Mark>, player: Mark): (won: bool)
    requires |board| == Cells
    ensures won <==> RowOf(board, player) || ColumnOf(board, player) || DiagonalOf(board, player)
  {
    var w := exists k | 0 <= k < |Lines| :: LineOf(board, k, player);
    assert RowOf(board, player) ==> w by {
      if RowOf(board, player) {
        var r: nat :| r < 3 && At(board, r, 0) == player && At(board, r, 1) == player && At(board, r, 2) == player;
        assert LineOf(board, r, player);
      }
    }
    assert ColumnOf(board, player) ==> w by {
      if ColumnOf(board, player) {
        var c: nat :| c < 3 && At(board, 0, c) == player && At(board, 1, c) == player && At(board, 2, c) == player;
        assert LineOf(board, 3 + c, player);
      }
    }
    assert DiagonalOf(board, player) ==> w by {
      if At(board, 0, 0) == player && At(board, 1, 1) == player && At(board, 2, 2) == player {
        assert LineOf(board, 6, player);
      } else if DiagonalOf(board, player) {
        assert LineOf(board, 7, player);
      }
    }
    assert w ==> RowOf(board, player) || ColumnOf(board, player) || DiagonalOf(board, player) by {
      if w {
        var k :| 0 <= k < |Lines| && LineOf(board, k, player);
        if k < 3 {
          assert At(board, k, 0) == player && At(board, k, 1) == player && At(board, k, 2) == player;
        } else if k < 6 {
          assert At(board, 0, k - 3) == player && At(board, 1, k - 3) == player && At(board, 2, k - 3) == player;
        }
      }
    }
    w
  }

  /** boardState.every(cell => cell) */
  predicate Full(board: seq<Mark>) {
    forall i | 0 <= i < |board| :: board[i] != Empty
  }

  /** How many cells hold `m`. */
  function Count(board: seq<Mark>, m: Mark): nat {
    multiset(board)[m]
  }

  /** Placing a mark on an empty cell adds one mark and one fewer empty cell. */
  lemma PlaceCounts(board: seq<Mark>, i: nat, p: Mark)
    requires i < |board| && board[i] == Empty && p != Empty
    ensures Count(board[i := p], p) == Count(board, p) + 1
    ensures Count(board[i := p], Other(p)) == Count(board, Other(p)) || p == Other(p)
  {
    assert board == board[..i] + [Empty] + board[i + 1..];
    assert board[i := p] == board[..i] + [p] + board[i + 1..];
  }

  /** A player with no line keeps having none when the other player marks a cell. */
  lemma OtherMoveNoLine(board: seq<Mark>, i: nat, p: Mark, q: Mark)
    requires |board| == Cells && i < Cells && p != q && !CheckWinner(board, q)
    ensures !CheckWinner(board[i := p], q)
  {
    var after := board[i := p];
    forall r, c | 0 <= r < 3 && 0 <= c < 3 && At(after, r, c) == q
      ensures At(board, r, c) == q
    {
    }
  }

  class Game {
    var boardState: seq<Mark>
    var currentPlayer: Mark
    var gameOver: bool
    var status: Status

    /**
     * Nine cells; X has made as many moves as O or one more, and it is X's
     * turn exactly when the counts are equal; a game not over has no
     * winner and an empty cell; never do both players have a line.
     */
    ghost predicate Valid()
      reads this
    {
      |boardState| == Cells &&
      (currentPlayer == X || currentPlayer == O) &&
      0 <= Count(boardState, X) - Count(boardState, O) <= 1 &&
      (!gameOver ==> (currentPlayer == X <==> Count(boardState, X) == Count(boardState, O))) &&
      (!gameOver ==> !CheckWinner(boardState, X) && !CheckWinner(boardState, O) && !Full(boardState)) &&
      !(CheckWinner(boardState, X) && CheckWinner(boardState, O))
    }

    constructor ()
      ensures Valid() && boardState == seq(Cells, _ => Empty) && currentPlayer == X && !gameOver && status == Turn(X)
    {
      boardState := seq(Cells, _ => Empty);
      currentPlayer := X;
      gameOver := false;
      status := Turn(X);
      new;
      EmptyStart();
    }

    /** resetGame: nine empty cells, X to move, the game on. */
    method ResetGame()
      modifies this
      ensures Valid() && boardState == seq(Cells, _ => Empty) && currentPlayer == X && !gameOver && status == Turn(X)
    {
      boardState := seq(Cells, _ => Empty);
      currentPlayer := X;
      gameOver := false;
      status := Turn(X);
      EmptyStart();
    }

    static lemma EmptyStart()
      ensures var b := seq(Cells, _ => Empty);
        Count(b, X) == 0 && Count(b, O) == 0 && !CheckWinner(b, X) && !CheckWinner(b, O) && !Full(b)
    {
      var b := seq(Cells, _ => Empty);
      assert X !in multiset(b) && O !in multiset(b);
      assert b[0] == Empty;
    }

    /**
     * handleMove: a click on a taken cell or after the game ended is
     * ignored; otherwise the current player's mark is written, a line wins
     * and a full board draws (both end the game with the player kept), and
     * otherwise the turn passes to the other player.
     */
    method HandleMove(index: nat)
      requires Valid() && index < Cells
      modifies this
      ensures Valid()
      ensures old(boardState)[index] != Empty || old(gameOver) ==>
        boardState == old(boardState) && currentPlayer == old(currentPlayer) && gameOver == old(gameOver) && status == old(status)
      ensures old(boardState)[index] == Empty && !old(gameOver) ==>
        boardState == old(boardState)[index := old(currentPlayer)] &&
        if CheckWinner(boardState, old(currentPlayer)) then
          gameOver && currentPlayer == old(currentPlayer) && status == Wins(currentPlayer)
        else if Full(boardState) then
          gameOver && currentPlayer == old(currentPlayer) && status == Draw
        else
          !gameOver && currentPlayer == Other(old(currentPlayer)) && status == Turn(currentPlayer)
    {
      if boardState[index] != Empty || gameOver {
        return;
      }
      PlaceCounts(boardState, index, currentPlayer);
      OtherMoveNoLine(boardState, index, currentPlayer, Other(currentPlayer));
      boardState := boardState[index := currentPlayer];
      if CheckWinner(boardState, currentPlayer) {
        status := Wins(currentPlayer);
        gameOver := true;
      } else if Full(boardState) {
        status := Draw;
        gameOver := true;
      } else {
        currentPlayer := if currentPlayer == X then O else X;
        status := Turn(currentPlayer);
      }
    }
  }
}
