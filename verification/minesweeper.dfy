/*
 * Minesweeper (puzzle-hub/public/minesweeper/minesweeper.js): a square
 * board of cells, each a mine or not, with a flag and the number of mines
 * among its eight neighbours; a map of the revealed cells; and the game
 * over flag.
 */
module Minesweeper {
  import opened Common

  datatype Cell = Cell(mine: bool, flagged: bool, count: nat)

  /** The text of the game message. */
  datatype Message = GoodLuck | YouWin | GameOver

  const MinSize := 5
  const MaxSize := 20
  const DefaultSize := 8

  /**
   * startGame's `Math.max(5, Math.min(20, parseInt(input) || 8))`: an input
   * that does not parse (None) or parses to 0 gives 8.
   */
  function ClampSize(parsed: Option<int>): (size: int)
    ensures MinSize <= size <= MaxSize
    ensures parsed.None? || parsed == Some(0) ==> size == DefaultSize
    ensures parsed.Some? && parsed.value != 0 ==>
      size == (if parsed.value < MinSize then MinSize else if parsed.value > MaxSize then MaxSize else parsed.value)
  {
    var v := if parsed.None? || parsed.value == 0 then DefaultSize else parsed.value;
    var low := if MaxSize < v then MaxSize else v;
    if MinSize > low then MinSize else low
  }

  /** `Math.floor(size * size * 0.15)`. */
  function MineCountFor(size: int): int {
    size * size * 15 / 100
  }

  // ---------------------------------------------------------------------
  // Boards

  ghost predicate Square<T>(g: seq<seq<T>>, size: int) {
    |g| == size && forall r | 0 <= r < size :: |g[r]| == size
  }

  predicate InBounds<T>(g: seq<seq<T>>, r: int, c: int) {
    0 <= r < |g| && 0 <= c < |g[r]|
  }

  /** One if (r, c) is on the board and a mine. */
  function MineAt(board: seq<seq<Cell>>, r: int, c: int): nat {
    if InBounds(board, r, c) && board[r][c].mine then 1 else 0
  }

  /** The mines among the eight neighbours of (r, c). */
  function MinesAround(board: seq<seq<Cell>>, r: int, c: int): nat {
    MineAt(board, r - 1, c - 1) + MineAt(board, r - 1, c) + MineAt(board, r - 1, c + 1) +
    MineAt(board, r, c - 1) + MineAt(board, r, c + 1) +
    MineAt(board, r + 1, c - 1) + MineAt(board, r + 1, c) + MineAt(board, r + 1, c + 1)
  }

  /** Every non-mine cell shows the number of mines around it. */
  ghost predicate CountsOk(board: seq<seq<Cell>>) {
    forall r, c {:trigger MinesAround(board, r, c)} | InBounds(board, r, c) && !board[r][c].mine ::
      board[r][c].count == MinesAround(board, r, c)
  }

  /** (r, c) lies in the 3x3 block centred on (cr, cc). */
  predicate InBlock(r: int, c: int, cr: int, cc: int) {
    -1 <= r - cr <= 1 && -1 <= c - cc <= 1
  }

  function Bump(cell: Cell): Cell {
    cell.(count := cell.count + 1)
  }

  /** The cells of row `r` equal to `v`. */
  function RowCount(row: seq<bool>, v: bool): nat {
    if |row| == 0 then 0 else RowCount(row[..|row| - 1], v) + (if row[|row| - 1] == v then 1 else 0)
  }

  /** The cells of the grid equal to `v`. */
  function GridCount(g: seq<seq<bool>>, v: bool): nat {
    if |g| == 0 then 0 else GridCount(g[..|g| - 1], v) + RowCount(g[|g| - 1], v)
  }

  lemma {:induction false} RowSet(row: seq<bool>, c: nat, v: bool)
    requires c < |row| && row[c] != v
    ensures RowCount(row[c := v], v) == RowCount(row, v) + 1
    ensures RowCount(row[c := v], !v) + 1 == RowCount(row, !v)
  {
    var n := |row|;
    if c < n - 1 {
      assert row[c := v][..n - 1] == row[..n - 1][c := v];
      RowSet(row[..n - 1], c, v);
    } else {
      assert row[c := v][..n - 1] == row[..n - 1];
    }
  }

  /** Setting one cell to `v` adds one `v` cell and removes one of the other value. */
  lemma {:induction false} GridSet(g: seq<seq<bool>>, r: nat, c: nat, v: bool)
    requires r < |g| && c < |g[r]| && g[r][c] != v
    ensures GridCount(g[r := g[r][c := v]], v) == GridCount(g, v) + 1
    ensures GridCount(g[r := g[r][c := v]], !v) + 1 == GridCount(g, !v)
  {
    var n := |g|;
    var g' := g[r := g[r][c := v]];
    if r < n - 1 {
      assert g'[..n - 1] == g[..n - 1][r := g[r][c := v]];
      GridSet(g[..n - 1], r, c, v);
    } else {
      assert g'[..n - 1] == g[..n - 1];
      RowSet(g[r], c, v);
    }
  }

  /** Which cells are mines. */
  function MineGrid(board: seq<seq<Cell>>): (m: seq<seq<bool>>)
    ensures |m| == |board|
    ensures forall r | 0 <= r < |board| :: |m[r]| == |board[r]|
    ensures forall r, c | InBounds(board, r, c) :: m[r][c] == board[r][c].mine
  {
    seq(|board|, r requires 0 <= r < |board| => seq(|board[r]|, c requires 0 <= c < |board[r]| => board[r][c].mine))
  }

  function MineTotal(board: seq<seq<Cell>>): nat {
    GridCount(MineGrid(board), true)
  }

  function Blank(size: nat): (board: seq<seq<Cell>>)
    ensures Square(board, size)
    ensures forall r, c | InBounds(board, r, c) :: board[r][c] == Cell(false, false, 0)
  {
    seq(size, _ => seq(size, _ => Cell(false, false, 0)))
  }

  function Hidden(size: nat): (g: seq<seq<bool>>)
    ensures Square(g, size)
    ensures forall r, c | InBounds(g, r, c) :: !g[r][c]
  {
    seq(size, _ => seq(size, _ => false))
  }

  lemma {:induction false} RowNone(row: seq<bool>, v: bool)
    requires forall c | 0 <= c < |row| :: row[c] != v
    ensures RowCount(row, v) == 0
  {
    if |row| > 0 {
      RowNone(row[..|row| - 1], v);
    }
  }

  lemma {:induction false} GridNone(g: seq<seq<bool>>, v: bool)
    requires forall r, c | InBounds(g, r, c) :: g[r][c] != v
    ensures GridCount(g, v) == 0
  {
    if |g| > 0 {
      GridNone(g[..|g| - 1], v);
      RowNone(g[|g| - 1], v);
    }
  }

  lemma MineAtAdd(board: seq<seq<Cell>>, board': seq<seq<Cell>>, qr: int, qc: int, r: int, c: int)
    requires |board'| == |board| && forall i | 0 <= i < |board| :: |board'[i]| == |board[i]|
    requires InBounds(board, qr, qc) && !board[qr][qc].mine
    requires forall i, j | InBounds(board, i, j) :: board'[i][j].mine == (board[i][j].mine || (i == qr && j == qc))
    ensures MineAt(board', r, c) == MineAt(board, r, c) + Ind(r, c, qr, qc)
  {
  }

  function Ind(r: int, c: int, qr: int, qc: int): nat {
    if r == qr && c == qc then 1 else 0
  }

  /** q is one of the eight neighbours of (r, c) exactly when it is in its block and not (r, c). */
  lemma NeighbourIndicator(r: int, c: int, qr: int, qc: int)
    ensures Ind(r - 1, c - 1, qr, qc) + Ind(r - 1, c, qr, qc) + Ind(r - 1, c + 1, qr, qc) +
      Ind(r, c - 1, qr, qc) + Ind(r, c + 1, qr, qc) +
      Ind(r + 1, c - 1, qr, qc) + Ind(r + 1, c, qr, qc) + Ind(r + 1, c + 1, qr, qc) ==
      (if InBlock(r, c, qr, qc) && (r, c) != (qr, qc) then 1 else 0)
  {
  }

  /**
   * A new mine at q adds one to the mine count of each of q's neighbours
   * and changes no other cell's.
   */
  lemma MinesAroundAdd(board: seq<seq<Cell>>, board': seq<seq<Cell>>, qr: int, qc: int, r: int, c: int)
    requires |board'| == |board| && forall i | 0 <= i < |board| :: |board'[i]| == |board[i]|
    requires InBounds(board, qr, qc) && !board[qr][qc].mine
    requires forall i, j | InBounds(board, i, j) :: board'[i][j].mine == (board[i][j].mine || (i == qr && j == qc))
    ensures MinesAround(board', r, c) == MinesAround(board, r, c) + (if InBlock(r, c, qr, qc) && (r, c) != (qr, qc) then 1 else 0)
  {
    NeighbourIndicator(r, c, qr, qc);
    MineAtAdd(board, board', qr, qc, r - 1, c - 1);
    MineAtAdd(board, board', qr, qc, r - 1, c);
    MineAtAdd(board, board', qr, qc, r - 1, c + 1);
    MineAtAdd(board, board', qr, qc, r, c - 1);
    MineAtAdd(board, board', qr, qc, r, c + 1);
    MineAtAdd(board, board', qr, qc, r + 1, c - 1);
    MineAtAdd(board, board', qr, qc, r + 1, c);
    MineAtAdd(board, board', qr, qc, r + 1, c + 1);
  }

  /** The same shape and the same mines. */
  ghost predicate SameMines(b1: seq<seq<Cell>>, b2: seq<seq<Cell>>) {
    |b1| == |b2| && (forall i | 0 <= i < |b1| :: |b1[i]| == |b2[i]|) &&
    forall i, j | InBounds(b1, i, j) :: b1[i][j].mine == b2[i][j].mine
  }

  /** Changing only flags leaves the mines and every count right. */
  lemma FlagsKeepCounts(b1: seq<seq<Cell>>, b2: seq<seq<Cell>>)
    requires SameMines(b1, b2) && CountsOk(b1)
    requires forall i, j | InBounds(b1, i, j) :: b1[i][j].count == b2[i][j].count
    ensures CountsOk(b2) && MineGrid(b1) == MineGrid(b2)
  {
    forall r, c | InBounds(b2, r, c) && !b2[r][c].mine
      ensures b2[r][c].count == MinesAround(b2, r, c)
    {
      assert b1[r][c].count == MinesAround(b1, r, c);
      assert MineAt(b1, r - 1, c - 1) == MineAt(b2, r - 1, c - 1);
      assert MineAt(b1, r - 1, c) == MineAt(b2, r - 1, c);
      assert MineAt(b1, r - 1, c + 1) == MineAt(b2, r - 1, c + 1);
      assert MineAt(b1, r, c - 1) == MineAt(b2, r, c - 1);
      assert MineAt(b1, r, c + 1) == MineAt(b2, r, c + 1);
      assert MineAt(b1, r + 1, c - 1) == MineAt(b2, r + 1, c - 1);
      assert MineAt(b1, r + 1, c) == MineAt(b2, r + 1, c);
      assert MineAt(b1, r + 1, c + 1) == MineAt(b2, r + 1, c + 1);
    }
    forall i | 0 <= i < |b1|
      ensures MineGrid(b1)[i] == MineGrid(b2)[i]
    {
    }
  }

  /** Placing a mine and bumping the non-mine cells of its block keeps every count right. */
  lemma PlaceMineKeepsCounts(board: seq<seq<Cell>>, board': seq<seq<Cell>>, qr: int, qc: int)
    requires CountsOk(board) && InBounds(board, qr, qc) && !board[qr][qc].mine
    requires |board'| == |board| && forall i | 0 <= i < |board| :: |board'[i]| == |board[i]|
    requires forall i, j | InBounds(board, i, j) :: board'[i][j].mine == (board[i][j].mine || (i == qr && j == qc))
    requires forall i, j | InBounds(board, i, j) && !board'[i][j].mine ::
      board'[i][j].count == board[i][j].count + (if InBlock(i, j, qr, qc) then 1 else 0)
    ensures CountsOk(board')
  {
    forall r, c | InBounds(board', r, c) && !board'[r][c].mine
      ensures board'[r][c].count == MinesAround(board', r, c)
    {
      MinesAroundAdd(board, board', qr, qc, r, c);
    }
  }

  /** One more mine on the board adds one to the total. */
  lemma MineTotalAdd(board: seq<seq<Cell>>, board': seq<seq<Cell>>, qr: int, qc: int)
    requires |board'| == |board| && forall i | 0 <= i < |board| :: |board'[i]| == |board[i]|
    requires InBounds(board, qr, qc) && !board[qr][qc].mine
    requires forall i, j | InBounds(board, i, j) :: board'[i][j].mine == (board[i][j].mine || (i == qr && j == qc))
    ensures MineTotal(board') == MineTotal(board) + 1
  {
    var m := MineGrid(board);
    var m' := MineGrid(board');
    forall i | 0 <= i < |board|
      ensures m'[i] == m[qr := m[qr][qc := true]][i]
    {
    }
    assert m' == m[qr := m[qr][qc := true]];
    GridSet(m, qr, qc, true);
  }

  /** The board generateBoard has built after laying `placed` mines. */
  ghost predicate Generated(board: seq<seq<Cell>>, size: int, placed: nat) {
    Square(board, size) && CountsOk(board) && MineTotal(board) == placed &&
    forall i, j | InBounds(board, i, j) :: !board[i][j].flagged
  }

  /** generateBoard's step: a mine on a free cell, then updateCounts around it. */
  lemma PlaceMine(before: seq<seq<Cell>>, mid: seq<seq<Cell>>, after: seq<seq<Cell>>, size: int, placed: nat, r: int, c: int)
    requires Generated(before, size, placed) && InBounds(before, r, c) && !before[r][c].mine
    requires mid == before[r := before[r][c := before[r][c].(mine := true)]]
    requires Square(after, size)
    requires forall i, j | InBounds(after, i, j) ::
      after[i][j] == if InBlock(i, j, r, c) && !mid[i][j].mine then Bump(mid[i][j]) else mid[i][j]
    ensures Generated(after, size, placed + 1)
  {
    forall i, j | InBounds(after, i, j)
      ensures after[i][j].mine == (before[i][j].mine || (i == r && j == c))
      ensures !after[i][j].mine ==> after[i][j].count == before[i][j].count + (if InBlock(i, j, r, c) then 1 else 0)
      ensures after[i][j].flagged == before[i][j].flagged
    {
      assert mid[i][j] == if i == r && j == c then before[i][j].(mine := true) else before[i][j];
    }
    PlaceMineKeepsCounts(before, after, r, c);
    MineTotalAdd(before, after, r, c);
  }

  // ---------------------------------------------------------------------
  // The game

  class Game {
    var size: int
    var mineCount: int
    var board: seq<seq<Cell>>
    var revealed: seq<seq<bool>>
    var gameOver: bool
    var message: Message

    ghost predicate Shape()
      reads this
    {
      MinSize <= size <= MaxSize && Square(board, size) && Square(revealed, size)
    }

    /**
     * The counts are right, no more than mineCount mines were laid, a
     * revealed mine means the game was lost, and the message tells how the
     * game ended.
     */
    ghost predicate Valid()
      reads this
    {
      Shape() && CountsOk(board) && mineCount == MineCountFor(size) && MineTotal(board) <= mineCount &&
      (MineShown(revealed) ==> gameOver && message == GameOver) &&
      (gameOver <==> message != GoodLuck)
    }

    constructor (parsed: Option<int>, rng: Random, tries: nat)
      modifies rng
      ensures Valid() && size == ClampSize(parsed) && mineCount == MineCountFor(size)
      ensures revealed == Hidden(size) && !gameOver && message == GoodLuck
      ensures forall r, c | InBounds(board, r, c) :: !board[r][c].flagged
    {
      size := 8;
      mineCount := 0;
      board := [];
      revealed := [];
      gameOver := false;
      message := GoodLuck;
      new;
      StartGame(parsed, rng, tries);
    }

    /**
     * startGame: the size from the input, mineCount = floor(15% of the
     * cells), nothing revealed, and a freshly generated board.
     */
    method StartGame(parsed: Option<int>, rng: Random, tries: nat)
      modifies this, rng
      ensures Valid()
      ensures size == ClampSize(parsed) && mineCount == MineCountFor(size)
      ensures revealed == Hidden(size) && !gameOver && message == GoodLuck
      ensures forall r, c | InBounds(board, r, c) :: !board[r][c].flagged
    {
      size := ClampSize(parsed);
      mineCount := MineCountFor(size);
      gameOver := false;
      message := GoodLuck;
      revealed := Hidden(size);
      var placed := GenerateBoard(rng, tries);
    }

    /**
     * generateBoard: mines at random cells, skipping cells that already
     * hold one, until mineCount are laid (or the draws run out), each mine
     * followed by updateCounts.
     */
    method GenerateBoard(rng: Random, tries: nat) returns (placed: nat)
      requires MinSize <= size <= MaxSize
      modifies this, rng
      ensures size == old(size) && mineCount == old(mineCount) && revealed == old(revealed)
      ensures gameOver == old(gameOver) && message == old(message)
      ensures Square(board, size) && CountsOk(board)
      ensures MineTotal(board) == placed
      ensures placed <= mineCount || placed == 0
      ensures forall r, c | InBounds(board, r, c) :: !board[r][c].flagged
    {
      board := Blank(size);
      GridNone(MineGrid(board), true);
      placed := 0;
      var draws := 0;
      while placed < mineCount && draws < tries
        invariant size == old(size) && mineCount == old(mineCount) && revealed == old(revealed)
        invariant gameOver == old(gameOver) && message == old(message)
        invariant Generated(board, size, placed)
        invariant placed <= mineCount || placed == 0
        decreases tries - draws
      {
        var r := rng.Below(size);
        var c := rng.Below(size);
        draws := draws + 1;
        if !board[r][c].mine {
          LayMine(r, c, placed);
          placed := placed + 1;
        }
      }
    }

    /** generateBoard's step: a mine on the free cell (r, c), then updateCounts around it. */
    method LayMine(r: int, c: int, ghost placed: nat)
      requires Generated(board, size, placed) && InBounds(board, r, c) && !board[r][c].mine
      modifies this
      ensures Generated(board, size, placed + 1)
      ensures size == old(size) && mineCount == old(mineCount) && revealed == old(revealed)
      ensures gameOver == old(gameOver) && message == old(message)
    {
      ghost var before := board;
      board := board[r := board[r][c := board[r][c].(mine := true)]];
      ghost var mid := board;
      UpdateCounts(r, c);
      PlaceMine(before, mid, board, size, placed, r, c);
    }

    /** updateCounts: one more on every in-bounds non-mine cell of the 3x3 block around (r, c). */
    method UpdateCounts(r: int, c: int)
      requires Square(board, size)
      modifies this
      ensures size == old(size) && mineCount == old(mineCount) && revealed == old(revealed)
      ensures gameOver == old(gameOver) && message == old(message)
      ensures Square(board, size)
      ensures forall i, j | InBounds(board, i, j) ::
        board[i][j] == if InBlock(i, j, r, c) && !old(board)[i][j].mine then Bump(old(board)[i][j]) else old(board)[i][j]
    {
      ghost var b0: seq<seq<Cell>> := board;
      for dr := -1 to 2
        invariant Square(board, size) && size == old(size) && revealed == old(revealed)
        invariant mineCount == old(mineCount) && gameOver == old(gameOver) && message == old(message)
        invariant forall i, j | InBounds(board, i, j) ::
          board[i][j] == if InBlock(i, j, r, c) && i - r < dr && !b0[i][j].mine then Bump(b0[i][j]) else b0[i][j]
      {
        for dc := -1 to 2
          invariant Square(board, size) && size == old(size) && revealed == old(revealed)
          invariant mineCount == old(mineCount) && gameOver == old(gameOver) && message == old(message)
          invariant forall i, j | InBounds(board, i, j) ::
            board[i][j] == if InBlock(i, j, r, c) && (i - r < dr || (i - r == dr && j - c < dc)) && !b0[i][j].mine
              then Bump(b0[i][j]) else b0[i][j]
        {
          var nr := r + dr;
          var nc := c + dc;
          if nr >= 0 && nr < size && nc >= 0 && nc < size && !board[nr][nc].mine {
            board := board[nr := board[nr][nc := Bump(board[nr][nc])]];
          }
        }
      }
    }

    /** Some mine is revealed in `rev`. */
    ghost predicate MineShown(rev: seq<seq<bool>>)
      reads this
      requires Shape() && Square(rev, size)
    {
      exists r, c :: InBounds(board, r, c) && rev[r][c] && board[r][c].mine
    }

    /** A flood never reveals a mine. */
    lemma FloodShowsNoMine(rev0: seq<seq<bool>>, rev: seq<seq<bool>>)
      requires Shape() && Square(rev0, size) && Square(rev, size)
      requires Flooded(rev0, rev) && !MineShown(rev0)
      ensures !MineShown(rev)
    {
      forall r, c | InBounds(board, r, c) && rev[r][c]
        ensures !board[r][c].mine
      {
        if !rev0[r][c] {
          assert Newly(rev0, rev, r, c);
        }
      }
    }

    /** The in-bounds non-mine cells of the block around (r, c) are revealed. */
    ghost predicate BlockOpen(rev: seq<seq<bool>>, r: int, c: int)
      reads this
      requires Shape() && Square(rev, size)
    {
      forall i, j | InBounds(board, i, j) && InBlock(i, j, r, c) && !board[i][j].mine :: rev[i][j]
    }

    /** Cells revealed in `rev` but not in `rev0`. */
    ghost predicate Newly(rev0: seq<seq<bool>>, rev: seq<seq<bool>>, i: int, j: int)
      requires Square(rev0, |rev|) && Square(rev, |rev|)
    {
      0 <= i < |rev| && 0 <= j < |rev| && rev[i][j] && !rev0[i][j]
    }

    /**
     * What a flood from some cell leaves behind: nothing was hidden again,
     * only non-mines were revealed, and every newly revealed blank cell
     * has its whole block open.
     */
    ghost predicate Flooded(rev0: seq<seq<bool>>, rev: seq<seq<bool>>)
      reads this
      requires Shape() && Square(rev0, size) && Square(rev, size)
    {
      (forall i, j | InBounds(rev, i, j) && rev0[i][j] :: rev[i][j]) &&
      (forall i, j | Newly(rev0, rev, i, j) :: !board[i][j].mine) &&
      (forall i, j | Newly(rev0, rev, i, j) && board[i][j].count == 0 :: BlockOpen(rev, i, j))
    }

    lemma FloodedTrans(rev0: seq<seq<bool>>, rev1: seq<seq<bool>>, rev2: seq<seq<bool>>)
      requires Shape() && Square(rev0, size) && Square(rev1, size) && Square(rev2, size)
      requires Flooded(rev0, rev1) && Flooded(rev1, rev2)
      ensures Flooded(rev0, rev2)
    {
      forall i, j | Newly(rev0, rev2, i, j) && board[i][j].count == 0
        ensures BlockOpen(rev2, i, j)
      {
        if rev1[i][j] {
          assert Newly(rev0, rev1, i, j);
        } else {
          assert Newly(rev1, rev2, i, j);
        }
      }
    }

    /** Revealing one hidden non-mine cell, then flooding from it when it is blank. */
    lemma RevealThenFlood(before: seq<seq<bool>>, middle: seq<seq<bool>>, after: seq<seq<bool>>, nr: int, nc: int)
      requires Shape() && Square(before, size) && Square(after, size)
      requires InBounds(before, nr, nc) && !before[nr][nc] && !board[nr][nc].mine
      requires middle == before[nr := before[nr][nc := true]]
      requires Flooded(middle, after)
      requires board[nr][nc].count == 0 ==> BlockOpen(after, nr, nc)
      ensures Flooded(before, after)
    {
      forall i, j | Newly(before, after, i, j) && board[i][j].count == 0
        ensures BlockOpen(after, i, j)
      {
        if i != nr || j != nc {
          assert Newly(middle, after, i, j);
        }
      }
    }

    lemma FloodedRefl(rev: seq<seq<bool>>)
      requires Shape() && Square(rev, size)
      ensures Flooded(rev, rev)
    {
    }

    /** Every cell revealed in `rev0` is revealed in `rev`. */
    ghost predicate Grows(rev0: seq<seq<bool>>, rev: seq<seq<bool>>)
      requires Square(rev0, |rev|) && Square(rev, |rev|)
    {
      forall i, j | InBounds(rev, i, j) && rev0[i][j] :: rev[i][j]
    }

    /** Every in-bounds cell of the block around (r, c) is in S. */
    ghost predicate BlockIn(S: set<(int, int)>, r: int, c: int)
      reads this
    {
      forall i, j | InBounds(board, i, j) && InBlock(i, j, r, c) :: (i, j) in S
    }

    /** S is closed under the flood's step: a newly revealed blank cell of S has its block in S. */
    ghost predicate FloodClosed(rev0: seq<seq<bool>>, rev: seq<seq<bool>>, S: set<(int, int)>)
      reads this
      requires Shape() && Square(rev0, size) && Square(rev, size)
    {
      forall i, j | (i, j) in S && Newly(rev0, rev, i, j) && board[i][j].count == 0 :: BlockIn(S, i, j)
    }

    /** Every newly revealed cell is in S. */
    ghost predicate Within(rev0: seq<seq<bool>>, rev: seq<seq<bool>>, S: set<(int, int)>)
      requires Square(rev0, |rev|) && Square(rev, |rev|)
    {
      forall i, j | Newly(rev0, rev, i, j) :: (i, j) in S
    }

    /**
     * A flood from the blank cell (r, c) reveals nothing outside the least
     * set holding (r, c)'s block and the block of each newly revealed blank
     * cell in it: every newly revealed cell is reached from (r, c) through
     * newly revealed blank cells.
     */
    ghost predicate FloodBounded(rev0: seq<seq<bool>>, rev: seq<seq<bool>>, r: int, c: int)
      reads this
      requires Shape() && Square(rev0, size) && Square(rev, size)
    {
      forall S | BlockIn(S, r, c) && FloodClosed(rev0, rev, S) :: Within(rev0, rev, S)
    }

    /** The same bound for revealing (r, c) itself and flooding on from it. */
    ghost predicate RevealBounded(rev0: seq<seq<bool>>, rev: seq<seq<bool>>, r: int, c: int)
      reads this
      requires Shape() && Square(rev0, size) && Square(rev, size)
    {
      forall S | (r, c) in S && FloodClosed(rev0, rev, S) :: Within(rev0, rev, S)
    }

    /** Closedness survives a larger starting map or a smaller final one. */
    lemma ClosedMono(rev0: seq<seq<bool>>, rev0': seq<seq<bool>>, rev: seq<seq<bool>>, rev': seq<seq<bool>>, S: set<(int, int)>)
      requires Shape() && Square(rev0, size) && Square(rev0', size) && Square(rev, size) && Square(rev', size)
      requires Grows(rev0, rev0') && Grows(rev, rev') && FloodClosed(rev0, rev', S)
      ensures FloodClosed(rev0', rev, S)
    {
      forall i, j | (i, j) in S && Newly(rev0', rev, i, j) && board[i][j].count == 0
        ensures BlockIn(S, i, j)
      {
        assert Newly(rev0, rev', i, j);
      }
    }

    /** Revealing one hidden non-mine cell, then flooding from it when blank, stays within its region. */
    lemma RevealThenFloodBounded(before: seq<seq<bool>>, middle: seq<seq<bool>>, after: seq<seq<bool>>, nr: int, nc: int)
      requires Shape() && Square(before, size) && Square(after, size)
      requires InBounds(before, nr, nc) && !before[nr][nc]
      requires middle == before[nr := before[nr][nc := true]]
      requires Flooded(middle, after)
      requires board[nr][nc].count == 0 ==> FloodBounded(middle, after, nr, nc)
      requires board[nr][nc].count != 0 ==> after == middle
      ensures RevealBounded(before, after, nr, nc)
    {
      assert Grows(before, middle);
      assert Grows(after, after);
      forall S | (nr, nc) in S && FloodClosed(before, after, S)
        ensures Within(before, after, S)
      {
        ClosedMono(before, middle, after, after, S);
        if board[nr][nc].count == 0 {
          assert Newly(before, after, nr, nc);
          assert BlockIn(S, nr, nc);
        }
        forall i, j | Newly(before, after, i, j)
          ensures (i, j) in S
        {
          if i != nr || j != nc {
            assert Newly(middle, after, i, j);
          }
        }
      }
    }

    /** A blank cell has no mine among its neighbours. */
    lemma BlankBlockSafe(i: int, j: int, a: int, b: int)
      requires Shape() && CountsOk(board) && InBounds(board, i, j) && !board[i][j].mine && board[i][j].count == 0
      requires InBounds(board, a, b) && InBlock(a, b, i, j)
      ensures !board[a][b].mine
    {
      assert board[i][j].count == MinesAround(board, i, j);
      if a != i || b != j {
        assert MineAt(board, a, b) == 0;
      }
    }

    /** The cells revealed in `rev`, as a set. */
    ghost function RevealedSet(rev: seq<seq<bool>>): set<(int, int)>
      requires Square(rev, |rev|)
    {
      set i, j | 0 <= i < |rev| && 0 <= j < |rev| && rev[i][j] :: (i, j)
    }

    /** Every cell revealed in `rev2` is revealed in `rev1` when both come from the same click. */
    lemma RevealIncluded(rev0: seq<seq<bool>>, rev1: seq<seq<bool>>, rev2: seq<seq<bool>>, r: int, c: int)
      requires Shape() && CountsOk(board) && Square(rev0, size) && Square(rev1, size) && Square(rev2, size)
      requires InBounds(board, r, c) && Flooded(rev0, rev1) && rev1[r][c]
      requires Flooded(rev0, rev2) && RevealBounded(rev0, rev2, r, c)
      ensures forall i, j | InBounds(rev2, i, j) && rev2[i][j] :: rev1[i][j]
    {
      var S := RevealedSet(rev1);
      forall i, j | (i, j) in S && Newly(rev0, rev2, i, j) && board[i][j].count == 0
        ensures BlockIn(S, i, j)
      {
        assert Newly(rev0, rev1, i, j);
        forall a, b | InBounds(board, a, b) && InBlock(a, b, i, j)
          ensures (a, b) in S
        {
          BlankBlockSafe(i, j, a, b);
        }
      }
      assert (r, c) in S && FloodClosed(rev0, rev2, S);
      forall i, j | InBounds(rev2, i, j) && rev2[i][j]
        ensures rev1[i][j]
      {
        if !rev0[i][j] {
          assert Newly(rev0, rev2, i, j);
          assert (i, j) in S;
        }
      }
    }

    /**
     * The flood's two bounds fix its outcome: two maps that both reveal
     * (r, c), are Flooded and stay within (r, c)'s region are equal.
     */
    lemma FloodDetermined(rev0: seq<seq<bool>>, rev1: seq<seq<bool>>, rev2: seq<seq<bool>>, r: int, c: int)
      requires Shape() && CountsOk(board) && Square(rev0, size) && Square(rev1, size) && Square(rev2, size)
      requires InBounds(board, r, c)
      requires Flooded(rev0, rev1) && rev1[r][c] && RevealBounded(rev0, rev1, r, c)
      requires Flooded(rev0, rev2) && rev2[r][c] && RevealBounded(rev0, rev2, r, c)
      ensures rev1 == rev2
    {
      RevealIncluded(rev0, rev1, rev2, r, c);
      RevealIncluded(rev0, rev2, rev1, r, c);
      forall i | 0 <= i < size
        ensures rev1[i] == rev2[i]
      {
        assert forall j | 0 <= j < size :: rev1[i][j] == rev2[i][j];
      }
    }

    /** The state of floodReveal's loops after the offsets before (dr, dc). */
    ghost predicate FloodLoop(rev0: seq<seq<bool>>, rev: seq<seq<bool>>, r: int, c: int, dr: int, dc: int)
      reads this
      requires Shape() && Square(rev0, size)
    {
      Square(rev, size) && Flooded(rev0, rev) && FloodBounded(rev0, rev, r, c) &&
      GridCount(rev, false) <= GridCount(rev0, false) &&
      forall i, j | InBounds(board, i, j) && InBlock(i, j, r, c) && (i - r < dr || (i - r == dr && j - c < dc)) && !board[i][j].mine ::
        rev[i][j]
    }

    /** floodReveal's inner loop moves past offset (dr, dc). */
    lemma FloodAdvance(rev0: seq<seq<bool>>, before: seq<seq<bool>>, after: seq<seq<bool>>, r: int, c: int, dr: int, dc: int)
      requires Shape() && Square(rev0, size) && FloodLoop(rev0, before, r, c, dr, dc)
      requires Square(after, size) && Flooded(before, after) && GridCount(after, false) <= GridCount(before, false)
      requires InBounds(board, r + dr, c + dc) && !board[r + dr][c + dc].mine ==> after[r + dr][c + dc]
      requires -1 <= dr <= 1 && -1 <= dc <= 1
      requires after == before || (InBounds(board, r + dr, c + dc) && RevealBounded(before, after, r + dr, c + dc))
      ensures FloodLoop(rev0, after, r, c, dr, dc + 1)
    {
      FloodedTrans(rev0, before, after);
      FloodStepBounded(rev0, before, after, r, c, r + dr, c + dc);
      FloodBlockAdvance(before, after, r, c, dr, dc);
    }

    /** The part of the block around (r, c) already visited is open, one offset further on. */
    lemma FloodBlockAdvance(before: seq<seq<bool>>, after: seq<seq<bool>>, r: int, c: int, dr: int, dc: int)
      requires Shape() && Square(before, size) && Square(after, size) && Flooded(before, after)
      requires forall i, j | InBounds(board, i, j) && InBlock(i, j, r, c) && (i - r < dr || (i - r == dr && j - c < dc)) && !board[i][j].mine ::
        before[i][j]
      requires InBounds(board, r + dr, c + dc) && !board[r + dr][c + dc].mine ==> after[r + dr][c + dc]
      ensures forall i, j | InBounds(board, i, j) && InBlock(i, j, r, c) && (i - r < dr || (i - r == dr && j - c < dc + 1)) && !board[i][j].mine ::
        after[i][j]
    {
    }

    /** What the flood from a neighbour (nr, nc) reveals stays within the region of (r, c). */
    lemma FloodStepBounded(rev0: seq<seq<bool>>, before: seq<seq<bool>>, after: seq<seq<bool>>, r: int, c: int, nr: int, nc: int)
      requires Shape() && Square(rev0, size) && Square(before, size) && Square(after, size)
      requires Flooded(rev0, before) && Flooded(before, after) && FloodBounded(rev0, before, r, c)
      requires after == before || (InBounds(board, nr, nc) && InBlock(nr, nc, r, c) && RevealBounded(before, after, nr, nc))
      ensures FloodBounded(rev0, after, r, c)
    {
      assert Grows(rev0, rev0) && Grows(rev0, before) && Grows(before, after);
      forall S | BlockIn(S, r, c) && FloodClosed(rev0, after, S)
        ensures Within(rev0, after, S)
      {
        ClosedMono(rev0, rev0, before, after, S);
        if after != before {
          assert (nr, nc) in S;
          ClosedMono(rev0, before, after, after, S);
        }
        forall i, j | Newly(rev0, after, i, j)
          ensures (i, j) in S
        {
          if before[i][j] {
            assert Newly(rev0, before, i, j);
          } else {
            assert Newly(before, after, i, j);
          }
        }
      }
    }

    lemma FloodNextRow(rev0: seq<seq<bool>>, rev: seq<seq<bool>>, r: int, c: int, dr: int)
      requires Shape() && Square(rev0, size) && FloodLoop(rev0, rev, r, c, dr, 2)
      ensures FloodLoop(rev0, rev, r, c, dr + 1, -1)
    {
    }

    lemma FloodDone(rev0: seq<seq<bool>>, rev: seq<seq<bool>>, r: int, c: int)
      requires Shape() && Square(rev0, size) && FloodLoop(rev0, rev, r, c, 2, -1)
      ensures BlockOpen(rev, r, c) && FloodBounded(rev0, rev, r, c)
    {
    }

    /**
     * floodReveal: reveals every in-bounds, hidden, non-mine cell around
     * (r, c), and floods on from each one that has no mine around it.
     */
    method FloodReveal(r: int, c: int)
      requires Shape()
      modifies this
      ensures Shape() && board == old(board) && size == old(size) && mineCount == old(mineCount)
      ensures gameOver == old(gameOver) && message == old(message)
      ensures Flooded(old(revealed), revealed)
      ensures GridCount(revealed, false) <= GridCount(old(revealed), false)
      ensures BlockOpen(revealed, r, c) && FloodBounded(old(revealed), revealed, r, c)
      decreases GridCount(revealed, false), 2
    {
      ghost var rev0 := revealed;
      FloodedRefl(rev0);
      for dr := -1 to 2
        invariant Shape() && board == old(board) && size == old(size) && mineCount == old(mineCount)
        invariant gameOver == old(gameOver) && message == old(message)
        invariant FloodLoop(rev0, revealed, r, c, dr, -1)
      {
        for dc := -1 to 2
          invariant Shape() && board == old(board) && size == old(size) && mineCount == old(mineCount)
          invariant gameOver == old(gameOver) && message == old(message)
          invariant FloodLoop(rev0, revealed, r, c, dr, dc)
        {
          FloodOffset(r, c, dr, dc, rev0);
        }
        FloodNextRow(rev0, revealed, r, c, dr);
      }
      FloodDone(rev0, revealed, r, c);
    }

    /** floodReveal's inner step at offset (dr, dc): a hidden non-mine neighbour is revealed and flooded from. */
    method FloodOffset(r: int, c: int, dr: int, dc: int, ghost rev0: seq<seq<bool>>)
      requires Shape() && Square(rev0, size) && FloodLoop(rev0, revealed, r, c, dr, dc)
      requires -1 <= dr <= 1 && -1 <= dc <= 1
      modifies this
      ensures Shape() && board == old(board) && size == old(size) && mineCount == old(mineCount)
      ensures gameOver == old(gameOver) && message == old(message)
      ensures FloodLoop(rev0, revealed, r, c, dr, dc + 1)
      decreases GridCount(rev0, false), 1
    {
      var nr := r + dr;
      var nc := c + dc;
      ghost var before := revealed;
      if nr >= 0 && nr < size && nc >= 0 && nc < size && !revealed[nr][nc] && !board[nr][nc].mine {
        RevealAndFlood(nr, nc);
      } else {
        FloodedRefl(revealed);
      }
      FloodAdvance(rev0, before, revealed, r, c, dr, dc);
    }

    /** floodReveal's loop body: reveal one hidden non-mine cell, and flood from it when it is blank. */
    method RevealAndFlood(nr: int, nc: int)
      requires Shape() && 0 <= nr < size && 0 <= nc < size && !revealed[nr][nc] && !board[nr][nc].mine
      modifies this
      ensures Shape() && board == old(board) && size == old(size) && mineCount == old(mineCount)
      ensures gameOver == old(gameOver) && message == old(message)
      ensures Flooded(old(revealed), revealed) && revealed[nr][nc] && RevealBounded(old(revealed), revealed, nr, nc)
      ensures board[nr][nc].count == 0 ==> BlockOpen(revealed, nr, nc)
      ensures GridCount(revealed, false) < GridCount(old(revealed), false)
      decreases GridCount(revealed, false), 0
    {
      ghost var before := revealed;
      GridSet(revealed, nr, nc, true);
      revealed := revealed[nr := revealed[nr][nc := true]];
      ghost var middle := revealed;
      if board[nr][nc].count > 0 {
        // the number is shown
        FloodedRefl(revealed);
        RevealThenFlood(before, middle, revealed, nr, nc);
        RevealThenFloodBounded(before, middle, revealed, nr, nc);
      } else {
        FloodReveal(nr, nc);
        RevealThenFlood(before, middle, revealed, nr, nc);
        RevealThenFloodBounded(before, middle, revealed, nr, nc);
      }
    }

    /**
     * revealCell: ignored once the game is over and on revealed or flagged
     * cells; a mine loses the game; otherwise a blank cell floods, and the
     * win is checked.
     */
    method RevealCell(row: int, col: int)
      requires Valid() && 0 <= row < size && 0 <= col < size
      modifies this
      ensures Valid() && board == old(board) && size == old(size)
      ensures old(gameOver) || old(revealed)[row][col] || old(board)[row][col].flagged ==>
        revealed == old(revealed) && gameOver == old(gameOver) && message == old(message)
      ensures !old(gameOver) && !old(revealed)[row][col] && !old(board)[row][col].flagged && board[row][col].mine ==>
        gameOver && message == GameOver && revealed == old(revealed)[row := old(revealed)[row][col := true]]
      ensures !old(gameOver) && !old(revealed)[row][col] && !old(board)[row][col].flagged && !board[row][col].mine ==>
        Flooded(old(revealed), revealed) && revealed[row][col] &&
        (board[row][col].count == 0 ==> BlockOpen(revealed, row, col)) &&
        RevealBounded(old(revealed), revealed, row, col) &&
        (gameOver <==> GridCount(revealed, true) == size * size - mineCount) &&
        (gameOver ==> message == YouWin)
      ensures forall i, j | InBounds(revealed, i, j) && old(revealed)[i][j] :: revealed[i][j]
    {
      if gameOver {
        return;
      }
      if revealed[row][col] || board[row][col].flagged {
        return;
      }
      if board[row][col].mine {
        revealed := revealed[row := revealed[row][col := true]];
        gameOver := true;
        message := GameOver;
      } else {
        OpenSafe(row, col);
      }
    }

    /** revealCell on a hidden, unflagged cell without a mine: show it, flood from a blank, check the win. */
    method OpenSafe(row: int, col: int)
      requires Valid() && 0 <= row < size && 0 <= col < size
      requires !gameOver && !revealed[row][col] && !board[row][col].flagged && !board[row][col].mine
      modifies this
      ensures Valid() && board == old(board) && size == old(size)
      ensures Flooded(old(revealed), revealed) && revealed[row][col] &&
        (board[row][col].count == 0 ==> BlockOpen(revealed, row, col)) &&
        RevealBounded(old(revealed), revealed, row, col) &&
        (gameOver <==> GridCount(revealed, true) == size * size - mineCount) &&
        (gameOver ==> message == YouWin)
      ensures forall i, j | InBounds(revealed, i, j) && old(revealed)[i][j] :: revealed[i][j]
    {
      ShowCell(row, col);
      CheckWin();
    }

    /** The cell is shown, and a blank one floods its neighbours. */
    method ShowCell(row: int, col: int)
      requires Valid() && 0 <= row < size && 0 <= col < size
      requires !gameOver && !revealed[row][col] && !board[row][col].mine
      modifies this
      ensures Valid() && board == old(board) && size == old(size) && mineCount == old(mineCount)
      ensures gameOver == old(gameOver) && message == old(message)
      ensures Flooded(old(revealed), revealed) && revealed[row][col] &&
        (board[row][col].count == 0 ==> BlockOpen(revealed, row, col))
      ensures RevealBounded(old(revealed), revealed, row, col)
    {
      ghost var rev0 := revealed;
      RevealAndFlood(row, col);
      FloodShowsNoMine(rev0, revealed);
    }

    /** The revealed cells, counted row by row. */
    method CountRevealed() returns (revealedCount: nat)
      requires Shape()
      ensures revealedCount == GridCount(revealed, true)
    {
      revealedCount := 0;
      for r := 0 to size
        invariant revealedCount == GridCount(revealed[..r], true)
      {
        var inRow := 0;
        for c := 0 to size
          invariant inRow == RowCount(revealed[r][..c], true)
        {
          assert revealed[r][..c + 1][..c] == revealed[r][..c];
          if revealed[r][c] {
            inRow := inRow + 1;
          }
        }
        assert revealed[r][..size] == revealed[r];
        assert revealed[..r + 1][..r] == revealed[..r];
        revealedCount := revealedCount + inRow;
      }
      assert revealed[..size] == revealed;
    }

    /** checkWin: the game is won once size*size - mineCount cells are revealed. */
    method CheckWin()
      requires Shape() && !gameOver && message == GoodLuck
      modifies this
      ensures board == old(board) && revealed == old(revealed) && size == old(size) && mineCount == old(mineCount)
      ensures gameOver <==> GridCount(revealed, true) == size * size - mineCount
      ensures message == if gameOver then YouWin else GoodLuck
    {
      var revealedCount := CountRevealed();
      if revealedCount == size * size - mineCount {
        gameOver := true;
        message := YouWin;
      }
    }

    /** flagCell: toggles the flag of a hidden cell while the game is on. */
    method FlagCell(row: int, col: int)
      requires Valid() && 0 <= row < size && 0 <= col < size
      modifies this
      ensures Valid() && revealed == old(revealed) && gameOver == old(gameOver) && message == old(message)
      ensures old(gameOver) || old(revealed)[row][col] ==> board == old(board)
      ensures !old(gameOver) && !old(revealed)[row][col] ==>
        board == old(board)[row := old(board)[row][col := old(board)[row][col].(flagged := !old(board)[row][col].flagged)]]
    {
      if gameOver {
        return;
      }
      if revealed[row][col] {
        return;
      }
      ghost var before := board;
      board := board[row := board[row][col := board[row][col].(flagged := !board[row][col].flagged)]];
      FlagsKeepCounts(before, board);
    }
  }
}
