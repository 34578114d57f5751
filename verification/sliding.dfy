/*
 * The 15-puzzle (puzzle-hub/public/sliding/sliding.js): sixteen cells in
 * row-major order on a 4×4 grid, holding the tiles 1..15 and one blank.
 * The page stores the blank as null; here it is the value 0, which no
 * tile has.  A tile next to the blank slides into it; shuffle walks the
 * blank randomly from the solved layout.
 */
module Sliding {
  import opened Common

  const Side := 4
  const Cells := 16
  const Blank := 0
  const ShuffleMoves := 1000

  /** [1, 2, …, 15, blank] */
  function Solved(): (t: seq<int>)
    ensures |t| == Cells && t[Cells - 1] == Blank
    ensures forall i | 0 <= i < Cells - 1 :: t[i] == i + 1
  {
    seq(Cells, i => if i < Cells - 1 then i + 1 else Blank)
  }

  /** The tiles are the solved layout's, rearranged. */
  ghost const Layout := multiset(Solved())

  ghost predicate Perm(t: seq<int>) {
    multiset(t) == Layout
  }

  function Abs(x: int): nat {
    if x < 0 then -x else x
  }

  /** Manhattan distance between two cells of the grid. */
  function Distance(a: nat, b: nat): nat {
    Abs(a / Side - b / Side) + Abs(a % Side - b % Side)
  }

  function Swap(t: seq<int>, i: nat, j: nat): (r: seq<int>)
    requires i < |t| && j < |t|
    ensures |r| == |t| && r[i] == t[j] && r[j] == t[i]
    ensures forall k | 0 <= k < |t| && k != i && k != j :: r[k] == t[k]
  {
    t[i := t[j]][j := t[i]]
  }

  /**
   * getAdjacentIndices: the cells above, below, left and right of `index`
   * that lie on the grid.
   */
  function AdjacentIndices(index: nat): (moves: seq<nat>)
    requires index < Cells
    ensures forall j: nat :: j in moves <==> j < Cells && Distance(index, j) == 1
    ensures forall k | 0 <= k < |moves| :: moves[k] < Cells && Distance(index, moves[k]) == 1
    ensures 2 <= |moves| <= 4 && Distinct(moves)
  {
    NeighbourCells(index);
    var row := index / Side;
    var col := index % Side;
    (if row > 0 then [index - Side] else []) +
    (if row < Side - 1 then [index + Side] else []) +
    (if col > 0 then [index - 1] else []) +
    (if col < Side - 1 then [index + 1] else [])
  }

  /** The cells at distance 1 from `index` are the ones above, below, left and right of it. */
  lemma NeighbourCells(index: nat)
    requires index < Cells
    ensures forall j: nat :: j < Cells && Distance(index, j) == 1 <==>
      (j == index - Side && index / Side > 0) || (j == index + Side && index / Side < Side - 1) ||
      (j == index - 1 && index % Side > 0) || (j == index + 1 && index % Side < Side - 1)
  {
    forall j: nat
      ensures j < Cells && Distance(index, j) == 1 <==>
        (j == index - Side && index / Side > 0) || (j == index + Side && index / Side < Side - 1) ||
        (j == index - 1 && index % Side > 0) || (j == index + 1 && index % Side < Side - 1)
    {
      assert index == Side * (index / Side) + index % Side;
      assert j == Side * (j / Side) + j % Side;
    }
  }

  /** tiles.indexOf(null) */
  function BlankIndex(t: seq<int>): (e: nat)
    requires Perm(t)
    ensures |t| == Cells && e < Cells && t[e] == Blank && e == IndexOf(t, Blank)
  {
    BlankIsThere(t);
    IndexOf(t, Blank)
  }

  /** handleTileClick on tiles `t`: a tile next to the blank swaps with it. */
  function Click(t: seq<int>, index: nat): (r: seq<int>)
    requires Perm(t) && index < Cells
  {
    var e := BlankIndex(t);
    if Distance(index, e) == 1 then Swap(t, index, e) else t
  }

  /** Clicks applied one after another. */
  function Walk(t: seq<int>, clicks: seq<nat>): (r: seq<int>)
    requires Perm(t) && forall k | 0 <= k < |clicks| :: clicks[k] < Cells
    ensures Perm(r)
    decreases |clicks|
  {
    if |clicks| == 0 then t else ClickKeepsPerm(t, clicks[0]); Walk(Click(t, clicks[0]), clicks[1..])
  }

  lemma SolvedBlankOnce()
    ensures multiset(Solved())[Blank] == 1 && |multiset(Solved())| == Cells
  {
    var s := Solved();
    assert s == s[..Cells - 1] + [Blank];
    assert Blank !in s[..Cells - 1];
  }

  /** A value at two positions is counted twice. */
  lemma TwoPositions(t: seq<int>, i: nat, j: nat)
    requires i < j < |t| && t[i] == t[j]
    ensures multiset(t)[t[i]] >= 2
  {
    assert t == t[..j] + t[j..];
    assert t[i] in t[..j];
    assert t[j] in t[j..];
  }

  /** Every permutation of the layout has 16 cells and the blank exactly once, at `k`. */
  lemma BlankAt(t: seq<int>, k: nat)
    requires Perm(t) && k < |t| && t[k] == Blank
    ensures |t| == Cells && IndexOf(t, Blank) == k
  {
    SolvedBlankOnce();
    var r := IndexOf(t, Blank);
    if r < k {
      TwoPositions(t, r, k);
    }
  }

  lemma BlankIsThere(t: seq<int>)
    requires Perm(t)
    ensures |t| == Cells && 0 <= IndexOf(t, Blank) < Cells
  {
    SolvedBlankOnce();
    assert Blank in multiset(t);
  }

  /** Swaps only rearrange the tiles. */
  lemma SwapKeepsPerm(t: seq<int>, i: nat, j: nat)
    requires Perm(t) && i < |t| && j < |t|
    ensures Perm(Swap(t, i, j))
  {
    SwapKeepsMultiset(t, i, j);
  }

  lemma ClickKeepsPerm(t: seq<int>, index: nat)
    requires Perm(t) && index < Cells
    ensures Perm(Click(t, index))
  {
    SwapKeepsPerm(t, index, BlankIndex(t));
  }

  /** Clicking where the blank was undoes a move. */
  lemma ClickUndo(t: seq<int>, index: nat)
    requires Perm(t) && index < Cells
    ensures Perm(Click(t, index)) && Click(Click(t, index), BlankIndex(t)) == t
  {
    ClickKeepsPerm(t, index);
    var e := BlankIndex(t);
    if Distance(index, e) == 1 {
      SwapBack(t, index);
    } else {
      assert Click(t, index) == t;
      assert Distance(e, e) == 0;
    }
  }

  /** A tile slid into the blank slides back when the cell it left is clicked. */
  lemma SwapBack(t: seq<int>, index: nat)
    requires Perm(t) && index < Cells && Distance(index, BlankIndex(t)) == 1
    ensures Perm(Click(t, index)) && Click(Click(t, index), BlankIndex(t)) == t
  {
    ClickKeepsPerm(t, index);
    var e := BlankIndex(t);
    var u := Swap(t, index, e);
    assert Click(t, index) == u;
    BlankAt(u, index);
    assert Distance(e, index) == 1;
    assert Swap(u, e, index) == t;
  }

  /** Every position a walk reaches can be walked back to where it started. */
  lemma {:induction false} WalkBack(t: seq<int>, clicks: seq<nat>) returns (back: seq<nat>)
    requires Perm(t) && forall k | 0 <= k < |clicks| :: clicks[k] < Cells
    ensures forall k | 0 <= k < |back| :: back[k] < Cells
    ensures Walk(Walk(t, clicks), back) == t
    decreases |clicks|
  {
    if |clicks| == 0 {
      back := [];
    } else {
      ClickKeepsPerm(t, clicks[0]);
      var u := Click(t, clicks[0]);
      var rest := WalkBack(u, clicks[1..]);
      ClickUndo(t, clicks[0]);
      var e := BlankIndex(t);
      back := rest + [e];
      WalkSnoc(Walk(t, clicks), rest, e);
    }
  }

  /** Walking `clicks` then one more click. */
  lemma {:induction false} WalkSnoc(t: seq<int>, clicks: seq<nat>, last: nat)
    requires Perm(t) && last < Cells && forall k | 0 <= k < |clicks| :: clicks[k] < Cells
    ensures Walk(t, clicks + [last]) == Click(Walk(t, clicks), last)
    decreases |clicks|
  {
    if |clicks| == 0 {
      assert Walk(Click(t, last), []) == Click(t, last);
    } else {
      ClickKeepsPerm(t, clicks[0]);
      assert (clicks + [last])[1..] == clicks[1..] + [last];
      WalkSnoc(Click(t, clicks[0]), clicks[1..], last);
    }
  }

  /** A position reached from the solved layout by clicks can be solved again. */
  lemma Solvable(clicks: seq<nat>) returns (back: seq<nat>)
    requires forall k | 0 <= k < |clicks| :: clicks[k] < Cells
    ensures forall k | 0 <= k < |back| :: back[k] < Cells
    ensures Walk(Walk(Solved(), clicks), back) == Solved()
  {
    back := WalkBack(Solved(), clicks);
  }

  /** shuffle's loop state: the blank is at `blankIndex` of `start` walked by `clicks`. */
  ghost predicate Shuffled(start: seq<int>, tiles: seq<int>, blankIndex: nat, clicks: seq<nat>) {
    Perm(start) && |tiles| == Cells && Perm(tiles) && blankIndex < Cells && tiles[blankIndex] == Blank &&
    (forall k | 0 <= k < |clicks| :: clicks[k] < Cells) && tiles == Walk(start, clicks)
  }

  lemma ShuffleStart()
    ensures Shuffled(Solved(), Solved(), Cells - 1, [])
  {
  }

  /** Swapping the blank with a neighbour is a click on that neighbour. */
  lemma ShuffleStep(start: seq<int>, tiles: seq<int>, blankIndex: nat, clicks: seq<nat>, rand: nat)
    requires Shuffled(start, tiles, blankIndex, clicks) && rand < Cells && Distance(blankIndex, rand) == 1
    ensures Shuffled(start, tiles[blankIndex := tiles[rand]][rand := tiles[blankIndex]], rand, clicks + [rand])
  {
    WalkSnoc(start, clicks, rand);
    SwapIsClick(tiles, blankIndex, rand);
  }

  /** With the blank at `blankIndex`, swapping it with a neighbour `rand` is clicking `rand`. */
  lemma SwapIsClick(tiles: seq<int>, blankIndex: nat, rand: nat)
    requires Perm(tiles) && |tiles| == Cells && blankIndex < Cells && tiles[blankIndex] == Blank && rand < Cells && Distance(blankIndex, rand) == 1
    ensures tiles[blankIndex := tiles[rand]][rand := tiles[blankIndex]] == Click(tiles, rand)
    ensures Perm(Click(tiles, rand)) && Click(tiles, rand)[rand] == Blank
  {
    BlankAt(tiles, blankIndex);
    assert Distance(rand, blankIndex) == 1;
    SwapKeepsPerm(tiles, rand, blankIndex);
  }

  /** `t` is the solved layout walked by `clicks`. */
  ghost predicate Walked(t: seq<int>, clicks: seq<nat>) {
    Perm(t) && (forall k | 0 <= k < |clicks| :: clicks[k] < Cells) && t == Walk(Solved(), clicks)
  }

  /**
   * shuffle's loop: from the solved layout the blank makes 1000 random
   * steps to adjacent cells.  The result is the solved layout walked by
   * the returned clicks, so it can be solved again.
   */
  method BlankWalk(rng: Random) returns (t: seq<int>, ghost clicks: seq<nat>)
    modifies rng
    ensures |clicks| == ShuffleMoves && Walked(t, clicks)
  {
    t := Solved();
    ghost var start := t;
    var blankIndex: nat := Cells - 1;
    clicks := [];
    ShuffleStart();
    for i := 0 to ShuffleMoves
      invariant Shuffled(start, t, blankIndex, clicks) && |clicks| == i
    {
      var neighbors := AdjacentIndices(blankIndex);
      var pick := rng.Below(|neighbors|);
      var rand := neighbors[pick];
      ShuffleStep(start, t, blankIndex, clicks, rand);
      t := t[blankIndex := t[rand]][rand := t[blankIndex]];
      blankIndex := rand;
      clicks := clicks + [rand];
    }
  }

  class Puzzle {
    var tiles: seq<int>
    var moveCount: nat
    var won: bool

    ghost predicate Valid()
      reads this
    {
      Perm(tiles)
    }

    /** init: the tiles are created and shuffled, so they are walked from the solved layout. */
    constructor (rng: Random)
      modifies rng
      ensures Valid() && moveCount == 0 && !won
      ensures exists clicks :: |clicks| == ShuffleMoves && Walked(tiles, clicks)
    {
      tiles := Solved();
      moveCount := 0;
      won := false;
      new;
      ghost var clicks := Shuffle(rng);
    }

    /** createTiles: the solved layout. */
    method CreateTiles()
      modifies this
      ensures tiles == Solved() && moveCount == old(moveCount) && won == old(won)
    {
      tiles := Solved();
    }

    /**
     * handleTileClick: a tile at Manhattan distance 1 from the blank
     * swaps with it and the move is counted; any other click does nothing.
     */
    method HandleTileClick(index: nat)
      requires Valid() && index < Cells
      modifies this
      ensures Valid() && tiles == Click(old(tiles), index)
      ensures if Distance(index, BlankIndex(old(tiles))) == 1 then
          moveCount == old(moveCount) + 1 && won == (old(won) || tiles == Solved())
        else
          tiles == old(tiles) && moveCount == old(moveCount) && won == old(won)
    {
      ClickKeepsPerm(tiles, index);
      var emptyIndex := BlankIndex(tiles);
      if Distance(index, emptyIndex) == 1 {
        tiles := tiles[index := tiles[emptyIndex]][emptyIndex := tiles[index]];
        moveCount := moveCount + 1;
        CheckWin();
      }
    }

    /**
     * shuffle: the tiles are the solved layout after the blank's random
     * walk, and the move count restarts.
     */
    method Shuffle(rng: Random) returns (ghost clicks: seq<nat>)
      modifies this, rng
      ensures Valid() && moveCount == 0 && !won
      ensures |clicks| == ShuffleMoves && Walked(tiles, clicks)
    {
      var t;
      t, clicks := BlankWalk(rng);
      tiles, moveCount, won := t, 0, false;
    }

    /** checkWin: the win is shown once the tiles match the solved layout. */
    method CheckWin()
      modifies this
      ensures tiles == old(tiles) && moveCount == old(moveCount)
      ensures won == (old(won) || tiles == Solved())
    {
      if tiles == Solved() {
        won := true;
      }
    }
  }
}
