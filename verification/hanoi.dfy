/*
 * Tower of Hanoi (puzzle-hub/public/hanoi/hanoi.js): three towers, each a
 * list of disk sizes from bottom to top.  A disk is dragged off the top of
 * a tower and dropped on another whose top disk is larger (or which is
 * empty); the game is won when the third tower holds every disk.
 */
module Hanoi {
  import opened Common

  const Towers := 3

  /** A drag in progress: the disk's size and the tower it came from. */
  datatype Dragged = Dragged(size: int, from: int)

  datatype Message = Instructions | Illegal | Won(moves: nat)

  /** Tower 0 at the start: NUM_DISKS, …, 1 from bottom to top. */
  function StartTower(n: int): (t: seq<int>)
    ensures |t| == (if n < 0 then 0 else n)
    ensures forall k | 0 <= k < |t| :: t[k] == n - k
  {
    if n <= 0 then [] else seq(n, k => n - k)
  }

  /** startGame's loop pushing disks n, n - 1, ..., 1 onto the first tower. */
  method BuildTower(n: int) returns (tower: seq<int>)
    ensures tower == StartTower(n)
  {
    tower := [];
    var i := n;
    while i >= 1
      invariant n >= 1 ==> 0 <= i <= n && tower == StartTower(n)[..n - i]
      invariant n < 1 ==> i == n && tower == []
      decreases i
    {
      tower := tower + [i];
      i := i - 1;
    }
  }

  /** Bottom to top, every disk is smaller than the ones below it. */
  ghost predicate Decreasing(t: seq<int>) {
    forall i, j | 0 <= i < j < |t| :: t[i] > t[j]
  }

  /** All the disks on the board. */
  ghost function Disks(board: seq<seq<int>>): multiset<int>
    requires |board| == Towers
  {
    multiset(board[0]) + multiset(board[1]) + multiset(board[2])
  }

  /** The top disk of a tower; an empty tower has none (it accepts any disk). */
  function Top(t: seq<int>): (top: Option<int>)
    ensures top.Some? <==> |t| > 0
    ensures top.Some? ==> top.value == t[|t| - 1]
  {
    if |t| == 0 then None else Some(t[|t| - 1])
  }

  /** Whether a disk of `size` may be dropped on tower `t`. */
  function Accepts(t: seq<int>, size: int): (ok: bool)
    ensures ok <==> |t| == 0 || size < t[|t| - 1]
  {
    match Top(t)
    case None => true
    case Some(top) => size < top
  }

  lemma StartTowerDecreasing(n: int)
    ensures Decreasing(StartTower(n))
  {
  }

  /** Pushing a disk smaller than the top keeps a tower decreasing. */
  lemma PushKeepsDecreasing(t: seq<int>, size: int)
    requires Decreasing(t) && Accepts(t, size)
    ensures Decreasing(t + [size])
  {
  }

  lemma PopKeepsDecreasing(t: seq<int>)
    requires Decreasing(t) && |t| > 0
    ensures Decreasing(t[..|t| - 1])
  {
  }

  /** In a decreasing tower, disk i is at least j - i larger than disk j. */
  lemma {:induction false} DecreasingGap(t: seq<int>, i: nat, j: nat)
    requires Decreasing(t) && i <= j < |t|
    ensures t[i] >= t[j] + (j - i)
    decreases j - i
  {
    if i < j {
      DecreasingGap(t, i + 1, j);
    }
  }

  /** A decreasing tower of n disks with sizes in 1..n is exactly the starting tower. */
  lemma FullTower(t: seq<int>, n: int)
    requires Decreasing(t) && |t| == n && forall k | 0 <= k < |t| :: 1 <= t[k] <= n
    ensures t == StartTower(n)
  {
    forall k | 0 <= k < |t|
      ensures t[k] == n - k
    {
      DecreasingGap(t, 0, k);
      DecreasingGap(t, k, |t| - 1);
    }
  }

  lemma {:induction false} InStart(n: int, x: int)
    ensures x in multiset(StartTower(n)) <==> 1 <= x <= n
  {
    if 1 <= x <= n {
      assert StartTower(n)[n - x] == x;
    }
  }

  /**
   * Once the third tower holds NUM_DISKS disks, it holds every disk in
   * order and the other two towers are empty.
   */
  lemma WinIsComplete(board: seq<seq<int>>, n: int)
    requires Legal(board, n) && |board[2]| == n
    ensures board[2] == StartTower(n) && board[0] == [] && board[1] == []
  {
    assert |Disks(board)| == |board[0]| + |board[1]| + n;
    forall k | 0 <= k < |board[2]|
      ensures 1 <= board[2][k] <= n
    {
      assert board[2][k] in multiset(board[2]);
      InStart(n, board[2][k]);
    }
    FullTower(board[2], n);
  }

  /** Three decreasing towers holding exactly the disks 1..n. */
  ghost predicate Legal(board: seq<seq<int>>, n: int) {
    |board| == Towers && (forall k | 0 <= k < Towers :: Decreasing(board[k])) &&
    Disks(board) == multiset(StartTower(n))
  }

  lemma DisksUpdate(board: seq<seq<int>>, k: int, t: seq<int>)
    requires |board| == Towers && 0 <= k < Towers
    ensures Disks(board[k := t]) + multiset(board[k]) == Disks(board) + multiset(t)
  {
  }

  /** The top disk of tower `from` moved onto tower `target`. */
  function Move(board: seq<seq<int>>, from: int, target: int): (after: seq<seq<int>>)
    requires |board| == Towers && 0 <= from < Towers && 0 <= target < Towers && |board[from]| > 0
    ensures |after| == Towers
  {
    var moved := board[from := board[from][..|board[from]| - 1]];
    moved[target := moved[target] + [board[from][|board[from]| - 1]]]
  }

  /**
   * A legal move keeps every tower decreasing and the set of disks the
   * same, one disk lighter on `from` and one heavier on `target`.
   */
  lemma MoveKeepsLegal(board: seq<seq<int>>, n: int, from: int, target: int)
    requires Legal(board, n) && 0 <= from < Towers && 0 <= target < Towers && from != target && |board[from]| > 0
    requires Accepts(board[target], board[from][|board[from]| - 1])
    ensures Legal(Move(board, from, target), n)
    ensures |Move(board, from, target)[from]| == |board[from]| - 1
    ensures |Move(board, from, target)[target]| == |board[target]| + 1
  {
    MoveKeepsDecreasing(board, from, target);
    MoveKeepsDisks(board, from, target);
  }

  lemma MoveKeepsDecreasing(board: seq<seq<int>>, from: int, target: int)
    requires |board| == Towers && 0 <= from < Towers && 0 <= target < Towers && from != target && |board[from]| > 0
    requires forall k | 0 <= k < Towers :: Decreasing(board[k])
    requires Accepts(board[target], board[from][|board[from]| - 1])
    ensures forall k | 0 <= k < Towers :: Decreasing(Move(board, from, target)[k])
  {
    var source := board[from];
    var disk := source[|source| - 1];
    PopKeepsDecreasing(source);
    PushKeepsDecreasing(board[target], disk);
    var after := Move(board, from, target);
    forall k | 0 <= k < Towers
      ensures Decreasing(after[k])
    {
      if k != from && k != target {
        assert after[k] == board[k];
      }
    }
  }

  lemma MoveKeepsDisks(board: seq<seq<int>>, from: int, target: int)
    requires |board| == Towers && 0 <= from < Towers && 0 <= target < Towers && from != target && |board[from]| > 0
    ensures Disks(Move(board, from, target)) == Disks(board)
  {
    var source := board[from];
    var moved := board[from := source[..|source| - 1]];
    PopDisk(board, from);
    PushDisk(moved, target, source[|source| - 1]);
  }

  lemma PopDisk(board: seq<seq<int>>, from: int)
    requires |board| == Towers && 0 <= from < Towers && |board[from]| > 0
    ensures Disks(board[from := board[from][..|board[from]| - 1]]) + multiset{board[from][|board[from]| - 1]} == Disks(board)
  {
    var source := board[from];
    assert source == source[..|source| - 1] + [source[|source| - 1]];
    DisksUpdate(board, from, source[..|source| - 1]);
  }

  lemma PushDisk(board: seq<seq<int>>, target: int, disk: int)
    requires |board| == Towers && 0 <= target < Towers
    ensures Disks(board[target := board[target] + [disk]]) == Disks(board) + multiset{disk}
  {
    DisksUpdate(board, target, board[target] + [disk]);
  }

  /**
   * handleDrop's accepted branch as written: pop the tower the drag came
   * from, whatever lies on it now (popping an empty tower does nothing),
   * and push the dragged size onto the target.  While the drag still
   * holds the top disk of its tower this is the move of that disk.
   */
  function DropBoard(board: seq<seq<int>>, d: Dragged, target: int): (after: seq<seq<int>>)
    requires |board| == Towers && 0 <= d.from < Towers && 0 <= target < Towers
    ensures |after| == Towers && |after[target]| > 0 && after[target][|after[target]| - 1] == d.size
    ensures Top(board[d.from]) == Some(d.size) ==> after == Move(board, d.from, target)
    ensures forall k | 0 <= k < Towers && k != d.from && k != target :: after[k] == board[k]
  {
    var source := board[d.from];
    var popped := board[d.from := if |source| == 0 then [] else source[..|source| - 1]];
    popped[target := popped[target] + [d.size]]
  }

  /** The two boards of the stale-drag example are legal two-disk boards. */
  lemma TwoDiskBoards()
    ensures StartTower(2) == [2, 1]
    ensures Legal([[2], [1], []], 2) && Legal([[2, 1], [], []], 2)
  {
    assert StartTower(2) == [2, 1];
    assert Disks([[2], [1], []]) == multiset{2, 1};
    assert Disks([[2, 1], [], []]) == multiset{2, 1};
  }

  /**
   * startGame keeps a drag that was released off the towers.  Disk 2 is
   * dragged off [[2], [1], []] and let go elsewhere; a new two-disk game
   * starts; a drop on the third tower (text dragged in from outside, say)
   * is accepted, pops disk 1 and pushes a second disk 2.
   */
  lemma StaleDropBreaksDisks()
    ensures Legal([[2], [1], []], 2) && Top([2]) == Some(2)
    ensures var restarted := [StartTower(2), [], []];
      Legal(restarted, 2) && Top(restarted[0]) != Some(2) && Accepts(restarted[2], 2) &&
      DropBoard(restarted, Dragged(2, 0), 2) == [[2], [], [2]] &&
      !Legal(DropBoard(restarted, Dragged(2, 0), 2), 2)
  {
    TwoDiskBoards();
    var restarted := [[2, 1], [], []];
    assert restarted[0][..1] == [2];
    var popped := restarted[0 := [2]];
    assert popped == [[2], [], []];
    assert popped[2] + [2] == [2];
    assert DropBoard(restarted, Dragged(2, 0), 2) == popped[2 := [2]];
    var broken := [[2], [], [2]];
    assert Disks(broken) == multiset{2, 2};
    assert Disks(broken)[1] == 0 && multiset(StartTower(2))[1] == 1;
  }

  class Game {
    var numDisks: int
    var board: seq<seq<int>>
    var draggedDisk: Option<Dragged>
    var moveCount: nat
    var message: Message

    /** Legal towers, and a drag in progress holds the top disk of its tower. */
    ghost predicate Valid()
      reads this
    {
      Legal(board, numDisks) && DragCurrent()
    }

    /** The drag in progress, if any, holds the top disk of its tower. */
    ghost predicate DragCurrent()
      reads this
      requires |board| == Towers
    {
      draggedDisk.Some? ==>
        0 <= draggedDisk.value.from < Towers && Top(board[draggedDisk.value.from]) == Some(draggedDisk.value.size)
    }

    /** init: the page starts a game with the selected number of disks. */
    constructor (diskCount: int)
      ensures Valid() && numDisks == diskCount && draggedDisk == None
      ensures board == [StartTower(diskCount), [], []] && moveCount == 0 && message == Instructions
    {
      board := [[], [], []];
      draggedDisk := None;
      moveCount := 0;
      message := Instructions;
      numDisks := 0;
      new;
      StartGame(diskCount);
    }

    /**
     * startGame as written: disks NUM_DISKS down to 1 on tower 0, the
     * other towers empty, no moves made.  A drag in progress is not
     * cancelled, so it may no longer hold the top disk of its tower.
     */
    method StartGameAsWritten(diskCount: int)
      modifies this
      ensures Legal(board, numDisks) && numDisks == diskCount && draggedDisk == old(draggedDisk)
      ensures board == [StartTower(diskCount), [], []] && moveCount == 0 && message == Instructions
    {
      numDisks := diskCount;
      board := [[], [], []];
      moveCount := 0;
      var tower := BuildTower(diskCount);
      board := [tower, [], []];
      StartTowerDecreasing(diskCount);
      message := Instructions;
    }

    /** startGame with the drag in progress cancelled, as a new game needs. */
    method StartGame(diskCount: int)
      modifies this
      ensures Valid() && numDisks == diskCount && draggedDisk == None
      ensures board == [StartTower(diskCount), [], []] && moveCount == 0 && message == Instructions
    {
      StartGameAsWritten(diskCount);
      draggedDisk := None;
    }

    /** handleDragStart: only the top disk of a tower can be picked up. */
    method DragStart(towerIndex: int, size: int)
      requires Valid() && 0 <= towerIndex < Towers
      modifies this
      ensures Valid() && board == old(board) && moveCount == old(moveCount) && message == old(message)
      ensures numDisks == old(numDisks)
      ensures Top(board[towerIndex]) == Some(size) ==> draggedDisk == Some(Dragged(size, towerIndex))
      ensures Top(board[towerIndex]) != Some(size) ==> draggedDisk == old(draggedDisk)
    {
      var tower := board[towerIndex];
      if |tower| > 0 && size == tower[|tower| - 1] {
        draggedDisk := Some(Dragged(size, towerIndex));
      }
    }

    /**
     * handleDrop: a drop the target accepts pops the drag's tower, pushes
     * the dragged disk onto the target, counts the move and checks for a
     * win; a drop on a smaller disk is refused with a message; a drop on
     * a disk of the same size does nothing.  The drag ends either way.
     * From a valid state the drop is the move of the dragged disk, and
     * the state stays valid.
     */
    method Drop(target: int)
      requires |board| == Towers && 0 <= target < Towers
      requires draggedDisk.Some? ==> 0 <= draggedDisk.value.from < Towers
      modifies this
      ensures old(Valid()) ==> Valid()
      ensures numDisks == old(numDisks) && draggedDisk == None
      ensures old(draggedDisk).None? ==> board == old(board) && moveCount == old(moveCount) && message == old(message)
      ensures old(draggedDisk).Some? && Accepts(old(board)[target], old(draggedDisk).value.size) ==>
        board == DropBoard(old(board), old(draggedDisk).value, target) &&
        moveCount == old(moveCount) + 1 &&
        message == if |board[2]| == numDisks then Won(moveCount) else Instructions
      ensures old(draggedDisk).Some? && !Accepts(old(board)[target], old(draggedDisk).value.size) ==>
        board == old(board) && moveCount == old(moveCount) &&
        message == if Top(old(board)[target]) == Some(old(draggedDisk).value.size) then old(message) else Illegal
      ensures old(DragCurrent()) && old(draggedDisk).Some? && Accepts(old(board)[target], old(draggedDisk).value.size) ==>
        old(draggedDisk).value.from != target && board == Move(old(board), old(draggedDisk).value.from, target)
      ensures old(DragCurrent()) && old(draggedDisk).Some? && old(draggedDisk).value.from == target ==>
        board == old(board) && moveCount == old(moveCount) && message == old(message)
    {
      if draggedDisk.Some? {
        var disk := draggedDisk.value;
        var top := Top(board[target]);
        if top.None? || disk.size < top.value {
          if Legal(board, numDisks) && DragCurrent() {
            MoveKeepsLegal(board, numDisks, disk.from, target);
          }
          CommitMove(disk, target);
        } else if disk.size != top.value {
          message := Illegal;
        }
        draggedDisk := None;
      }
    }

    /** handleDrop's accepted branch: pop and push, count the move, check the win. */
    method CommitMove(disk: Dragged, target: int)
      requires |board| == Towers && 0 <= disk.from < Towers && 0 <= target < Towers
      modifies this
      ensures numDisks == old(numDisks) && draggedDisk == old(draggedDisk)
      ensures board == DropBoard(old(board), disk, target) && moveCount == old(moveCount) + 1
      ensures message == if |board[2]| == numDisks then Won(moveCount) else Instructions
    {
      // pop from the source tower, push onto the target
      board := DropBoard(board, disk, target);
      moveCount := moveCount + 1;
      message := Instructions;
      CheckWin();
    }

    /** checkWin: announces the win iff the third tower holds NUM_DISKS disks. */
    method CheckWin()
      requires |board| == Towers
      modifies this
      ensures board == old(board) && numDisks == old(numDisks) && moveCount == old(moveCount) && draggedDisk == old(draggedDisk)
      ensures message == if |board[2]| == numDisks then Won(moveCount) else old(message)
    {
      if |board[2]| == numDisks {
        message := Won(moveCount);
      }
    }
  }
}
