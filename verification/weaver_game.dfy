/*
 * The Weaver game (puzzle-hub/public/weaver/weaver.js): the choice of a
 * start and an end word joined by some ladder, and the rows the player
 * types, each of which must change exactly one letter of the row above
 * and be a word of the list.
 */
module WeaverGame {
  import opened Common
  import opened WordGraph

  const WordLength := 4

  /** The number of queued items that are already visited. */
  function CountVisited(queue: seq<string>, visited: set<string>): nat {
    if |queue| == 0 then 0
    else (if queue[0] in visited then 1 else 0) + CountVisited(queue[1..], visited)
  }

  lemma {:induction false} CountVisitedAppend(queue: seq<string>, visited: set<string>, n: string)
    requires n !in visited
    ensures CountVisited(queue + [n], visited) == CountVisited(queue, visited)
  {
    if |queue| > 0 {
      assert (queue + [n])[1..] == queue[1..] + [n];
      CountVisitedAppend(queue[1..], visited, n);
    }
  }

  /** The state of areWordsSolvable's loop. */
  ghost predicate SolvableState(g: Graph, start: string, end: string, queue: seq<string>, visited: set<string>) {
    (forall x | x in queue :: x in g && Reachable(g, start, x)) &&
    (forall v | v in visited :: v in g && Reachable(g, start, v)) &&
    end !in visited && (start in visited || start in queue) &&
    forall v | v in visited :: forall n | n in g[v] :: n in visited || n in queue
  }

  lemma ReachableStep(g: Graph, start: string, u: string, v: string)
    requires Reachable(g, start, u) && u in g && v in g[u]
    ensures Reachable(g, start, v)
  {
    var p :| PathFrom(g, p, start) && Last(p) == u;
    PathExtend(g, p, start, v);
  }

  /**
   * areWordsSolvable: a breadth-first search that marks a word visited
   * when it is taken off the queue (a word may be queued more than once).
   * It is true exactly when a path leads from `start` to `end`.  Every
   * word of the graph must have an entry: the source fails on a missing one.
   */
  method AreWordsSolvable(g: Graph, start: string, end: string) returns (b: bool)
    requires start in g && Closed(g)
    ensures b <==> Reachable(g, start, end)
  {
    var visited: set<string> := {};
    var queue := [start];
    assert PathFrom(g, [start], start) && Last([start]) == start;
    while |queue| > 0
      invariant SolvableState(g, start, end, queue, visited)
      invariant visited <= g.Keys
      decreases |g.Keys - visited|, CountVisited(queue, visited)
    {
      var word := queue[0];
      if word == end {
        return true;
      }
      ghost var before, q0 := visited, queue;
      queue := queue[1..];
      visited := visited + {word};
      queue := QueueNeighbours(g, start, word, queue, visited);
      AfterVisit(g, start, end, q0, before, queue, visited);
    }
    ClosedSetUnreachable(g, start, end, visited);
    return false;
  }

  /** The inner loop of areWordsSolvable: queue each neighbour of `word` not yet visited. */
  method QueueNeighbours(g: Graph, start: string, word: string, queue0: seq<string>, visited: set<string>)
    returns (queue: seq<string>)
    requires word in g && Reachable(g, start, word)
    requires forall x | x in queue0 :: x in g && Reachable(g, start, x)
    requires Closed(g)
    ensures forall x | x in queue :: x in g && Reachable(g, start, x)
    ensures forall x | x in queue0 :: x in queue
    ensures forall n | n in g[word] :: n in visited || n in queue
    ensures CountVisited(queue, visited) == CountVisited(queue0, visited)
  {
    var neighbours := g[word];
    queue := queue0;
    for i := 0 to |neighbours|
      invariant forall x | x in queue :: x in g && Reachable(g, start, x)
      invariant forall x | x in queue0 :: x in queue
      invariant forall j | 0 <= j < i :: neighbours[j] in visited || neighbours[j] in queue
      invariant CountVisited(queue, visited) == CountVisited(queue0, visited)
    {
      var neighbor := neighbours[i];
      if neighbor !in visited {
        ReachableStep(g, start, word, neighbor);
        CountVisitedAppend(queue, visited, neighbor);
        queue := queue + [neighbor];
      }
    }
  }

  /** One turn of areWordsSolvable's loop keeps its state and decreases its measure. */
  lemma AfterVisit(g: Graph, start: string, end: string, q0: seq<string>, before: set<string>,
                   queue: seq<string>, visited: set<string>)
    requires SolvableState(g, start, end, q0, before) && before <= g.Keys && |q0| >= 1 && q0[0] != end
    requires visited == before + {q0[0]}
    requires forall x | x in queue :: x in g && Reachable(g, start, x)
    requires forall x | x in q0[1..] :: x in queue
    requires forall n | n in g[q0[0]] :: n in visited || n in queue
    requires CountVisited(queue, visited) == CountVisited(q0[1..], visited)
    ensures SolvableState(g, start, end, queue, visited) && visited <= g.Keys
    ensures |g.Keys - visited| < |g.Keys - before| ||
      (|g.Keys - visited| == |g.Keys - before| && CountVisited(queue, visited) < CountVisited(q0, before))
  {
    var word := q0[0];
    assert q0 == [word] + q0[1..];
    forall x | x in q0
      ensures x in visited || x in queue
    {
    }
    if word !in before {
      assert g.Keys - visited < g.Keys - before by {
        assert word in g.Keys - before;
      }
    } else {
      assert visited == before;
    }
  }

  /**
   * setupBoard's word choice: draw a start and an end word until they
   * differ and a ladder joins them.  The source repeats without bound (and
   * for ever on an empty list); the model stops after `tries` draws.
   */
  method ChooseWords(wordList: seq<string>, rng: Random, tries: nat) returns (r: Option<(string, string)>)
    modifies rng
    ensures r.Some? ==> r.value.0 in wordList && r.value.1 in wordList && r.value.0 != r.value.1
    ensures r.Some? ==> exists p :: Ladder(wordList, FirstLength, p) && p[0] == r.value.0 && Last(p) == r.value.1
  {
    if |wordList| == 0 {
      return None;
    }
    var graph := BuildWordGraph(wordList, FirstLength);
    GraphClosed(graph, wordList, FirstLength);
    var n := 0;
    while n < tries
      decreases tries - n
    {
      var i := rng.Below(|wordList|);
      var j := rng.Below(|wordList|);
      var startWord, endWord := wordList[i], wordList[j];
      if startWord != endWord {
        var solvable := AreWordsSolvable(graph, startWord, endWord);
        if solvable {
          ghost var p :| PathFrom(graph, p, startWord) && Last(p) == endWord;
          PathIsLadder(graph, wordList, FirstLength, p);
          return Some((startWord, endWord));
        }
      }
      n := n + 1;
    }
    return None;
  }

  /** The number of positions below `n` where the two rows agree. */
  function Agreement(a: string, b: string, n: nat): (k: nat)
    requires n <= |a| && n <= |b|
    ensures k == n - DiffCount(a, b, n)
  {
    if n == 0 then 0 else Agreement(a, b, n - 1) + (if a[n - 1] == b[n - 1] then 1 else 0)
  }

  /** What checkWord did with a complete row. */
  datatype Verdict = NotOneChange | NotAWord | Accepted | Won

  class Weaver {
    const wordList: seq<string>
    var startWord: string
    var endWord: string
    /** The rows from the start word (row 0) to the row being typed (row currentRow); the end word sits below them. */
    var board: seq<string>
    var currentRow: int
    var currentCol: int
    var finished: bool

    /** The board's shape, and every row above the one being typed is a list word one letter from the row above it. */
    ghost predicate Valid()
      reads this
    {
      currentRow >= 1 && |board| == currentRow + 1 && board[0] == startWord &&
      0 <= currentCol <= WordLength && |board[currentRow]| == currentCol &&
      (forall r | 0 <= r < currentRow :: |board[r]| == WordLength) &&
      forall r | 1 <= r < currentRow :: board[r] in wordList && Agreement(board[r], board[r - 1], WordLength) == 3
    }

    constructor (words: seq<string>, start: string, end: string)
      requires |start| == WordLength
      ensures Valid() && wordList == words && startWord == start && endWord == end
      ensures board == [start, ""] && currentRow == 1 && currentCol == 0 && !finished
    {
      wordList := words;
      startWord := start;
      endWord := end;
      board := [start, ""];
      currentRow := 1;
      currentCol := 0;
      finished := false;
    }

    /**
     * setupBoard: a new pair of words; the board is reset to the start
     * word over an empty row.  When no pair was found within the draws
     * the state is left as it was.
     */
    method SetupBoard(rng: Random, tries: nat) returns (ok: bool)
      requires Valid() && forall w | w in wordList :: |w| == WordLength
      modifies this, rng
      ensures Valid()
      ensures ok ==> startWord in wordList && endWord in wordList && startWord != endWord
      ensures ok ==> exists p :: Ladder(wordList, FirstLength, p) && p[0] == startWord && Last(p) == endWord
      ensures ok ==> board == [startWord, ""] && currentRow == 1 && currentCol == 0 && !finished
      ensures !ok ==> startWord == old(startWord) && endWord == old(endWord) && board == old(board)
      ensures !ok ==> currentRow == old(currentRow) && currentCol == old(currentCol) && finished == old(finished)
    {
      var pair := ChooseWords(wordList, rng, tries);
      if pair.None? {
        return false;
      }
      startWord, endWord := pair.value.0, pair.value.1;
      board := [startWord, ""];
      finished := false;
      currentRow := 1;
      currentCol := 0;
      return true;
    }

    /**
     * checkWord on a complete row: accepted only when it agrees with the
     * row above in exactly 3 of its 4 positions and is a list word; the end
     * word finishes the game, any other accepted word opens a new row.
     */
    method CheckWord() returns (v: Verdict)
      requires Valid() && currentCol == WordLength && !finished
      modifies this
      ensures Valid() && startWord == old(startWord) && endWord == old(endWord)
      ensures var guess := old(board[currentRow]);
        var prev := old(board[currentRow - 1]);
        v == (if Agreement(guess, prev, WordLength) != 3 then NotOneChange
              else if guess !in wordList then NotAWord
              else if guess == endWord then Won
              else Accepted)
      ensures v == Won ==> finished && board == old(board) && currentRow == old(currentRow) && currentCol == old(currentCol)
      ensures v == Accepted ==> !finished && board == old(board) + [""] && currentRow == old(currentRow) + 1 && currentCol == 0
      ensures v == NotOneChange || v == NotAWord ==>
        finished == old(finished) && board == old(board) && currentRow == old(currentRow) && currentCol == old(currentCol)
    {
      var guess := board[currentRow];
      var prev := board[currentRow - 1];
      var count := 0;
      for c := 0 to WordLength
        invariant count == Agreement(guess, prev, c)
      {
        if guess[c] == prev[c] {
          count := count + 1;
        }
      }
      if count != 3 {
        return NotOneChange;
      }
      if guess !in wordList {
        return NotAWord;
      }
      if guess == endWord {
        finished := true;
        return Won;
      }
      currentRow := currentRow + 1;
      currentCol := 0;
      board := board + [""];
      return Accepted;
    }

    /**
     * handleKey: nothing once finished.  ENTER checks a complete row;
     * BACKSPACE removes the last letter, and on an empty row other than
     * the first guess goes back to the row above and removes its last
     * letter; a letter A-Z is added while the row has room.  Any other key
     * changes nothing.
     */
    method HandleKey(key: string)
      requires Valid()
      modifies this
      ensures Valid() && startWord == old(startWord) && endWord == old(endWord)
      ensures old(finished) ==> board == old(board) && currentRow == old(currentRow) && currentCol == old(currentCol) && finished
      ensures !old(finished) && key == "ENTER" && old(currentCol) != WordLength ==>
        board == old(board) && currentRow == old(currentRow) && currentCol == old(currentCol) && !finished
      ensures !old(finished) && key == "ENTER" && old(currentCol) == WordLength ==>
        var guess := old(board[currentRow]);
        if Agreement(guess, old(board[currentRow - 1]), WordLength) != 3 || guess !in wordList then
          !finished && board == old(board) && currentRow == old(currentRow) && currentCol == old(currentCol)
        else if guess == endWord then
          finished && board == old(board) && currentRow == old(currentRow) && currentCol == old(currentCol)
        else
          !finished && board == old(board) + [""] && currentRow == old(currentRow) + 1 && currentCol == 0
      ensures !old(finished) && key != "ENTER" && key != "BACKSPACE" && !(|key| == 1 && 'A' <= key[0] <= 'Z') ==>
        board == old(board) && currentRow == old(currentRow) && currentCol == old(currentCol) && !finished
      ensures !old(finished) && key == "BACKSPACE" ==> !finished
      ensures !old(finished) && |key| == 1 && 'A' <= key[0] <= 'Z' ==> !finished
      ensures !old(finished) && key == "BACKSPACE" && old(currentCol) > 0 ==>
        currentRow == old(currentRow) && currentCol == old(currentCol) - 1 &&
        board == old(board)[currentRow := old(board[currentRow])[..currentCol]]
      ensures !old(finished) && key == "BACKSPACE" && old(currentCol) == 0 && old(currentRow) > 1 ==>
        currentRow == old(currentRow) - 1 && currentCol == WordLength - 1 &&
        board == old(board)[..currentRow + 1][currentRow := old(board[currentRow - 1])[..WordLength - 1]]
      ensures !old(finished) && key == "BACKSPACE" && old(currentCol) == 0 && old(currentRow) == 1 ==>
        board == old(board) && currentRow == 1 && currentCol == 0
      ensures !old(finished) && |key| == 1 && 'A' <= key[0] <= 'Z' ==>
        currentRow == old(currentRow) &&
        if old(currentCol) < WordLength then
          currentCol == old(currentCol) + 1 && board == old(board)[currentRow := old(board[currentRow]) + key]
        else board == old(board) && currentCol == old(currentCol)
      ensures currentRow != old(currentRow) + 1 ==> currentRow <= old(currentRow)
      ensures currentRow == old(currentRow) + 1 ==>
        (old(currentCol) == WordLength && currentCol == 0 &&
         Agreement(old(board)[currentRow - 1], old(board)[currentRow - 2], WordLength) == 3 &&
         old(board)[currentRow - 1] in wordList)
    {
      if finished {
        return;
      }
      if key == "ENTER" {
        if currentCol == WordLength {
          var _ := CheckWord();
        }
        return;
      }
      if key == "BACKSPACE" {
        if currentCol > 0 {
          currentCol := currentCol - 1;
          board := board[currentRow := board[currentRow][..currentCol]];
        } else if currentRow > 1 {
          currentCol := WordLength - 1;
          currentRow := currentRow - 1;
          board := board[..currentRow + 1][currentRow := board[currentRow][..currentCol]];
        }
        return;
      }
      if |key| == 1 && 'A' <= key[0] <= 'Z' && currentCol < WordLength {
        board := board[currentRow := board[currentRow] + key];
        currentCol := currentCol + 1;
      }
    }
  }

  /** On rows of four letters, three agreeing positions is a one-letter change. */
  lemma ThreeAgreeIsOneLetter(guess: string, prev: string)
    requires |guess| == WordLength && |prev| == WordLength
    ensures Agreement(guess, prev, WordLength) == 3 <==> DiffersAtOne(guess, prev, WordLength)
  {
    DiffCountOne(guess, prev, WordLength);
  }
}
