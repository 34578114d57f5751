/*
 * The Weaver solver page (puzzle-hub/public/weaver/weaver-solver.js): the
 * breadth-first search for a shortest word ladder, and the checks the
 * solve button makes on the two words before searching.
 *
 * The search keeps a queue of paths and marks a word visited when a path
 * to it is queued, so the queued paths have one or two lengths, the
 * shorter ones first, and each is a shortest path to its last word.
 */
module WeaverSolver {
  import opened Common
  import opened WordGraph

  /** No path from `s` to the same word is shorter than `p`. */
  ghost predicate Shortest(g: Graph, p: seq<string>, s: string)
    requires |p| >= 1
  {
    forall q {:trigger PathFrom(g, q, s)} :: PathFrom(g, q, s) && Last(q) == Last(p) ==> |q| >= |p|
  }

  /** Every word a path of at most `len` words from `s` ends on is visited. */
  ghost predicate ShortVisited(g: Graph, s: string, visited: set<string>, len: int) {
    forall q {:trigger PathFrom(g, q, s)} :: PathFrom(g, q, s) && |q| <= len ==> Last(q) in visited
  }

  /** A queued path: a shortest path from `s` without repeats, all of it visited. */
  ghost predicate GoodPath(g: Graph, s: string, visited: set<string>, p: seq<string>) {
    |p| >= 1 && PathFrom(g, p, s) && NoRepeats(p) && Shortest(g, p, s) &&
    forall x :: x in p ==> x in visited
  }

  /** The queue: good paths of `len` or `len + 1` words, shorter ones first. */
  ghost predicate QueueOk(g: Graph, s: string, queue: seq<seq<string>>, visited: set<string>, len: int) {
    (forall k | 0 <= k < |queue| :: GoodPath(g, s, visited, queue[k]) && len <= |queue[k]| <= len + 1) &&
    forall k, l | 0 <= k < l < |queue| :: |queue[k]| <= |queue[l]|
  }

  ghost predicate Queued(queue: seq<seq<string>>, v: string) {
    exists k :: 0 <= k < |queue| && |queue[k]| >= 1 && Last(queue[k]) == v
  }

  /** Each visited word other than `except` is at the end of a queued path or has all its neighbours visited. */
  ghost predicate Covered(g: Graph, queue: seq<seq<string>>, visited: set<string>, except: Option<string>) {
    forall v | v in visited :: Queued(queue, v) || Expanded(g, v, visited) || Some(v) == except
  }

  /** The words of the graph, and `s`: everything the search can visit. */
  ghost function Universe(g: Graph, s: string): set<string> {
    (set u, v | u in g && v in g[u] :: v) + {s}
  }

  lemma SetDiffCard(u: set<string>, a: set<string>, b: set<string>)
    requires a <= b <= u
    ensures |u - b| + |b - a| == |u - a|
  {
    assert u - a == (u - b) + (b - a);
    assert (u - b) * (b - a) == {};
  }

  /**
   * When the front of the queue is one word longer than the last level,
   * every path one word longer than that level also ends on a visited word.
   */
  lemma LevelUp(g: Graph, s: string, queue: seq<seq<string>>, visited: set<string>, len: int)
    requires len >= 1
    requires QueueOk(g, s, queue, visited, len) && Covered(g, queue, visited, None)
    requires ShortVisited(g, s, visited, len)
    requires forall k | 0 <= k < |queue| :: |queue[k]| >= len + 1
    ensures ShortVisited(g, s, visited, len + 1)
  {
    forall q | PathFrom(g, q, s) && |q| == len + 1
      ensures Last(q) in visited
    {
      PathPrefix(g, q, s);
      var q' := q[..|q| - 1];
      assert Last(q') in visited;
    }
  }

  /** A shortest path extended by an unvisited neighbour is a good path once that neighbour is visited. */
  lemma ExtendGood(g: Graph, s: string, visited: set<string>, path: seq<string>, n: string)
    requires GoodPath(g, s, visited, path) && ShortVisited(g, s, visited, |path|)
    requires Last(path) in g && n in g[Last(path)] && n !in visited
    ensures GoodPath(g, s, visited + {n}, path + [n])
  {
    PathExtend(g, path, s, n);
    forall q | PathFrom(g, q, s) && Last(q) == n
      ensures |q| >= |path| + 1
    {
    }
  }

  lemma QueueOkGrow(g: Graph, s: string, queue: seq<seq<string>>, visited: set<string>, more: set<string>, len: int)
    requires QueueOk(g, s, queue, visited, len) && visited <= more
    ensures QueueOk(g, s, queue, more, len)
  {
  }

  lemma QueueOkPush(g: Graph, s: string, queue: seq<seq<string>>, visited: set<string>, p: seq<string>, len: int)
    requires QueueOk(g, s, queue, visited, len) && GoodPath(g, s, visited, p) && |p| == len + 1
    ensures QueueOk(g, s, queue + [p], visited, len)
  {
  }

  lemma QueuedPush(queue: seq<seq<string>>, p: seq<string>, v: string)
    requires Queued(queue, v) || (|p| >= 1 && v == Last(p))
    ensures Queued(queue + [p], v)
  {
    if Queued(queue, v) {
      var k :| 0 <= k < |queue| && |queue[k]| >= 1 && Last(queue[k]) == v;
      assert (queue + [p])[k] == queue[k];
    } else {
      assert (queue + [p])[|queue|] == p;
    }
  }

  lemma CoveredPush(g: Graph, queue: seq<seq<string>>, visited: set<string>, p: seq<string>, except: Option<string>)
    requires Covered(g, queue, visited, except) && |p| >= 1
    ensures Covered(g, queue + [p], visited + {Last(p)}, except)
  {
    forall v | v in visited + {Last(p)}
      ensures Queued(queue + [p], v) || Expanded(g, v, visited + {Last(p)}) || Some(v) == except
    {
      if Queued(queue, v) || v == Last(p) {
        QueuedPush(queue, p, v);
      }
    }
  }

  /** Once every neighbour of `last` is visited, nothing is left out. */
  lemma CoveredRelease(g: Graph, queue: seq<seq<string>>, visited: set<string>, last: string)
    requires Covered(g, queue, visited, Some(last)) && Expanded(g, last, visited)
    ensures Covered(g, queue, visited, None)
  {
  }

  /** What the invariants say once the front path is taken off the queue. */
  lemma Dequeue(g: Graph, s: string, queue: seq<seq<string>>, visited: set<string>, len: int, end: string)
    requires |queue| >= 1 && |queue[0]| == len
    requires QueueOk(g, s, queue, visited, len) && Covered(g, queue, visited, None)
    requires end in visited ==> Queued(queue, end)
    ensures GoodPath(g, s, visited, queue[0])
    ensures QueueOk(g, s, queue[1..], visited, len)
    ensures Covered(g, queue[1..], visited, Some(Last(queue[0])))
    ensures end in visited && Last(queue[0]) != end ==> Queued(queue[1..], end)
  {
    forall v | v in visited && Queued(queue, v) && v != Last(queue[0])
      ensures Queued(queue[1..], v)
    {
      var k :| 0 <= k < |queue| && |queue[k]| >= 1 && Last(queue[k]) == v;
      assert queue[1..][k - 1] == queue[k];
    }
  }

  lemma QueuedPrefix(queue: seq<seq<string>>, n: nat, v: string)
    requires n <= |queue| && Queued(queue[..n], v)
    ensures Queued(queue, v)
  {
    var k :| 0 <= k < n && |queue[..n][k]| >= 1 && Last(queue[..n][k]) == v;
    assert queue[k] == queue[..n][k];
  }

  /** The state of findShortestPath's inner loop, which started from `queue0` and `visited0`. */
  ghost predicate ExpandState(g: Graph, s: string, path: seq<string>, len: int,
                              queue0: seq<seq<string>>, visited0: set<string>,
                              queue: seq<seq<string>>, visited: set<string>)
  {
    GoodPath(g, s, visited, path) && |path| == len &&
    QueueOk(g, s, queue, visited, len) && ShortVisited(g, s, visited, len) &&
    Covered(g, queue, visited, Some(Last(path))) &&
    visited0 <= visited && visited - visited0 <= Universe(g, s) &&
    |queue| - |queue0| == |visited - visited0| &&
    |queue0| <= |queue| && queue[..|queue0|] == queue0 &&
    forall v | v in visited - visited0 :: Queued(queue, v)
  }

  /** Queuing the path extended by an unvisited neighbour keeps the inner loop's state. */
  lemma PushNeighbour(g: Graph, s: string, path: seq<string>, len: int,
                      queue0: seq<seq<string>>, visited0: set<string>,
                      queue: seq<seq<string>>, visited: set<string>, n: string)
    requires ExpandState(g, s, path, len, queue0, visited0, queue, visited)
    requires Last(path) in g && n in g[Last(path)] && n !in visited
    ensures ExpandState(g, s, path, len, queue0, visited0, queue + [path + [n]], visited + {n})
  {
    var p := path + [n];
    ExtendGood(g, s, visited, path, n);
    QueueOkGrow(g, s, queue, visited, visited + {n}, len);
    QueueOkPush(g, s, queue, visited + {n}, p, len);
    CoveredPush(g, queue, visited, p, Some(Last(path)));
    assert (visited + {n}) - visited0 == (visited - visited0) + {n};
    forall v | v in (visited + {n}) - visited0
      ensures Queued(queue + [p], v)
    {
      QueuedPush(queue, p, v);
    }
    assert (queue + [p])[..|queue0|] == queue[..|queue0|];
  }

  /**
   * The inner loop of findShortestPath: each neighbour of the path's last
   * word not yet visited is marked and queued as the path extended by it.
   */
  method Expand(g: Graph, s: string, path: seq<string>, queue0: seq<seq<string>>, visited0: set<string>, ghost len: int)
    returns (queue: seq<seq<string>>, visited: set<string>)
    requires ExpandState(g, s, path, len, queue0, visited0, queue0, visited0)
    ensures ExpandState(g, s, path, len, queue0, visited0, queue, visited)
    ensures Expanded(g, Last(path), visited)
  {
    var last := path[|path| - 1];
    var neighbours := if last in g then g[last] else [];
    queue, visited := queue0, visited0;
    for i := 0 to |neighbours|
      invariant ExpandState(g, s, path, len, queue0, visited0, queue, visited)
      invariant AllIn(neighbours[..i], visited)
    {
      var neighbor := neighbours[i];
      assert neighbours[..i + 1] == neighbours[..i] + [neighbor];
      if neighbor !in visited {
        PushNeighbour(g, s, path, len, queue0, visited0, queue, visited, neighbor);
        visited := visited + {neighbor};
        queue := queue + [path + [neighbor]];
      }
    }
    assert neighbours[..|neighbours|] == neighbours;
  }

  predicate AllIn(xs: seq<string>, words: set<string>) {
    forall x | x in xs :: x in words
  }

  lemma InitialSearch(g: Graph, start: string, end: string)
    ensures SearchState(g, start, end, Universe(g, start), [[start]], {start}, 1)
  {
    assert PathFrom(g, [start], start);
    assert [[start]][0] == [start] && Last([start]) == start;
    assert Queued([[start]], start);
  }

  /** The state of findShortestPath's outer loop. */
  ghost predicate SearchState(g: Graph, start: string, end: string, universe: set<string>,
                              queue: seq<seq<string>>, visited: set<string>, len: int)
  {
    len >= 1 && start in visited && visited <= universe &&
    QueueOk(g, start, queue, visited, len) && ShortVisited(g, start, visited, len) &&
    Covered(g, queue, visited, None) &&
    (end in visited ==> Queued(queue, end))
  }

  /** Taking the front path off the queue, and raising the level when it is longer. */
  lemma TakeFront(g: Graph, start: string, end: string, universe: set<string>,
                  queue: seq<seq<string>>, visited: set<string>, len: int)
    returns (len': int)
    requires SearchState(g, start, end, universe, queue, visited, len) && |queue| >= 1
    requires Last(queue[0]) != end
    ensures len' == |queue[0]|
    ensures ExpandState(g, start, queue[0], len', queue[1..], visited, queue[1..], visited)
  {
    len' := len;
    if |queue[0]| > len {
      LevelUp(g, start, queue, visited, len);
      len' := len + 1;
    }
    Dequeue(g, start, queue, visited, len', end);
  }

  /** The front path, once it ends on `end`, is a shortest path to it without repeats. */
  lemma FoundEnd(g: Graph, start: string, end: string, universe: set<string>,
                 queue: seq<seq<string>>, visited: set<string>, len: int)
    requires SearchState(g, start, end, universe, queue, visited, len) && |queue| >= 1
    requires Last(queue[0]) == end
    ensures PathFrom(g, queue[0], start) && NoRepeats(queue[0])
    ensures forall q :: PathFrom(g, q, start) && Last(q) == end ==> |q| >= |queue[0]|
  {
    assert GoodPath(g, start, visited, queue[0]);
  }

  /** After the inner loop the outer loop's state holds again. */
  lemma AfterExpand(g: Graph, start: string, end: string, universe: set<string>, path: seq<string>,
                    queue0: seq<seq<string>>, visited0: set<string>,
                    queue: seq<seq<string>>, visited: set<string>, len: int)
    requires universe == Universe(g, start) && start in visited0 && visited0 <= universe
    requires end in visited0 ==> Queued(queue0, end)
    requires ExpandState(g, start, path, len, queue0, visited0, queue, visited)
    requires Expanded(g, Last(path), visited)
    ensures SearchState(g, start, end, universe, queue, visited, len)
    ensures |universe - visited| + |queue| - |queue0| == |universe - visited0|
  {
    CoveredRelease(g, queue, visited, Last(path));
    SetDiffCard(universe, visited0, visited);
    if end in visited0 {
      QueuedPrefix(queue, |queue0|, end);
    }
  }

  /**
   * findShortestPath: a shortest path from `start` to `end`, or None
   * when `end` cannot be reached.  The path never repeats a word, and is
   * [start] when the two are equal.
   */
  method FindShortestPath(g: Graph, start: string, end: string) returns (r: Option<seq<string>>)
    ensures r.Some? ==> PathFrom(g, r.value, start) && Last(r.value) == end && NoRepeats(r.value)
    ensures r.Some? ==> forall q :: PathFrom(g, q, start) && Last(q) == end ==> |q| >= |r.value|
    ensures r.None? ==> !Reachable(g, start, end)
  {
    var queue: seq<seq<string>> := [[start]];
    var visited: set<string> := {start};
    ghost var len := 1;
    ghost var universe := Universe(g, start);
    InitialSearch(g, start, end);
    while |queue| > 0
      invariant SearchState(g, start, end, universe, queue, visited, len)
      decreases |universe - visited|, |queue|
    {
      var path := queue[0];
      var last := path[|path| - 1];
      if last == end {
        FoundEnd(g, start, end, universe, queue, visited, len);
        return Some(path);
      }
      len := TakeFront(g, start, end, universe, queue, visited, len);
      queue := queue[1..];
      ghost var v0, q0 := visited, queue;
      queue, visited := Expand(g, start, path, queue, visited, len);
      AfterExpand(g, start, end, universe, path, q0, v0, queue, visited, len);
    }
    ClosedSetUnreachable(g, start, end, visited);
    return None;
  }

  /** When both ends are the same word, the search returns that one word. */
  lemma SameWordPath(g: Graph, start: string, p: seq<string>)
    requires PathFrom(g, p, start) && Last(p) == start
    requires forall q :: PathFrom(g, q, start) && Last(q) == start ==> |q| >= |p|
    ensures p == [start]
  {
    assert PathFrom(g, [start], start);
  }

  /** The outcome of the solve button. */
  datatype Outcome = MissingWord | WrongLength | NotInList | NoSolution | Solution(path: seq<string>)

  /**
   * The solve button's handler, given the two words already trimmed and
   * upper-cased: it rejects an empty word, then a word not of 4 letters,
   * then a word missing from the list, before building the graph and
   * searching it.
   */
  method Solve(wordList: seq<string>, start: string, end: string) returns (out: Outcome)
    ensures out == MissingWord <==> start == "" || end == ""
    ensures out == WrongLength <==> start != "" && end != "" && (|start| != 4 || |end| != 4)
    ensures out == NotInList <==>
      start != "" && end != "" && |start| == 4 && |end| == 4 && (start !in wordList || end !in wordList)
    ensures out.NoSolution? || out.Solution? ==> start in wordList && end in wordList && |start| == 4 && |end| == 4
    ensures out.NoSolution? ==> forall p :: Ladder(wordList, Fixed(4), p) && p[0] == start ==> Last(p) != end
    ensures out.Solution? ==> Ladder(wordList, Fixed(4), out.path) && NoRepeats(out.path)
    ensures out.Solution? ==> out.path[0] == start && Last(out.path) == end
    ensures out.Solution? ==> forall p :: Ladder(wordList, Fixed(4), p) && p[0] == start && Last(p) == end ==> |p| >= |out.path|
  {
    if start == "" || end == "" {
      return MissingWord;
    }
    if |start| != 4 || |end| != 4 {
      return WrongLength;
    }
    if start !in wordList || end !in wordList {
      return NotInList;
    }
    var graph := BuildWordGraph(wordList, Fixed(4));
    var path := FindShortestPath(graph, start, end);
    forall p | |p| >= 1 && p[0] == start
      ensures IsPath(graph, p) <==> Ladder(wordList, Fixed(4), p)
    {
      PathIsLadder(graph, wordList, Fixed(4), p);
    }
    if path.None? {
      return NoSolution;
    }
    return Solution(path.value);
  }
}
