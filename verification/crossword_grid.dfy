/*
 * The crossword grid builder (crossword/crossword.js): a 15x15 grid of white
 * and black squares, the four checks that make a grid acceptable (180-degree
 * symmetry, no white run of length 1 or 2, all white squares connected,
 * every white square in an across and a down run) and the random placement
 * of symmetric black pairs that keeps only placements passing all four.
 *
 * The grid is flattened row-major: square (r, c) is at 15*r + c.  The
 * source's WHITE (0) and BLACK (1) become `White` and `Black`; the filler
 * (module CrosswordFill) also writes letters into white squares.
 */
module CrosswordGrid {
  import opened Common

  const SIZE := 15
  /** `Math.floor(SIZE / 2)`. */
  const HALF := 7

  /** A square: WHITE, BLACK, or a letter written by the word filler. */
  datatype Cell = White | Black | Letter(ch: char)

  /** A square as (row, column), the source's `[i, j]` pairs. */
  type Pos = (int, int)

  predicate InGrid(r: int, c: int) {
    0 <= r < SIZE && 0 <= c < SIZE
  }

  function Idx(r: int, c: int): (p: int)
    ensures InGrid(r, c) ==> 0 <= p < SIZE * SIZE
  {
    SIZE * r + c
  }

  lemma IdxInjective(r: int, c: int, r2: int, c2: int)
    requires InGrid(r, c) && InGrid(r2, c2) && Idx(r, c) == Idx(r2, c2)
    ensures r == r2 && c == c2
  {
  }

  function At(g: seq<Cell>, r: int, c: int): Cell
    requires |g| == SIZE * SIZE && InGrid(r, c)
  {
    g[Idx(r, c)]
  }

  /** The grid where every square is white, as placeBlackSquares starts. */
  function AllWhite(): (g: seq<Cell>)
    ensures |g| == SIZE * SIZE && forall p :: 0 <= p < |g| ==> g[p] == White
  {
    seq(SIZE * SIZE, p => White)
  }

  // ---------------------------------------------------------------------
  // isSymmetric

  /** Square (r, c) equals its image under a half turn, (14 - r, 14 - c). */
  ghost predicate Symmetric(g: seq<Cell>)
    requires |g| == SIZE * SIZE
  {
    forall r, c | InGrid(r, c) :: At(g, r, c) == At(g, SIZE - 1 - r, SIZE - 1 - c)
  }

  method IsSymmetric(g: array<Cell>) returns (b: bool)
    requires g.Length == SIZE * SIZE
    ensures b <==> Symmetric(g[..])
  {
    for i := 0 to SIZE
      invariant forall r, c | 0 <= r < i && 0 <= c < SIZE :: At(g[..], r, c) == At(g[..], SIZE - 1 - r, SIZE - 1 - c)
    {
      for j := 0 to SIZE
        invariant forall r, c | 0 <= r < i && 0 <= c < SIZE :: At(g[..], r, c) == At(g[..], SIZE - 1 - r, SIZE - 1 - c)
        invariant forall c | 0 <= c < j :: At(g[..], i, c) == At(g[..], SIZE - 1 - i, SIZE - 1 - c)
      {
        if g[Idx(i, j)] != g[Idx(SIZE - 1 - i, SIZE - 1 - j)] {
          assert At(g[..], i, j) != At(g[..], SIZE - 1 - i, SIZE - 1 - j);
          return false;
        }
      }
    }
    return true;
  }

  // ---------------------------------------------------------------------
  // hasMinWordLength

  /** Row `i` (axis 0) or column `i` (axis 1) of the grid. */
  function Line(g: seq<Cell>, axis: int, i: int): (l: seq<Cell>)
    requires |g| == SIZE * SIZE && 0 <= i < SIZE
    ensures |l| == SIZE
  {
    seq(SIZE, j requires 0 <= j < SIZE => if axis == 0 then At(g, i, j) else At(g, j, i))
  }

  /** l[a..b] is a run of white squares that cannot be extended either way. */
  predicate MaximalRun(l: seq<Cell>, a: int, b: int) {
    0 <= a < b <= |l| && (forall k | a <= k < b :: l[k] == White) &&
    (a == 0 || l[a - 1] != White) && (b == |l| || l[b] != White)
  }

  /** Every maximal white run of the line is at least 3 long. */
  ghost predicate RunsAtLeast3(l: seq<Cell>) {
    forall a, b | MaximalRun(l, a, b) :: b - a >= 3
  }

  ghost predicate MinWordLength(g: seq<Cell>)
    requires |g| == SIZE * SIZE
  {
    forall axis, i | 0 <= axis < 2 && 0 <= i < SIZE :: RunsAtLeast3(Line(g, axis, i))
  }

  /** A maximal run ending at `b` starts right after the last non-white square before `b`. */
  lemma RunStart(l: seq<Cell>, a: int, b: int, start: int)
    requires 0 <= start <= b <= |l| && (forall k | start <= k < b :: l[k] == White)
    requires start == 0 || l[start - 1] != White
    requires MaximalRun(l, a, b)
    ensures a == start
  {
  }

  /** hasMinWordLength's scan of one row or column, `count` being the current white run. */
  method LineRunsOk(g: array<Cell>, axis: int, i: int) returns (ok: bool)
    requires g.Length == SIZE * SIZE && 0 <= axis < 2 && 0 <= i < SIZE
    ensures ok <==> RunsAtLeast3(Line(g[..], axis, i))
  {
    ghost var l := Line(g[..], axis, i);
    var count := 0;
    for j := 0 to SIZE
      invariant 0 <= count <= j
      invariant forall k | j - count <= k < j :: l[k] == White
      invariant j - count == 0 || l[j - count - 1] != White
      invariant forall a, b | MaximalRun(l, a, b) && b < j :: b - a >= 3
    {
      var cell := if axis == 0 then g[Idx(i, j)] else g[Idx(j, i)];
      assert cell == l[j];
      if cell == White {
        count := count + 1;
      } else {
        if count > 0 && count < 3 {
          assert MaximalRun(l, j - count, j);
          return false;
        }
        forall a | MaximalRun(l, a, j)
          ensures j - a >= 3
        {
          RunStart(l, a, j, j - count);
        }
        count := 0;
      }
    }
    if count > 0 && count < 3 {
      assert MaximalRun(l, SIZE - count, SIZE);
      return false;
    }
    forall a | MaximalRun(l, a, SIZE)
      ensures SIZE - a >= 3
    {
      RunStart(l, a, SIZE, SIZE - count);
    }
    return true;
  }

  method HasMinWordLength(g: array<Cell>) returns (b: bool)
    requires g.Length == SIZE * SIZE
    ensures b <==> MinWordLength(g[..])
  {
    for axis := 0 to 2
      invariant forall ax, k | 0 <= ax < axis && 0 <= k < SIZE :: RunsAtLeast3(Line(g[..], ax, k))
    {
      for i := 0 to SIZE
        invariant forall ax, k | 0 <= ax < axis && 0 <= k < SIZE :: RunsAtLeast3(Line(g[..], ax, k))
        invariant forall k | 0 <= k < i :: RunsAtLeast3(Line(g[..], axis, k))
      {
        var ok := LineRunsOk(g, axis, i);
        if !ok {
          return false;
        }
      }
    }
    return true;
  }

  // ---------------------------------------------------------------------
  // allWhiteConnected

  predicate WhiteAt(g: seq<Cell>, p: Pos)
    requires |g| == SIZE * SIZE
  {
    InGrid(p.0, p.1) && At(g, p.0, p.1) == White
  }

  /** The four neighbours, in the order the source tries them. */
  const Dirs: seq<Pos> := [(-1, 0), (1, 0), (0, -1), (0, 1)]

  function Neighbour(p: Pos, k: int): Pos
    requires 0 <= k < 4
  {
    (p.0 + Dirs[k].0, p.1 + Dirs[k].1)
  }

  predicate Adjacent(p: Pos, q: Pos) {
    (p.0 == q.0 && (p.1 - q.1 == 1 || q.1 - p.1 == 1)) ||
    (p.1 == q.1 && (p.0 - q.0 == 1 || q.0 - p.0 == 1))
  }

  lemma AdjacentIsNeighbour(p: Pos, q: Pos)
    requires Adjacent(p, q)
    ensures exists k :: 0 <= k < 4 && q == Neighbour(p, k)
  {
    if q == Neighbour(p, 0) {
    } else if q == Neighbour(p, 1) {
    } else if q == Neighbour(p, 2) {
    } else {
      assert q == Neighbour(p, 3);
    }
  }

  /** A walk through white squares, each step to an orthogonal neighbour. */
  ghost predicate IsPath(g: seq<Cell>, path: seq<Pos>)
    requires |g| == SIZE * SIZE
  {
    |path| > 0 && (forall k | 0 <= k < |path| :: WhiteAt(g, path[k])) &&
    (forall k | 0 < k < |path| :: Adjacent(path[k - 1], path[k]))
  }

  ghost predicate Reachable(g: seq<Cell>, s: Pos, t: Pos)
    requires |g| == SIZE * SIZE
  {
    exists path | IsPath(g, path) :: path[0] == s && path[|path| - 1] == t
  }

  /** Every white square can reach every other one (trivially true without white squares). */
  ghost predicate Connected(g: seq<Cell>)
    requires |g| == SIZE * SIZE
  {
    forall p, q | WhiteAt(g, p) && WhiteAt(g, q) :: Reachable(g, p, q)
  }

  lemma ReachableRefl(g: seq<Cell>, p: Pos)
    requires |g| == SIZE * SIZE && WhiteAt(g, p)
    ensures Reachable(g, p, p)
  {
    assert IsPath(g, [p]);
  }

  lemma ReachableStep(g: seq<Cell>, s: Pos, p: Pos, q: Pos)
    requires |g| == SIZE * SIZE && Reachable(g, s, p) && Adjacent(p, q) && WhiteAt(g, q)
    ensures Reachable(g, s, q)
  {
    var path :| IsPath(g, path) && path[0] == s && path[|path| - 1] == p;
    var longer := path + [q];
    assert IsPath(g, longer);
  }

  function Reverse(s: seq<Pos>): (r: seq<Pos>)
    ensures |r| == |s| && forall k | 0 <= k < |s| :: r[k] == s[|s| - 1 - k]
  {
    if |s| == 0 then [] else Reverse(s[1..]) + [s[0]]
  }

  lemma ReachableSym(g: seq<Cell>, p: Pos, q: Pos)
    requires |g| == SIZE * SIZE && Reachable(g, p, q)
    ensures Reachable(g, q, p)
  {
    var path :| IsPath(g, path) && path[0] == p && path[|path| - 1] == q;
    var back := Reverse(path);
    forall k | 0 < k < |back|
      ensures Adjacent(back[k - 1], back[k])
    {
      assert back[k - 1] == path[|path| - k] && back[k] == path[|path| - 1 - k];
      assert Adjacent(path[|path| - k - 1], path[|path| - k]);
    }
    assert IsPath(g, back);
  }

  lemma ReachableTrans(g: seq<Cell>, p: Pos, q: Pos, t: Pos)
    requires |g| == SIZE * SIZE && Reachable(g, p, q) && Reachable(g, q, t)
    ensures Reachable(g, p, t)
  {
    var first :| IsPath(g, first) && first[0] == p && first[|first| - 1] == q;
    var second :| IsPath(g, second) && second[0] == q && second[|second| - 1] == t;
    var both := first + second[1..];
    forall k | 0 < k < |both|
      ensures Adjacent(both[k - 1], both[k])
    {
      if k < |first| {
        assert both[k - 1] == first[k - 1] && both[k] == first[k];
      } else {
        assert both[k] == second[k - |first| + 1];
        assert both[k - 1] == second[k - |first|];
      }
    }
    assert IsPath(g, both);
  }

  /** One white square that reaches all white squares makes the grid Connected. */
  lemma ConnectedFromHub(g: seq<Cell>, s: Pos)
    requires |g| == SIZE * SIZE && WhiteAt(g, s)
    requires forall r, c | InGrid(r, c) && At(g, r, c) == White :: Reachable(g, s, (r, c))
    ensures Connected(g)
  {
    forall p, q | WhiteAt(g, p) && WhiteAt(g, q)
      ensures Reachable(g, p, q)
    {
      assert Reachable(g, s, (p.0, p.1)) && Reachable(g, s, (q.0, q.1));
      ReachableSym(g, s, p);
      ReachableTrans(g, p, s, q);
    }
  }

  /** (r, c) comes before (r2, c2) in row-major order. */
  predicate Before(r: int, c: int, r2: int, c2: int) {
    r < r2 || (r == r2 && c < c2)
  }

  /** The start search of allWhiteConnected: the first white square in row-major order. */
  method FirstWhite(g: array<Cell>) returns (start: Option<Pos>)
    requires g.Length == SIZE * SIZE
    ensures start.None? <==> forall r, c | InGrid(r, c) :: At(g[..], r, c) != White
    ensures start.Some? ==> WhiteAt(g[..], start.value)
    ensures start.Some? ==>
      forall r, c | InGrid(r, c) && Before(r, c, start.value.0, start.value.1) :: At(g[..], r, c) != White
  {
    start := None;
    for i := 0 to SIZE
      invariant start.None?
      invariant forall r, c | 0 <= r < i && 0 <= c < SIZE :: At(g[..], r, c) != White
    {
      for j := 0 to SIZE
        invariant forall r, c | 0 <= r < i && 0 <= c < SIZE :: At(g[..], r, c) != White
        invariant forall c | 0 <= c < j :: At(g[..], i, c) != White
      {
        if g[Idx(i, j)] == White {
          assert At(g[..], i, j) == White;
          return Some((i, j));
        }
      }
    }
  }

  /** Every white neighbour of every visited square that is no longer queued is visited. */
  ghost predicate Closed(g: seq<Cell>, visited: seq<bool>, queue: seq<Pos>)
    requires |g| == SIZE * SIZE && |visited| == SIZE * SIZE
  {
    forall r, c, k | InGrid(r, c) && 0 <= k < 4 && visited[Idx(r, c)] && (r, c) !in queue &&
                     WhiteAt(g, Neighbour((r, c), k)) ::
      visited[Idx(Neighbour((r, c), k).0, Neighbour((r, c), k).1)]
  }

  /** With nothing queued, a walk that starts on a visited square ends on one. */
  lemma {:induction false} PathStaysVisited(g: seq<Cell>, visited: seq<bool>, path: seq<Pos>)
    requires |g| == SIZE * SIZE && |visited| == SIZE * SIZE
    requires Closed(g, visited, []) && IsPath(g, path) && visited[Idx(path[0].0, path[0].1)]
    ensures visited[Idx(path[|path| - 1].0, path[|path| - 1].1)]
  {
    if |path| > 1 {
      var prefix := path[..|path| - 1];
      assert IsPath(g, prefix);
      PathStaysVisited(g, visited, prefix);
      var p, q := path[|path| - 2], path[|path| - 1];
      assert Adjacent(p, q) && WhiteAt(g, q) && WhiteAt(g, p);
      AdjacentIsNeighbour(p, q);
      var k :| 0 <= k < 4 && q == Neighbour(p, k);
      assert q == Neighbour((p.0, p.1), k);
    }
  }

  function CountFalse(v: seq<bool>): (n: nat)
    ensures n <= |v|
  {
    if |v| == 0 then 0 else (if v[0] then 0 else 1) + CountFalse(v[1..])
  }

  lemma {:induction false} CountFalseMark(v: seq<bool>, p: int)
    requires 0 <= p < |v| && !v[p]
    ensures CountFalse(v[p := true]) == CountFalse(v) - 1
  {
    if p > 0 {
      CountFalseMark(v[1..], p - 1);
      assert v[p := true][1..] == v[1..][p - 1 := true];
    } else {
      assert v[p := true][1..] == v[1..];
    }
  }

  /** Every marked square is white and reachable from `s`. */
  ghost predicate MarkedReachable(g: seq<Cell>, v: seq<bool>, s: Pos)
    requires |g| == SIZE * SIZE && |v| == SIZE * SIZE
  {
    forall r, c | InGrid(r, c) && v[Idx(r, c)] :: At(g, r, c) == White && Reachable(g, s, (r, c))
  }

  /** Marks are only ever added. */
  ghost predicate Grows(v0: seq<bool>, v: seq<bool>) {
    |v0| == |v| && forall p | 0 <= p < |v| && v0[p] :: v[p]
  }

  /** Every square marked since `v0` is in the queue. */
  ghost predicate NewQueued(v0: seq<bool>, v: seq<bool>, q: seq<Pos>)
    requires |v0| == SIZE * SIZE && |v| == SIZE * SIZE
  {
    forall r, c | InGrid(r, c) && v[Idx(r, c)] && !v0[Idx(r, c)] :: (r, c) in q
  }

  /** Every queued square is in the grid and marked. */
  ghost predicate QueueMarked(v: seq<bool>, q: seq<Pos>)
    requires |v| == SIZE * SIZE
  {
    forall k | 0 <= k < |q| :: InGrid(q[k].0, q[k].1) && v[Idx(q[k].0, q[k].1)]
  }

  /** The first `d` neighbours of `x` are marked where they are white. */
  ghost predicate NeighboursMarked(g: seq<Cell>, v: seq<bool>, x: Pos, d: int)
    requires |g| == SIZE * SIZE && |v| == SIZE * SIZE && d <= 4
  {
    forall k | 0 <= k < d && WhiteAt(g, Neighbour(x, k)) :: v[Idx(Neighbour(x, k).0, Neighbour(x, k).1)]
  }

  /**
   * allWhiteConnected: breadth-first search from the first white square,
   * marking squares when they are queued, then a scan for a white square
   * never marked.  True exactly when the white squares are Connected.
   */
  method AllWhiteConnected(g: array<Cell>) returns (b: bool)
    requires g.Length == SIZE * SIZE
    ensures b <==> Connected(g[..])
  {
    var visited := new bool[SIZE * SIZE](p => false);
    var start := FirstWhite(g);
    if start.None? {
      return true;
    }
    var s := start.value;
    assert visited[..] == seq(SIZE * SIZE, p => false);
    visited[Idx(s.0, s.1)] := true;
    InitialMarks(g[..], visited[..], s);
    Search(g, visited, s);
    b := AllWhiteVisited(g, visited);
    SearchDecides(g[..], visited[..], s);
  }

  /** Only the start square marked: the search's state before its loop. */
  lemma InitialMarks(g: seq<Cell>, v: seq<bool>, s: Pos)
    requires |g| == SIZE * SIZE && WhiteAt(g, s)
    requires v == seq(SIZE * SIZE, p => false)[Idx(s.0, s.1) := true]
    ensures MarkedReachable(g, v, s) && QueueMarked(v, [s]) && Closed(g, v, [s])
  {
    ReachableRefl(g, s);
    forall r, c | InGrid(r, c) && v[Idx(r, c)]
      ensures (r, c) == s
    {
      IdxInjective(r, c, s.0, s.1);
    }
  }

  /** The search loop of allWhiteConnected: take the head of the queue and visit its neighbours. */
  method Search(g: array<Cell>, visited: array<bool>, s: Pos)
    requires g.Length == SIZE * SIZE && visited.Length == SIZE * SIZE && InGrid(s.0, s.1) && visited[Idx(s.0, s.1)]
    requires MarkedReachable(g[..], visited[..], s) && QueueMarked(visited[..], [s]) && Closed(g[..], visited[..], [s])
    modifies visited
    ensures visited[Idx(s.0, s.1)] && MarkedReachable(g[..], visited[..], s) && Closed(g[..], visited[..], [])
  {
    var queue := [s];
    while |queue| > 0
      invariant visited[Idx(s.0, s.1)]
      invariant MarkedReachable(g[..], visited[..], s)
      invariant QueueMarked(visited[..], queue)
      invariant Closed(g[..], visited[..], queue)
      decreases CountFalse(visited[..]), |queue|
    {
      var x := queue[0];
      ghost var v0, q0 := visited[..], queue;
      queue := VisitNeighbours(g, visited, queue[1..], x, s);
      ClosedAfterVisit(g[..], v0, visited[..], q0, queue, x);
    }
  }

  /**
   * After the search from the white square `s` has emptied its queue, the
   * grid is Connected exactly when every white square got marked.
   */
  lemma SearchDecides(g: seq<Cell>, v: seq<bool>, s: Pos)
    requires |g| == SIZE * SIZE && |v| == SIZE * SIZE && InGrid(s.0, s.1) && v[Idx(s.0, s.1)]
    requires MarkedReachable(g, v, s) && Closed(g, v, [])
    ensures Connected(g) <==> forall r, c | InGrid(r, c) && At(g, r, c) == White :: v[Idx(r, c)]
  {
    if forall r, c | InGrid(r, c) && At(g, r, c) == White :: v[Idx(r, c)] {
      ConnectedFromHub(g, s);
    } else {
      var i, j :| InGrid(i, j) && At(g, i, j) == White && !v[Idx(i, j)];
      if Connected(g) {
        assert Reachable(g, s, (i, j));
        var path :| IsPath(g, path) && path[0] == s && path[|path| - 1] == (i, j);
        PathStaysVisited(g, v, path);
      }
    }
  }

  /** Closedness is kept when the head `x` of the queue has had its neighbours marked. */
  lemma ClosedAfterVisit(g: seq<Cell>, v0: seq<bool>, v: seq<bool>, q0: seq<Pos>, q: seq<Pos>, x: Pos)
    requires |g| == SIZE * SIZE && |v0| == SIZE * SIZE && |v| == SIZE * SIZE
    requires |q0| > 0 && x == q0[0] && InGrid(x.0, x.1) && Closed(g, v0, q0)
    requires Grows(v0, v) && NeighboursMarked(g, v, x, 4) && q0[1..] <= q && NewQueued(v0, v, q)
    ensures Closed(g, v, q)
  {
    forall r, c, k | InGrid(r, c) && 0 <= k < 4 && v[Idx(r, c)] && (r, c) !in q && WhiteAt(g, Neighbour((r, c), k))
      ensures v[Idx(Neighbour((r, c), k).0, Neighbour((r, c), k).1)]
    {
      if (r, c) != x {
        assert (r, c) !in q0;
        var n := Neighbour((r, c), k);
        assert v0[Idx(n.0, n.1)];
      }
    }
  }

  /**
   * The loop over the four directions of allWhiteConnected: each neighbour
   * of `x` that is inside the grid, white and not yet marked is marked and
   * queued.
   */
  method VisitNeighbours(g: array<Cell>, visited: array<bool>, queue0: seq<Pos>, x: Pos, ghost s: Pos)
    returns (queue: seq<Pos>)
    requires g.Length == SIZE * SIZE && visited.Length == SIZE * SIZE
    requires InGrid(x.0, x.1) && visited[Idx(x.0, x.1)]
    requires MarkedReachable(g[..], visited[..], s) && QueueMarked(visited[..], queue0)
    modifies visited
    ensures MarkedReachable(g[..], visited[..], s) && QueueMarked(visited[..], queue)
    ensures Grows(old(visited[..]), visited[..]) && NeighboursMarked(g[..], visited[..], x, 4)
    ensures queue0 <= queue && NewQueued(old(visited[..]), visited[..], queue)
    ensures (visited[..] == old(visited[..]) && queue == queue0) || CountFalse(visited[..]) < CountFalse(old(visited[..]))
  {
    ghost var v0 := visited[..];
    queue := queue0;
    for d := 0 to 4
      invariant MarkedReachable(g[..], visited[..], s) && QueueMarked(visited[..], queue)
      invariant Grows(v0, visited[..]) && NeighboursMarked(g[..], visited[..], x, d)
      invariant queue0 <= queue && NewQueued(v0, visited[..], queue)
      invariant (visited[..] == v0 && queue == queue0) || CountFalse(visited[..]) < CountFalse(v0)
      invariant CountFalse(visited[..]) <= CountFalse(v0)
    {
      ghost var v1, q1 := visited[..], queue;
      queue := VisitOne(g, visited, queue, x, d, s);
      NeighboursMarkedStep(g[..], v1, visited[..], x, d);
      assert Grows(v0, visited[..]);
      assert NewQueued(v0, visited[..], queue) by {
        forall r, c | InGrid(r, c) && visited[Idx(r, c)] && !v0[Idx(r, c)]
          ensures (r, c) in queue
        {
          if v1[Idx(r, c)] {
            assert (r, c) in q1;
          }
        }
      }
    }
  }

  lemma NeighboursMarkedStep(g: seq<Cell>, v1: seq<bool>, v2: seq<bool>, x: Pos, d: int)
    requires |g| == SIZE * SIZE && |v1| == SIZE * SIZE && 0 <= d < 4
    requires NeighboursMarked(g, v1, x, d) && Grows(v1, v2)
    requires WhiteAt(g, Neighbour(x, d)) ==> v2[Idx(Neighbour(x, d).0, Neighbour(x, d).1)]
    ensures NeighboursMarked(g, v2, x, d + 1)
  {
  }

  /** One direction: mark and queue the neighbour when it is in the grid, white and unmarked. */
  method VisitOne(g: array<Cell>, visited: array<bool>, queue0: seq<Pos>, x: Pos, d: int, ghost s: Pos)
    returns (queue: seq<Pos>)
    requires g.Length == SIZE * SIZE && visited.Length == SIZE * SIZE && 0 <= d < 4
    requires InGrid(x.0, x.1) && visited[Idx(x.0, x.1)]
    requires MarkedReachable(g[..], visited[..], s) && QueueMarked(visited[..], queue0)
    modifies visited
    ensures MarkedReachable(g[..], visited[..], s) && QueueMarked(visited[..], queue)
    ensures Grows(old(visited[..]), visited[..])
    ensures WhiteAt(g[..], Neighbour(x, d)) ==> visited[Idx(Neighbour(x, d).0, Neighbour(x, d).1)]
    ensures queue0 <= queue && NewQueued(old(visited[..]), visited[..], queue)
    ensures (visited[..] == old(visited[..]) && queue == queue0) || CountFalse(visited[..]) == CountFalse(old(visited[..])) - 1
  {
    queue := queue0;
    var nx, ny := x.0 + Dirs[d].0, x.1 + Dirs[d].1;
    assert (nx, ny) == Neighbour(x, d);
    if 0 <= nx < SIZE && 0 <= ny < SIZE && g[Idx(nx, ny)] == White && !visited[Idx(nx, ny)] {
      ghost var v0 := visited[..];
      CountFalseMark(v0, Idx(nx, ny));
      assert Adjacent(x, (nx, ny));
      ReachableStep(g[..], s, x, (nx, ny));
      visited[Idx(nx, ny)] := true;
      assert visited[..] == v0[Idx(nx, ny) := true];
      queue := queue + [(nx, ny)];
      assert NewQueued(v0, visited[..], queue) by {
        forall r, c | InGrid(r, c) && visited[Idx(r, c)] && !v0[Idx(r, c)]
          ensures (r, c) in queue
        {
          IdxInjective(r, c, nx, ny);
          assert queue[|queue| - 1] == (nx, ny);
        }
      }
    }
  }

  /** The final scan of allWhiteConnected: no white square was left unmarked. */
  method AllWhiteVisited(g: array<Cell>, visited: array<bool>) returns (b: bool)
    requires g.Length == SIZE * SIZE && visited.Length == SIZE * SIZE
    ensures b <==> forall r, c | InGrid(r, c) && At(g[..], r, c) == White :: visited[Idx(r, c)]
  {
    for i := 0 to SIZE
      invariant forall r, c | 0 <= r < i && 0 <= c < SIZE && At(g[..], r, c) == White :: visited[Idx(r, c)]
    {
      for j := 0 to SIZE
        invariant forall r, c | 0 <= r < i && 0 <= c < SIZE && At(g[..], r, c) == White :: visited[Idx(r, c)]
        invariant forall c | 0 <= c < j && At(g[..], i, c) == White :: visited[Idx(i, c)]
      {
        if g[Idx(i, j)] == White && !visited[Idx(i, j)] {
          assert At(g[..], i, j) == White;
          return false;
        }
      }
    }
    return true;
  }

  // ---------------------------------------------------------------------
  // allWhiteHaveWords

  /** A white neighbour to the left or right (part of an across word). */
  predicate InAcross(g: seq<Cell>, r: int, c: int)
    requires |g| == SIZE * SIZE && InGrid(r, c)
  {
    (c > 0 && At(g, r, c - 1) == White) || (c < SIZE - 1 && At(g, r, c + 1) == White)
  }

  /** A white neighbour above or below (part of a down word). */
  predicate InDown(g: seq<Cell>, r: int, c: int)
    requires |g| == SIZE * SIZE && InGrid(r, c)
  {
    (r > 0 && At(g, r - 1, c) == White) || (r < SIZE - 1 && At(g, r + 1, c) == White)
  }

  ghost predicate HasWords(g: seq<Cell>)
    requires |g| == SIZE * SIZE
  {
    forall r, c | InGrid(r, c) && At(g, r, c) == White :: InAcross(g, r, c) && InDown(g, r, c)
  }

  method AllWhiteHaveWords(g: array<Cell>) returns (b: bool)
    requires g.Length == SIZE * SIZE
    ensures b <==> HasWords(g[..])
  {
    for i := 0 to SIZE
      invariant forall r, c | 0 <= r < i && 0 <= c < SIZE && At(g[..], r, c) == White :: InAcross(g[..], r, c) && InDown(g[..], r, c)
    {
      for j := 0 to SIZE
        invariant forall r, c | 0 <= r < i && 0 <= c < SIZE && At(g[..], r, c) == White :: InAcross(g[..], r, c) && InDown(g[..], r, c)
        invariant forall c | 0 <= c < j && At(g[..], i, c) == White :: InAcross(g[..], i, c) && InDown(g[..], i, c)
      {
        if g[Idx(i, j)] == White {
          var left := j > 0 && g[Idx(i, j - 1)] == White;
          var right := j < SIZE - 1 && g[Idx(i, j + 1)] == White;
          var up := i > 0 && g[Idx(i - 1, j)] == White;
          var down := i < SIZE - 1 && g[Idx(i + 1, j)] == White;
          if !(left || right) || !(up || down) {
            assert At(g[..], i, j) == White && !(InAcross(g[..], i, j) && InDown(g[..], i, j));
            return false;
          }
        }
      }
    }
    return true;
  }

  // ---------------------------------------------------------------------
  // isValid and placeBlackSquares

  ghost predicate ValidGrid(g: seq<Cell>)
    requires |g| == SIZE * SIZE
  {
    Symmetric(g) && MinWordLength(g) && Connected(g) && HasWords(g)
  }

  method IsValid(g: array<Cell>) returns (b: bool)
    requires g.Length == SIZE * SIZE
    ensures b <==> ValidGrid(g[..])
  {
    b := IsSymmetric(g);
    if b {
      b := HasMinWordLength(g);
    }
    if b {
      b := AllWhiteConnected(g);
    }
    if b {
      b := AllWhiteHaveWords(g);
    }
  }

  /** Every square of the all-white grid reaches the corner (0, 0). */
  lemma {:induction false} AllWhiteReach(r: int, c: int)
    requires InGrid(r, c)
    ensures Reachable(AllWhite(), (0, 0), (r, c))
    decreases r + c
  {
    var g := AllWhite();
    if c > 0 {
      AllWhiteReach(r, c - 1);
      ReachableStep(g, (0, 0), (r, c - 1), (r, c));
    } else if r > 0 {
      AllWhiteReach(r - 1, c);
      ReachableStep(g, (0, 0), (r - 1, c), (r, c));
    } else {
      ReachableRefl(g, (0, 0));
    }
  }

  /** The grid placeBlackSquares starts from passes isValid. */
  lemma AllWhiteValid()
    ensures ValidGrid(AllWhite())
  {
    var g := AllWhite();
    forall axis, i | 0 <= axis < 2 && 0 <= i < SIZE
      ensures RunsAtLeast3(Line(g, axis, i))
    {
      var l := Line(g, axis, i);
      forall a, b | MaximalRun(l, a, b)
        ensures b - a >= 3
      {
        RunStart(l, a, b, 0);
      }
    }
    forall r, c | InGrid(r, c)
      ensures Reachable(g, (0, 0), (r, c))
    {
      AllWhiteReach(r, c);
    }
    ConnectedFromHub(g, (0, 0));
  }

  function CountBlack(g: seq<Cell>): (n: nat)
    ensures n <= |g|
  {
    if |g| == 0 then 0 else (if g[0] == Black then 1 else 0) + CountBlack(g[1..])
  }

  lemma {:induction false} CountBlackUpdate(g: seq<Cell>, p: int, x: Cell)
    requires 0 <= p < |g|
    ensures CountBlack(g[p := x]) == CountBlack(g) - (if g[p] == Black then 1 else 0) + (if x == Black then 1 else 0)
  {
    if p > 0 {
      CountBlackUpdate(g[1..], p - 1, x);
      assert g[p := x][1..] == g[1..][p - 1 := x];
    } else {
      assert g[p := x][1..] == g[1..];
    }
  }

  lemma {:induction false} CountBlackWhite(g: seq<Cell>)
    requires forall p | 0 <= p < |g| :: g[p] == White
    ensures CountBlack(g) == 0
  {
    if |g| > 0 {
      CountBlackWhite(g[1..]);
    }
  }

  /** Only white and black squares. */
  predicate Plain(g: seq<Cell>) {
    forall p | 0 <= p < |g| :: g[p] == White || g[p] == Black
  }

  /** The test that puts square (i, j) in placeBlackSquares' list of positions. */
  predicate Candidate(i: int, j: int) {
    2 * i < SIZE || (i == HALF && j <= HALF)
  }

  /**
   * With SIZE / 2 being 7.5 in the source, the first half of the test
   * already takes the whole middle row, so the second half never decides.
   */
  lemma CandidateRows(i: int, j: int)
    requires InGrid(i, j)
    ensures Candidate(i, j) <==> i <= HALF
  {
  }

  /** The list of positions built by the source's double loop, in row-major order. */
  method CandidatePositions() returns (positions: seq<Pos>)
    ensures forall k | 0 <= k < |positions| :: InGrid(positions[k].0, positions[k].1)
    ensures forall r, c :: (r, c) in positions <==> InGrid(r, c) && Candidate(r, c)
  {
    positions := [];
    for i := 0 to SIZE
      invariant forall k | 0 <= k < |positions| :: InGrid(positions[k].0, positions[k].1)
      invariant forall r, c :: (r, c) in positions <==> 0 <= r < i && 0 <= c < SIZE && Candidate(r, c)
    {
      for j := 0 to SIZE
        invariant forall k | 0 <= k < |positions| :: InGrid(positions[k].0, positions[k].1)
        invariant forall r, c :: (r, c) in positions <==>
          ((0 <= r < i || (r == i && c < j)) && 0 <= c < SIZE && Candidate(r, c))
      {
        if Candidate(i, j) {
          positions := positions + [(i, j)];
        }
      }
    }
  }

  /** The positions in an array, shuffled as the source does. */
  method ShuffledPositions(rng: Random) returns (positions: array<Pos>)
    modifies rng
    ensures fresh(positions)
    ensures forall k | 0 <= k < positions.Length :: InGrid(positions[k].0, positions[k].1)
    ensures forall r, c :: (r, c) in positions[..] <==> InGrid(r, c) && Candidate(r, c)
  {
    var candidates := CandidatePositions();
    positions := new Pos[|candidates|](k => (0, 0));
    for k := 0 to |candidates|
      invariant positions[..k] == candidates[..k]
    {
      positions[k] := candidates[k];
    }
    assert positions[..] == candidates;
    Shuffle(positions, rng);
    forall k | 0 <= k < positions.Length
      ensures InGrid(positions[k].0, positions[k].1)
    {
      assert positions[k] in multiset(candidates);
    }
    forall r, c
      ensures (r, c) in positions[..] <==> (r, c) in candidates
    {
      assert (r, c) in positions[..] <==> (r, c) in multiset(positions[..]);
      assert (r, c) in candidates <==> (r, c) in multiset(candidates);
    }
  }

  /** The grid with (i, j) and its mirror (14 - i, 14 - j) turned black. */
  function BlackenPair(g: seq<Cell>, i: int, j: int): seq<Cell>
    requires |g| == SIZE * SIZE && InGrid(i, j)
  {
    g[Idx(i, j) := Black][Idx(SIZE - 1 - i, SIZE - 1 - j) := Black]
  }

  /**
   * One step of placeBlackSquares: when (i, j) and its mirror are both
   * white, blacken both and keep them only if the grid still passes isValid.
   */
  method TryPair(grid: array<Cell>, i: int, j: int) returns (kept: bool)
    requires grid.Length == SIZE * SIZE && InGrid(i, j)
    requires ValidGrid(grid[..]) && Plain(grid[..])
    modifies grid
    ensures ValidGrid(grid[..]) && Plain(grid[..])
    ensures kept <==> (old(At(grid[..], i, j)) == White && old(At(grid[..], SIZE - 1 - i, SIZE - 1 - j)) == White &&
                       ValidGrid(BlackenPair(old(grid[..]), i, j)))
    ensures kept ==> grid[..] == BlackenPair(old(grid[..]), i, j)
    ensures kept ==> CountBlack(grid[..]) <= CountBlack(old(grid[..])) + 2
    ensures !kept ==> grid[..] == old(grid[..])
  {
    var symI, symJ := SIZE - 1 - i, SIZE - 1 - j;
    if grid[Idx(i, j)] != White || grid[Idx(symI, symJ)] != White {
      return false;
    }
    ghost var before := grid[..];
    CountBlackUpdate(before, Idx(i, j), Black);
    grid[Idx(i, j)] := Black;
    CountBlackUpdate(grid[..], Idx(symI, symJ), Black);
    grid[Idx(symI, symJ)] := Black;
    assert grid[..] == BlackenPair(before, i, j);
    kept := IsValid(grid);
    if !kept {
      grid[Idx(i, j)] := White;
      grid[Idx(symI, symJ)] := White;
      assert grid[..] == before;
    }
  }

  /**
   * placeBlackSquares(numBlack): from the all-white grid, try the candidate
   * squares in a shuffled order (TryPair), stopping after floor(numBlack / 2)
   * kept pairs.  The result passes isValid, holds only white and black
   * squares, and has at most two black squares per kept pair.
   */
  method PlaceBlackSquares(numBlack: int, rng: Random) returns (grid: array<Cell>)
    modifies rng
    ensures fresh(grid) && grid.Length == SIZE * SIZE
    ensures ValidGrid(grid[..]) && Plain(grid[..])
    ensures CountBlack(grid[..]) <= 2 * (if numBlack / 2 < 0 then 0 else numBlack / 2)
  {
    grid := new Cell[SIZE * SIZE](p => White);
    assert grid[..] == AllWhite();
    AllWhiteValid();
    var positions := ShuffledPositions(rng);
    CountBlackWhite(grid[..]);
    var placed := 0;
    for idx := 0 to positions.Length
      modifies grid
      invariant ValidGrid(grid[..]) && Plain(grid[..])
      invariant 0 <= placed <= (if numBlack / 2 < 0 then 0 else numBlack / 2)
      invariant CountBlack(grid[..]) <= 2 * placed
    {
      if placed >= numBlack / 2 {
        break;
      }
      var (i, j) := positions[idx];
      var kept := TryPair(grid, i, j);
      if kept {
        placed := placed + 1;
      }
    }
  }
}
