/*
 * The word graph shared by the Weaver game (weaver.js) and its solver
 * page (weaver-solver.js): two words are joined when they differ in
 * exactly one letter.  The two files count differing positions over
 * different ranges: the solver over the first 4 positions, the game over
 * the first word's length; `Bound` names which.
 */
module WordGraph {
  import opened Common

  type Graph = map<string, seq<string>>

  /** `s[i]`, or None past the end of `s` (where JavaScript reads `undefined`). */
  function CharAt(s: string, i: int): Option<char> {
    if 0 <= i < |s| then Some(s[i]) else None
  }

  /** The number of positions below `n` where `a` and `b` differ. */
  function DiffCount(a: string, b: string, n: nat): (k: nat)
    ensures k <= n
  {
    if n == 0 then 0 else DiffCount(a, b, n - 1) + (if CharAt(a, n - 1) != CharAt(b, n - 1) then 1 else 0)
  }

  /** Position `i` is the only position below `n` where `a` and `b` differ. */
  ghost predicate OnlyDiffAt(a: string, b: string, n: nat, i: int) {
    0 <= i < n && CharAt(a, i) != CharAt(b, i) &&
    forall j :: 0 <= j < n && j != i ==> CharAt(a, j) == CharAt(b, j)
  }

  /** Exactly one position below `n` differs. */
  ghost predicate DiffersAtOne(a: string, b: string, n: nat) {
    exists i :: OnlyDiffAt(a, b, n, i)
  }

  lemma {:induction false} DiffCountZero(a: string, b: string, n: nat)
    ensures DiffCount(a, b, n) == 0 <==> forall j :: 0 <= j < n ==> CharAt(a, j) == CharAt(b, j)
  {
    if n > 0 {
      DiffCountZero(a, b, n - 1);
    }
  }

  lemma {:induction false} OnlyDiffAtCounts(a: string, b: string, n: nat, i: int)
    requires OnlyDiffAt(a, b, n, i)
    ensures DiffCount(a, b, n) == 1
  {
    if i == n - 1 {
      DiffCountZero(a, b, n - 1);
    } else {
      OnlyDiffAtCounts(a, b, n - 1, i);
    }
  }

  lemma {:induction false} CountOneHasPosition(a: string, b: string, n: nat)
    requires DiffCount(a, b, n) == 1
    ensures DiffersAtOne(a, b, n)
  {
    if CharAt(a, n - 1) != CharAt(b, n - 1) {
      DiffCountZero(a, b, n - 1);
      assert OnlyDiffAt(a, b, n, n - 1);
    } else {
      CountOneHasPosition(a, b, n - 1);
      var i :| OnlyDiffAt(a, b, n - 1, i);
      assert OnlyDiffAt(a, b, n, i);
    }
  }

  /** A count of one means the words differ at exactly one position. */
  lemma DiffCountOne(a: string, b: string, n: nat)
    ensures DiffCount(a, b, n) == 1 <==> DiffersAtOne(a, b, n)
  {
    if DiffCount(a, b, n) == 1 {
      CountOneHasPosition(a, b, n);
    }
    if DiffersAtOne(a, b, n) {
      var i :| OnlyDiffAt(a, b, n, i);
      OnlyDiffAtCounts(a, b, n, i);
    }
  }

  lemma {:induction false} DiffCountSymmetric(a: string, b: string, n: nat)
    ensures DiffCount(a, b, n) == DiffCount(b, a, n)
  {
    if n > 0 {
      DiffCountSymmetric(a, b, n - 1);
    }
  }

  /**
   * isOneLetterDiff: counts differing positions below `n`, giving up as
   * soon as a second one is found.
   */
  method IsOneLetterDiff(a: string, b: string, n: nat) returns (r: bool)
    ensures r <==> DiffCount(a, b, n) == 1
  {
    var diff := 0;
    for i := 0 to n
      invariant diff == DiffCount(a, b, i) && diff <= 1
    {
      if CharAt(a, i) != CharAt(b, i) {
        diff := diff + 1;
      }
      if diff > 1 {
        DiffCountGrows(a, b, i + 1, n);
        return false;
      }
    }
    return diff == 1;
  }

  lemma {:induction false} DiffCountGrows(a: string, b: string, m: nat, n: nat)
    requires m <= n
    ensures DiffCount(a, b, m) <= DiffCount(a, b, n)
    decreases n - m
  {
    if m < n {
      DiffCountGrows(a, b, m, n - 1);
    }
  }

  /** Which positions isOneLetterDiff compares. */
  datatype Bound = Fixed(n: nat) | FirstLength

  function Limit(bound: Bound, a: string): nat {
    match bound
    case Fixed(n) => n
    case FirstLength => |a|
  }

  /** `word !== other && isOneLetterDiff(word, other)`. */
  predicate Adjacent(bound: Bound, a: string, b: string) {
    a != b && DiffCount(a, b, Limit(bound, a)) == 1
  }

  /** The list words adjacent to `w`, in list order. */
  function Neighbours(words: seq<string>, bound: Bound, w: string): (r: seq<string>)
    ensures |r| <= |words|
    ensures forall o :: o in r <==> o in words && Adjacent(bound, w, o)
  {
    if |words| == 0 then []
    else (if Adjacent(bound, w, words[0]) then [words[0]] else []) + Neighbours(words[1..], bound, w)
  }

  /** The graph buildWordGraph builds from `words`. */
  ghost predicate GraphOf(g: Graph, words: seq<string>, bound: Bound) {
    (forall w :: w in g <==> w in words) &&
    forall w | w in g :: g[w] == Neighbours(words, bound, w)
  }

  lemma NeighboursPrefix(words: seq<string>, bound: Bound, w: string, j: nat)
    requires j < |words|
    ensures Neighbours(words[..j + 1], bound, w) ==
      Neighbours(words[..j], bound, w) + (if Adjacent(bound, w, words[j]) then [words[j]] else [])
  {
    if j > 0 {
      NeighboursPrefix(words[1..], bound, w, j - 1);
      assert words[1..][..j] == words[..j + 1][1..];
      assert words[1..][..j - 1] == words[..j][1..];
    }
  }

  /**
   * buildWordGraph: each list word is mapped to the other list words one
   * letter away, in list order.  A repeated word is set again to the same
   * list.
   */
  method BuildWordGraph(words: seq<string>, bound: Bound) returns (graph: Graph)
    ensures GraphOf(graph, words, bound)
  {
    graph := map[];
    for i := 0 to |words|
      invariant forall w :: w in graph <==> w in words[..i]
      invariant forall w | w in graph :: graph[w] == Neighbours(words, bound, w)
    {
      var word := words[i];
      graph := graph[word := []];
      for j := 0 to |words|
        invariant forall w :: w in graph <==> w in words[..i + 1]
        invariant forall w | w in graph && w != word :: graph[w] == Neighbours(words, bound, w)
        invariant graph[word] == Neighbours(words[..j], bound, word)
      {
        var other := words[j];
        NeighboursPrefix(words, bound, word, j);
        var one := IsOneLetterDiff(word, other, Limit(bound, word));
        if word != other && one {
          graph := graph[word := graph[word] + [other]];
        }
      }
      assert words[..|words|] == words;
    }
    assert words[..|words|] == words;
  }

  /** No word is its own neighbour. */
  lemma NoSelfLoops(g: Graph, words: seq<string>, bound: Bound, w: string)
    requires GraphOf(g, words, bound) && w in g
    ensures w !in g[w]
  {
  }

  /**
   * Adjacency is symmetric when both words are compared over the same
   * range: always for a fixed range, and for equal lengths otherwise.
   */
  lemma GraphSymmetric(g: Graph, words: seq<string>, bound: Bound, a: string, b: string)
    requires GraphOf(g, words, bound) && a in g && b in g[a]
    requires bound.FirstLength? ==> |a| == |b|
    ensures b in g && a in g[b]
  {
    DiffCountSymmetric(a, b, Limit(bound, a));
  }

  /** Every neighbour is itself a word of the graph. */
  lemma GraphClosed(g: Graph, words: seq<string>, bound: Bound)
    requires GraphOf(g, words, bound)
    ensures Closed(g)
  {
  }

  // ---------------------------------------------------------------------
  // Paths

  /** Every neighbour is a key of the graph. */
  ghost predicate Closed(g: Graph) {
    forall u, v | u in g && v in g[u] :: v in g
  }

  /** A path follows the graph's edges; a word with no entry has no neighbours. */
  ghost predicate IsPath(g: Graph, p: seq<string>) {
    |p| >= 1 && forall i | 0 <= i < |p| - 1 :: p[i] in g && p[i + 1] in g[p[i]]
  }

  function Last(p: seq<string>): string
    requires |p| >= 1
  {
    p[|p| - 1]
  }

  ghost predicate PathFrom(g: Graph, p: seq<string>, s: string) {
    IsPath(g, p) && p[0] == s
  }

  ghost predicate Reachable(g: Graph, s: string, e: string) {
    exists p :: PathFrom(g, p, s) && Last(p) == e
  }

  lemma PathExtend(g: Graph, p: seq<string>, s: string, v: string)
    requires PathFrom(g, p, s) && Last(p) in g && v in g[Last(p)]
    ensures PathFrom(g, p + [v], s) && Last(p + [v]) == v
  {
  }

  lemma PathPrefix(g: Graph, p: seq<string>, s: string)
    requires PathFrom(g, p, s) && |p| >= 2
    ensures PathFrom(g, p[..|p| - 1], s)
    ensures Last(p[..|p| - 1]) in g && Last(p) in g[Last(p[..|p| - 1])]
  {
  }

  /** Every neighbour of `v` is in `visited` (for `v` in the graph). */
  ghost predicate Expanded(g: Graph, v: string, visited: set<string>) {
    v in g ==> forall n :: n in g[v] ==> n in visited
  }

  /**
   * A set holding `s` and every neighbour of each of its words holds every
   * word reachable from `s`.
   */
  lemma {:induction false} ClosedSetHoldsPaths(g: Graph, s: string, visited: set<string>, p: seq<string>)
    requires s in visited && forall v | v in visited :: Expanded(g, v, visited)
    requires PathFrom(g, p, s)
    ensures Last(p) in visited
    decreases |p|
  {
    if |p| >= 2 {
      PathPrefix(g, p, s);
      ClosedSetHoldsPaths(g, s, visited, p[..|p| - 1]);
    }
  }

  lemma ClosedSetUnreachable(g: Graph, s: string, e: string, visited: set<string>)
    requires s in visited && forall v | v in visited :: Expanded(g, v, visited)
    requires e !in visited
    ensures !Reachable(g, s, e)
  {
    forall p | PathFrom(g, p, s)
      ensures Last(p) != e
    {
      ClosedSetHoldsPaths(g, s, visited, p);
    }
  }

  /** No word occurs twice. */
  predicate NoRepeats(p: seq<string>) {
    forall i, j | 0 <= i < j < |p| :: p[i] != p[j]
  }

  /**
   * A word ladder over the list: list words, each one letter away from the
   * next.
   */
  ghost predicate Ladder(words: seq<string>, bound: Bound, p: seq<string>) {
    |p| >= 1 && (forall i | 0 <= i < |p| :: p[i] in words) &&
    forall i | 0 <= i < |p| - 1 :: Adjacent(bound, p[i], p[i + 1])
  }

  /** In the built graph, the paths from a list word are exactly the ladders. */
  lemma PathIsLadder(g: Graph, words: seq<string>, bound: Bound, p: seq<string>)
    requires GraphOf(g, words, bound) && |p| >= 1 && p[0] in words
    ensures IsPath(g, p) <==> Ladder(words, bound, p)
  {
    if IsPath(g, p) {
      forall i | 0 <= i < |p|
        ensures p[i] in words
      {
        if i > 0 {
          assert p[i] in g[p[i - 1]];
        }
      }
    }
  }
}
