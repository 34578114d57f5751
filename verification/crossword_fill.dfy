/*
 * The word filler of crossword/crossword.js: the word list sorted longest
 * first, the checks that a word fits on a span of the grid, writing a word
 * (returning the squares it changed) and rubbing those squares out again,
 * and the backtracking search that places every word in turn.
 *
 * A span is `length` squares from (row, col) going across (along the row)
 * or down (along the column); its k-th square is SpanPos(row, col, dir, k).
 */
module CrosswordFill {
  import opened Common
  import opened CrosswordGrid

  datatype Direction = Across | Down

  /** A row of the word list: the answer (`Word`) and its clue (`Clue`). */
  datatype Entry = Entry(word: string, clue: string)

  // ---------------------------------------------------------------------
  // sortWordsByLengthDesc

  /** Longer words first. */
  predicate LongestFirst(s: seq<Entry>) {
    forall i, j | 0 <= i < j < |s| :: |s[i].word| >= |s[j].word|
  }

  /** The entries whose word has length `n`, in their order. */
  function OfLength(s: seq<Entry>, n: int): seq<Entry> {
    if |s| == 0 then []
    else (if |s[0].word| == n then [s[0]] else []) + OfLength(s[1..], n)
  }

  /** `e` placed before the first entry that is not longer than it. */
  function InsertByLength(e: Entry, s: seq<Entry>): (r: seq<Entry>)
    ensures multiset(r) == multiset(s) + multiset{e}
    ensures LongestFirst(s) ==> LongestFirst(r)
  {
    if |s| == 0 then [e]
    else if |s[0].word| <= |e.word| then
      assert s == [s[0]] + s[1..];
      [e] + s
    else
      var rest := InsertByLength(e, s[1..]);
      assert s == [s[0]] + s[1..];
      assert LongestFirst(s) ==> LongestFirst([s[0]] + rest) by {
        if LongestFirst(s) {
          InsertTail(e, s, rest);
        }
      }
      [s[0]] + rest
  }

  lemma InsertTail(e: Entry, s: seq<Entry>, rest: seq<Entry>)
    requires |s| > 0 && |s[0].word| > |e.word| && LongestFirst(s) && LongestFirst(rest)
    requires multiset(rest) == multiset(s[1..]) + multiset{e}
    ensures LongestFirst([s[0]] + rest)
  {
    forall j | 0 <= j < |rest|
      ensures |rest[j].word| <= |s[0].word|
    {
      assert rest[j] in multiset(rest);
      if rest[j] != e {
        assert rest[j] in multiset(s[1..]);
        var k :| 0 <= k < |s[1..]| && s[1..][k] == rest[j];
        assert s[k + 1] == rest[j];
      }
    }
  }

  /** Into a list sorted longest first, `e` goes before every entry of its own length. */
  lemma {:induction false} InsertKeepsOrder(e: Entry, s: seq<Entry>, n: int)
    requires LongestFirst(s)
    ensures OfLength(InsertByLength(e, s), n) == (if |e.word| == n then [e] else []) + OfLength(s, n)
  {
    if |s| > 0 && |s[0].word| > |e.word| {
      assert LongestFirst(s[1..]);
      InsertKeepsOrder(e, s[1..], n);
      InsertBehind(e, s, n);
    } else if |s| > 0 {
      assert InsertByLength(e, s) == [e] + s;
      assert ([e] + s)[1..] == s;
    }
  }

  /** The step of InsertKeepsOrder where `e` passes a longer head entry. */
  lemma InsertBehind(e: Entry, s: seq<Entry>, n: int)
    requires |s| > 0 && |s[0].word| > |e.word|
    requires OfLength(InsertByLength(e, s[1..]), n) == (if |e.word| == n then [e] else []) + OfLength(s[1..], n)
    ensures OfLength(InsertByLength(e, s), n) == (if |e.word| == n then [e] else []) + OfLength(s, n)
  {
    var rest := InsertByLength(e, s[1..]);
    var head := if |s[0].word| == n then [s[0]] else [];
    var mid := if |e.word| == n then [e] else [];
    InsertPasses(e, s);
    OfLengthCons(s[0], rest, n);
    OneSideEmpty(head, mid, OfLength(s[1..], n));
  }

  /** Two pieces of which one is empty can trade places. */
  lemma OneSideEmpty(head: seq<Entry>, mid: seq<Entry>, tail: seq<Entry>)
    requires head == [] || mid == []
    ensures head + (mid + tail) == mid + (head + tail)
  {
  }

  /** Behind a longer head entry, the insertion goes on in the tail. */
  lemma InsertPasses(e: Entry, s: seq<Entry>)
    requires |s| > 0 && |s[0].word| > |e.word|
    ensures InsertByLength(e, s) == [s[0]] + InsertByLength(e, s[1..])
  {
  }

  lemma OfLengthCons(x: Entry, t: seq<Entry>, n: int)
    ensures OfLength([x] + t, n) == (if |x.word| == n then [x] else []) + OfLength(t, n)
  {
    assert ([x] + t)[1..] == t;
  }

  /**
   * sortWordsByLengthDesc: a sorted copy of the list, longest words first;
   * since the sort is stable, words of the same length keep their order.
   * The input, a value, is not changed.
   */
  function SortByLengthDesc(words: seq<Entry>): (r: seq<Entry>)
    ensures multiset(r) == multiset(words)
    ensures LongestFirst(r)
  {
    if |words| == 0 then []
    else
      assert words == [words[0]] + words[1..];
      InsertByLength(words[0], SortByLengthDesc(words[1..]))
  }

  /** The sort is stable: the entries of each length keep their order. */
  lemma {:induction false} SortIsStable(words: seq<Entry>, n: int)
    ensures OfLength(SortByLengthDesc(words), n) == OfLength(words, n)
  {
    if |words| > 0 {
      SortIsStable(words[1..], n);
      InsertKeepsOrder(words[0], SortByLengthDesc(words[1..]), n);
    }
  }

  // ---------------------------------------------------------------------
  // hasEnoughSpace and canPlaceWord

  function SpanPos(row: int, col: int, dir: Direction, k: int): Pos {
    if dir == Across then (row, col + k) else (row + k, col)
  }

  /** The span starts in the grid and its `n` squares stay inside it. */
  predicate SpanInGrid(row: int, col: int, n: int, dir: Direction) {
    InGrid(row, col) && 0 <= n && (if dir == Across then col + n <= SIZE else row + n <= SIZE)
  }

  function SpanCell(g: seq<Cell>, row: int, col: int, dir: Direction, k: int): Cell
    requires |g| == SIZE * SIZE && InGrid(SpanPos(row, col, dir, k).0, SpanPos(row, col, dir, k).1)
  {
    At(g, SpanPos(row, col, dir, k).0, SpanPos(row, col, dir, k).1)
  }

  /** hasEnoughSpace's promise: the span fits in the grid and covers no black square. */
  predicate EnoughSpace(g: seq<Cell>, row: int, col: int, n: int, dir: Direction)
    requires |g| == SIZE * SIZE
  {
    SpanInGrid(row, col, n, dir) && forall k | 0 <= k < n :: SpanCell(g, row, col, dir, k) != Black
  }

  /** canPlaceWord's promise: enough space, and every letter already there is the word's. */
  predicate Fits(g: seq<Cell>, w: string, row: int, col: int, dir: Direction)
    requires |g| == SIZE * SIZE
  {
    EnoughSpace(g, row, col, |w|, dir) &&
    forall k | 0 <= k < |w| :: SpanCell(g, row, col, dir, k).Letter? ==> SpanCell(g, row, col, dir, k).ch == w[k]
  }

  method HasEnoughSpace(g: array<Cell>, row: int, col: int, length: int, dir: Direction) returns (b: bool)
    requires g.Length == SIZE * SIZE && InGrid(row, col) && length >= 0
    ensures b <==> EnoughSpace(g[..], row, col, length, dir)
  {
    if dir == Across {
      if col + length > SIZE {
        return false;
      }
      for j := col to col + length
        invariant forall k | 0 <= k < j - col :: SpanCell(g[..], row, col, dir, k) != Black
      {
        if g[Idx(row, j)] == Black {
          assert SpanCell(g[..], row, col, dir, j - col) == Black;
          return false;
        }
      }
    } else {
      if row + length > SIZE {
        return false;
      }
      for i := row to row + length
        invariant forall k | 0 <= k < i - row :: SpanCell(g[..], row, col, dir, k) != Black
      {
        if g[Idx(i, col)] == Black {
          assert SpanCell(g[..], row, col, dir, i - row) == Black;
          return false;
        }
      }
    }
    return true;
  }

  method CanPlaceWord(g: array<Cell>, w: string, row: int, col: int, dir: Direction) returns (b: bool)
    requires g.Length == SIZE * SIZE && InGrid(row, col)
    ensures b <==> Fits(g[..], w, row, col, dir)
  {
    var space := HasEnoughSpace(g, row, col, |w|, dir);
    if !space {
      return false;
    }
    for i := 0 to |w|
      invariant forall k | 0 <= k < i :: SpanCell(g[..], row, col, dir, k).Letter? ==> SpanCell(g[..], row, col, dir, k).ch == w[k]
    {
      var (r, c) := SpanPos(row, col, dir, i);
      var cell := g[Idx(r, c)];
      assert cell == SpanCell(g[..], row, col, dir, i);
      if cell == Black {
        return false;
      }
      if cell.Letter? && cell.ch != w[i] {
        return false;
      }
    }
    return true;
  }

  // ---------------------------------------------------------------------
  // placeWord and removeWord

  /**
   * placeWord from the k-th letter on: each square of the span not already
   * holding its letter gets it and is recorded.  The result is the grid and
   * the recorded squares, in span order.
   */
  function PlaceFrom(g: seq<Cell>, w: string, row: int, col: int, dir: Direction, k: nat): (res: (seq<Cell>, seq<Pos>))
    requires |g| == SIZE * SIZE && SpanInGrid(row, col, |w|, dir) && k <= |w|
    ensures |res.0| == SIZE * SIZE
    decreases |w| - k
  {
    if k == |w| then (g, [])
    else
      var p := SpanPos(row, col, dir, k);
      if At(g, p.0, p.1) != Letter(w[k]) then
        var rest := PlaceFrom(g[Idx(p.0, p.1) := Letter(w[k])], w, row, col, dir, k + 1);
        (rest.0, [p] + rest.1)
      else
        PlaceFrom(g, w, row, col, dir, k + 1)
  }

  /** Square (r, c) is on the span, at an offset in [lo, hi). */
  predicate OnSpan(r: int, c: int, row: int, col: int, dir: Direction, lo: int, hi: int) {
    if dir == Across then r == row && col + lo <= c < col + hi else c == col && row + lo <= r < row + hi
  }

  function Offset(r: int, c: int, row: int, col: int, dir: Direction): int {
    if dir == Across then c - col else r - row
  }

  /** What PlaceFrom leaves in each square, and which squares it records. */
  lemma {:induction false} PlaceFromAt(g: seq<Cell>, w: string, row: int, col: int, dir: Direction, k: nat, r: int, c: int)
    requires |g| == SIZE * SIZE && SpanInGrid(row, col, |w|, dir) && k <= |w| && InGrid(r, c)
    ensures At(PlaceFrom(g, w, row, col, dir, k).0, r, c) ==
      if OnSpan(r, c, row, col, dir, k, |w|) then Letter(w[Offset(r, c, row, col, dir)]) else At(g, r, c)
    ensures (r, c) in PlaceFrom(g, w, row, col, dir, k).1 <==>
      OnSpan(r, c, row, col, dir, k, |w|) && At(g, r, c) != Letter(w[Offset(r, c, row, col, dir)])
    decreases |w| - k
  {
    if k < |w| {
      var p := SpanPos(row, col, dir, k);
      if At(g, p.0, p.1) != Letter(w[k]) {
        var g1 := g[Idx(p.0, p.1) := Letter(w[k])];
        PlaceFromAt(g1, w, row, col, dir, k + 1, r, c);
        if (r, c) != p {
          if Idx(r, c) == Idx(p.0, p.1) {
            IdxInjective(r, c, p.0, p.1);
          }
          assert At(g1, r, c) == At(g, r, c);
        }
      } else {
        PlaceFromAt(g, w, row, col, dir, k + 1, r, c);
      }
    }
  }

  /** Every recorded square lies in the grid. */
  lemma {:induction false} PlaceFromInGrid(g: seq<Cell>, w: string, row: int, col: int, dir: Direction, k: nat)
    requires |g| == SIZE * SIZE && SpanInGrid(row, col, |w|, dir) && k <= |w|
    ensures forall i | 0 <= i < |PlaceFrom(g, w, row, col, dir, k).1| ::
      InGrid(PlaceFrom(g, w, row, col, dir, k).1[i].0, PlaceFrom(g, w, row, col, dir, k).1[i].1)
    decreases |w| - k
  {
    if k < |w| {
      var p := SpanPos(row, col, dir, k);
      if At(g, p.0, p.1) != Letter(w[k]) {
        PlaceFromInGrid(g[Idx(p.0, p.1) := Letter(w[k])], w, row, col, dir, k + 1);
      } else {
        PlaceFromInGrid(g, w, row, col, dir, k + 1);
      }
    }
  }

  /**
   * placeWord: writes the word along the span and returns the squares whose
   * content it changed.
   */
  method PlaceWord(g: array<Cell>, w: string, row: int, col: int, dir: Direction) returns (modified: seq<Pos>)
    requires g.Length == SIZE * SIZE && SpanInGrid(row, col, |w|, dir)
    modifies g
    ensures (g[..], modified) == PlaceFrom(old(g[..]), w, row, col, dir, 0)
  {
    modified := [];
    ghost var final := PlaceFrom(old(g[..]), w, row, col, dir, 0);
    for i := 0 to |w|
      invariant PlaceFrom(g[..], w, row, col, dir, i).0 == final.0
      invariant modified + PlaceFrom(g[..], w, row, col, dir, i).1 == final.1
    {
      var (r, c) := SpanPos(row, col, dir, i);
      if g[Idx(r, c)] != Letter(w[i]) {
        ghost var rest := PlaceFrom(g[..][Idx(r, c) := Letter(w[i])], w, row, col, dir, i + 1);
        assert PlaceFrom(g[..], w, row, col, dir, i) == (rest.0, [(r, c)] + rest.1);
        ghost var before := modified;
        g[Idx(r, c)] := Letter(w[i]);
        modified := modified + [(r, c)];
        assert modified + rest.1 == before + ([(r, c)] + rest.1);
      }
    }
    assert PlaceFrom(g[..], w, row, col, dir, |w|) == (g[..], []);
    assert modified == modified + [];
  }

  /** removeWord: every listed square becomes white again. */
  function Clear(g: seq<Cell>, positions: seq<Pos>): (r: seq<Cell>)
    requires |g| == SIZE * SIZE && forall i | 0 <= i < |positions| :: InGrid(positions[i].0, positions[i].1)
    ensures |r| == SIZE * SIZE
    decreases |positions|
  {
    if |positions| == 0 then g
    else Clear(g[Idx(positions[0].0, positions[0].1) := White], positions[1..])
  }

  lemma {:induction false} ClearAt(g: seq<Cell>, positions: seq<Pos>, r: int, c: int)
    requires |g| == SIZE * SIZE && forall i | 0 <= i < |positions| :: InGrid(positions[i].0, positions[i].1)
    requires InGrid(r, c)
    ensures At(Clear(g, positions), r, c) == if (r, c) in positions then White else At(g, r, c)
    decreases |positions|
  {
    if |positions| > 0 {
      var p := positions[0];
      var g1 := g[Idx(p.0, p.1) := White];
      ClearAt(g1, positions[1..], r, c);
      if (r, c) != p && Idx(r, c) == Idx(p.0, p.1) {
        IdxInjective(r, c, p.0, p.1);
      }
      assert positions == [p] + positions[1..];
    }
  }

  method RemoveWord(g: array<Cell>, positions: seq<Pos>)
    requires g.Length == SIZE * SIZE && forall i | 0 <= i < |positions| :: InGrid(positions[i].0, positions[i].1)
    modifies g
    ensures g[..] == Clear(old(g[..]), positions)
  {
    for i := 0 to |positions|
      invariant Clear(g[..], positions[i..]) == Clear(old(g[..]), positions)
    {
      var (r, c) := positions[i];
      assert positions[i..] == [positions[i]] + positions[i + 1..];
      g[Idx(r, c)] := White;
    }
  }

  /** Two grids that agree on every square are equal. */
  lemma SameSquares(a: seq<Cell>, b: seq<Cell>)
    requires |a| == SIZE * SIZE && |b| == SIZE * SIZE
    requires forall r, c | InGrid(r, c) :: At(a, r, c) == At(b, r, c)
    ensures a == b
  {
    forall p | 0 <= p < SIZE * SIZE
      ensures a[p] == b[p]
    {
      var r, c := p / SIZE, p % SIZE;
      assert Idx(r, c) == p && At(a, r, c) == At(b, r, c);
    }
  }

  /** placeWord writes the word's letters along the span and touches nothing else. */
  lemma PlaceWordWrites(g: seq<Cell>, w: string, row: int, col: int, dir: Direction)
    requires |g| == SIZE * SIZE && SpanInGrid(row, col, |w|, dir)
    ensures Written(PlaceFrom(g, w, row, col, dir, 0).0, w, row, col, dir)
    ensures forall r, c | InGrid(r, c) && !OnSpan(r, c, row, col, dir, 0, |w|) ::
      At(PlaceFrom(g, w, row, col, dir, 0).0, r, c) == At(g, r, c)
  {
    forall k | 0 <= k < |w|
      ensures SpanCell(PlaceFrom(g, w, row, col, dir, 0).0, row, col, dir, k) == Letter(w[k])
    {
      var p := SpanPos(row, col, dir, k);
      PlaceFromAt(g, w, row, col, dir, 0, p.0, p.1);
    }
    forall r, c | InGrid(r, c) && !OnSpan(r, c, row, col, dir, 0, |w|)
      ensures At(PlaceFrom(g, w, row, col, dir, 0).0, r, c) == At(g, r, c)
    {
      PlaceFromAt(g, w, row, col, dir, 0, r, c);
    }
  }

  /** The squares placeWord returns are exactly the squares whose content it changed. */
  lemma PlaceWordRecordsChanges(g: seq<Cell>, w: string, row: int, col: int, dir: Direction)
    requires |g| == SIZE * SIZE && SpanInGrid(row, col, |w|, dir)
    ensures forall r, c :: (r, c) in PlaceFrom(g, w, row, col, dir, 0).1 <==>
      InGrid(r, c) && At(PlaceFrom(g, w, row, col, dir, 0).0, r, c) != At(g, r, c)
  {
    PlaceFromInGrid(g, w, row, col, dir, 0);
    forall r, c
      ensures (r, c) in PlaceFrom(g, w, row, col, dir, 0).1 <==>
        InGrid(r, c) && At(PlaceFrom(g, w, row, col, dir, 0).0, r, c) != At(g, r, c)
    {
      if InGrid(r, c) {
        PlaceFromAt(g, w, row, col, dir, 0, r, c);
      }
    }
  }

  /** When canPlaceWord held, removeWord on placeWord's result gives back the grid. */
  lemma PlaceRemoveRoundTrip(g: seq<Cell>, w: string, row: int, col: int, dir: Direction)
    requires |g| == SIZE * SIZE && Fits(g, w, row, col, dir)
    ensures forall i | 0 <= i < |PlaceFrom(g, w, row, col, dir, 0).1| ::
      InGrid(PlaceFrom(g, w, row, col, dir, 0).1[i].0, PlaceFrom(g, w, row, col, dir, 0).1[i].1)
    ensures Clear(PlaceFrom(g, w, row, col, dir, 0).0, PlaceFrom(g, w, row, col, dir, 0).1) == g
  {
    var res := PlaceFrom(g, w, row, col, dir, 0);
    PlaceFromInGrid(g, w, row, col, dir, 0);
    forall r, c | InGrid(r, c)
      ensures At(Clear(res.0, res.1), r, c) == At(g, r, c)
    {
      ClearAt(res.0, res.1, r, c);
      PlaceFromAt(g, w, row, col, dir, 0, r, c);
      if OnSpan(r, c, row, col, dir, 0, |w|) {
        var k := Offset(r, c, row, col, dir);
        assert SpanPos(row, col, dir, k) == (r, c);
        assert SpanCell(g, row, col, dir, k) != Black;
      }
    }
    SameSquares(Clear(res.0, res.1), g);
  }

  // ---------------------------------------------------------------------
  // solveCrossword

  /** The word is written along the span. */
  predicate Written(g: seq<Cell>, w: string, row: int, col: int, dir: Direction)
    requires |g| == SIZE * SIZE
  {
    SpanInGrid(row, col, |w|, dir) && forall k | 0 <= k < |w| :: SpanCell(g, row, col, dir, k) == Letter(w[k])
  }

  ghost predicate WrittenSomewhere(g: seq<Cell>, w: string)
    requires |g| == SIZE * SIZE
  {
    exists row, col, dir | InGrid(row, col) :: Written(g, w, row, col, dir)
  }

  /** `g` is `g0` with some white squares given letters: black squares and letters stay. */
  ghost predicate Extends(g0: seq<Cell>, g: seq<Cell>)
    requires |g0| == SIZE * SIZE && |g| == SIZE * SIZE
  {
    forall r, c | InGrid(r, c) ::
      (At(g0, r, c) != White ==> At(g, r, c) == At(g0, r, c)) &&
      (At(g0, r, c) == White ==> At(g, r, c) != Black)
  }

  lemma ExtendsTrans(g0: seq<Cell>, g1: seq<Cell>, g2: seq<Cell>)
    requires |g0| == SIZE * SIZE && |g1| == SIZE * SIZE && |g2| == SIZE * SIZE
    requires Extends(g0, g1) && Extends(g1, g2)
    ensures Extends(g0, g2)
  {
  }

  lemma WrittenKept(g1: seq<Cell>, g2: seq<Cell>, w: string, row: int, col: int, dir: Direction)
    requires |g1| == SIZE * SIZE && |g2| == SIZE * SIZE
    requires Extends(g1, g2) && Written(g1, w, row, col, dir)
    ensures Written(g2, w, row, col, dir)
  {
    forall k | 0 <= k < |w|
      ensures SpanCell(g2, row, col, dir, k) == Letter(w[k])
    {
      var p := SpanPos(row, col, dir, k);
      assert At(g1, p.0, p.1) == Letter(w[k]);
    }
  }

  /** A word that fits is written by placeWord, which only fills white squares. */
  lemma PlaceExtends(g: seq<Cell>, w: string, row: int, col: int, dir: Direction)
    requires |g| == SIZE * SIZE && Fits(g, w, row, col, dir)
    ensures Extends(g, PlaceFrom(g, w, row, col, dir, 0).0)
    ensures Written(PlaceFrom(g, w, row, col, dir, 0).0, w, row, col, dir)
  {
    PlaceWordWrites(g, w, row, col, dir);
    forall r, c | InGrid(r, c)
      ensures (At(g, r, c) != White ==> At(PlaceFrom(g, w, row, col, dir, 0).0, r, c) == At(g, r, c)) &&
              (At(g, r, c) == White ==> At(PlaceFrom(g, w, row, col, dir, 0).0, r, c) != Black)
    {
      PlaceFromAt(g, w, row, col, dir, 0, r, c);
      if OnSpan(r, c, row, col, dir, 0, |w|) {
        var k := Offset(r, c, row, col, dir);
        assert SpanPos(row, col, dir, k) == (r, c);
        assert SpanCell(g, row, col, dir, k) != Black;
      }
    }
  }

  /** `String.prototype.toUpperCase` on the ASCII letters. */
  function UpperChar(ch: char): char {
    if 'a' <= ch <= 'z' then (ch as int - 'a' as int + 'A' as int) as char else ch
  }

  function Upper(s: string): (u: string)
    ensures |u| == |s| && forall i | 0 <= i < |s| :: u[i] == UpperChar(s[i])
  {
    seq(|s|, i requires 0 <= i < |s| => UpperChar(s[i]))
  }

  /**
   * The words from `index` on can be placed one after another into `g`:
   * the next word fits some span of the grid, and once it is written
   * there the rest can be placed.
   */
  ghost predicate Placeable(g: seq<Cell>, words: seq<Entry>, index: int)
    requires |g| == SIZE * SIZE && 0 <= index <= |words|
    decreases |words| - index, 1
  {
    index == |words| ||
    exists row, col, dir | InGrid(row, col) :: PlaceableAt(g, words, index, row, col, dir)
  }

  /** words[index] fits the span at (row, col) in `dir`, and after placeWord there the rest can be placed. */
  ghost predicate PlaceableAt(g: seq<Cell>, words: seq<Entry>, index: int, row: int, col: int, dir: Direction)
    requires |g| == SIZE * SIZE && 0 <= index < |words|
    decreases |words| - index, 0
  {
    var w := Upper(words[index].word);
    Fits(g, w, row, col, dir) && Placeable(PlaceFrom(g, w, row, col, dir, 0).0, words, index + 1)
  }

  /** A word longer than the grid is wide fits no span, so nothing from it on can be placed. */
  lemma LongWordUnplaceable(g: seq<Cell>, words: seq<Entry>, index: int)
    requires |g| == SIZE * SIZE && 0 <= index < |words| && |words[index].word| > SIZE
    ensures !Placeable(g, words, index)
  {
  }

  /**
   * solveCrossword(grid, words, index): place words[index..] in turn, each
   * at the first span (row by row, across before down) where it fits and
   * the rest can then be placed.  It succeeds exactly when such a placement
   * exists; on success every one of those words is written somewhere and
   * only white squares were filled, on failure the grid is as it was.
   */
  method SolveCrossword(grid: array<Cell>, words: seq<Entry>, index: int) returns (ok: bool)
    requires grid.Length == SIZE * SIZE && 0 <= index <= |words|
    modifies grid
    ensures ok <==> Placeable(old(grid[..]), words, index)
    ensures ok ==> Extends(old(grid[..]), grid[..])
    ensures ok ==> forall k | index <= k < |words| :: WrittenSomewhere(grid[..], Upper(words[k].word))
    ensures !ok ==> grid[..] == old(grid[..])
    decreases |words| - index, 1
  {
    if index == |words| {
      return true;
    }
    ghost var g0 := grid[..];
    var word := Upper(words[index].word);
    for row := 0 to SIZE
      invariant grid[..] == g0
      invariant forall r, c, dir | 0 <= r < row && 0 <= c < SIZE :: !PlaceableAt(g0, words, index, r, c, dir)
    {
      for col := 0 to SIZE
        invariant grid[..] == g0
        invariant forall r, c, dir | (0 <= r < row && 0 <= c < SIZE) || (r == row && 0 <= c < col) ::
          !PlaceableAt(g0, words, index, r, c, dir)
      {
        for d := 0 to 2
          invariant grid[..] == g0
          invariant forall r, c, dir | (0 <= r < row && 0 <= c < SIZE) || (r == row && 0 <= c < col) ::
            !PlaceableAt(g0, words, index, r, c, dir)
          invariant d >= 1 ==> !PlaceableAt(g0, words, index, row, col, Across)
          invariant d >= 2 ==> !PlaceableAt(g0, words, index, row, col, Down)
        {
          var dir := if d == 0 then Across else Down;
          ok := TryPlace(grid, words, index, word, row, col, dir);
          if ok {
            assert Placeable(g0, words, index);
            return;
          }
        }
      }
    }
    assert forall r, c, dir | InGrid(r, c) :: !PlaceableAt(g0, words, index, r, c, dir);
    return false;
  }

  /**
   * The body of solveCrossword's loops for one span: if the word fits,
   * place it and solve the rest; undo the placement if that fails.  It
   * succeeds exactly when the word fits there and the rest can then be
   * placed.
   */
  method TryPlace(grid: array<Cell>, words: seq<Entry>, index: int, word: string, row: int, col: int, dir: Direction)
    returns (ok: bool)
    requires grid.Length == SIZE * SIZE && 0 <= index < |words| && word == Upper(words[index].word) && InGrid(row, col)
    modifies grid
    ensures ok <==> PlaceableAt(old(grid[..]), words, index, row, col, dir)
    ensures ok ==> Extends(old(grid[..]), grid[..])
    ensures ok ==> forall k | index <= k < |words| :: WrittenSomewhere(grid[..], Upper(words[k].word))
    ensures !ok ==> grid[..] == old(grid[..])
    decreases |words| - index, 0
  {
    ghost var g0 := grid[..];
    var fits := CanPlaceWord(grid, word, row, col, dir);
    if !fits {
      return false;
    }
    PlaceRemoveRoundTrip(g0, word, row, col, dir);
    PlaceExtends(g0, word, row, col, dir);
    var placed := PlaceWord(grid, word, row, col, dir);
    ghost var g1 := grid[..];
    ok := SolveCrossword(grid, words, index + 1);
    if ok {
      ExtendsTrans(g0, g1, grid[..]);
      WrittenKept(g1, grid[..], word, row, col, dir);
      assert WrittenSomewhere(grid[..], Upper(words[index].word));
      return;
    }
    RemoveWord(grid, placed);
  }

  // ---------------------------------------------------------------------
  // The page's driver

  /** The rows of the loaded list kept as the word list: those with a word and a clue. */
  function Usable(data: seq<Entry>): (words: seq<Entry>)
    ensures forall e :: e in words <==> e in data && e.word != "" && e.clue != ""
  {
    if |data| == 0 then []
    else (if data[0].word != "" && data[0].clue != "" then [data[0]] else []) + Usable(data[1..])
  }

  /**
   * startCrossword: 36 to 42 black squares are asked for, the words are
   * placed longest first into a copy of the grid.  It succeeds exactly
   * when the sorted words can be placed into the valid grid; the copy then
   * keeps every black square and holds every word.
   */
  method StartCrossword(data: seq<Entry>, rng: Random) returns (blackGrid: array<Cell>, grid: array<Cell>, success: bool)
    modifies rng
    ensures fresh(blackGrid) && fresh(grid) && blackGrid.Length == SIZE * SIZE && grid.Length == SIZE * SIZE
    ensures ValidGrid(blackGrid[..]) && Plain(blackGrid[..])
    ensures success <==> Placeable(blackGrid[..], SortByLengthDesc(Usable(data)), 0)
    ensures success ==> Extends(blackGrid[..], grid[..])
    ensures success ==> forall e | e in Usable(data) :: WrittenSomewhere(grid[..], Upper(e.word))
    ensures !success ==> grid[..] == blackGrid[..]
  {
    var extra := rng.Below(7);
    var numBlack := 36 + extra;
    blackGrid := PlaceBlackSquares(numBlack, rng);
    grid := CopyGrid(blackGrid);
    var sorted := SortByLengthDesc(Usable(data));
    success := SolveCrossword(grid, sorted, 0);
    if success {
      EveryEntryWritten(grid[..], Usable(data), sorted);
    }
  }

  /** `grid.map(row => row.slice())`: a fresh copy of the grid. */
  method CopyGrid(src: array<Cell>) returns (dst: array<Cell>)
    ensures fresh(dst) && dst[..] == src[..]
  {
    dst := new Cell[src.Length](p => White);
    for p := 0 to src.Length
      invariant dst[..p] == src[..p]
    {
      dst[p] := src[p];
    }
    assert dst[..] == dst[..src.Length];
  }

  lemma EveryEntryWritten(g: seq<Cell>, words: seq<Entry>, sorted: seq<Entry>)
    requires |g| == SIZE * SIZE && multiset(sorted) == multiset(words)
    requires forall k | 0 <= k < |sorted| :: WrittenSomewhere(g, Upper(sorted[k].word))
    ensures forall e | e in words :: WrittenSomewhere(g, Upper(e.word))
  {
    forall e | e in words
      ensures WrittenSomewhere(g, Upper(e.word))
    {
      assert e in multiset(sorted);
      var k :| 0 <= k < |sorted| && sorted[k] == e;
    }
  }
}
