/*
 * How the Wordle game (puzzle-hub/public/wordle/wordle.js, checkWord)
 * colours a guess against the target: the tile colours and the keyboard
 * colours, stated position by position.  The solver page colours the same
 * way, so its filter is proved against these definitions.
 *
 * A position whose letter equals the target's is correct.  Of the other
 * positions holding a letter l, the first Avail(l) from the left are
 * present and the rest absent, where Avail(l) is the number of
 * occurrences of l in the target not already matched by a correct
 * position: the two passes over `letterCount` do exactly this.
 */
module WordleScore {

  const WordLength := 5

  datatype Color = Absent | Present | Correct

  /** correct > present > absent. */
  function Rank(c: Color): nat {
    match c
    case Absent => 1
    case Present => 2
    case Correct => 3
  }

  /** Occurrences of `l` among the first `n` characters of `s`. */
  function CountIn(s: string, l: char, n: nat): nat
    requires n <= |s|
  {
    if n == 0 then 0 else CountIn(s, l, n - 1) + (if s[n - 1] == l then 1 else 0)
  }

  /** Positions below `n` where the guess has `l` and so does the target. */
  function CorrectCount(g: string, t: string, l: char, n: nat): nat
    requires n <= |g| && n <= |t|
  {
    if n == 0 then 0 else CorrectCount(g, t, l, n - 1) + (if g[n - 1] == l && t[n - 1] == l then 1 else 0)
  }

  /** Positions below `n` where the guess has `l` and the target does not. */
  function Earlier(g: string, t: string, l: char, n: nat): nat
    requires n <= |g| && n <= |t|
  {
    if n == 0 then 0 else Earlier(g, t, l, n - 1) + (if g[n - 1] == l && t[n - 1] != l then 1 else 0)
  }

  /** Occurrences of `l` in the target left over by the correct positions. */
  function Avail(g: string, t: string, l: char): (a: nat)
    requires |g| == WordLength && |t| == WordLength
    ensures a == CountIn(t, l, WordLength) - CorrectCount(g, t, l, WordLength)
  {
    CorrectAtMostCount(g, t, l, WordLength);
    CountIn(t, l, WordLength) - CorrectCount(g, t, l, WordLength)
  }

  lemma {:induction false} CorrectAtMostCount(g: string, t: string, l: char, n: nat)
    requires n <= |g| && n <= |t|
    ensures CorrectCount(g, t, l, n) <= CountIn(t, l, n)
  {
    if n > 0 {
      CorrectAtMostCount(g, t, l, n - 1);
    }
  }

  /** The colour of position `c`. */
  function MarkAt(g: string, t: string, c: nat): Color
    requires |g| == WordLength && |t| == WordLength && c < WordLength
  {
    if g[c] == t[c] then Correct
    else if Earlier(g, t, g[c], c) < Avail(g, t, g[c]) then Present
    else Absent
  }

  function Marks(g: string, t: string): (m: seq<Color>)
    requires |g| == WordLength && |t| == WordLength
    ensures |m| == WordLength && forall c | 0 <= c < WordLength :: m[c] == MarkAt(g, t, c)
  {
    seq(WordLength, c requires 0 <= c < WordLength => MarkAt(g, t, c))
  }

  /** Positions below `n` holding `l` and coloured correct or present. */
  function Marked(g: string, marks: seq<Color>, l: char, n: nat): nat
    requires n <= |g| && n <= |marks|
  {
    if n == 0 then 0 else Marked(g, marks, l, n - 1) + (if g[n - 1] == l && marks[n - 1] != Absent then 1 else 0)
  }

  lemma {:induction false} MarkedSplit(g: string, t: string, l: char, n: nat)
    requires |g| == WordLength && |t| == WordLength && n <= WordLength
    ensures Marked(g, Marks(g, t), l, n) ==
      CorrectCount(g, t, l, n) + (if Earlier(g, t, l, n) < Avail(g, t, l) then Earlier(g, t, l, n) else Avail(g, t, l))
  {
    if n > 0 {
      MarkedSplit(g, t, l, n - 1);
    }
  }

  /**
   * Per letter, the correct and present tiles never outnumber the letter's
   * occurrences in the target.
   */
  lemma MarksBounded(g: string, t: string, l: char)
    requires |g| == WordLength && |t| == WordLength
    ensures Marked(g, Marks(g, t), l, WordLength) <= CountIn(t, l, WordLength)
  {
    MarkedSplit(g, t, l, WordLength);
  }

  /**
   * An absent tile's letter is coloured correct or present exactly as many
   * times as the target holds it: every occurrence was used up.
   */
  lemma AbsentMeansUsedUp(g: string, t: string, c: nat)
    requires |g| == WordLength && |t| == WordLength && c < WordLength
    requires MarkAt(g, t, c) == Absent
    ensures Marked(g, Marks(g, t), g[c], WordLength) == CountIn(t, g[c], WordLength)
  {
    MarkedSplit(g, t, g[c], WordLength);
    EarlierGrows(g, t, g[c], c, WordLength);
  }

  lemma {:induction false} EarlierGrows(g: string, t: string, l: char, m: nat, n: nat)
    requires m <= n <= |g| && n <= |t|
    ensures Earlier(g, t, l, m) <= Earlier(g, t, l, n)
    decreases n - m
  {
    if m < n {
      EarlierGrows(g, t, l, m, n - 1);
    }
  }

  lemma {:induction false} CountSplit(g: string, t: string, l: char, n: nat)
    requires n <= |g| && n <= |t|
    ensures CountIn(g, l, n) == CorrectCount(g, t, l, n) + Earlier(g, t, l, n)
  {
    if n > 0 {
      CountSplit(g, t, l, n - 1);
    }
  }

  /**
   * The keyboard colour a guess gives letter `l`: correct if some tile of
   * it is correct, else present if some tile of it is present, else absent.
   */
  function KeyColor(g: string, t: string, l: char): Color
    requires |g| == WordLength && |t| == WordLength
  {
    if CorrectCount(g, t, l, WordLength) > 0 then Correct
    else if Earlier(g, t, l, WordLength) > 0 && Avail(g, t, l) > 0 then Present
    else Absent
  }

  /** KeyColor is the best colour among the letter's tiles. */
  lemma KeyColorIsBest(g: string, t: string, l: char, c: nat)
    requires |g| == WordLength && |t| == WordLength && c < WordLength && g[c] == l
    ensures Rank(MarkAt(g, t, c)) <= Rank(KeyColor(g, t, l))
    ensures exists d :: 0 <= d < WordLength && g[d] == l && MarkAt(g, t, d) == KeyColor(g, t, l)
  {
    CountSplit(g, t, l, WordLength);
    CorrectPositive(g, t, l, c + 1, WordLength);
    EarlierGrows(g, t, l, c + 1, WordLength);
    if KeyColor(g, t, l) == Correct {
      var d := CorrectWitness(g, t, l, WordLength);
    } else if KeyColor(g, t, l) == Present {
      var d := FirstEarlier(g, t, l, WordLength);
      assert MarkAt(g, t, d) == Present;
    } else {
      assert MarkAt(g, t, c) == Absent;
    }
  }

  lemma {:induction false} CorrectPositive(g: string, t: string, l: char, m: nat, n: nat)
    requires m <= n <= |g| && n <= |t|
    ensures CorrectCount(g, t, l, m) <= CorrectCount(g, t, l, n)
    decreases n - m
  {
    if m < n {
      CorrectPositive(g, t, l, m, n - 1);
    }
  }

  lemma {:induction false} CorrectWitness(g: string, t: string, l: char, n: nat) returns (d: nat)
    requires n <= |g| && n <= |t| && CorrectCount(g, t, l, n) > 0
    ensures d < n && g[d] == l && t[d] == l
  {
    if g[n - 1] == l && t[n - 1] == l {
      d := n - 1;
    } else {
      d := CorrectWitness(g, t, l, n - 1);
    }
  }

  /** The first non-correct position holding `l`, which has no such position before it. */
  lemma {:induction false} FirstEarlier(g: string, t: string, l: char, n: nat) returns (d: nat)
    requires n <= |g| && n <= |t| && Earlier(g, t, l, n) > 0
    ensures d < n && g[d] == l && t[d] != l && Earlier(g, t, l, d) == 0
  {
    if Earlier(g, t, l, n - 1) > 0 {
      d := FirstEarlier(g, t, l, n - 1);
    } else {
      d := n - 1;
    }
  }

  /** updateKeyboardColors: a key's colour only ever moves up the order. */
  function Upgrade(current: Color, next: Color): (c: Color)
    ensures Rank(c) >= Rank(current) && Rank(c) >= Rank(next)
    ensures c == current || c == next
  {
    if Rank(next) > Rank(current) then next else current
  }
}
