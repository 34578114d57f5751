/*
 * The Wordle solver page (puzzle-hub/public/wordle/wordle-solver.js): the
 * user copies up to six coloured guesses, and the page lists the
 * dictionary words consistent with all of them.
 */
module WordleSolver {
  import opened Common
  import opened WordleScore

  /** String.prototype.toLowerCase on ASCII letters. */
  function LowerChar(ch: char): char {
    if 'A' <= ch <= 'Z' then (ch as int + 32) as char else ch
  }

  function Lower(s: string): (r: string)
    ensures |r| == |s| && forall i | 0 <= i < |s| :: r[i] == LowerChar(s[i])
  {
    seq(|s|, i requires 0 <= i < |s| => LowerChar(s[i]))
  }

  /** `s[i]`, or None past the end (where JavaScript reads `undefined`). */
  function CharOf(s: string, i: nat): Option<char> {
    if i < |s| then Some(s[i]) else None
  }

  /** One coloured guess: five letters (a blank is ' ') and their colours. */
  datatype Guess = Guess(word: string, colors: seq<Color>)

  predicate WellFormed(g: Guess) {
    |g.word| == WordLength && |g.colors| == WordLength
  }

  // ---------------------------------------------------------------------
  // matchesSingleGuess, stated rule by rule on the lowercased strings.

  /** A correct tile: the candidate has the guess letter at that position. */
  predicate CorrectOk(c: string, g: string, colors: seq<Color>)
    requires |g| == WordLength && |colors| == WordLength
  {
    forall i | 0 <= i < WordLength :: colors[i] == Correct ==> CharOf(c, i) == Some(g[i])
  }

  /** A present tile: the candidate has the guess letter, but not at that position. */
  predicate PresentOk(c: string, g: string, colors: seq<Color>)
    requires |g| == WordLength && |colors| == WordLength
  {
    forall i | 0 <= i < WordLength :: colors[i] == Present ==> CharOf(c, i) != Some(g[i]) && g[i] in c
  }

  /**
   * An absent tile's letter: if no tile of it is correct or present, the
   * candidate lacks it; otherwise the candidate holds it at most as often
   * as it has such tiles.
   */
  predicate LetterBound(c: string, g: string, colors: seq<Color>, l: char)
    requires |g| == WordLength && |colors| == WordLength
  {
    var required := Marked(g, colors, l, WordLength);
    (required == 0 ==> l !in c) && (required > 0 ==> CountIn(c, l, |c|) <= required)
  }

  predicate AbsentOk(c: string, g: string, colors: seq<Color>)
    requires |g| == WordLength && |colors| == WordLength
  {
    forall i | 0 <= i < WordLength :: colors[i] == Absent ==> LetterBound(c, g, colors, g[i])
  }

  predicate Consistent(candidate: string, guess: Guess)
    requires WellFormed(guess)
  {
    var c := Lower(candidate);
    var g := Lower(guess.word);
    CorrectOk(c, g, guess.colors) && PresentOk(c, g, guess.colors) && AbsentOk(c, g, guess.colors)
  }

  /** matchesSingleGuess: three early-return passes, for correct, present and absent tiles. */
  method MatchesSingleGuess(candidate: string, guess: Guess) returns (r: bool)
    requires WellFormed(guess)
    ensures r <==> Consistent(candidate, guess)
  {
    var c := Lower(candidate);
    var g := Lower(guess.word);
    var colors := guess.colors;
    for i := 0 to WordLength
      invariant forall j | 0 <= j < i :: colors[j] == Correct ==> CharOf(c, j) == Some(g[j])
    {
      if colors[i] == Correct && CharOf(c, i) != Some(g[i]) {
        return false;
      }
    }
    for i := 0 to WordLength
      invariant forall j | 0 <= j < i :: colors[j] == Present ==> CharOf(c, j) != Some(g[j]) && g[j] in c
    {
      if colors[i] == Present {
        if CharOf(c, i) == Some(g[i]) {
          return false;
        }
        if g[i] !in c {
          return false;
        }
      }
    }
    for i := 0 to WordLength
      invariant forall j | 0 <= j < i :: colors[j] == Absent ==> LetterBound(c, g, colors, g[j])
    {
      if colors[i] == Absent {
        var letter := g[i];
        var requiredOccurrences := Marked(g, colors, letter, WordLength);
        var actualOccurrences := CountIn(c, letter, |c|);
        if requiredOccurrences == 0 && letter in c {
          return false;
        }
        if requiredOccurrences > 0 && actualOccurrences > requiredOccurrences {
          return false;
        }
      }
    }
    return true;
  }

  /** The candidate agrees with every guess. */
  predicate MatchesAll(word: string, guesses: seq<Guess>) {
    forall k | 0 <= k < |guesses| :: WellFormed(guesses[k]) && Consistent(word, guesses[k])
  }

  /** wordMatchesGuesses: stops at the first guess the word disagrees with; no guesses, no constraint. */
  method WordMatchesGuesses(word: string, guesses: seq<Guess>) returns (r: bool)
    requires forall k | 0 <= k < |guesses| :: WellFormed(guesses[k])
    ensures r <==> MatchesAll(word, guesses)
    ensures |guesses| == 0 ==> r
  {
    for k := 0 to |guesses|
      invariant MatchesAll(word, guesses[..k])
    {
      var ok := MatchesSingleGuess(word, guesses[k]);
      if !ok {
        return false;
      }
      assert guesses[..k + 1] == guesses[..k] + [guesses[k]];
    }
    assert guesses[..|guesses|] == guesses;
    return true;
  }

  // ---------------------------------------------------------------------
  // Reading the input rows.

  /** One input tile: the text typed in it and the colour selected under it. */
  datatype Tile = Tile(value: string, color: Color)

  /** A tile holding exactly one letter (after lowercasing). */
  predicate HasLetter(t: Tile) {
    var v := Lower(t.value);
    |v| == 1 && 'a' <= v[0] <= 'z'
  }

  /** The letter and colour a tile contributes: a blank tile reads as ' ', absent. */
  function TileEntry(t: Tile): (e: (char, Color))
    ensures HasLetter(t) ==> e == (Lower(t.value)[0], t.color)
    ensures !HasLetter(t) ==> e == (' ', Absent)
  {
    if HasLetter(t) then (Lower(t.value)[0], t.color) else (' ', Absent)
  }

  function RowGuess(row: seq<Tile>): (g: Guess)
    requires |row| == WordLength
    ensures WellFormed(g)
    ensures forall c | 0 <= c < WordLength :: (g.word[c], g.colors[c]) == TileEntry(row[c])
  {
    Guess(seq(WordLength, c requires 0 <= c < WordLength => TileEntry(row[c]).0),
          seq(WordLength, c requires 0 <= c < WordLength => TileEntry(row[c]).1))
  }

  predicate RowHasLetter(row: seq<Tile>) {
    exists c | 0 <= c < |row| :: HasLetter(row[c])
  }

  predicate Rows(rows: seq<seq<Tile>>) {
    forall r | 0 <= r < |rows| :: |rows[r]| == WordLength
  }

  /** The guesses read from the input rows: one per row with a letter, top to bottom. */
  function Guesses(rows: seq<seq<Tile>>): (gs: seq<Guess>)
    requires Rows(rows)
    ensures |gs| <= |rows|
    ensures forall k | 0 <= k < |gs| :: WellFormed(gs[k])
  {
    if |rows| == 0 then []
    else
      var last := rows[|rows| - 1];
      Guesses(rows[..|rows| - 1]) + (if RowHasLetter(last) then [RowGuess(last)] else [])
  }

  /** Every guess comes from a row with a letter, in row order. */
  lemma {:induction false} GuessFromRow(rows: seq<seq<Tile>>, k: nat) returns (r: nat)
    requires Rows(rows) && k < |Guesses(rows)|
    ensures k <= r < |rows| && RowHasLetter(rows[r]) && Guesses(rows)[k] == RowGuess(rows[r])
  {
    var prev := rows[..|rows| - 1];
    if k < |Guesses(prev)| {
      r := GuessFromRow(prev, k);
      assert rows[r] == prev[r];
    } else {
      r := |rows| - 1;
    }
  }

  /** Every row with a letter gives a guess. */
  lemma {:induction false} RowGivesGuess(rows: seq<seq<Tile>>, r: nat)
    requires Rows(rows) && r < |rows| && RowHasLetter(rows[r])
    ensures RowGuess(rows[r]) in Guesses(rows)
  {
    var prev := rows[..|rows| - 1];
    if r < |prev| {
      RowGivesGuess(prev, r);
      assert rows[r] == prev[r];
    }
  }

  /** Rows without letters give no guesses. */
  lemma {:induction false} NoLettersNoGuesses(rows: seq<seq<Tile>>)
    requires Rows(rows) && forall r | 0 <= r < |rows| :: !RowHasLetter(rows[r])
    ensures Guesses(rows) == []
  {
    if |rows| > 0 {
      NoLettersNoGuesses(rows[..|rows| - 1]);
    }
  }

  /** The guess-reading loop of solveWordle: one row at a time, one tile at a time. */
  method ReadRow(row: seq<Tile>) returns (g: Guess, emptyRow: bool)
    requires |row| == WordLength
    ensures g == RowGuess(row) && emptyRow == !RowHasLetter(row)
  {
    var word := "";
    var colors := [];
    emptyRow := true;
    for c := 0 to WordLength
      invariant |word| == c && |colors| == c
      invariant forall d | 0 <= d < c :: (word[d], colors[d]) == TileEntry(row[d])
      invariant emptyRow <==> forall d | 0 <= d < c :: !HasLetter(row[d])
    {
      var letter := Lower(row[c].value);
      if |letter| == 1 && 'a' <= letter[0] <= 'z' {
        word := word + [letter[0]];
        colors := colors + [row[c].color];
        emptyRow := false;
      } else {
        word := word + " ";
        colors := colors + [Absent];
      }
    }
    g := Guess(word, colors);
  }

  method ReadGuesses(rows: seq<seq<Tile>>) returns (guesses: seq<Guess>)
    requires Rows(rows)
    ensures guesses == Guesses(rows)
  {
    guesses := [];
    for r := 0 to |rows|
      invariant guesses == Guesses(rows[..r])
    {
      assert rows[..r + 1][..r] == rows[..r];
      var g, emptyRow := ReadRow(rows[r]);
      if !emptyRow {
        guesses := guesses + [g];
      }
    }
    assert rows[..|rows|] == rows;
  }

  // ---------------------------------------------------------------------
  // The dictionary and the filter.

  /** `Array.from(new Set(words))`: each word once, where it first occurs. */
  function Dedupe(words: seq<string>): (r: seq<string>)
    ensures Distinct(r)
    ensures forall w :: w in r <==> w in words
  {
    if |words| == 0 then []
    else
      var d := Dedupe(words[..|words| - 1]);
      var w := words[|words| - 1];
      assert forall v :: v in words <==> v in words[..|words| - 1] || v == w;
      if w in d then d else d + [w]
  }

  /** Dedupe keeps the words in the order of their first occurrences. */
  lemma {:induction false} DedupeOrder(words: seq<string>, i: nat, j: nat)
    requires i < j < |Dedupe(words)|
    ensures IndexOf(words, Dedupe(words)[i]) < IndexOf(words, Dedupe(words)[j])
  {
    var n := |words|;
    var prev := words[..n - 1];
    var d := Dedupe(prev);
    var w := words[n - 1];
    PrefixIndexOf(words, Dedupe(words)[i]);
    PrefixIndexOf(words, Dedupe(words)[j]);
    if j < |d| {
      DedupeOrder(prev, i, j);
    }
  }

  /** The first occurrence is the only index with no earlier occurrence. */
  lemma IndexOfUnique(s: seq<string>, x: string, i: nat)
    requires i < |s| && s[i] == x && x !in s[..i]
    ensures IndexOf(s, x) == i
  {
  }

  /** A word of the prefix has the same first index in the whole list. */
  lemma PrefixIndexOf(words: seq<string>, w: string)
    requires |words| > 0
    ensures w in words[..|words| - 1] ==> IndexOf(words, w) == IndexOf(words[..|words| - 1], w)
    ensures w !in words[..|words| - 1] && w in words ==> IndexOf(words, w) == |words| - 1
  {
    var prev := words[..|words| - 1];
    if w in prev {
      var k := IndexOf(prev, w);
      assert words[..k] == prev[..k];
      IndexOfUnique(words, w, k);
    } else if w in words {
      assert words[|words| - 1] == w;
      IndexOfUnique(words, w, |words| - 1);
    }
  }

  /** The words of `dictionary` consistent with every guess, in dictionary order. */
  function Possible(dictionary: seq<string>, guesses: seq<Guess>): (r: seq<string>)
    ensures forall w :: w in r <==> w in dictionary && MatchesAll(w, guesses)
  {
    if |dictionary| == 0 then []
    else
      var w := dictionary[|dictionary| - 1];
      var prev := dictionary[..|dictionary| - 1];
      assert forall v :: v in dictionary <==> v in prev || v == w;
      Possible(prev, guesses) + (if MatchesAll(w, guesses) then [w] else [])
  }

  lemma DistinctPrefix(s: seq<string>)
    requires Distinct(s) && |s| > 0
    ensures Distinct(s[..|s| - 1]) && s[|s| - 1] !in s[..|s| - 1]
  {
    var prev := s[..|s| - 1];
    forall a, b | 0 <= a < b < |prev|
      ensures prev[a] != prev[b]
    {
      assert prev[a] == s[a] && prev[b] == s[b];
    }
  }

  lemma PossiblePrefix(dictionary: seq<string>, guesses: seq<Guess>, i: nat)
    requires |dictionary| > 0
    requires i < |Possible(dictionary[..|dictionary| - 1], guesses)|
    ensures Possible(dictionary, guesses)[i] == Possible(dictionary[..|dictionary| - 1], guesses)[i]
  {
  }

  /** The filter keeps dictionary order. */
  lemma {:induction false} PossibleOrder(dictionary: seq<string>, guesses: seq<Guess>, i: nat, j: nat)
    requires Distinct(dictionary) && i < j < |Possible(dictionary, guesses)|
    ensures IndexOf(dictionary, Possible(dictionary, guesses)[i]) < IndexOf(dictionary, Possible(dictionary, guesses)[j])
  {
    var n := |dictionary|;
    var prev := dictionary[..n - 1];
    var p := Possible(prev, guesses);
    var r := Possible(dictionary, guesses);
    DistinctPrefix(dictionary);
    assert i < |p|;
    PossiblePrefix(dictionary, guesses, i);
    PrefixIndexOf(dictionary, r[i]);
    PrefixIndexOf(dictionary, r[j]);
    if j < |p| {
      PossiblePrefix(dictionary, guesses, j);
      PossibleOrder(prev, guesses, i, j);
    }
  }

  /**
   * solveWordle: read the guesses from the rows and keep the dictionary
   * words that agree with all of them.
   */
  method SolveWordle(dictionary: seq<string>, rows: seq<seq<Tile>>) returns (possibleWords: seq<string>)
    requires Rows(rows)
    ensures possibleWords == Possible(dictionary, Guesses(rows))
  {
    var guesses := ReadGuesses(rows);
    possibleWords := [];
    for i := 0 to |dictionary|
      invariant possibleWords == Possible(dictionary[..i], guesses)
    {
      assert dictionary[..i + 1][..i] == dictionary[..i];
      var ok := WordMatchesGuesses(dictionary[i], guesses);
      if ok {
        possibleWords := possibleWords + [dictionary[i]];
      }
    }
    assert dictionary[..|dictionary|] == dictionary;
  }

  // ---------------------------------------------------------------------
  // The game and the solver agree.

  predicate Upper(s: string) {
    forall i | 0 <= i < |s| :: 'A' <= s[i] <= 'Z'
  }

  lemma {:induction false} LowerCount(s: string, l: char, n: nat)
    requires Upper(s) && 'A' <= l <= 'Z' && n <= |s|
    ensures CountIn(Lower(s), LowerChar(l), n) == CountIn(s, l, n)
  {
    if n > 0 {
      LowerCount(s, l, n - 1);
    }
  }

  lemma {:induction false} LowerMarked(s: string, colors: seq<Color>, l: char, n: nat)
    requires Upper(s) && 'A' <= l <= 'Z' && n <= |s| && n <= |colors|
    ensures Marked(Lower(s), colors, LowerChar(l), n) == Marked(s, colors, l, n)
  {
    if n > 0 {
      LowerMarked(s, colors, l, n - 1);
    }
  }

  lemma {:induction false} CountInMeansIn(s: string, l: char, n: nat)
    requires n <= |s|
    ensures CountIn(s, l, n) > 0 <==> exists i | 0 <= i < n :: s[i] == l
  {
    if n > 0 {
      CountInMeansIn(s, l, n - 1);
    }
  }

  /**
   * A word the game coloured against the target, copied into the solver,
   * never rules the target out.
   */
  lemma TargetSurvives(target: string, guess: string)
    requires |target| == WordLength && |guess| == WordLength && Upper(target) && Upper(guess)
    ensures Consistent(target, Guess(Lower(guess), Marks(guess, target)))
  {
    var c := Lower(target);
    var g := Lower(Lower(guess));
    var colors := Marks(guess, target);
    assert g == Lower(guess);
    forall i | 0 <= i < WordLength && colors[i] == Present
      ensures g[i] in c
    {
      var l := guess[i];
      CountInMeansIn(target, l, WordLength);
      var k :| 0 <= k < WordLength && target[k] == l;
      assert c[k] == g[i];
    }
    forall i | 0 <= i < WordLength && colors[i] == Absent
      ensures LetterBound(c, g, colors, g[i])
    {
      var l := guess[i];
      AbsentMeansUsedUp(guess, target, i);
      LowerMarked(guess, colors, l, WordLength);
      LowerCount(target, l, WordLength);
      CountInMeansIn(c, g[i], WordLength);
    }
  }

  /** The target survives the solver's filter over guesses the game coloured. */
  lemma TargetInPossible(dictionary: seq<string>, target: string, played: seq<string>)
    requires target in dictionary && |target| == WordLength && Upper(target)
    requires forall k | 0 <= k < |played| :: |played[k]| == WordLength && Upper(played[k])
    ensures var guesses := seq(|played|, k requires 0 <= k < |played| => Guess(Lower(played[k]), Marks(played[k], target)));
      target in Possible(dictionary, guesses)
  {
    var guesses := seq(|played|, k requires 0 <= k < |played| => Guess(Lower(played[k]), Marks(played[k], target)));
    forall k | 0 <= k < |guesses|
      ensures WellFormed(guesses[k]) && Consistent(target, guesses[k])
    {
      TargetSurvives(target, played[k]);
    }
  }
}
