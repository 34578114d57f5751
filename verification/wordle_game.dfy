/*
 * The Wordle game page (puzzle-hub/public/wordle/wordle.js): six rows of
 * five letters, a hidden target drawn from the solution list, tile
 * colours for every accepted guess and a keyboard that shows the best
 * colour each letter has received.
 */
module WordleGame {
  import opened Common
  import opened WordleScore

  const MaxRows := 6

  /** `(letterCount[l] || 0)`. */
  function Get(m: map<char, int>, l: char): int {
    if l in m then m[l] else 0
  }

  lemma {:induction false} CountPositive(s: string, l: char, n: nat)
    requires n <= |s|
    ensures CountIn(s, l, n) > 0 <==> l in s[..n]
  {
    if n > 0 {
      CountPositive(s, l, n - 1);
      assert s[..n] == s[..n - 1] + [s[n - 1]];
    }
  }

  /** letterCount after the first `i` letters of the target were counted. */
  ghost predicate Counted(t: string, letterCount: map<char, int>, i: nat)
    requires i <= |t|
  {
    forall l :: Get(letterCount, l) == CountIn(t, l, i)
  }

  /** The state after the first pass has looked at positions below `c`. */
  ghost predicate FirstPass(g: string, t: string, marks: seq<Color>, letterCount: map<char, int>,
                            keyboard: map<char, Color>, c: nat)
    requires |g| == WordLength && |t| == WordLength && c <= WordLength
  {
    |marks| == WordLength &&
    (forall d | 0 <= d < WordLength :: marks[d] == (if d < c && g[d] == t[d] then Correct else Absent)) &&
    (forall l :: Get(letterCount, l) == CountIn(t, l, WordLength) - CorrectCount(g, t, l, c)) &&
    (forall l :: l in keyboard <==> CorrectCount(g, t, l, c) > 0) &&
    (forall l | l in keyboard :: keyboard[l] == Correct)
  }

  /** The keyboard colour of `l` once the second pass has looked at positions below `c`. */
  function PartialKey(g: string, t: string, l: char, c: nat): Color
    requires |g| == WordLength && |t| == WordLength && c <= WordLength
  {
    if CorrectCount(g, t, l, WordLength) > 0 then Correct
    else if Earlier(g, t, l, c) > 0 && Avail(g, t, l) > 0 then Present
    else Absent
  }

  /** The state after the second pass has looked at positions below `c`. */
  ghost predicate SecondPass(g: string, t: string, marks: seq<Color>, letterCount: map<char, int>,
                             keyboard: map<char, Color>, c: nat)
    requires |g| == WordLength && |t| == WordLength && c <= WordLength
  {
    |marks| == WordLength &&
    (forall d | 0 <= d < WordLength ::
      marks[d] == (if g[d] == t[d] then Correct else if d < c then MarkAt(g, t, d) else Absent)) &&
    (forall l :: Get(letterCount, l) ==
      (if Earlier(g, t, l, c) < Avail(g, t, l) then Avail(g, t, l) - Earlier(g, t, l, c) else 0)) &&
    (forall l :: l in keyboard <==> CorrectCount(g, t, l, WordLength) > 0 || Earlier(g, t, l, c) > 0) &&
    (forall l | l in keyboard :: keyboard[l] == PartialKey(g, t, l, c))
  }

  lemma FirstToSecond(g: string, t: string, marks: seq<Color>, letterCount: map<char, int>, keyboard: map<char, Color>)
    requires |g| == WordLength && |t| == WordLength
    requires FirstPass(g, t, marks, letterCount, keyboard, WordLength)
    ensures SecondPass(g, t, marks, letterCount, keyboard, 0)
  {
  }

  /** Past a position holding `l` that is not correct, only `l`'s count of such positions grows. */
  lemma EarlierStep(g: string, t: string, c: nat)
    requires |g| == WordLength && |t| == WordLength && c < WordLength && g[c] != t[c]
    ensures Earlier(g, t, g[c], c + 1) == Earlier(g, t, g[c], c) + 1
    ensures forall l | l != g[c] :: Earlier(g, t, l, c + 1) == Earlier(g, t, l, c)
  {
  }

  /** The second pass at a non-correct position while occurrences remain: present. */
  lemma SecondPresent(g: string, t: string, marks: seq<Color>, letterCount: map<char, int>, keyboard: map<char, Color>, c: nat)
    requires |g| == WordLength && |t| == WordLength && c < WordLength && g[c] != t[c]
    requires SecondPass(g, t, marks, letterCount, keyboard, c) && Get(letterCount, g[c]) > 0
    ensures SecondPass(g, t, marks[c := Present], letterCount[g[c] := Get(letterCount, g[c]) - 1],
      if g[c] !in keyboard || keyboard[g[c]] != Correct then keyboard[g[c] := Present] else keyboard, c + 1)
  {
    EarlierStep(g, t, c);
    assert MarkAt(g, t, c) == Present;
  }

  /** The second pass at a non-correct position with no occurrence left: absent. */
  lemma SecondAbsent(g: string, t: string, marks: seq<Color>, letterCount: map<char, int>, keyboard: map<char, Color>, c: nat)
    requires |g| == WordLength && |t| == WordLength && c < WordLength && g[c] != t[c]
    requires SecondPass(g, t, marks, letterCount, keyboard, c) && Get(letterCount, g[c]) <= 0
    ensures SecondPass(g, t, marks[c := Absent], letterCount,
      if g[c] !in keyboard then keyboard[g[c] := Absent] else keyboard, c + 1)
  {
    EarlierStep(g, t, c);
    assert MarkAt(g, t, c) == Absent;
  }

  /** The first pass at position `c`. */
  lemma FirstStep(g: string, t: string, marks: seq<Color>, letterCount: map<char, int>, keyboard: map<char, Color>, c: nat)
    requires |g| == WordLength && |t| == WordLength && c < WordLength
    requires FirstPass(g, t, marks, letterCount, keyboard, c)
    ensures g[c] == t[c] ==>
      FirstPass(g, t, marks[c := Correct], letterCount[g[c] := Get(letterCount, g[c]) - 1], keyboard[g[c] := Correct], c + 1)
    ensures g[c] != t[c] ==> FirstPass(g, t, marks, letterCount, keyboard, c + 1)
  {
  }

  lemma SecondSkip(g: string, t: string, marks: seq<Color>, letterCount: map<char, int>, keyboard: map<char, Color>, c: nat)
    requires |g| == WordLength && |t| == WordLength && c < WordLength && g[c] == t[c]
    requires SecondPass(g, t, marks, letterCount, keyboard, c)
    ensures SecondPass(g, t, marks, letterCount, keyboard, c + 1)
  {
  }

  lemma SecondDone(g: string, t: string, marks: seq<Color>, letterCount: map<char, int>, keyboard: map<char, Color>)
    requires |g| == WordLength && |t| == WordLength
    requires SecondPass(g, t, marks, letterCount, keyboard, WordLength)
    ensures marks == Marks(g, t)
    ensures forall l :: l in keyboard <==> l in g
    ensures forall l | l in keyboard :: keyboard[l] == KeyColor(g, t, l)
  {
    forall l
      ensures l in keyboard <==> l in g
    {
      CountSplit(g, t, l, WordLength);
      CountPositive(g, l, WordLength);
      assert g[..WordLength] == g;
    }
  }

  /** checkWord's letterCount: how often each letter occurs in the target. */
  method CountLetters(target: string) returns (letterCount: map<char, int>)
    ensures forall l :: Get(letterCount, l) == CountIn(target, l, |target|)
  {
    letterCount := map[];
    for i := 0 to |target|
      invariant Counted(target, letterCount, i)
    {
      letterCount := letterCount[target[i] := Get(letterCount, target[i]) + 1];
    }
  }

  /** checkWord's first pass: the correct positions, each using up one occurrence. */
  method MarkCorrect(guess: string, target: string, letterCount0: map<char, int>)
    returns (marks: seq<Color>, letterCount: map<char, int>, keyboard: map<char, Color>)
    requires |guess| == WordLength && |target| == WordLength
    requires forall l :: Get(letterCount0, l) == CountIn(target, l, WordLength)
    ensures FirstPass(guess, target, marks, letterCount, keyboard, WordLength)
  {
    marks := seq(WordLength, _ => Absent);
    letterCount := letterCount0;
    keyboard := map[];
    for c := 0 to WordLength
      invariant FirstPass(guess, target, marks, letterCount, keyboard, c)
    {
      var letter := guess[c];
      FirstStep(guess, target, marks, letterCount, keyboard, c);
      if letter == target[c] {
        marks := marks[c := Correct];
        letterCount := letterCount[letter := Get(letterCount, letter) - 1];
        keyboard := keyboard[letter := Correct];
      }
    }
  }

  /** checkWord's second pass: present while unmatched occurrences remain, else absent. */
  method MarkRest(guess: string, target: string, marks0: seq<Color>, letterCount0: map<char, int>, keyboard0: map<char, Color>)
    returns (marks: seq<Color>, keyboard: map<char, Color>)
    requires |guess| == WordLength && |target| == WordLength
    requires FirstPass(guess, target, marks0, letterCount0, keyboard0, WordLength)
    ensures marks == Marks(guess, target)
    ensures forall l :: l in keyboard <==> l in guess
    ensures forall l | l in keyboard :: keyboard[l] == KeyColor(guess, target, l)
  {
    marks, keyboard := marks0, keyboard0;
    var letterCount := letterCount0;
    FirstToSecond(guess, target, marks, letterCount, keyboard);
    for c := 0 to WordLength
      invariant SecondPass(guess, target, marks, letterCount, keyboard, c)
    {
      var letter := guess[c];
      if letter != target[c] {
        if Get(letterCount, letter) > 0 {
          SecondPresent(guess, target, marks, letterCount, keyboard, c);
          marks, letterCount := marks[c := Present], letterCount[letter := Get(letterCount, letter) - 1];
          keyboard := if letter !in keyboard || keyboard[letter] != Correct then keyboard[letter := Present] else keyboard;
        } else {
          SecondAbsent(guess, target, marks, letterCount, keyboard, c);
          marks := marks[c := Absent];
          keyboard := if letter !in keyboard then keyboard[letter := Absent] else keyboard;
        }
      } else {
        SecondSkip(guess, target, marks, letterCount, keyboard, c);
      }
    }
    SecondDone(guess, target, marks, letterCount, keyboard);
  }

  /**
   * checkWord's two passes over a guess: the tile colours, and the colour
   * the guess gives each of its letters on the keyboard.
   */
  method ScoreGuess(guess: string, target: string) returns (marks: seq<Color>, keyboard: map<char, Color>)
    requires |guess| == WordLength && |target| == WordLength
    ensures marks == Marks(guess, target)
    ensures forall l :: l in keyboard <==> l in guess
    ensures forall l | l in keyboard :: keyboard[l] == KeyColor(guess, target, l)
  {
    var letterCount := CountLetters(target);
    var marks0, letterCount1, keyboard0 := MarkCorrect(guess, target, letterCount);
    marks, keyboard := MarkRest(guess, target, marks0, letterCount1, keyboard0);
  }

  /** The keyboard colours one guess gives, letter by letter. */
  function KeyMap(g: string, t: string): (m: map<char, Color>)
    requires |g| == WordLength && |t| == WordLength
    ensures forall l :: l in m <==> l in g
  {
    map l | l in g :: KeyColor(g, t, l)
  }

  /**
   * updateKeyboardColors: every key named in the new colours moves to the
   * better of its colour and the new one; the other keys keep theirs.
   */
  function Recolor(keys: map<char, Color>, colors: map<char, Color>): (r: map<char, Color>)
    ensures r.Keys == keys.Keys + colors.Keys
    ensures forall l | l in keys :: Rank(r[l]) >= Rank(keys[l])
    ensures forall l | l in colors :: Rank(r[l]) >= Rank(colors[l])
    ensures forall l | l in r :: (l in keys && r[l] == keys[l]) || (l in colors && r[l] == colors[l])
  {
    map l | l in keys.Keys + colors.Keys ::
      if l in colors then (if l in keys then Upgrade(keys[l], colors[l]) else colors[l]) else keys[l]
  }

  ghost predicate FullRows(rows: seq<string>) {
    forall r | 0 <= r < |rows| :: |rows[r]| == WordLength
  }

  /** The keyboard after the guesses `rows` were scored against `t`, in order. */
  function Keyboard(rows: seq<string>, t: string): map<char, Color>
    requires FullRows(rows) && |t| == WordLength
  {
    if |rows| == 0 then map[]
    else Recolor(Keyboard(rows[..|rows| - 1], t), KeyMap(rows[|rows| - 1], t))
  }

  /**
   * Every tile a scored guess received is matched or beaten by its
   * letter's key.
   */
  lemma {:induction false} KeyboardBeatsTiles(rows: seq<string>, t: string, r: nat, c: nat)
    requires FullRows(rows) && |t| == WordLength && r < |rows| && c < WordLength
    ensures rows[r][c] in Keyboard(rows, t)
    ensures Rank(MarkAt(rows[r], t, c)) <= Rank(Keyboard(rows, t)[rows[r][c]])
  {
    var n := |rows|;
    if r < n - 1 {
      KeyboardBeatsTiles(rows[..n - 1], t, r, c);
      assert rows[..n - 1][r] == rows[r];
    } else {
      KeyColorIsBest(rows[r], t, rows[r][c], c);
    }
  }

  /** Every key's colour is the colour of some tile of that letter. */
  lemma {:induction false} KeyboardFromTiles(rows: seq<string>, t: string, l: char)
    requires FullRows(rows) && |t| == WordLength && l in Keyboard(rows, t)
    ensures exists r, c :: (0 <= r < |rows| && 0 <= c < WordLength && rows[r][c] == l &&
      MarkAt(rows[r], t, c) == Keyboard(rows, t)[l])
  {
    var n := |rows|;
    var prev := rows[..n - 1];
    if l in KeyMap(rows[n - 1], t) && Keyboard(rows, t)[l] == KeyMap(rows[n - 1], t)[l] {
      var g := rows[n - 1];
      var i :| 0 <= i < WordLength && g[i] == l;
      KeyColorIsBest(g, t, l, i);
    } else {
      KeyboardFromTiles(prev, t, l);
      var r, c :| 0 <= r < |prev| && 0 <= c < WordLength && prev[r][c] == l &&
        MarkAt(prev[r], t, c) == Keyboard(prev, t)[l];
      assert rows[r] == prev[r];
    }
  }

  /**
   * The first `n` rows are guesses on one of the lists, each coloured
   * against the target, and the keyboard holds what they gave it.
   */
  ghost predicate ScoredRows(guessList: seq<string>, solutionList: seq<string>, word: string, board: seq<string>,
                             tiles: seq<seq<Color>>, keys: map<char, Color>, n: nat)
  {
    |word| == WordLength && n <= |board| && |tiles| == n && FullRows(board[..n]) &&
    (forall r | 0 <= r < n :: (board[r] in solutionList || board[r] in guessList) && tiles[r] == Marks(board[r], word)) &&
    keys == Keyboard(board[..n], word)
  }

  lemma ScoreOneMore(guessList: seq<string>, solutionList: seq<string>, word: string, board: seq<string>,
                     tiles: seq<seq<Color>>, keys: map<char, Color>, n: nat)
    requires ScoredRows(guessList, solutionList, word, board, tiles, keys, n)
    requires n < |board| && |board[n]| == WordLength && (board[n] in solutionList || board[n] in guessList)
    ensures ScoredRows(guessList, solutionList, word, board, tiles + [Marks(board[n], word)],
      Recolor(keys, KeyMap(board[n], word)), n + 1)
  {
    assert board[..n + 1][..n] == board[..n];
  }

  /** A saved row whose five cells are all blank. */
  predicate AllBlank(row: seq<string>) {
    forall c | 0 <= c < |row| :: row[c] == ""
  }

  /**
   * loadGameFromData: play resumes on the first saved row whose cells are
   * all blank, or at -1 when there is none (findIndex).
   */
  function FirstBlankRow(rows: seq<seq<string>>): (i: int)
    ensures -1 <= i < |rows|
    ensures i >= 0 ==> AllBlank(rows[i]) && forall j | 0 <= j < i :: !AllBlank(rows[j])
    ensures i == -1 ==> forall j | 0 <= j < |rows| :: !AllBlank(rows[j])
  {
    if |rows| == 0 then -1
    else if AllBlank(rows[0]) then 0
    else
      var i := FirstBlankRow(rows[1..]);
      if i == -1 then -1 else i + 1
  }

  /** What checkWord did with a complete row. */
  datatype Verdict = NotAWord | Won | OutOfGuesses | NextRow

  predicate IsLetter(ch: char) {
    'A' <= ch <= 'Z'
  }

  class Wordle {
    const guessList: seq<string>
    const solutionList: seq<string>
    var word: string
    /** The letters typed in each of the six rows, left to right. */
    var board: seq<string>
    /** The tile colours of each scored row. */
    var tiles: seq<seq<Color>>
    /** The keyboard colours; a letter without an entry is uncoloured. */
    var keys: map<char, Color>
    var currentRow: int
    var currentCol: int
    var finished: bool

    /** The rows already scored: those above the current row, and the current row too once the game is over. */
    function Scored(): nat
      reads this
    {
      if finished && currentRow >= 0 then currentRow + 1 else if currentRow >= 0 then currentRow else 0
    }

    ghost predicate Valid()
      reads this
    {
      word in solutionList && |word| == WordLength &&
      |board| == MaxRows && 0 <= currentRow < MaxRows && 0 <= currentCol <= WordLength &&
      (forall r | 0 <= r < MaxRows :: forall ch | ch in board[r] :: IsLetter(ch)) &&
      (forall r | 0 <= r < currentRow :: |board[r]| == WordLength) &&
      |board[currentRow]| == currentCol &&
      (forall r | currentRow < r < MaxRows :: board[r] == "") &&
      (finished ==> currentCol == WordLength) &&
      (forall r | 0 <= r < currentRow :: board[r] != word) &&
      (finished ==> board[currentRow] == word || currentRow == MaxRows - 1) &&
      ScoredRows(guessList, solutionList, word, board, tiles, keys, Scored())
    }

    /** init: a target drawn from the solution list over an empty board. */
    constructor (guesses: seq<string>, solutions: seq<string>, rng: Random)
      requires |solutions| > 0 && forall w | w in solutions :: |w| == WordLength
      modifies rng
      ensures Valid() && guessList == guesses && solutionList == solutions
      ensures board == seq(MaxRows, _ => "") && tiles == [] && keys == map[]
      ensures currentRow == 0 && currentCol == 0 && !finished
    {
      guessList := guesses;
      solutionList := solutions;
      var i := rng.Below(|solutions|);
      word := solutions[i];
      board := seq(MaxRows, _ => "");
      tiles := [];
      keys := map[];
      currentRow := 0;
      currentCol := 0;
      finished := false;
    }

    /** setupBoard: a new target, an empty board, and no colours. */
    method SetupBoard(rng: Random)
      requires Valid() && forall w | w in solutionList :: |w| == WordLength
      modifies this, rng
      ensures Valid() && word in solutionList
      ensures board == seq(MaxRows, _ => "") && tiles == [] && keys == map[]
      ensures currentRow == 0 && currentCol == 0 && !finished
    {
      var i := rng.Below(|solutionList|);
      word := solutionList[i];
      board := seq(MaxRows, _ => "");
      tiles := [];
      keys := map[];
      finished := false;
      currentRow := 0;
      currentCol := 0;
    }

    /**
     * checkWord on a complete row: a word on neither list changes nothing;
     * otherwise the row is coloured, the keyboard updated, and the game is
     * won, lost on the last row, or moves to the next row.
     */
    method CheckWord() returns (v: Verdict)
      requires Valid() && currentCol == WordLength && !finished
      modifies this
      ensures Valid() && word == old(word) && board == old(board)
      ensures var guess := old(board)[old(currentRow)];
        v == (if guess !in solutionList && guess !in guessList then NotAWord
              else if guess == word then Won
              else if old(currentRow) == MaxRows - 1 then OutOfGuesses
              else NextRow)
      ensures v == NotAWord ==> (tiles == old(tiles) && keys == old(keys) &&
        currentRow == old(currentRow) && currentCol == old(currentCol) && !finished)
      ensures v != NotAWord ==>
        tiles == old(tiles) + [Marks(old(board)[old(currentRow)], word)] &&
        keys == Recolor(old(keys), KeyMap(old(board)[old(currentRow)], word))
      ensures v == Won || v == OutOfGuesses ==> finished && currentRow == old(currentRow) && currentCol == old(currentCol)
      ensures v == NextRow ==> !finished && currentRow == old(currentRow) + 1 && currentCol == 0
    {
      var guess := board[currentRow];
      if guess !in solutionList && guess !in guessList {
        return NotAWord;
      }
      v := AcceptGuess();
    }

    /** checkWord for a row spelling a listed word: score it, then win, lose or move on. */
    method AcceptGuess() returns (v: Verdict)
      requires Valid() && currentCol == WordLength && !finished
      requires board[currentRow] in solutionList || board[currentRow] in guessList
      modifies this
      ensures Valid() && word == old(word) && board == old(board)
      ensures var guess := old(board)[old(currentRow)];
        v == (if guess == word then Won else if old(currentRow) == MaxRows - 1 then OutOfGuesses else NextRow)
      ensures tiles == old(tiles) + [Marks(old(board)[old(currentRow)], word)] &&
        keys == Recolor(old(keys), KeyMap(old(board)[old(currentRow)], word))
      ensures v == Won || v == OutOfGuesses ==> finished && currentRow == old(currentRow) && currentCol == old(currentCol)
      ensures v == NextRow ==> !finished && currentRow == old(currentRow) + 1 && currentCol == 0
    {
      var guess := board[currentRow];
      var marks, keyboard := ScoreGuess(guess, word);
      assert keyboard == KeyMap(guess, word);
      ScoreOneMore(guessList, solutionList, word, board, tiles, keys, currentRow);
      tiles := tiles + [marks];
      keys := Recolor(keys, keyboard);
      if guess == word {
        finished := true;
        v := Won;
      } else if currentRow == MaxRows - 1 {
        finished := true;
        v := OutOfGuesses;
      } else {
        currentRow := currentRow + 1;
        currentCol := 0;
        v := NextRow;
      }
      assert Scored() == old(currentRow) + 1;
    }

    /**
     * handleKey: nothing once finished.  ENTER checks a complete row;
     * BACKSPACE removes the last letter of the row; a letter A-Z is added
     * while the row has room.  Any other key changes nothing.
     */
    method HandleKey(key: string)
      requires Valid()
      modifies this
      ensures Valid() && word == old(word)
      ensures old(finished) ==> (board == old(board) && tiles == old(tiles) && keys == old(keys) &&
        currentRow == old(currentRow) && currentCol == old(currentCol) && finished)
      ensures !old(finished) && key == "ENTER" && old(currentCol) != WordLength ==>
        board == old(board) && tiles == old(tiles) && keys == old(keys) &&
        currentRow == old(currentRow) && currentCol == old(currentCol) && !finished
      ensures !old(finished) && key == "ENTER" && old(currentCol) == WordLength ==>
        var guess := old(board)[old(currentRow)];
        board == old(board) &&
        if guess !in solutionList && guess !in guessList then
          tiles == old(tiles) && keys == old(keys) && currentRow == old(currentRow) && currentCol == old(currentCol) && !finished
        else
          tiles == old(tiles) + [Marks(guess, word)] && keys == Recolor(old(keys), KeyMap(guess, word)) &&
          if guess == word || old(currentRow) == MaxRows - 1 then
            finished && currentRow == old(currentRow) && currentCol == old(currentCol)
          else
            !finished && currentRow == old(currentRow) + 1 && currentCol == 0
      ensures !old(finished) && key != "ENTER" && key != "BACKSPACE" && !(|key| == 1 && IsLetter(key[0])) ==>
        board == old(board) && tiles == old(tiles) && keys == old(keys) &&
        currentRow == old(currentRow) && currentCol == old(currentCol) && !finished
      ensures !old(finished) && key == "BACKSPACE" ==> !finished
      ensures !old(finished) && |key| == 1 && IsLetter(key[0]) ==> !finished
      ensures !old(finished) && key == "BACKSPACE" ==>
        currentRow == old(currentRow) && tiles == old(tiles) && keys == old(keys) &&
        if old(currentCol) > 0 then
          currentCol == old(currentCol) - 1 && board == old(board)[currentRow := old(board)[currentRow][..currentCol]]
        else board == old(board) && currentCol == 0
      ensures !old(finished) && |key| == 1 && IsLetter(key[0]) ==>
        currentRow == old(currentRow) && tiles == old(tiles) && keys == old(keys) &&
        if old(currentCol) < WordLength then
          currentCol == old(currentCol) + 1 && board == old(board)[currentRow := old(board)[currentRow] + key]
        else board == old(board) && currentCol == old(currentCol)
      ensures currentRow == old(currentRow) || currentRow == old(currentRow) + 1
      ensures currentRow == old(currentRow) + 1 ==>
        old(currentCol) == WordLength && currentCol == 0 && board == old(board) &&
        (old(board)[currentRow - 1] in solutionList || old(board)[currentRow - 1] in guessList) &&
        old(board)[currentRow - 1] != word
    {
      if finished {
        return;
      }
      if key == "ENTER" {
        if currentCol == WordLength {
          var _ := CheckWord();
        }
        return;
      }
      if key == "BACKSPACE" {
        if currentCol > 0 {
          EraseLetter();
        }
        return;
      }
      if |key| == 1 && IsLetter(key[0]) && currentCol < WordLength {
        assert key == [key[0]];
        TypeLetter(key[0]);
      }
    }

    /** handleKey's BACKSPACE on a row with letters: the last one goes. */
    method EraseLetter()
      requires Valid() && !finished && currentCol > 0
      modifies this
      ensures Valid() && word == old(word) && !finished
      ensures currentRow == old(currentRow) && tiles == old(tiles) && keys == old(keys)
      ensures currentCol == old(currentCol) - 1 && board == old(board)[currentRow := old(board)[currentRow][..currentCol]]
    {
      currentCol := currentCol - 1;
      board := board[currentRow := board[currentRow][..currentCol]];
    }

    /** handleKey's letter key on a row with room: the letter is appended. */
    method TypeLetter(c: char)
      requires Valid() && !finished && currentCol < WordLength && IsLetter(c)
      modifies this
      ensures Valid() && word == old(word) && !finished
      ensures currentRow == old(currentRow) && tiles == old(tiles) && keys == old(keys)
      ensures currentCol == old(currentCol) + 1 && board == old(board)[currentRow := old(board)[currentRow] + [c]]
    {
      board := board[currentRow := board[currentRow] + [c]];
      currentCol := currentCol + 1;
    }
  }
}
