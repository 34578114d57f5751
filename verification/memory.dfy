/*
 * The two-player memory game (puzzle-hub/public/memory/memory.js): a deck
 * holding every value 1..numPairs twice is shuffled face down; a player
 * turns two cards, keeps them and the turn on a match, and otherwise the
 * cards turn back and the other player moves.  The game ends when every
 * pair is matched, and the higher score wins.
 */
module Memory {
  import opened Common

  /** The turn indicator's text. */
  datatype Message = TurnOf(player: nat) | Wins(winner: nat) | Tie

  const DefaultPairs := 4
  const MinPairs := 2
  const MaxPairs := 10

  /** The deck startGame builds before shuffling: 1, 1, 2, 2, ..., n, n. */
  function Deck(n: nat): (d: seq<nat>)
    ensures |d| == 2 * n
    ensures forall i | 0 <= i < |d| :: 1 <= d[i] <= n
  {
    if n == 0 then [] else Deck(n - 1) + [n, n]
  }

  /** Every value 1..n is in the deck exactly twice, and nothing else is. */
  lemma {:induction false} DeckCounts(n: nat)
    ensures forall v: nat :: multiset(Deck(n))[v] == if 1 <= v <= n then 2 else 0
  {
    if n > 0 {
      DeckCounts(n - 1);
      var m := multiset(Deck(n - 1));
      assert multiset(Deck(n)) == m + multiset{n, n};
      forall v: nat
        ensures multiset(Deck(n))[v] == if 1 <= v <= n then 2 else 0
      {
        assert multiset(Deck(n))[v] == m[v] + multiset{n, n}[v];
      }
    }
  }

  /** startGame's loop pushing each value 1..n twice. */
  method BuildDeck(n: nat) returns (deck: seq<nat>)
    ensures deck == Deck(n)
  {
    deck := [];
    var i := 1;
    while i <= n
      invariant 1 <= i <= n + 1
      invariant deck == Deck(i - 1)
    {
      deck := deck + [i, i];
      i := i + 1;
    }
  }

  /** startGame's deck: n pairs, shuffled. */
  method ShuffledDeck(n: nat, rng: Random) returns (board: seq<nat>)
    modifies rng
    ensures PairDeck(board, n)
  {
    var deck := BuildDeck(n);
    var cards := new nat[|deck|](k requires 0 <= k < |deck| => deck[k]);
    assert cards[..] == deck;
    Shuffle(cards, rng);
    board := cards[..];
    assert |board| == |deck| by {
      assert |multiset(board)| == |multiset(deck)|;
    }
  }

  /** The values 1..n. */
  ghost function Values(n: nat): (vs: set<nat>)
    ensures forall v :: v in vs <==> 1 <= v <= n
  {
    if n == 0 then {} else Values(n - 1) + {n}
  }

  lemma {:induction false} ValuesCard(n: nat)
    ensures |Values(n)| == n
  {
    if n > 0 {
      ValuesCard(n - 1);
      assert Values(n) == Values(n - 1) + {n};
    }
  }

  /** The positions of `s` holding `v`. */
  ghost function IndicesOf(s: seq<nat>, v: nat): set<nat> {
    set i: nat | i < |s| && s[i] == v
  }

  /** There are as many positions holding `v` as copies of `v`. */
  lemma {:induction false} IndicesCount(s: seq<nat>, v: nat)
    ensures |IndicesOf(s, v)| == multiset(s)[v]
  {
    if |s| > 0 {
      var t := s[..|s| - 1];
      IndicesCount(t, v);
      assert s == t + [s[|s| - 1]];
      if s[|s| - 1] == v {
        assert IndicesOf(s, v) == IndicesOf(t, v) + {|t|};
      } else {
        assert IndicesOf(s, v) == IndicesOf(t, v);
      }
    }
  }

  lemma NatSubsetCard(a: set<nat>, b: set<nat>)
    requires a <= b
    ensures |a| <= |b|
  {
    assert b == a + (b - a);
  }

  /** In a deck holding `v` twice, the two cards found holding `v` are its only ones. */
  lemma PairIsWhole(board: seq<nat>, f: nat, s: nat)
    requires f < |board| && s < |board| && f != s && board[f] == board[s]
    requires multiset(board)[board[f]] == 2
    ensures forall i | 0 <= i < |board| && board[i] == board[f] :: i == f || i == s
  {
    forall k | 0 <= k < |board| && board[k] == board[f]
      ensures k == f || k == s
    {
      if k != f && k != s {
        IndicesCount(board, board[f]);
        NatSubsetCard({f, s, k}, IndicesOf(board, board[f]));
      }
    }
  }

  /** The entries of `s`, as a set. */
  ghost function SetOf(s: seq<nat>): (r: set<nat>)
    ensures forall x :: x in r <==> x in s
  {
    if |s| == 0 then {} else SetOf(s[..|s| - 1]) + {s[|s| - 1]}
  }

  /** A sequence without repeats has as many distinct entries as entries. */
  lemma {:induction false} DistinctCard(s: seq<nat>)
    requires Distinct(s)
    ensures |SetOf(s)| == |s|
  {
    if |s| > 0 {
      var t := s[..|s| - 1];
      assert Distinct(t);
      DistinctCard(t);
      assert s[|s| - 1] !in t by {
        forall j | 0 <= j < |t|
          ensures t[j] != s[|s| - 1]
        {
          assert t[j] == s[j];
        }
      }
    }
  }

  /** displayWinner: the player with more pairs wins, equal scores tie. */
  function DisplayWinner(scores: map<nat, nat>): (m: Message)
    requires 1 in scores && 2 in scores
    ensures m == Tie <==> scores[1] == scores[2]
    ensures m.Wins? ==> (m.winner == 1 || m.winner == 2) && scores[m.winner] > scores[3 - m.winner]
    ensures !m.TurnOf?
  {
    if scores[1] > scores[2] then Wins(1)
    else if scores[2] > scores[1] then Wins(2)
    else Tie
  }

  /** When every pair is taken, the winner holds more than half of them, and a tie needs an even count. */
  lemma WinnerHasMajority(scores: map<nat, nat>, numPairs: nat)
    requires 1 in scores && 2 in scores && scores[1] + scores[2] == numPairs
    ensures DisplayWinner(scores).Wins? ==> 2 * scores[DisplayWinner(scores).winner] > numPairs
    ensures DisplayWinner(scores) == Tie ==> numPairs % 2 == 0
  {
  }

  /** A deck of n pairs, in some order. */
  ghost predicate PairDeck(board: seq<nat>, n: nat) {
    |board| == 2 * n && multiset(board) == multiset(Deck(n))
  }

  /**
   * The matched pairs have no repeats and are card values 1..|board|/2, and a card
   * is matched exactly when its value is a matched pair.
   */
  ghost predicate MatchedExactly(board: seq<nat>, pairs: seq<nat>, matched: set<nat>) {
    Distinct(pairs) && (forall k | 0 <= k < |pairs| :: 1 <= pairs[k] && 2 * pairs[k] <= |board|) &&
    (forall i | i in matched :: i < |board|) &&
    (forall i | 0 <= i < |board| :: i in matched <==> board[i] in pairs)
  }

  /**
   * The turned cards: unlocked, an open first card is unmatched and a
   * second card is another unmatched one; locked, both are set and either
   * differ (unmatched, waiting to turn back) or are the final matched pair.
   */
  ghost predicate CardsOk(board: seq<nat>, matched: set<nat>, first: Option<nat>, second: Option<nat>, lock: bool) {
    (!lock ==>
      (first.Some? ==> first.value < |board| && first.value !in matched) &&
      (second.Some? ==>
        first.Some? && second.value < |board| && second.value != first.value && second.value !in matched)) &&
    (lock ==>
      first.Some? && second.Some? && first.value < |board| && second.value < |board| && first.value != second.value &&
      if board[first.value] != board[second.value] then
        first.value !in matched && second.value !in matched
      else
        first.value in matched && second.value in matched)
  }

  /** Matching two unmatched cards of equal value adds a new pair and exactly those two cards. */
  lemma MatchStep(board: seq<nat>, n: nat, pairs: seq<nat>, matched: set<nat>, f: nat, s: nat)
    requires PairDeck(board, n) && MatchedExactly(board, pairs, matched)
    requires f < |board| && s < |board| && f != s && board[f] == board[s] && f !in matched
    ensures board[f] !in pairs
    ensures MatchedExactly(board, pairs + [board[f]], matched + {f, s})
    ensures CardsOk(board, matched + {f, s}, Some(f), Some(s), true) && CardsOk(board, matched + {f, s}, None, None, false)
  {
    DeckCounts(n);
    assert board[f] in multiset(board);
    PairIsWhole(board, f, s);
  }

  /** Every matched pair is one of the deck's values 1..n. */
  lemma PairsWithinValues(board: seq<nat>, n: nat, pairs: seq<nat>, matched: set<nat>)
    requires PairDeck(board, n) && MatchedExactly(board, pairs, matched)
    ensures SetOf(pairs) <= Values(n)
    ensures |SetOf(pairs)| == |pairs|
  {
    DeckCounts(n);
    DistinctCard(pairs);
    forall x | x in SetOf(pairs)
      ensures x in Values(n)
    {
      assert x in multiset(board);
    }
  }

  lemma {:induction false} AllPairsMatchAll(board: seq<nat>, n: nat, pairs: seq<nat>, matched: set<nat>)
    requires PairDeck(board, n) && MatchedExactly(board, pairs, matched) && |pairs| == n
    ensures forall i | 0 <= i < |board| :: i in matched
  {
    PairsWithinValues(board, n, pairs, matched);
    ValuesCard(n);
    var found := SetOf(pairs);
    assert Values(n) - found == {} by {
      assert Values(n) == found + (Values(n) - found);
    }
    DeckCounts(n);
    forall i | 0 <= i < |board|
      ensures i in matched
    {
      assert board[i] in multiset(board);
      assert board[i] in Values(n);
    }
  }

  lemma {:induction false} AllMatchedAllPairs(board: seq<nat>, n: nat, pairs: seq<nat>, matched: set<nat>)
    requires PairDeck(board, n) && MatchedExactly(board, pairs, matched)
    requires forall i | 0 <= i < |board| :: i in matched
    ensures |pairs| == n
  {
    PairsWithinValues(board, n, pairs, matched);
    ValuesCard(n);
    DeckCounts(n);
    forall v | v in Values(n)
      ensures v in SetOf(pairs)
    {
      assert v in multiset(board);
      var i :| 0 <= i < |board| && board[i] == v;
      assert i in matched;
    }
    assert SetOf(pairs) == Values(n);
  }

  /**
   * For a deck of n pairs, n matched pairs (the end checkMatch tests
   * for) is reached exactly when every card is matched.
   */
  lemma EndsWhenAllMatched(board: seq<nat>, n: nat, pairs: seq<nat>, matched: set<nat>)
    requires PairDeck(board, n) && MatchedExactly(board, pairs, matched)
    ensures |pairs| == n <==> forall i | 0 <= i < |board| :: i in matched
  {
    if |pairs| == n {
      AllPairsMatchAll(board, n, pairs, matched);
    }
    if forall i | 0 <= i < |board| :: i in matched {
      AllMatchedAllPairs(board, n, pairs, matched);
    }
  }

  class Game {
    var numPairs: nat
    var board: seq<nat>
    /** The number of pairs the current deck was dealt with. */
    ghost var deckPairs: nat
    var firstCard: Option<nat>
    var secondCard: Option<nat>
    var lockBoard: bool
    var tried: bool
    var currentPlayer: nat
    var scores: map<nat, nat>
    var matchedPairs: seq<nat>
    /** The cards carrying the "matched" class. */
    var matched: set<nat>
    var message: Message

    /** The two turned cards differ and wait to be turned back. */
    ghost predicate Mismatch()
      reads this
    {
      lockBoard && firstCard.Some? && secondCard.Some? &&
      firstCard.value < |board| && secondCard.value < |board| &&
      board[firstCard.value] != board[secondCard.value]
    }

    /**
     * The deck holds every value 1..|board|/2 twice; each player has a
     * score and together they count the matched pairs; a card is matched
     * exactly when its value is among the matched pairs, which has no
     * repeats; an open first card is unmatched, and a locked board holds
     * either a mismatch to turn back or the final matched pair.
     */
    ghost predicate Valid()
      reads this
    {
      PairDeck(board, deckPairs) && (currentPlayer == 1 || currentPlayer == 2) &&
      scores.Keys == {1, 2} && scores[1] + scores[2] == |matchedPairs| &&
      MatchedExactly(board, matchedPairs, matched) &&
      CardsOk(board, matched, firstCard, secondCard, lockBoard)
    }

    /** The page's first load: four pairs, then startGame. */
    constructor (rng: Random)
      modifies rng
      ensures Valid() && numPairs == DefaultPairs && Dealt()
    {
      numPairs := DefaultPairs;
      board := [];
      deckPairs := 0;
      firstCard, secondCard := None, None;
      lockBoard, tried := false, false;
      currentPlayer := 1;
      scores := map[1 := 0, 2 := 0];
      matchedPairs := [];
      matched := {};
      message := TurnOf(1);
      new;
      StartGame(rng);
    }

    /** The state startGame leaves: a fresh shuffled deck and nothing played. */
    ghost predicate Dealt()
      reads this
    {
      deckPairs == numPairs && PairDeck(board, numPairs) &&
      matchedPairs == [] && matched == {} && firstCard.None? && secondCard.None? &&
      !lockBoard && !tried && currentPlayer == 1 && scores == map[1 := 0, 2 := 0] && message == TurnOf(1)
    }

    /** updatePairCount: only an integer 2..10 (not NaN) changes the pair count. */
    method UpdatePairCount(value: Option<int>)
      requires Valid()
      modifies this
      ensures Valid()
      ensures value.Some? && MinPairs <= value.value <= MaxPairs ==> numPairs == value.value
      ensures !(value.Some? && MinPairs <= value.value <= MaxPairs) ==> numPairs == old(numPairs)
      ensures board == old(board) && matchedPairs == old(matchedPairs) && scores == old(scores)
      ensures currentPlayer == old(currentPlayer) && lockBoard == old(lockBoard) && matched == old(matched)
      ensures firstCard == old(firstCard) && secondCard == old(secondCard) && tried == old(tried) && message == old(message)
      ensures deckPairs == old(deckPairs)
    {
      if value.Some? && MinPairs <= value.value <= MaxPairs {
        numPairs := value.value;
      }
    }

    /**
     * startGame: scores 0 and 0, player 1, nothing matched or turned, and
     * a new deck of numPairs pairs, shuffled.
     */
    method StartGame(rng: Random)
      modifies this, rng
      ensures Valid() && Dealt() && numPairs == old(numPairs)
    {
      var deck := ShuffledDeck(numPairs, rng);
      FreshDeal(deck, numPairs);
      matchedPairs := [];
      matched := {};
      firstCard, secondCard := None, None;
      lockBoard := false;
      tried := false;
      currentPlayer := 1;
      scores := map[1 := 0, 2 := 0];
      message := TurnOf(1);
      board := deck;
      deckPairs := numPairs;
    }

    /** A fresh deal has nothing matched and no card turned. */
    static lemma FreshDeal(deck: seq<nat>, n: nat)
      ensures MatchedExactly(deck, [], {}) && CardsOk(deck, {}, None, None, false)
      ensures var s := map[1 := 0, 2 := 0]; s.Keys == {1, 2} && s[1] + s[2] == 0
    {
    }

    /**
     * flipCard: ignored while the board is locked, on a matched card and
     * on the card already turned; otherwise the card becomes the first
     * card, or the second, which checkMatch then settles.
     */
    method FlipCard(card: nat)
      requires Valid() && card < |board|
      modifies this
      ensures Valid() && numPairs == old(numPairs) && board == old(board)
      ensures old(lockBoard) || card in old(matched) || old(firstCard) == Some(card) ==>
        firstCard == old(firstCard) && secondCard == old(secondCard) && lockBoard == old(lockBoard) &&
        matchedPairs == old(matchedPairs) && scores == old(scores) && currentPlayer == old(currentPlayer) && matched == old(matched) &&
        tried == old(tried) && message == old(message)
      ensures !old(lockBoard) && card !in old(matched) && old(firstCard).None? ==>
        firstCard == Some(card) && secondCard.None? && !lockBoard &&
        matchedPairs == old(matchedPairs) && scores == old(scores) && currentPlayer == old(currentPlayer) && matched == old(matched) &&
        tried == old(tried) && message == old(message)
      ensures !old(lockBoard) && card !in old(matched) && old(firstCard).Some? && old(firstCard) != Some(card) ==>
        Matched(old(firstCard).value, card, old(currentPlayer), old(scores), old(matchedPairs), old(matched), old(message))
    {
      if lockBoard || card in matched || firstCard == Some(card) {
        return;
      }
      if firstCard.None? {
        firstCard := Some(card);
        return;
      }
      secondCard := Some(card);
      CheckMatch();
    }

    /**
     * The outcome of checkMatch on cards f and s: the board locks; on equal
     * values the player scores one, the value joins matchedPairs, the turn
     * stays, and either every pair is taken and the winner is shown with
     * the board left locked, or the turned cards are cleared; on different
     * values nothing else changes, the message included, until the cards
     * are turned back.
     */
    ghost predicate Matched(f: nat, s: nat, player: nat, scores0: map<nat, nat>, pairs0: seq<nat>, matched0: set<nat>, message0: Message)
      requires f < |board| && s < |board|
      reads this
    {
      tried && currentPlayer == player && player in scores0 &&
      if board[f] == board[s] then
        scores == scores0[player := scores0[player] + 1] &&
        matchedPairs == pairs0 + [board[f]] && matched == matched0 + {f, s} &&
        if |matchedPairs| == numPairs then
          lockBoard && firstCard == Some(f) && secondCard == Some(s) &&
          1 in scores && 2 in scores && message == DisplayWinner(scores)
        else
          !lockBoard && firstCard.None? && secondCard.None? && message == TurnOf(player)
      else
        lockBoard && firstCard == Some(f) && secondCard == Some(s) &&
        scores == scores0 && matchedPairs == pairs0 && matched == matched0 && message == message0
    }

    /** checkMatch, on the two turned cards. */
    method CheckMatch()
      requires Valid() && !lockBoard && firstCard.Some? && secondCard.Some?
      requires firstCard.value < |board| && secondCard.value < |board| && firstCard.value != secondCard.value
      requires firstCard.value !in matched && secondCard.value !in matched
      modifies this
      ensures Valid() && numPairs == old(numPairs) && board == old(board)
      ensures Matched(old(firstCard).value, old(secondCard).value, old(currentPlayer), old(scores), old(matchedPairs), old(matched), old(message))
    {
      tried := true;
      lockBoard := true;
      var f, s := firstCard.value, secondCard.value;
      if board[f] == board[s] {
        MatchStep(board, deckPairs, matchedPairs, matched, f, s);
        ScoreStep(scores, currentPlayer, |matchedPairs|);
        KeepPair(f, s);
      }
    }

    /** checkMatch's branch for two cards of equal value, after the board locked. */
    method KeepPair(f: nat, s: nat)
      requires lockBoard && tried && firstCard == Some(f) && secondCard == Some(s)
      requires f < |board| && s < |board| && f != s && board[f] == board[s] && f !in matched && s !in matched
      requires PairDeck(board, deckPairs) && (currentPlayer == 1 || currentPlayer == 2)
      requires currentPlayer in scores
      requires var s1 := scores[currentPlayer := scores[currentPlayer] + 1]; s1.Keys == {1, 2} && s1[1] + s1[2] == |matchedPairs| + 1
      requires MatchedExactly(board, matchedPairs + [board[f]], matched + {f, s})
      requires CardsOk(board, matched + {f, s}, Some(f), Some(s), true)
      modifies this
      ensures Valid() && numPairs == old(numPairs) && board == old(board)
      ensures Matched(f, s, old(currentPlayer), old(scores), old(matchedPairs), old(matched), old(message))
    {
      var v := board[f];
      var scores1 := scores[currentPlayer := scores[currentPlayer] + 1];
      var pairs1 := matchedPairs + [v];
      var done := |pairs1| == numPairs;
      var note := if done then DisplayWinner(scores1) else TurnOf(currentPlayer);
      matched := matched + {f, s};
      scores := scores1;
      matchedPairs := pairs1;
      message := note;
      if !done {
        firstCard, secondCard := None, None;
        lockBoard := false;
      }
    }

    /** A point for player `p` keeps the two scores summing to the number of pairs found. */
    static lemma ScoreStep(scores0: map<nat, nat>, p: nat, found: nat)
      requires scores0.Keys == {1, 2} && scores0[1] + scores0[2] == found && (p == 1 || p == 2)
      ensures var s := scores0[p := scores0[p] + 1]; s.Keys == {1, 2} && s[1] + s[2] == found + 1
    {
    }

    /**
     * The timed step after a mismatch: the two cards turn back, the turn
     * passes to the other player, and the board unlocks; scores and
     * matches stay.
     */
    method FlipBack()
      requires Valid() && Mismatch()
      modifies this
      ensures Valid() && numPairs == old(numPairs) && board == old(board)
      ensures currentPlayer == 3 - old(currentPlayer) && message == TurnOf(currentPlayer)
      ensures firstCard.None? && secondCard.None? && !lockBoard
      ensures scores == old(scores) && matchedPairs == old(matchedPairs) && matched == old(matched)
    {
      currentPlayer := if currentPlayer == 1 then 2 else 1;
      message := TurnOf(currentPlayer);
      firstCard, secondCard := None, None;
      lockBoard := false;
    }
  }
}
