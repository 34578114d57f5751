/*
 * The Sudoku solver page (puzzle-hub/public/sudoku/sudoku-solver.js): the
 * user types a grid, and `solve` repeats rounds of updateCandidates,
 * assignNakedSingles, assignHiddenSingles and lockedCandidates until a round
 * leaves the whole board (values and candidate lists) as it found it.
 *
 * `recheck` selects the passes: `false` is the source as written, `true`
 * the corrected passes that check a digit against its row, column and box
 * before writing it (see README, Findings).  Everything below holds for
 * both, except that only the corrected passes keep a consistent grid
 * consistent.
 */
module SudokuSolver {
  import opened Common
  import opened SudokuGrid
  import opened SudokuPasses
  import opened SudokuHidden
  import opened SudokuLocked

  /** One iteration of solve's loop from values `v`; the lists it starts from do not matter. */
  function Round(v: seq<int>, recheck: bool): (b: Board)
    requires |v| == 81
    ensures Sized(b)
  {
    LockedPass(HiddenPass(NakedPass(Board(v, Fresh(v)), recheck), recheck))
  }

  /**
   * A round only fills empty cells, so it either leaves the values alone
   * or has fewer empty cells; with the corrected passes it keeps a
   * consistent grid consistent.
   */
  lemma RoundFills(v: seq<int>, recheck: bool)
    requires |v| == 81
    ensures Fills(v, Round(v, recheck).values)
    ensures Round(v, recheck).values != v ==> Empties(Round(v, recheck).values) < Empties(v)
    ensures recheck && Consistent(v) ==> Consistent(Round(v, recheck).values)
  {
    var b0 := Board(v, Fresh(v));
    var b1 := NakedPass(b0, recheck);
    var b2 := HiddenPass(b1, recheck);
    FreshSpec(v);
    NakedRunSpec(b0, 0, recheck);
    FilledFromCandsFills(b0, b1);
    HiddenRunSpec(b1, 1, 0, recheck);
    FilledFromCandsFills(b1, b2);
    FillsTrans(v, b1.values, b2.values);
    LockedDigitsPruned(b2, 1);
    FillsEmpties(v, b2.values);
  }

  /** The measure of solve's loop: empty cells, and whether the state is already a round's fixpoint. */
  function SolveMeasure(v: seq<int>, cs: seq<seq<int>>, recheck: bool): (m: nat)
    requires |v| == 81 && |cs| == 81
    ensures m >= 2 * Empties(v)
  {
    2 * Empties(v) + (if Board(v, cs) == Round(v, recheck) then 0 else 1)
  }

  class SolverPage {
    var values: array<int>
    var cands: array<seq<int>>
    var given: array<bool>
    var selected: Option<int>

    predicate Valid()
      reads this
    {
      values.Length == 81 && cands.Length == 81 && given.Length == 81 &&
      (selected.Some? ==> 0 <= selected.value < 81)
    }

    /** createEmptyBoard. */
    constructor ()
      ensures Valid() && fresh(values) && fresh(cands) && fresh(given)
      ensures values[..] == seq(81, p => 0) && cands[..] == seq(81, p => [])
      ensures given[..] == seq(81, p => false) && selected == None
    {
      values := new int[81](p => 0);
      cands := new seq<int>[81](p => []);
      given := new bool[81](p => false);
      selected := None;
    }

    /** selectCell: any cell may be selected on the solver page. */
    method SelectCell(p: int)
      requires Valid() && 0 <= p < 81
      modifies this
      ensures Valid() && selected == Some(p)
      ensures values == old(values) && cands == old(cands) && given == old(given)
    {
      selected := Some(p);
    }

    /**
     * handleKey: with a cell selected that is not a given, a key "1".."9"
     * stores that digit and "Backspace" stores 0; any other key, no
     * selection or a given cell changes nothing.
     */
    method HandleKey(key: string)
      requires Valid()
      modifies values
      ensures Valid()
      ensures selected.None? || given[selected.value] ==> values[..] == old(values[..])
      ensures selected.Some? && !given[selected.value] ==>
        var p := selected.value;
        values[..] == old(values[..])[p := if |key| == 1 && '1' <= key[0] <= '9' then (key[0] - '0') as int
                                          else if key == "Backspace" then 0 else old(values[p])]
    {
      if selected.None? {
        return;
      }
      var p := selected.value;
      if given[p] {
        return;
      }
      if |key| == 1 && '1' <= key[0] <= '9' {
        values[p] := (key[0] - '0') as int;
      } else if key == "Backspace" {
        values[p] := 0;
      }
    }

    /**
     * readGridToBoard: `parsed[p]` is `parseInt` of cell `p`'s text (None
     * for NaN).  NaN reads as 0, and a cell is a given iff it read as a
     * positive number.
     */
    method ReadGridToBoard(parsed: seq<Option<int>>)
      requires Valid() && |parsed| == 81
      modifies values, given
      ensures Valid()
      ensures forall p :: 0 <= p < 81 ==>
        values[p] == (if parsed[p].None? then 0 else parsed[p].value) &&
        given[p] == (parsed[p].Some? && parsed[p].value > 0)
    {
      for p := 0 to 81
        invariant forall q :: 0 <= q < p ==>
          values[q] == (if parsed[q].None? then 0 else parsed[q].value) &&
          given[q] == (parsed[q].Some? && parsed[q].value > 0)
      {
        values[p] := if parsed[p].None? then 0 else parsed[p].value;
        given[p] := parsed[p].Some? && parsed[p].value > 0;
      }
    }

    /**
     * solve: rounds until one leaves values and lists unchanged.  On
     * return a further round would change nothing, no non-zero cell was
     * changed, and the result says whether every cell is filled.
     */
    method Solve(recheck: bool) returns (solved: bool)
      requires Valid()
      modifies values, cands
      ensures Valid()
      ensures Fills(old(values[..]), values[..])
      ensures Board(values[..], cands[..]) == Round(values[..], recheck)
      ensures recheck && Consistent(old(values[..])) ==> Consistent(values[..])
      ensures solved <==> Complete(values[..])
    {
      ghost var v0 := values[..];
      while true
        invariant Fills(v0, values[..])
        invariant recheck && Consistent(v0) ==> Consistent(values[..])
        decreases SolveMeasure(values[..], cands[..], recheck)
      {
        var beforeValues, beforeCands := values[..], cands[..];
        SolveRound(values, cands, recheck);
        FillsTrans(v0, beforeValues, values[..]);
        if values[..] == beforeValues && cands[..] == beforeCands {
          break;
        }
      }
      solved := AllFilled(values);
    }
  }

  /** One iteration of solve's loop: the four passes in order. */
  method SolveRound(values: array<int>, cands: array<seq<int>>, recheck: bool)
    requires values.Length == 81 && cands.Length == 81
    modifies values, cands
    ensures Board(values[..], cands[..]) == Round(old(values[..]), recheck)
    ensures Fills(old(values[..]), values[..]) && Empties(values[..]) <= Empties(old(values[..]))
    ensures values[..] != old(values[..]) ==> Empties(values[..]) < Empties(old(values[..]))
    ensures recheck && Consistent(old(values[..])) ==> Consistent(values[..])
  {
    ghost var v0 := values[..];
    UpdateCandidates(values, cands);
    var _ := AssignNakedSingles(values, cands, recheck);
    var _ := AssignHiddenSingles(values, cands, recheck);
    var _ := LockedCandidates(values, cands);
    RoundFills(v0, recheck);
    FillsEmpties(v0, values[..]);
  }

  /** `board.every(row => row.every(cell => cell.value !== 0))`. */
  method AllFilled(v: array<int>) returns (b: bool)
    ensures b <==> Complete(v[..])
  {
    b := true;
    for p := 0 to v.Length
      invariant b <==> forall q :: 0 <= q < p ==> v[q] != 0
    {
      b := b && v[p] != 0;
    }
  }
}
