/*
 * The logical passes of the Sudoku solver: updateCandidates,
 * assignNakedSingles, assignHiddenSingles and lockedCandidates.  The same
 * four functions appear in sudoku-solver.js and (returning a `changed` flag,
 * never called) in sudoku.js; the methods below return the flag and the
 * solver ignores it.
 *
 * Each pass is a method over the two arrays of the board (cell values and
 * candidate lists), proved against a specification function over a `Board`
 * value.  A pass is specified as a run of small steps in the order of the
 * source's loops, so that the order-dependent effects are kept.
 *
 * `recheck` selects the corrected assignment passes described in README
 * ("Findings"): when it is true a single is written only if the digit is
 * still Safe at that moment.  With `recheck == false` the passes are as
 * written in the source.
 */
module SudokuPasses {
  import opened SudokuGrid

  datatype Board = Board(values: seq<int>, cands: seq<seq<int>>)

  predicate Sized(b: Board) {
    |b.values| == 81 && |b.cands| == 81
  }

  /** Every candidate list holds digits 1..9 only. */
  predicate DigitCands(b: Board) {
    forall p, i :: 0 <= p < |b.cands| && 0 <= i < |b.cands[p]| ==> 1 <= b.cands[p][i] <= 9
  }

  /** `list.filter(x => x !== n)` */
  function Remove(l: seq<int>, n: int): (r: seq<int>)
    ensures forall x :: x in r <==> x in l && x != n
    ensures |r| <= |l| && (n in l ==> |r| < |l|)
  {
    if |l| == 0 then []
    else (if l[0] == n then [] else [l[0]]) + Remove(l[1..], n)
  }

  // ---------------------------------------------------------------------
  // Values only fill up

  /** `v` is `v0` with some empty cells filled by non-zero values. */
  predicate Fills(v0: seq<int>, v: seq<int>) {
    |v0| == |v| && forall p :: 0 <= p < |v| ==> v[p] == v0[p] || (v0[p] == 0 && v[p] != 0)
  }

  lemma FillsTrans(v0: seq<int>, v1: seq<int>, v2: seq<int>)
    requires Fills(v0, v1) && Fills(v1, v2)
    ensures Fills(v0, v2)
  {
  }

  lemma {:induction false} EmptiesUpdate(v: seq<int>, p: int, x: int)
    requires 0 <= p < |v|
    ensures Empties(v[p := x]) == Empties(v) - (if v[p] == 0 then 1 else 0) + (if x == 0 then 1 else 0)
  {
    if p == 0 {
      assert v[p := x][1..] == v[1..];
    } else {
      assert v[p := x][1..] == v[1..][p - 1 := x];
      EmptiesUpdate(v[1..], p - 1, x);
    }
  }

  /** Filling cells never adds empties, and strictly removes some unless nothing changed. */
  lemma {:induction false} FillsEmpties(v0: seq<int>, v: seq<int>)
    requires Fills(v0, v)
    ensures Empties(v) <= Empties(v0)
    ensures v != v0 ==> Empties(v) < Empties(v0)
  {
    if |v| > 0 {
      assert Fills(v0[1..], v[1..]);
      FillsEmpties(v0[1..], v[1..]);
      if v != v0 && v[1..] == v0[1..] {
        assert v[0] != v0[0];
      }
    }
  }

  // ---------------------------------------------------------------------
  // updateCandidates

  /** The candidate lists updateCandidates computes from the values. */
  function Fresh(v: seq<int>): (cs: seq<seq<int>>)
    requires |v| == 81
    ensures |cs| == 81
  {
    seq(81, p requires 0 <= p < 81 => if v[p] == 0 then CandidatesOf(v, p / 9, p % 9) else [])
  }

  /**
   * updateCandidates gives every empty cell the ascending list of digits
   * that are Safe there, and every filled cell the empty list.
   */
  lemma FreshSpec(v: seq<int>)
    requires |v| == 81
    ensures DigitCands(Board(v, Fresh(v)))
    ensures forall p :: 0 <= p < 81 ==> StrictlyIncreasing(Fresh(v)[p])
    ensures forall p, n :: 0 <= p < 81 ==>
      (n in Fresh(v)[p] <==> v[p] == 0 && 1 <= n <= 9 && Safe(v, p / 9, p % 9, n))
  {
    forall p | 0 <= p < 81
      ensures StrictlyIncreasing(Fresh(v)[p])
      ensures forall i :: 0 <= i < |Fresh(v)[p]| ==> 1 <= Fresh(v)[p][i] <= 9
      ensures forall n :: n in Fresh(v)[p] <==> v[p] == 0 && 1 <= n <= 9 && Safe(v, p / 9, p % 9, n)
    {
      if v[p] == 0 {
        CandidatesOfSpec(v, p / 9, p % 9);
      }
    }
  }

  /** The non-zero values in the row, the column and the box of (r, c). */
  ghost function PeerValues(v: seq<int>, r: int, c: int): set<int>
    requires |v| == 81 && InRange(r, c)
  {
    set r2, c2 | 0 <= r2 < 9 && 0 <= c2 < 9 && Peer(r, c, r2, c2) && At(v, r2, c2) != 0 :: At(v, r2, c2)
  }

  lemma PeerValuesSpec(v: seq<int>, r: int, c: int)
    requires |v| == 81 && InRange(r, c)
    ensures forall n :: n in PeerValues(v, r, c) <==> n != 0 && !Safe(v, r, c, n)
  {
    forall n | n != 0 && !Safe(v, r, c, n)
      ensures n in PeerValues(v, r, c)
    {
      var r2, c2 :| InRange(r2, c2) && Peer(r, c, r2, c2) && At(v, r2, c2) == n;
    }
  }

  /** The set `used` of updateCandidates: the non-zero values in the row, column and box of (r, c). */
  method UsedDigits(v: array<int>, r: int, c: int) returns (used: set<int>)
    requires v.Length == 81 && InRange(r, c)
    ensures forall n :: n in used <==> n != 0 && !Safe(v[..], r, c, n)
  {
    ghost var all := PeerValues(v[..], r, c);
    used := {};
    for col := 0 to 9
      invariant used <= all
      invariant forall j :: 0 <= j < col && At(v[..], r, j) != 0 ==> At(v[..], r, j) in used
    {
      if v[9 * r + col] != 0 {
        assert At(v[..], r, col) == v[9 * r + col] && Peer(r, c, r, col);
        used := used + {v[9 * r + col]};
      }
    }
    for row := 0 to 9
      invariant used <= all
      invariant forall j :: 0 <= j < 9 && At(v[..], r, j) != 0 ==> At(v[..], r, j) in used
      invariant forall j :: 0 <= j < row && At(v[..], j, c) != 0 ==> At(v[..], j, c) in used
    {
      if v[9 * row + c] != 0 {
        assert At(v[..], row, c) == v[9 * row + c] && Peer(r, c, row, c);
        used := used + {v[9 * row + c]};
      }
    }
    used := AddBox(v, r, c, used);
    forall n | n in all
      ensures n in used
    {
      var r2, c2 :| 0 <= r2 < 9 && 0 <= c2 < 9 && Peer(r, c, r2, c2) && At(v[..], r2, c2) != 0 && At(v[..], r2, c2) == n;
      if r2 != r && c2 != c {
        SameBox(r, r2);
        SameBox(c, c2);
      }
    }
    PeerValuesSpec(v[..], r, c);
  }

  /** The box part of `used`. */
  method AddBox(v: array<int>, r: int, c: int, used0: set<int>) returns (used: set<int>)
    requires v.Length == 81 && InRange(r, c)
    requires used0 <= PeerValues(v[..], r, c)
    ensures used0 <= used <= PeerValues(v[..], r, c)
    ensures forall r2, c2 :: 3 * (r / 3) <= r2 < 3 * (r / 3) + 3 && 3 * (c / 3) <= c2 < 3 * (c / 3) + 3 && At(v[..], r2, c2) != 0 ==> At(v[..], r2, c2) in used
  {
    ghost var all := PeerValues(v[..], r, c);
    used := used0;
    var boxRow := (r / 3) * 3;
    var boxCol := (c / 3) * 3;
    for rr := boxRow to boxRow + 3
      invariant used0 <= used <= all
      invariant forall r2, c2 :: boxRow <= r2 < rr && boxCol <= c2 < boxCol + 3 && At(v[..], r2, c2) != 0 ==> At(v[..], r2, c2) in used
    {
      for cc := boxCol to boxCol + 3
        invariant used0 <= used <= all
        invariant forall r2, c2 :: boxRow <= r2 < rr && boxCol <= c2 < boxCol + 3 && At(v[..], r2, c2) != 0 ==> At(v[..], r2, c2) in used
        invariant forall c2 :: boxCol <= c2 < cc && At(v[..], rr, c2) != 0 ==> At(v[..], rr, c2) in used
      {
        if v[9 * rr + cc] != 0 {
          SameBox(r, rr);
          SameBox(c, cc);
          assert At(v[..], rr, cc) == v[9 * rr + cc] && Peer(r, c, rr, cc);
          used := used + {v[9 * rr + cc]};
        }
      }
    }
  }

  /** updateCandidates: recompute every cell's candidate list from the values. */
  method UpdateCandidates(v: array<int>, cs: array<seq<int>>)
    requires v.Length == 81 && cs.Length == 81
    modifies cs
    ensures cs[..] == Fresh(v[..])
  {
    for r := 0 to 9
      invariant forall p :: 0 <= p < 9 * r ==> cs[p] == Fresh(v[..])[p]
    {
      for c := 0 to 9
        invariant forall p :: 0 <= p < 9 * r + c ==> cs[p] == Fresh(v[..])[p]
      {
        var p := 9 * r + c;
        assert p / 9 == r && p % 9 == c;
        if v[p] == 0 {
          var used := UsedDigits(v, r, c);
          var list := [];
          for num := 1 to 10
            invariant list == SafeDigitsUpTo(v[..], r, c, num - 1)
          {
            if num !in used {
              list := list + [num];
            }
          }
          cs[p] := list;
        } else {
          cs[p] := [];
        }
      }
    }
  }

  // ---------------------------------------------------------------------
  // Assignment passes: the shared relation

  /**
   * `b` is `a` where some empty cells have been filled with one of their
   * own candidates (in `a`) and had their candidate list cleared; every
   * other cell is untouched.
   */
  predicate FilledFromCands(a: Board, b: Board)
    requires Sized(a) && Sized(b)
  {
    forall p :: 0 <= p < 81 ==>
      (b.values[p] == a.values[p] && b.cands[p] == a.cands[p]) ||
      (a.values[p] == 0 && b.values[p] in a.cands[p] && b.cands[p] == [])
  }

  lemma FilledFromCandsTrans(a: Board, b: Board, c: Board)
    requires Sized(a) && Sized(b) && Sized(c)
    requires FilledFromCands(a, b) && FilledFromCands(b, c)
    ensures FilledFromCands(a, c)
  {
  }

  /** With digit candidates, such a filling only turns empty cells into digits. */
  lemma FilledFromCandsFills(a: Board, b: Board)
    requires Sized(a) && Sized(b) && DigitCands(a) && FilledFromCands(a, b)
    ensures Fills(a.values, b.values) && DigitCands(b)
  {
    forall p | 0 <= p < 81
      ensures b.values[p] == a.values[p] || (a.values[p] == 0 && b.values[p] != 0)
    {
      if b.values[p] != a.values[p] {
        var i :| 0 <= i < |a.cands[p]| && a.cands[p][i] == b.values[p];
      }
    }
  }

  /** Filling one empty cell with a value Safe there keeps the grid Consistent. */
  lemma PlaceSafe(v: seq<int>, p: int, n: int)
    requires |v| == 81 && 0 <= p < 81 && Consistent(v) && Safe(v, p / 9, p % 9, n)
    ensures Consistent(v[p := n])
  {
    IdxSplit(p);
    PlaceKeepsConsistent(v, p / 9, p % 9, n);
  }

  // ---------------------------------------------------------------------
  // assignNakedSingles

  /** One cell of assignNakedSingles. */
  function NakedStep(b: Board, p: int, recheck: bool): (b': Board)
    requires Sized(b) && 0 <= p < 81
    ensures Sized(b')
  {
    if b.values[p] == 0 && |b.cands[p]| == 1 && (!recheck || Safe(b.values, p / 9, p % 9, b.cands[p][0]))
    then Board(b.values[p := b.cands[p][0]], b.cands[p := []])
    else b
  }

  /** assignNakedSingles from cell `p` on, in row-major order. */
  function NakedRun(b: Board, p: int, recheck: bool): (b': Board)
    requires Sized(b) && 0 <= p <= 81
    ensures Sized(b')
    decreases 81 - p
  {
    if p == 81 then b else NakedRun(NakedStep(b, p, recheck), p + 1, recheck)
  }

  function NakedPass(b: Board, recheck: bool): (b': Board)
    requires Sized(b)
    ensures Sized(b')
  {
    NakedRun(b, 0, recheck)
  }

  /**
   * assignNakedSingles only fills empty cells, each with the single
   * candidate it had, clearing that cell's list; with `recheck` it also
   * keeps a Consistent grid Consistent.
   */
  lemma {:induction false} NakedRunSpec(b: Board, p: int, recheck: bool)
    requires Sized(b) && 0 <= p <= 81
    ensures FilledFromCands(b, NakedRun(b, p, recheck))
    ensures forall q :: 0 <= q < 81 && NakedRun(b, p, recheck).values[q] != b.values[q] ==> |b.cands[q]| == 1
    ensures recheck && Consistent(b.values) ==> Consistent(NakedRun(b, p, recheck).values)
    decreases 81 - p
  {
    if p < 81 {
      var b1 := NakedStep(b, p, recheck);
      NakedRunSpec(b1, p + 1, recheck);
      FilledFromCandsTrans(b, b1, NakedRun(b1, p + 1, recheck));
      if recheck && Consistent(b.values) && b1 != b {
        PlaceSafe(b.values, p, b.cands[p][0]);
      }
    }
  }

  /**
   * As written (no recheck), naked singles are decided cell by cell from
   * the lists on entry: cell q ends with its single candidate exactly when
   * it was empty with exactly one candidate.
   */
  lemma {:induction false} NakedAsWrittenPointwise(b: Board, p: int)
    requires Sized(b) && 0 <= p <= 81
    ensures forall q :: 0 <= q < 81 ==>
      NakedRun(b, p, false).values[q] ==
        (if p <= q && b.values[q] == 0 && |b.cands[q]| == 1 then b.cands[q][0] else b.values[q])
    decreases 81 - p
  {
    if p < 81 {
      NakedAsWrittenPointwise(NakedStep(b, p, false), p + 1);
    }
  }

  /** Columns 0 and 1 of the counterexample grid, rows 0..8. */
  const WitnessCol0: seq<int> := [0, 1, 2, 3, 4, 6, 7, 8, 9]
  const WitnessCol1: seq<int> := [0, 4, 6, 7, 8, 9, 1, 2, 3]

  /** A typed grid: columns 0 and 1 hold the digits above and every other cell is empty. */
  function NakedWitness(): (v: seq<int>)
    ensures |v| == 81
    ensures forall r, c | InRange(r, c) :: At(v, r, c) == if c == 0 then WitnessCol0[r] else if c == 1 then WitnessCol1[r] else 0
  {
    seq(81, p requires 0 <= p < 81 => if p % 9 == 0 then WitnessCol0[p / 9] else if p % 9 == 1 then WitnessCol1[p / 9] else 0)
  }

  /** No digit repeats in a row, a column or a box of the counterexample grid. */
  lemma WitnessConsistent()
    ensures Consistent(NakedWitness())
  {
    var v := NakedWitness();
    forall r1, c1, r2, c2 | 0 <= r1 < 9 && 0 <= c1 < 9 && 0 <= r2 < 9 && 0 <= c2 < 9 &&
        (r1 != r2 || c1 != c2) && Peer(r1, c1, r2, c2) && At(v, r1, c1) != 0
      ensures At(v, r1, c1) != At(v, r2, c2)
    {
      if At(v, r2, c2) != 0 {
        // both cells lie in column 0 or 1, below row 0
        assert c1 <= 1 && c2 <= 1 && 1 <= r1 && 1 <= r2;
        if c1 == c2 {
          WitnessColumnsDistinct(r1, r2);
        } else if c1 == 0 {
          WitnessColumnsApart(r1, r2);
        } else {
          WitnessColumnsApart(r2, r1);
        }
      }
    }
  }

  /** Rows 1..8 of each column hold different digits. */
  lemma WitnessColumnsDistinct(r1: int, r2: int)
    requires 1 <= r1 < 9 && 1 <= r2 < 9 && r1 != r2
    ensures WitnessCol0[r1] != WitnessCol0[r2] && WitnessCol1[r1] != WitnessCol1[r2]
  {
  }

  /** Column 0's digit never equals column 1's in the same row or the same band of boxes. */
  lemma WitnessColumnsApart(r0: int, r1: int)
    requires 1 <= r0 < 9 && 1 <= r1 < 9 && (r0 == r1 || r0 / 3 == r1 / 3)
    ensures WitnessCol0[r0] != WitnessCol1[r1]
  {
  }

  /** A strictly increasing list whose only member is x is [x]. */
  lemma SingletonList(l: seq<int>, x: int)
    requires StrictlyIncreasing(l) && forall n :: n in l <==> n == x
    ensures l == [x]
  {
    assert x in l;
    if |l| > 1 {
      IncreasingHeadDiffers(l);
      assert false;
    }
  }

  lemma IncreasingHeadDiffers(l: seq<int>)
    requires StrictlyIncreasing(l) && |l| > 1
    ensures l[0] in l && l[1] in l && l[0] != l[1]
  {
  }

  /** Every digit but 5 already sits in column 0 and in column 1 of the counterexample grid. */
  lemma WitnessUnsafe(n: int)
    requires 1 <= n <= 9 && n != 5
    ensures !Safe(NakedWitness(), 0, 0, n) && !Safe(NakedWitness(), 0, 1, n)
  {
    var v := NakedWitness();
    var r0 := if n <= 4 then n else n - 1;
    var r1 := if n <= 3 then n + 5 else if n == 4 then 1 else n - 4;
    assert Peer(0, 0, r0, 0) && At(v, r0, 0) == n;
    assert Peer(0, 1, r1, 1) && At(v, r1, 1) == n;
  }

  /** No cell of the counterexample grid holds 5. */
  lemma WitnessSafeFive()
    ensures Safe(NakedWitness(), 0, 0, 5) && Safe(NakedWitness(), 0, 1, 5)
  {
    var v := NakedWitness();
    assert 5 !in WitnessCol0 && 5 !in WitnessCol1;
    forall r, c | InRange(r, c)
      ensures At(v, r, c) != 5
    {
      if c == 0 {
        assert WitnessCol0[r] in WitnessCol0;
      } else if c == 1 {
        assert WitnessCol1[r] in WitnessCol1;
      }
    }
  }

  /** updateCandidates lists only 5 at cell (0, c) of the counterexample grid, for c = 0, 1. */
  lemma WitnessSingle(c: int)
    requires 0 <= c <= 1
    ensures Fresh(NakedWitness())[c] == [5]
  {
    var v := NakedWitness();
    FreshSpec(v);
    WitnessSafeFive();
    assert v[c] == At(v, 0, c) == 0;
    forall n
      ensures n in Fresh(v)[c] <==> n == 5
    {
      if 1 <= n <= 9 && n != 5 {
        WitnessUnsafe(n);
      }
    }
    SingletonList(Fresh(v)[c], 5);
  }

  /**
   * As written, the naked pass that solve runs right after updateCandidates
   * breaks the counterexample grid: cells (0, 0) and (0, 1) both list only
   * 5, both are written, and row 0 ends with 5 twice.
   */
  lemma NakedAsWrittenBreaksConsistency()
    ensures Consistent(NakedWitness())
    ensures Fresh(NakedWitness())[0] == [5] && Fresh(NakedWitness())[1] == [5]
    ensures !Consistent(NakedPass(Board(NakedWitness(), Fresh(NakedWitness())), false).values)
  {
    WitnessConsistent();
    WitnessSingle(0);
    WitnessSingle(1);
    var b := Board(NakedWitness(), Fresh(NakedWitness()));
    NakedAsWrittenPointwise(b, 0);
    var v := NakedPass(b, false).values;
    assert At(v, 0, 0) == 5 && At(v, 0, 1) == 5 && Peer(0, 0, 0, 1);
  }

  /**
   * Book-keeping for one step of an assignment pass started from `b0`: the
   * step keeps the FilledFromCands relation and, with digit candidates,
   * removes exactly one empty cell when it writes.
   */
  lemma StepBookkeeping(b0: Board, cur: Board, next: Board, p: int, wrote: bool)
    requires Sized(b0) && Sized(cur) && Sized(next) && 0 <= p < 81
    requires FilledFromCands(b0, cur)
    requires !wrote ==> next == cur
    requires wrote ==> (cur.values[p] == 0 && |cur.cands[p]| > 0 && next.values[p] in cur.cands[p] &&
                        next == Board(cur.values[p := next.values[p]], cur.cands[p := []]))
    ensures FilledFromCands(b0, next)
    ensures DigitCands(b0) ==>
      Fills(b0.values, next.values) && Empties(next.values) == Empties(cur.values) - (if wrote then 1 else 0)
  {
    if wrote {
      assert cur.cands[p] == b0.cands[p] && cur.values[p] == b0.values[p];
      EmptiesUpdate(cur.values, p, next.values[p]);
    }
    if DigitCands(b0) {
      FilledFromCandsFills(b0, next);
    }
  }

  /** One cell of assignNakedSingles; `did` tells whether it wrote. */
  method NakedCell(v: array<int>, cs: array<seq<int>>, p: int, recheck: bool) returns (did: bool)
    requires v.Length == 81 && cs.Length == 81 && 0 <= p < 81
    modifies v, cs
    ensures Board(v[..], cs[..]) == NakedStep(old(Board(v[..], cs[..])), p, recheck)
    ensures !did ==> v[..] == old(v[..]) && cs[..] == old(cs[..])
    ensures did ==> (old(v[p]) == 0 && |old(cs[p])| == 1 && v[p] == old(cs[p])[0] &&
                     v[..] == old(v[..])[p := v[p]] && cs[..] == old(cs[..])[p := []])
  {
    IdxSplit(p);
    did := false;
    if v[p] == 0 && |cs[p]| == 1 {
      var ok := true;
      if recheck {
        ok := IsValid(v, p / 9, p % 9, cs[p][0]);
      }
      if ok {
        v[p] := cs[p][0];
        cs[p] := [];
        did := true;
      }
    }
  }

  /**
   * assignNakedSingles.  `changed` reports whether a value was written
   * (the sudoku.js version returns it; the solver's ignores it).  The
   * source walks rows then columns; one index over the row-major order
   * visits the cells in the same order.
   */
  method AssignNakedSingles(v: array<int>, cs: array<seq<int>>, recheck: bool) returns (changed: bool)
    requires v.Length == 81 && cs.Length == 81
    modifies v, cs
    ensures Board(v[..], cs[..]) == NakedPass(old(Board(v[..], cs[..])), recheck)
    ensures DigitCands(old(Board(v[..], cs[..]))) ==> (changed <==> v[..] != old(v[..]))
  {
    ghost var b0 := Board(v[..], cs[..]);
    ghost var cur := b0;
    ghost var written := 0;
    changed := false;
    for p := 0 to 81
      invariant cur == Board(v[..], cs[..])
      invariant NakedRun(cur, p, recheck) == NakedPass(b0, recheck)
      invariant FilledFromCands(b0, cur)
      invariant changed <==> written > 0
      invariant DigitCands(b0) ==> Fills(b0.values, cur.values) && Empties(cur.values) + written == Empties(b0.values)
    {
      var did := NakedCell(v, cs, p, recheck);
      ghost var next := Board(v[..], cs[..]);
      StepBookkeeping(b0, cur, next, p, did);
      cur := next;
      if did {
        written := written + 1;
      }
      changed := changed || did;
    }
    if DigitCands(b0) {
      FillsEmpties(b0.values, v[..]);
    }
  }
}
