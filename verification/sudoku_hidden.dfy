/*
 * assignHiddenSingles: for each digit, and each row, column and box in turn,
 * collect the cells of the unit that are empty and list the digit; when
 * there is exactly one, write the digit there and clear its list.
 *
 * The 27 units are numbered in the order the source visits them: rows 0..8,
 * then columns 9..17, then boxes 18..26 (box row major).  Inside a unit the
 * cells are numbered 0..8 in the source's scanning order, so a position
 * list of cell numbers plays the part of the source's list of columns, rows
 * or (row, column) pairs.
 */
module SudokuHidden {
  import opened SudokuGrid
  import opened SudokuPasses

  /** Cell `k` of unit `u`, as a flat index. */
  function UnitCell(u: int, k: int): (p: int)
    requires 0 <= u < 27 && 0 <= k < 9
    ensures 0 <= p < 81
    ensures u < 9 ==> p / 9 == u && p % 9 == k
    ensures 9 <= u < 18 ==> p / 9 == k && p % 9 == u - 9
    ensures 18 <= u ==> p / 9 == 3 * ((u - 18) / 3) + k / 3 && p % 9 == 3 * ((u - 18) % 3) + k % 3
  {
    if u < 9 then 9 * u + k
    else if u < 18 then 9 * k + (u - 9)
    else 9 * (3 * ((u - 18) / 3) + k / 3) + 3 * ((u - 18) % 3) + k % 3
  }

  /** Different cell numbers of a unit are different cells. */
  lemma UnitCellInjective(u: int, k1: int, k2: int)
    requires 0 <= u < 27 && 0 <= k1 < 9 && 0 <= k2 < 9
    ensures UnitCell(u, k1) == UnitCell(u, k2) <==> k1 == k2
  {
    if UnitCell(u, k1) == UnitCell(u, k2) && u >= 18 {
      assert k1 / 3 == k2 / 3 && k1 % 3 == k2 % 3;
    }
  }

  /** Cell `p` is empty and lists `n`. */
  predicate Lists(b: Board, p: int, n: int)
    requires Sized(b) && 0 <= p < 81
  {
    b.values[p] == 0 && n in b.cands[p]
  }

  /** The `positions` list of a unit, over its first `j` cells. */
  function PositionsUpTo(b: Board, u: int, n: int, j: int): (ks: seq<int>)
    requires Sized(b) && 0 <= u < 27 && 0 <= j <= 9
    ensures forall k {:trigger k in ks} :: k in ks <==> 0 <= k < j && Lists(b, UnitCell(u, k), n)
    ensures forall i :: 0 <= i < |ks| ==> 0 <= ks[i] < j
  {
    if j == 0 then []
    else PositionsUpTo(b, u, n, j - 1) + (if Lists(b, UnitCell(u, j - 1), n) then [j - 1] else [])
  }

  function Positions(b: Board, u: int, n: int): (ks: seq<int>)
    requires Sized(b) && 0 <= u < 27
    ensures forall k {:trigger k in ks} :: k in ks <==> 0 <= k < 9 && Lists(b, UnitCell(u, k), n)
    ensures forall i :: 0 <= i < |ks| ==> 0 <= ks[i] < 9
  {
    PositionsUpTo(b, u, n, 9)
  }

  /** One unit for one digit. */
  function HiddenStep(b: Board, u: int, n: int, recheck: bool): (b': Board)
    requires Sized(b) && 0 <= u < 27
    ensures Sized(b')
  {
    var ks := Positions(b, u, n);
    if |ks| == 1 then
      var p := UnitCell(u, ks[0]);
      if !recheck || Safe(b.values, p / 9, p % 9, n) then Board(b.values[p := n], b.cands[p := []]) else b
    else b
  }

  /** assignHiddenSingles from digit `n`, unit `u` on. */
  function HiddenRun(b: Board, n: int, u: int, recheck: bool): (b': Board)
    requires Sized(b) && 1 <= n <= 10 && 0 <= u <= 27
    ensures Sized(b')
    decreases 10 - n, 27 - u
  {
    if n == 10 then b
    else if u == 27 then HiddenRun(b, n + 1, 0, recheck)
    else HiddenRun(HiddenStep(b, u, n, recheck), n, u + 1, recheck)
  }

  function HiddenPass(b: Board, recheck: bool): (b': Board)
    requires Sized(b)
    ensures Sized(b')
  {
    HiddenRun(b, 1, 0, recheck)
  }

  /**
   * A hidden single: a step writes digit `n` into a cell only when that cell
   * is the one and only cell of unit `u` that is empty and lists `n`; it
   * clears the cell's list and touches nothing else.
   */
  lemma HiddenStepSole(b: Board, u: int, n: int, recheck: bool)
    requires Sized(b) && 0 <= u < 27
    ensures FilledFromCands(b, HiddenStep(b, u, n, recheck))
    ensures forall q :: 0 <= q < 81 && HiddenStep(b, u, n, recheck).values[q] != b.values[q] ==>
      HiddenStep(b, u, n, recheck).values[q] == n &&
      exists k :: 0 <= k < 9 && q == UnitCell(u, k) &&
        forall k2 :: 0 <= k2 < 9 ==> (Lists(b, UnitCell(u, k2), n) <==> k2 == k)
  {
    var ks := Positions(b, u, n);
    if |ks| == 1 {
      assert ks[0] in ks;
      forall k2 | 0 <= k2 < 9
        ensures Lists(b, UnitCell(u, k2), n) <==> k2 == ks[0]
      {
        if Lists(b, UnitCell(u, k2), n) {
          assert k2 in ks;
        }
      }
    }
  }

  /**
   * The whole pass only fills empty cells from their own lists, and with
   * `recheck` it keeps a Consistent grid Consistent.
   */
  lemma {:induction false} HiddenRunSpec(b: Board, n: int, u: int, recheck: bool)
    requires Sized(b) && 1 <= n <= 10 && 0 <= u <= 27
    ensures FilledFromCands(b, HiddenRun(b, n, u, recheck))
    ensures recheck && Consistent(b.values) ==> Consistent(HiddenRun(b, n, u, recheck).values)
    decreases 10 - n, 27 - u
  {
    if n == 10 {
    } else if u == 27 {
      HiddenRunSpec(b, n + 1, 0, recheck);
    } else {
      var b1 := HiddenStep(b, u, n, recheck);
      HiddenStepSole(b, u, n, recheck);
      HiddenRunSpec(b1, n, u + 1, recheck);
      FilledFromCandsTrans(b, b1, HiddenRun(b1, n, u + 1, recheck));
      if recheck && Consistent(b.values) && b1 != b {
        var ks := Positions(b, u, n);
        PlaceSafe(b.values, UnitCell(u, ks[0]), n);
      }
    }
  }

  /** A board whose lists are all empty is left alone by the pass. */
  lemma NoListsNoChange(b: Board, n: int, u: int, recheck: bool)
    requires Sized(b) && 1 <= n <= 10 && 0 <= u <= 27
    requires forall p :: 0 <= p < 81 ==> b.cands[p] == []
    ensures HiddenRun(b, n, u, recheck).values == b.values
  {
    HiddenRunSpec(b, n, u, recheck);
  }

  /** Digits that no cell lists are passed over without effect. */
  lemma {:induction false} UnlistedDigitsIdle(b: Board, n: int, u: int, m: int, recheck: bool)
    requires Sized(b) && 1 <= n < m <= 10 && 0 <= u <= 27
    requires forall p, d :: 0 <= p < 81 && n <= d < m ==> d !in b.cands[p]
    ensures HiddenRun(b, n, u, recheck) == HiddenRun(b, m, 0, recheck)
    decreases 10 - n, 27 - u
  {
    if u == 27 {
      if n + 1 < m {
        UnlistedDigitsIdle(b, n + 1, 0, m, recheck);
      }
    } else {
      NoPositions(b, u, n, 9);
      assert HiddenStep(b, u, n, recheck) == b;
      UnlistedDigitsIdle(b, n, u + 1, m, recheck);
    }
  }

  lemma {:induction false} NoPositions(b: Board, u: int, n: int, j: int)
    requires Sized(b) && 0 <= u < 27 && 0 <= j <= 9
    requires forall p :: 0 <= p < 81 ==> n !in b.cands[p]
    ensures PositionsUpTo(b, u, n, j) == []
  {
    if j > 0 {
      NoPositions(b, u, n, j - 1);
    }
  }

  /** Row 0 of the counterexample grid: empty at columns 0 and 3. */
  const HiddenRow0: seq<int> := [0, 1, 2, 0, 3, 4, 6, 7, 8]

  /** A typed grid: row 0 as above, a 9 at (4, 0), every other cell empty. */
  function HiddenWitness(): (v: seq<int>)
    ensures |v| == 81
    ensures forall r, c | InRange(r, c) :: At(v, r, c) == if r == 0 then HiddenRow0[c] else if r == 4 && c == 0 then 9 else 0
  {
    seq(81, p requires 0 <= p < 81 => if p < 9 then HiddenRow0[p] else if p == 36 then 9 else 0)
  }

  /** No digit repeats in a unit of the counterexample grid. */
  lemma HiddenWitnessConsistent()
    ensures Consistent(HiddenWitness())
  {
    var v := HiddenWitness();
    forall r1, c1, r2, c2 | 0 <= r1 < 9 && 0 <= c1 < 9 && 0 <= r2 < 9 && 0 <= c2 < 9 &&
        (r1 != r2 || c1 != c2) && Peer(r1, c1, r2, c2) && At(v, r1, c1) != 0
      ensures At(v, r1, c1) != At(v, r2, c2)
    {
      if At(v, r2, c2) != 0 && r1 == 0 && r2 == 0 {
        RowZeroDistinct(c1, c2);
      }
    }
  }

  lemma RowZeroDistinct(c1: int, c2: int)
    requires 0 <= c1 < 9 && 0 <= c2 < 9 && c1 != c2 && HiddenRow0[c1] != 0
    ensures HiddenRow0[c1] != HiddenRow0[c2]
  {
  }

  /** Row 0 holds every digit but 5 and 9, and column 0 holds the 9: only 5 is Safe at (0, 0). */
  lemma HiddenWitnessUnsafe(n: int)
    requires 1 <= n <= 9 && n != 5
    ensures !Safe(HiddenWitness(), 0, 0, n)
    ensures n != 9 ==> !Safe(HiddenWitness(), 0, 3, n)
  {
    var v := HiddenWitness();
    if n == 9 {
      assert Peer(0, 0, 4, 0) && At(v, 4, 0) == 9;
    } else {
      var c := if n <= 2 then n else if n <= 4 then n + 1 else n;
      assert Peer(0, 0, 0, c) && Peer(0, 3, 0, c) && At(v, 0, c) == n;
    }
  }

  /** No 5 anywhere, and the only 9 is out of reach of (0, 3). */
  lemma HiddenWitnessSafe()
    ensures Safe(HiddenWitness(), 0, 0, 5) && Safe(HiddenWitness(), 0, 3, 5) && Safe(HiddenWitness(), 0, 3, 9)
  {
    var v := HiddenWitness();
    forall r, c | InRange(r, c)
      ensures At(v, r, c) != 5 && (Peer(0, 3, r, c) ==> At(v, r, c) != 9)
    {
      if r == 0 {
        assert HiddenRow0[c] in HiddenRow0;
      }
    }
  }

  /** A strictly increasing list whose members are x < y is [x, y]. */
  lemma PairList(l: seq<int>, x: int, y: int)
    requires StrictlyIncreasing(l) && x < y && forall n :: n in l <==> n == x || n == y
    ensures l == [x, y]
  {
    assert x in l && y in l;
    assert l[0] in l && l[1] in l && l[0] < l[1];
    assert l[0] == x && l[1] == y;
    assert l[|l| - 1] in l;
  }

  /** updateCandidates lists only 5 at (0, 0) of the counterexample grid. */
  lemma HiddenWitnessSingle()
    ensures Fresh(HiddenWitness())[0] == [5]
  {
    var v := HiddenWitness();
    FreshSpec(v);
    HiddenWitnessSafe();
    assert v[0] == At(v, 0, 0) == 0;
    forall n
      ensures n in Fresh(v)[0] <==> n == 5
    {
      if 1 <= n <= 9 && n != 5 {
        HiddenWitnessUnsafe(n);
      }
    }
    SingletonList(Fresh(v)[0], 5);
  }

  /** updateCandidates lists 5 and 9 at (0, 3) of the counterexample grid. */
  lemma HiddenWitnessPair()
    ensures Fresh(HiddenWitness())[3] == [5, 9]
  {
    var v := HiddenWitness();
    FreshSpec(v);
    HiddenWitnessSafe();
    assert v[3] == At(v, 0, 3) == 0;
    forall n
      ensures n in Fresh(v)[3] <==> n == 5 || n == 9
    {
      if 1 <= n <= 8 && n != 5 {
        HiddenWitnessUnsafe(n);
      }
    }
    PairList(Fresh(v)[3], 5, 9);
  }

  /**
   * After updateCandidates and the naked pass, row 0 of the counterexample
   * grid has gained only the 5 at (0, 0), and (0, 3) keeps its list.
   */
  lemma NakedOnHiddenWitness()
    ensures NakedPass(Board(HiddenWitness(), Fresh(HiddenWitness())), false).values[..9] == HiddenRow0[0 := 5]
    ensures NakedPass(Board(HiddenWitness(), Fresh(HiddenWitness())), false).cands[3] == [5, 9]
  {
    var v := HiddenWitness();
    HiddenWitnessSingle();
    HiddenWitnessPair();
    HiddenWitnessRow();
    RowZeroShape();
    forall k | 0 <= k < 9
      ensures v[k] == HiddenRow0[k]
    {
      assert v[k] == v[..9][k];
    }
    NakedOnRowZero(v, Fresh(v));
  }

  /** Row 0 of the counterexample grid. */
  lemma HiddenWitnessRow()
    ensures HiddenWitness()[..9] == HiddenRow0
  {
    var v := HiddenWitness();
    forall k | 0 <= k < 9
      ensures v[k] == HiddenRow0[k]
    {
      assert v[k] == At(v, 0, k);
    }
  }

  /** Row 0 is empty exactly at columns 0 and 3. */
  lemma RowZeroShape()
    ensures HiddenRow0[0] == 0 && HiddenRow0[3] == 0
    ensures forall k | 0 <= k < 9 && k != 0 && k != 3 :: HiddenRow0[k] != 0
  {
  }

  /**
   * The naked pass on a grid whose row 0 is filled except at (0, 0), which
   * lists only 5, and at (0, 3), which lists 5 and 9: row 0 gains only the 5.
   */
  lemma NakedOnRowZero(v: seq<int>, cs: seq<seq<int>>)
    requires |v| == 81 && |cs| == 81 && v[0] == 0 && v[3] == 0
    requires forall k | 0 <= k < 9 && k != 0 && k != 3 :: v[k] != 0
    requires cs[0] == [5] && cs[3] == [5, 9]
    ensures NakedPass(Board(v, cs), false).values[..9] == v[..9][0 := 5]
    ensures NakedPass(Board(v, cs), false).cands[3] == [5, 9]
  {
    var b := Board(v, cs);
    var after := NakedPass(b, false);
    forall k | 0 <= k < 9
      ensures after.values[k] == v[..9][0 := 5][k]
    {
      NakedAt(b, k);
    }
    NakedKeepsList(b, after);
  }

  /** The as-written naked pass at one cell. */
  lemma NakedAt(b: Board, q: int)
    requires Sized(b) && 0 <= q < 81
    ensures NakedPass(b, false).values[q] == if b.values[q] == 0 && |b.cands[q]| == 1 then b.cands[q][0] else b.values[q]
  {
    NakedAsWrittenPointwise(b, 0);
  }

  /** A cell the pass leaves empty keeps its list. */
  lemma NakedKeepsList(b: Board, after: Board)
    requires Sized(b) && after == NakedPass(b, false) && after.values[3] == 0 && 0 !in b.cands[3]
    ensures after.cands[3] == b.cands[3]
  {
    NakedRunSpec(b, 0, false);
  }

  /**
   * The state the naked pass leaves in the finding: 5 at (0, 0), the rest
   * of row 0 filled except (0, 3), and (0, 3) still listing 5 together
   * with digits above 4 only.
   */
  predicate StaleRow0(b: Board) {
    Sized(b) && b.values[0] == 5 && b.values[3] == 0 && (forall k :: 1 <= k < 9 && k != 3 ==> b.values[k] != 0) &&
    5 in b.cands[3] && (forall d :: d in b.cands[3] ==> d >= 5)
  }

  /** A board with that row 0 and that list at (0, 3) is such a board. */
  lemma RowZeroIsStale(b: Board)
    requires Sized(b) && b.values[..9] == HiddenRow0[0 := 5] && b.cands[3] == [5, 9]
    ensures StaleRow0(b)
  {
    RowZeroShape();
    assert b.values[0] == b.values[..9][0] && b.values[3] == b.values[..9][3];
    forall k | 1 <= k < 9 && k != 3
      ensures b.values[k] != 0
    {
      assert b.values[k] == b.values[..9][k];
    }
  }

  /** A step for a digit below 5 never touches row 0 of such a board. */
  lemma StaleStep(b: Board, u: int, n: int)
    requires StaleRow0(b) && 0 <= u < 27 && 1 <= n < 5
    ensures StaleRow0(HiddenStep(b, u, n, false))
  {
    var ks := Positions(b, u, n);
    if |ks| == 1 {
      assert ks[0] in ks;
      var p := UnitCell(u, ks[0]);
      assert Lists(b, p, n);
      assert p >= 9;
    }
  }

  /**
   * On such a board the pass, run from any unit of a digit below 5, or
   * from the first unit of 5, ends with 5 at both (0, 0) and (0, 3).
   */
  lemma {:induction false} StaleRun(b: Board, n: int, u: int)
    requires StaleRow0(b) && ((1 <= n < 5 && 0 <= u <= 27) || (n == 5 && u == 0))
    ensures HiddenRun(b, n, u, false).values[0] == 5 && HiddenRun(b, n, u, false).values[3] == 5
    decreases 10 - n, 27 - u
  {
    if n < 5 && u == 27 {
      StaleRun(b, n + 1, 0);
    } else if n < 5 {
      StaleStep(b, u, n);
      StaleRun(HiddenStep(b, u, n, false), n, u + 1);
    } else {
      var ks := Positions(b, 0, 5);
      forall k
        ensures k in ks <==> k == 3
      {
        if 0 <= k < 9 {
          assert UnitCell(0, k) == k;
        }
      }
      PositionsIncreasing(b, 0, 5, 9);
      SingletonList(ks, 3);
      var b1 := HiddenStep(b, 0, 5, false);
      assert b1.values == b.values[3 := 5];
      HiddenRunSpec(b1, 5, 1, false);
    }
  }

  /**
   * As written, solve's hidden pass works from the lists updateCandidates
   * made before the naked pass ran.  On the counterexample grid the naked
   * pass writes 5 at (0, 0), where it is Safe; (0, 3) keeps its stale list
   * [5, 9], so the row 0 unit for digit 5 finds it as the only empty cell
   * listing 5 and writes a second 5 into row 0.
   */
  lemma HiddenAsWrittenBreaksConsistency()
    ensures Consistent(HiddenWitness())
    ensures Fresh(HiddenWitness())[0] == [5] && Fresh(HiddenWitness())[3] == [5, 9]
    ensures Safe(HiddenWitness(), 0, 0, 5)
    ensures NakedPass(Board(HiddenWitness(), Fresh(HiddenWitness())), false).values[..9] == HiddenRow0[0 := 5]
    ensures !Consistent(HiddenPass(NakedPass(Board(HiddenWitness(), Fresh(HiddenWitness())), false), false).values)
  {
    HiddenWitnessConsistent();
    HiddenWitnessSingle();
    HiddenWitnessPair();
    HiddenWitnessSafe();
    NakedOnHiddenWitness();
    var b1 := NakedPass(Board(HiddenWitness(), Fresh(HiddenWitness())), false);
    RowZeroIsStale(b1);
    StaleRun(b1, 1, 0);
    var w := HiddenPass(b1, false).values;
    assert At(w, 0, 0) == 5 && At(w, 0, 3) == 5 && Peer(0, 0, 0, 3);
  }

  /** Positions are listed in increasing cell order. */
  lemma {:induction false} PositionsIncreasing(b: Board, u: int, n: int, j: int)
    requires Sized(b) && 0 <= u < 27 && 0 <= j <= 9
    ensures forall i1, i2 :: 0 <= i1 < i2 < |PositionsUpTo(b, u, n, j)| ==>
      PositionsUpTo(b, u, n, j)[i1] < PositionsUpTo(b, u, n, j)[i2]
  {
    if j > 0 {
      PositionsIncreasing(b, u, n, j - 1);
    }
  }

  // ---------------------------------------------------------------------
  // The array methods

  /** The `positions` list of unit `u` for digit `num`. */
  method UnitPositions(v: array<int>, cs: array<seq<int>>, u: int, num: int) returns (ks: seq<int>)
    requires v.Length == 81 && cs.Length == 81 && 0 <= u < 27
    ensures ks == Positions(Board(v[..], cs[..]), u, num)
  {
    ks := [];
    for k := 0 to 9
      invariant ks == PositionsUpTo(Board(v[..], cs[..]), u, num, k)
    {
      var p := UnitCell(u, k);
      if v[p] == 0 && num in cs[p] {
        ks := ks + [k];
      }
    }
  }

  /** One unit for one digit; `did` tells whether it wrote, and at `p`. */
  method HiddenInUnit(v: array<int>, cs: array<seq<int>>, u: int, num: int, recheck: bool)
    returns (did: bool, ghost p: int)
    requires v.Length == 81 && cs.Length == 81 && 0 <= u < 27
    modifies v, cs
    ensures Board(v[..], cs[..]) == HiddenStep(old(Board(v[..], cs[..])), u, num, recheck)
    ensures 0 <= p < 81
    ensures !did ==> v[..] == old(v[..]) && cs[..] == old(cs[..])
    ensures did ==> (old(v[p]) == 0 && num in old(cs[p]) && v[p] == num &&
                     v[..] == old(v[..])[p := num] && cs[..] == old(cs[..])[p := []])
  {
    ghost var b := Board(v[..], cs[..]);
    var ks := UnitPositions(v, cs, u, num);
    did := false;
    p := 0;
    if |ks| == 1 {
      var q := UnitCell(u, ks[0]);
      assert ks[0] in ks;
      p := q;
      var ok := true;
      if recheck {
        ok := IsValid(v, q / 9, q % 9, num);
      }
      if ok {
        v[q] := num;
        cs[q] := [];
        did := true;
      }
    }
  }

  /**
   * assignHiddenSingles.  `changed` reports whether a value was written.
   * The inner loop visits the 27 units in the source's order (rows,
   * columns, boxes).
   */
  method AssignHiddenSingles(v: array<int>, cs: array<seq<int>>, recheck: bool) returns (changed: bool)
    requires v.Length == 81 && cs.Length == 81
    modifies v, cs
    ensures Board(v[..], cs[..]) == HiddenPass(old(Board(v[..], cs[..])), recheck)
    ensures DigitCands(old(Board(v[..], cs[..]))) ==> (changed <==> v[..] != old(v[..]))
  {
    ghost var b0 := Board(v[..], cs[..]);
    ghost var cur := b0;
    ghost var written := 0;
    changed := false;
    for num := 1 to 10
      invariant cur == Board(v[..], cs[..])
      invariant HiddenRun(cur, num, 0, recheck) == HiddenPass(b0, recheck)
      invariant FilledFromCands(b0, cur)
      invariant changed <==> written > 0
      invariant DigitCands(b0) ==> Fills(b0.values, cur.values) && Empties(cur.values) + written == Empties(b0.values)
    {
      for u := 0 to 27
        invariant cur == Board(v[..], cs[..])
        invariant HiddenRun(cur, num, u, recheck) == HiddenPass(b0, recheck)
        invariant FilledFromCands(b0, cur)
        invariant changed <==> written > 0
        invariant DigitCands(b0) ==> Fills(b0.values, cur.values) && Empties(cur.values) + written == Empties(b0.values)
      {
        var did;
        ghost var p;
        did, p := HiddenInUnit(v, cs, u, num, recheck);
        ghost var next := Board(v[..], cs[..]);
        StepBookkeeping(b0, cur, next, p, did);
        cur := next;
        if did {
          written := written + 1;
        }
        changed := changed || did;
      }
    }
    if DigitCands(b0) {
      FillsEmpties(b0.values, v[..]);
    }
  }
}
