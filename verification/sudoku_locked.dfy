/*
 * lockedCandidates: for each digit, first every box (when the cells of the
 * box listing the digit share one row, drop the digit from the rest of that
 * row outside the box; when they share one column, likewise for the column),
 * then every row and every column (when the cells listing the digit all lie
 * in one band of three, drop the digit from three cells chosen as the
 * source writes it, see `RowBasedStep`).  Values are never written; lists
 * only lose entries.
 *
 * Boxes are visited as units 0..8, rows as 9..17 and columns as 18..26 of a
 * digit's round, in the source's order.
 */
module SudokuLocked {
  import opened SudokuGrid
  import opened SudokuPasses
  import opened SudokuHidden

  // ---------------------------------------------------------------------
  // Sublists and the total size of the lists

  /** `s` is `l` with some entries left out (a subsequence). */
  predicate Sublist(s: seq<int>, l: seq<int>)
    decreases |l|
  {
    if |s| == 0 then true
    else if |l| == 0 then false
    else if s[0] == l[0] then Sublist(s[1..], l[1..])
    else Sublist(s, l[1..])
  }

  lemma {:induction false} SublistRefl(l: seq<int>)
    ensures Sublist(l, l)
    decreases |l|
  {
    if |l| > 0 {
      SublistRefl(l[1..]);
    }
  }

  lemma {:induction false} SublistTail(s: seq<int>, l: seq<int>)
    requires |s| > 0 && Sublist(s, l)
    ensures Sublist(s[1..], l)
    decreases |l|, 1
  {
    if s[0] == l[0] {
      DropHeadSublist(s[1..], l);
    } else {
      SublistTail(s, l[1..]);
      DropHeadSublist(s[1..], l);
    }
  }

  /** A sublist of the tail is a sublist of the whole list. */
  lemma {:induction false} DropHeadSublist(s: seq<int>, l: seq<int>)
    requires |l| > 0 && Sublist(s, l[1..])
    ensures Sublist(s, l)
    decreases |l|, 0
  {
    if |s| > 0 && s[0] == l[0] {
      SublistTail(s, l[1..]);
    }
  }

  lemma {:induction false} SublistTrans(a: seq<int>, b: seq<int>, c: seq<int>)
    requires Sublist(a, b) && Sublist(b, c)
    ensures Sublist(a, c)
    decreases |c|
  {
    if |a| > 0 && |c| > 0 {
      if b[0] == c[0] {
        if a[0] == b[0] {
          SublistTrans(a[1..], b[1..], c[1..]);
        } else {
          SublistTrans(a, b[1..], c[1..]);
        }
      } else {
        SublistTrans(a, b, c[1..]);
        if a[0] == c[0] {
          SublistTail(a, c[1..]);
        }
      }
    }
  }

  /** A sublist is no longer than the list, and only as long when it is the list. */
  lemma {:induction false} SublistLength(s: seq<int>, l: seq<int>)
    requires Sublist(s, l)
    ensures |s| <= |l|
    ensures |s| == |l| ==> s == l
    decreases |l|
  {
    if |s| > 0 {
      if s[0] == l[0] {
        SublistLength(s[1..], l[1..]);
        if |s| == |l| {
          assert s == [s[0]] + s[1..] && l == [l[0]] + l[1..];
        }
      } else {
        SublistLength(s, l[1..]);
      }
    }
  }

  /** `filter(x => x !== n)` keeps the order of what it keeps. */
  lemma {:induction false} RemoveSublist(l: seq<int>, n: int)
    ensures Sublist(Remove(l, n), l)
    decreases |l|
  {
    if |l| > 0 {
      RemoveSublist(l[1..], n);
      if l[0] == n {
        assert Remove(l, n) == Remove(l[1..], n);
        DropHeadSublist(Remove(l[1..], n), l);
      } else {
        assert Remove(l, n) == [l[0]] + Remove(l[1..], n);
        assert Remove(l, n)[1..] == Remove(l[1..], n);
      }
    }
  }

  /** The total number of entries over all lists. */
  function CandTotal(cs: seq<seq<int>>): (t: nat)
    ensures |cs| > 0 ==> t >= |cs[0]|
  {
    if |cs| == 0 then 0 else |cs[0]| + CandTotal(cs[1..])
  }

  lemma {:induction false} CandTotalUpdate(cs: seq<seq<int>>, p: int, l: seq<int>)
    requires 0 <= p < |cs|
    ensures CandTotal(cs[p := l]) == CandTotal(cs) - |cs[p]| + |l|
  {
    if p == 0 {
      assert cs[p := l][1..] == cs[1..];
    } else {
      assert cs[p := l][1..] == cs[1..][p - 1 := l];
      CandTotalUpdate(cs[1..], p - 1, l);
    }
  }

  /** `b` is `a` with the same values and each list a sublist of the old one. */
  predicate Pruned(a: Board, b: Board)
    requires Sized(a) && Sized(b)
  {
    a.values == b.values && forall p :: 0 <= p < 81 ==> Sublist(b.cands[p], a.cands[p])
  }

  lemma PrunedTrans(a: Board, b: Board, c: Board)
    requires Sized(a) && Sized(b) && Sized(c) && Pruned(a, b) && Pruned(b, c)
    ensures Pruned(a, c)
  {
    forall p | 0 <= p < 81
      ensures Sublist(c.cands[p], a.cands[p])
    {
      SublistTrans(c.cands[p], b.cands[p], a.cands[p]);
    }
  }

  lemma PrunedRefl(a: Board)
    requires Sized(a)
    ensures Pruned(a, a)
  {
    forall p | 0 <= p < 81
      ensures Sublist(a.cands[p], a.cands[p])
    {
      SublistRefl(a.cands[p]);
    }
  }

  /** Pruning shrinks the total exactly when it changes some list. */
  lemma {:induction false} SublistsTotal(cs: seq<seq<int>>, ds: seq<seq<int>>)
    requires |cs| == |ds| && forall p :: 0 <= p < |ds| ==> Sublist(ds[p], cs[p])
    ensures CandTotal(ds) <= CandTotal(cs)
    ensures ds != cs <==> CandTotal(ds) < CandTotal(cs)
  {
    if |cs| > 0 {
      SublistLength(ds[0], cs[0]);
      SublistsTotal(cs[1..], ds[1..]);
      if ds != cs && ds[1..] == cs[1..] {
        assert ds[0] != cs[0];
      }
      if ds == cs {
        assert ds[1..] == cs[1..];
      }
    }
  }

  /** Two prunings in a row: a list changed overall iff one of them changed it. */
  lemma PrunedChain(a: Board, b: Board, c: Board)
    requires Sized(a) && Sized(b) && Sized(c) && Pruned(a, b) && Pruned(b, c)
    ensures Pruned(a, c)
    ensures c.cands != a.cands <==> b.cands != a.cands || c.cands != b.cands
  {
    PrunedTrans(a, b, c);
    SublistsTotal(a.cands, b.cands);
    SublistsTotal(b.cands, c.cands);
    SublistsTotal(a.cands, c.cands);
  }

  // ---------------------------------------------------------------------
  // Eliminating a digit along part of a row or a column

  /** Drop `n` from the list of cell `p` when the cell is empty and lists it. */
  function ElimCell(b: Board, p: int, n: int): (b': Board)
    requires Sized(b) && 0 <= p < 81
    ensures Sized(b')
  {
    if Lists(b, p, n) then Board(b.values, b.cands[p := Remove(b.cands[p], n)]) else b
  }

  /** Cell `j` of row `idx` (or of column `idx` when `col`). */
  function LineCell(col: bool, idx: int, j: int): (p: int)
    requires 0 <= idx < 9 && 0 <= j < 9
    ensures 0 <= p < 81
    ensures col ==> p / 9 == j && p % 9 == idx
    ensures !col ==> p / 9 == idx && p % 9 == j
  {
    if col then 9 * j + idx else 9 * idx + j
  }

  /**
   * One of the source's elimination loops: cells `j` of the line for `j`
   * from `lo` below `hi`, except those with `skipLo <= j < skipHi`.
   */
  function ElimLine(b: Board, n: int, col: bool, idx: int, j: int, hi: int, skipLo: int, skipHi: int): (b': Board)
    requires Sized(b) && 0 <= idx < 9 && 0 <= j <= hi <= 9
    ensures Sized(b')
    decreases hi - j
  {
    if j == hi then b
    else
      var b1 := if j < skipLo || j >= skipHi then ElimCell(b, LineCell(col, idx, j), n) else b;
      ElimLine(b1, n, col, idx, j + 1, hi, skipLo, skipHi)
  }

  /** Cell `q` is one the elimination loop visits and does not skip. */
  predicate OnStretch(q: int, col: bool, idx: int, lo: int, hi: int, skipLo: int, skipHi: int)
    requires 0 <= q < 81
  {
    var line, pos := if col then q % 9 else q / 9, if col then q / 9 else q % 9;
    line == idx && lo <= pos < hi && (pos < skipLo || pos >= skipHi)
  }

  /** An elimination loop keeps the values and leaves each list a sublist of what it was. */
  lemma {:induction false} ElimLinePruned(b: Board, n: int, col: bool, idx: int, j: int, hi: int, skipLo: int, skipHi: int)
    requires Sized(b) && 0 <= idx < 9 && 0 <= j <= hi <= 9
    ensures Pruned(b, ElimLine(b, n, col, idx, j, hi, skipLo, skipHi))
    decreases hi - j
  {
    PrunedRefl(b);
    if j < hi {
      var p := LineCell(col, idx, j);
      var b1 := if j < skipLo || j >= skipHi then ElimCell(b, p, n) else b;
      ElimLinePruned(b1, n, col, idx, j + 1, hi, skipLo, skipHi);
      if b1 != b {
        RemoveSublist(b.cands[p], n);
        assert Pruned(b, b1);
      }
      PrunedTrans(b, b1, ElimLine(b1, n, col, idx, j + 1, hi, skipLo, skipHi));
    }
  }

  /**
   * A list an elimination loop changes belongs to an empty cell that the
   * loop visits and does not skip, that listed `n`, and that now has
   * exactly `n` filtered out.
   */
  lemma {:induction false} ElimLineSpec(b: Board, n: int, col: bool, idx: int, j: int, hi: int, skipLo: int, skipHi: int)
    requires Sized(b) && 0 <= idx < 9 && 0 <= j <= hi <= 9
    ensures forall q :: 0 <= q < 81 && ElimLine(b, n, col, idx, j, hi, skipLo, skipHi).cands[q] != b.cands[q] ==>
      Lists(b, q, n) && ElimLine(b, n, col, idx, j, hi, skipLo, skipHi).cands[q] == Remove(b.cands[q], n) &&
      OnStretch(q, col, idx, j, hi, skipLo, skipHi)
    decreases hi - j
  {
    if j < hi {
      var p := LineCell(col, idx, j);
      var b1 := if j < skipLo || j >= skipHi then ElimCell(b, p, n) else b;
      ElimLineSpec(b1, n, col, idx, j + 1, hi, skipLo, skipHi);
      var b2 := ElimLine(b1, n, col, idx, j + 1, hi, skipLo, skipHi);
      assert b1.values == b.values;
      if b1 != b {
        assert !OnStretch(p, col, idx, j + 1, hi, skipLo, skipHi);
        assert b2.cands[p] == b1.cands[p];
        assert forall q :: 0 <= q < 81 && q != p ==> b1.cands[q] == b.cands[q];
      }
    }
  }

  // ---------------------------------------------------------------------
  // One box, row or column for one digit

  /** All entries of `ks` have the same `k / 3`: `new Set(ks.map(k => Math.floor(k / 3))).size === 1`. */
  predicate SameThird(ks: seq<int>) {
    |ks| > 0 && forall i :: 0 <= i < |ks| ==> ks[i] / 3 == ks[0] / 3
  }

  /** All entries of `ks` have the same `k % 3`. */
  predicate SameResidue(ks: seq<int>) {
    |ks| > 0 && forall i :: 0 <= i < |ks| ==> ks[i] % 3 == ks[0] % 3
  }

  /**
   * Box `x`: when the box's cells listing `n` share a row, drop `n` from
   * that row outside the box; then, with the same positions, when they
   * share a column, drop it from that column outside the box.
   */
  function BoxStep(b: Board, x: int, n: int): (b': Board)
    requires Sized(b) && 0 <= x < 9
    ensures Sized(b')
  {
    var ks := Positions(b, 18 + x, n);
    if |ks| == 0 then b else BoxColumnPart(BoxRowPart(b, x, n, ks), x, n, ks)
  }

  /** The row half of `BoxStep`, for the box's positions `ks`. */
  function BoxRowPart(b: Board, x: int, n: int, ks: seq<int>): (b': Board)
    requires Sized(b) && 0 <= x < 9 && |ks| > 0 && 0 <= ks[0] < 9
    ensures Sized(b')
  {
    if SameThird(ks) then ElimLine(b, n, false, 3 * (x / 3) + ks[0] / 3, 0, 9, 3 * (x % 3), 3 * (x % 3) + 3) else b
  }

  /** The column half of `BoxStep`, for the same positions. */
  function BoxColumnPart(b: Board, x: int, n: int, ks: seq<int>): (b': Board)
    requires Sized(b) && 0 <= x < 9 && |ks| > 0 && 0 <= ks[0] < 9
    ensures Sized(b')
  {
    if SameResidue(ks) then ElimLine(b, n, true, 3 * (x % 3) + ks[0] % 3, 0, 9, 3 * (x / 3), 3 * (x / 3) + 3) else b
  }

  /**
   * Row `r`, as written: when the columns listing `n` fall in one band
   * `bc`, drop `n` from column `ks[0]` in rows `3 * bc .. 3 * bc + 2`
   * other than `r`.  The band number of the columns is used as a band of
   * rows.
   */
  function RowBasedStep(b: Board, r: int, n: int): (b': Board)
    requires Sized(b) && 0 <= r < 9
    ensures Sized(b')
  {
    var ks := Positions(b, r, n);
    if SameThird(ks) then ElimLine(b, n, true, ks[0], 3 * (ks[0] / 3), 3 * (ks[0] / 3) + 3, r, r + 1)
    else b
  }

  /** Column `c`, the mirror image of `RowBasedStep`. */
  function ColumnBasedStep(b: Board, c: int, n: int): (b': Board)
    requires Sized(b) && 0 <= c < 9
    ensures Sized(b')
  {
    var ks := Positions(b, 9 + c, n);
    if SameThird(ks) then ElimLine(b, n, false, ks[0], 3 * (ks[0] / 3), 3 * (ks[0] / 3) + 3, c, c + 1)
    else b
  }

  function LockedStep(b: Board, u: int, n: int): (b': Board)
    requires Sized(b) && 0 <= u < 27
    ensures Sized(b')
  {
    if u < 9 then BoxStep(b, u, n)
    else if u < 18 then RowBasedStep(b, u - 9, n)
    else ColumnBasedStep(b, u - 18, n)
  }

  /** Digit `n`'s round of lockedCandidates from unit `u` on. */
  function LockedUnits(b: Board, n: int, u: int): (b': Board)
    requires Sized(b) && 0 <= u <= 27
    ensures Sized(b')
    decreases 27 - u
  {
    if u == 27 then b else LockedUnits(LockedStep(b, u, n), n, u + 1)
  }

  /** lockedCandidates from digit `n` on. */
  function LockedDigits(b: Board, n: int): (b': Board)
    requires Sized(b) && 1 <= n <= 10
    ensures Sized(b')
    decreases 10 - n
  {
    if n == 10 then b else LockedDigits(LockedUnits(b, n, 0), n + 1)
  }

  function LockedPass(b: Board): (b': Board)
    requires Sized(b)
    ensures Sized(b')
  {
    LockedDigits(b, 1)
  }

  lemma LockedStepPruned(b: Board, u: int, n: int)
    requires Sized(b) && 0 <= u < 27
    ensures Pruned(b, LockedStep(b, u, n))
  {
    PrunedRefl(b);
    if u < 9 {
      var ks := Positions(b, 18 + u, n);
      if |ks| > 0 {
        var b1 := BoxRowPart(b, u, n, ks);
        BoxRowPartPruned(b, u, n, ks);
        BoxColumnPartPruned(b1, u, n, ks);
        PrunedTrans(b, b1, BoxColumnPart(b1, u, n, ks));
      }
    } else if u < 18 {
      var ks := Positions(b, u - 9, n);
      if SameThird(ks) {
        ElimLinePruned(b, n, true, ks[0], 3 * (ks[0] / 3), 3 * (ks[0] / 3) + 3, u - 9, u - 8);
      }
    } else {
      var ks := Positions(b, u - 9, n);
      if SameThird(ks) {
        ElimLinePruned(b, n, false, ks[0], 3 * (ks[0] / 3), 3 * (ks[0] / 3) + 3, u - 18, u - 17);
      }
    }
  }

  /** A box with listed positions runs the row half, then the column half. */
  lemma BoxStepParts(b: Board, x: int, n: int)
    requires Sized(b) && 0 <= x < 9 && |Positions(b, 18 + x, n)| > 0
    ensures var ks := Positions(b, 18 + x, n); BoxStep(b, x, n) == BoxColumnPart(BoxRowPart(b, x, n, ks), x, n, ks)
  {
  }

  lemma BoxRowPartCases(b: Board, x: int, n: int, ks: seq<int>)
    requires Sized(b) && 0 <= x < 9 && |ks| > 0 && 0 <= ks[0] < 9
    ensures SameThird(ks) ==> BoxRowPart(b, x, n, ks) == ElimLine(b, n, false, 3 * (x / 3) + ks[0] / 3, 0, 9, 3 * (x % 3), 3 * (x % 3) + 3)
    ensures !SameThird(ks) ==> BoxRowPart(b, x, n, ks) == b
  {
  }

  lemma BoxColumnPartCases(b: Board, x: int, n: int, ks: seq<int>)
    requires Sized(b) && 0 <= x < 9 && |ks| > 0 && 0 <= ks[0] < 9
    ensures SameResidue(ks) ==> BoxColumnPart(b, x, n, ks) == ElimLine(b, n, true, 3 * (x % 3) + ks[0] % 3, 0, 9, 3 * (x / 3), 3 * (x / 3) + 3)
    ensures !SameResidue(ks) ==> BoxColumnPart(b, x, n, ks) == b
  {
  }

  lemma BoxRowPartPruned(b: Board, x: int, n: int, ks: seq<int>)
    requires Sized(b) && 0 <= x < 9 && |ks| > 0 && 0 <= ks[0] < 9
    ensures Pruned(b, BoxRowPart(b, x, n, ks))
  {
    assert 0 <= x / 3 < 3 && 0 <= ks[0] / 3 < 3;
    if SameThird(ks) {
      var e := ElimLine(b, n, false, 3 * (x / 3) + ks[0] / 3, 0, 9, 3 * (x % 3), 3 * (x % 3) + 3);
      ElimLinePruned(b, n, false, 3 * (x / 3) + ks[0] / 3, 0, 9, 3 * (x % 3), 3 * (x % 3) + 3);
      assert Pruned(b, e);
      assert BoxRowPart(b, x, n, ks) == e;
      assert Pruned(b, BoxRowPart(b, x, n, ks));
    } else {
      PrunedRefl(b);
      assert BoxRowPart(b, x, n, ks) == b;
      assert Pruned(b, BoxRowPart(b, x, n, ks));
    }
  }

  lemma BoxColumnPartPruned(b: Board, x: int, n: int, ks: seq<int>)
    requires Sized(b) && 0 <= x < 9 && |ks| > 0 && 0 <= ks[0] < 9
    ensures Pruned(b, BoxColumnPart(b, x, n, ks))
  {
    if SameResidue(ks) {
      var e := ElimLine(b, n, true, 3 * (x % 3) + ks[0] % 3, 0, 9, 3 * (x / 3), 3 * (x / 3) + 3);
      ElimLinePruned(b, n, true, 3 * (x % 3) + ks[0] % 3, 0, 9, 3 * (x / 3), 3 * (x / 3) + 3);
      assert BoxColumnPart(b, x, n, ks) == e;
    } else {
      PrunedRefl(b);
    }
  }

  /**
   * lockedCandidates never writes a value, and every list afterwards is a
   * sublist of the list before.
   */
  lemma LockedDigitsUnfold(b: Board, n: int)
    requires Sized(b) && 1 <= n < 10
    ensures LockedDigits(b, n) == LockedDigits(LockedUnits(b, n, 0), n + 1)
  {
  }

  lemma {:induction false} LockedDigitsPruned(b: Board, n: int)
    requires Sized(b) && 1 <= n <= 10
    ensures Pruned(b, LockedDigits(b, n))
    decreases 10 - n
  {
    if n == 10 {
      PrunedRefl(b);
    } else {
      var b1 := LockedUnits(b, n, 0);
      LockedUnitsPruned(b, n, 0);
      LockedDigitsPruned(b1, n + 1);
      PrunedTrans(b, b1, LockedDigits(b1, n + 1));
    }
  }

  lemma {:induction false} LockedUnitsPruned(b: Board, n: int, u: int)
    requires Sized(b) && 0 <= u <= 27
    ensures Pruned(b, LockedUnits(b, n, u))
    decreases 27 - u
  {
    if u == 27 {
      PrunedRefl(b);
    } else {
      LockedStepPruned(b, u, n);
      LockedUnitsPruned(LockedStep(b, u, n), n, u + 1);
      PrunedTrans(b, LockedStep(b, u, n), LockedUnits(b, n, u));
    }
  }

  /** The box (0..8, box-row major) holding cell `p`. */
  function BoxOf(p: int): (x: int)
    requires 0 <= p < 81
    ensures 0 <= x < 9
  {
    3 * ((p / 9) / 3) + (p % 9) / 3
  }

  /** Every cell is one of the cells of its box unit. */
  lemma InBoxUnit(p: int)
    requires 0 <= p < 81
    ensures var k := 3 * ((p / 9) % 3) + (p % 9) % 3; 0 <= k < 9 && UnitCell(18 + BoxOf(p), k) == p
  {
    var r, c := p / 9, p % 9;
    var k := 3 * (r % 3) + c % 3;
    Thirds(r / 3, c / 3);
    Thirds(r % 3, c % 3);
    assert (18 + BoxOf(p) - 18) / 3 == r / 3 && (18 + BoxOf(p) - 18) % 3 == c / 3;
    assert k / 3 == r % 3 && k % 3 == c % 3;
  }

  lemma Thirds(a: int, e: int)
    requires 0 <= e < 3
    ensures (3 * a + e) / 3 == a && (3 * a + e) % 3 == e
  {
  }

  lemma BoxOfParts(q: int)
    requires 0 <= q < 81
    ensures BoxOf(q) / 3 == (q / 9) / 3 && BoxOf(q) % 3 == (q % 9) / 3
    ensures 3 * (BoxOf(q) / 3) <= q / 9 < 3 * (BoxOf(q) / 3) + 3
    ensures 3 * (BoxOf(q) % 3) <= q % 9 < 3 * (BoxOf(q) % 3) + 3
  {
    Thirds((q / 9) / 3, (q % 9) / 3);
  }

  /** When the box's positions share a row, every cell of the box listing `n` is in that row. */
  lemma BoxListersShareRow(b: Board, x: int, n: int)
    requires Sized(b) && 0 <= x < 9 && SameThird(Positions(b, 18 + x, n))
    ensures forall p :: 0 <= p < 81 && BoxOf(p) == x && Lists(b, p, n) ==>
      p / 9 == 3 * (x / 3) + Positions(b, 18 + x, n)[0] / 3
  {
    var ks := Positions(b, 18 + x, n);
    forall p | 0 <= p < 81 && BoxOf(p) == x && Lists(b, p, n)
      ensures p / 9 == 3 * (x / 3) + ks[0] / 3
    {
      InBoxUnit(p);
      var k := 3 * ((p / 9) % 3) + (p % 9) % 3;
      assert k in ks;
      var i :| 0 <= i < |ks| && ks[i] == k;
    }
  }

  /** When the box's positions share a column, every cell of the box listing `n` is in that column. */
  lemma BoxListersShareColumn(b: Board, x: int, n: int)
    requires Sized(b) && 0 <= x < 9 && SameResidue(Positions(b, 18 + x, n))
    ensures forall p :: 0 <= p < 81 && BoxOf(p) == x && Lists(b, p, n) ==>
      p % 9 == 3 * (x % 3) + Positions(b, 18 + x, n)[0] % 3
  {
    var ks := Positions(b, 18 + x, n);
    forall p | 0 <= p < 81 && BoxOf(p) == x && Lists(b, p, n)
      ensures p % 9 == 3 * (x % 3) + ks[0] % 3
    {
      InBoxUnit(p);
      var k := 3 * ((p / 9) % 3) + (p % 9) % 3;
      assert k in ks;
      var i :| 0 <= i < |ks| && ks[i] == k;
    }
  }

  /**
   * Cell `q` lies outside box `x`, and every cell of the box listing `n`
   * lies in `q`'s row, or every one lies in `q`'s column: the digit is
   * locked in the box to a line through `q`.
   */
  predicate LockedAgainst(b: Board, x: int, n: int, q: int)
    requires Sized(b) && 0 <= q < 81
  {
    BoxOf(q) != x &&
    ((forall p :: 0 <= p < 81 && BoxOf(p) == x && Lists(b, p, n) ==> p / 9 == q / 9) ||
     (forall p :: 0 <= p < 81 && BoxOf(p) == x && Lists(b, p, n) ==> p % 9 == q % 9))
  }

  /**
   * The box part is a box-line reduction: when it drops `n` from a cell,
   * that cell listed `n`, lost exactly `n`, and lies outside the box on the
   * line to which the box's cells listing `n` are locked.
   */
  lemma BoxStepLocked(b: Board, x: int, n: int)
    requires Sized(b) && 0 <= x < 9
    ensures forall q :: 0 <= q < 81 && BoxStep(b, x, n).cands[q] != b.cands[q] ==>
      Lists(b, q, n) && BoxStep(b, x, n).cands[q] == Remove(b.cands[q], n) && LockedAgainst(b, x, n, q)
  {
    forall q | 0 <= q < 81 && BoxStep(b, x, n).cands[q] != b.cands[q]
      ensures Lists(b, q, n) && BoxStep(b, x, n).cands[q] == Remove(b.cands[q], n) && LockedAgainst(b, x, n, q)
    {
      BoxStepLockedAt(b, x, n, q);
    }
  }

  lemma BoxStepLockedAt(b: Board, x: int, n: int, q: int)
    requires Sized(b) && 0 <= x < 9 && 0 <= q < 81 && BoxStep(b, x, n).cands[q] != b.cands[q]
    ensures Lists(b, q, n) && BoxStep(b, x, n).cands[q] == Remove(b.cands[q], n) && LockedAgainst(b, x, n, q)
  {
    var ks := Positions(b, 18 + x, n);
    var b1 := BoxRowPart(b, x, n, ks);
    var b2 := BoxColumnPart(b1, x, n, ks);
    assert BoxStep(b, x, n) == b2;
    BoxRowPartPruned(b, x, n, ks);
    if b1.cands[q] != b.cands[q] {
      RowPartLocks(b, x, n, q);
      ColumnPartKeeps(b1, x, n, ks, q);
    } else {
      ColumnPartLocks(b, b1, x, n, q);
    }
  }

  /** A cell outside the box's three columns, or outside its three rows, is outside the box. */
  lemma OutsideBox(q: int, x: int)
    requires 0 <= q < 81 && 0 <= x < 9
    requires q % 9 < 3 * (x % 3) || q % 9 >= 3 * (x % 3) + 3 || q / 9 < 3 * (x / 3) || q / 9 >= 3 * (x / 3) + 3
    ensures BoxOf(q) != x
  {
    BoxOfParts(q);
  }

  /** A list the row half changes lies in the shared row, outside the box. */
  lemma RowStretch(b: Board, x: int, n: int, ks: seq<int>, q: int)
    requires Sized(b) && 0 <= x < 9 && |ks| > 0 && 0 <= ks[0] < 9 && 0 <= q < 81
    requires BoxRowPart(b, x, n, ks).cands[q] != b.cands[q]
    ensures SameThird(ks) && q / 9 == 3 * (x / 3) + ks[0] / 3 && BoxOf(q) != x
    ensures Lists(b, q, n) && BoxRowPart(b, x, n, ks).cands[q] == Remove(b.cands[q], n)
  {
    BoxOffset(x);
    BoxOffset(ks[0]);
    var row := 3 * (x / 3) + ks[0] / 3;
    BoxRowPartCases(b, x, n, ks);
    assert SameThird(ks);
    ElimLineSpec(b, n, false, row, 0, 9, 3 * (x % 3), 3 * (x % 3) + 3);
    assert OnStretch(q, false, row, 0, 9, 3 * (x % 3), 3 * (x % 3) + 3);
    OutsideBox(q, x);
  }

  lemma RowPartLocks(b: Board, x: int, n: int, q: int)
    requires Sized(b) && 0 <= x < 9 && 0 <= q < 81
    requires var ks := Positions(b, 18 + x, n); |ks| > 0 && BoxRowPart(b, x, n, ks).cands[q] != b.cands[q]
    ensures var b1 := BoxRowPart(b, x, n, Positions(b, 18 + x, n));
      Lists(b, q, n) && b1.cands[q] == Remove(b.cands[q], n) && LockedAgainst(b, x, n, q)
  {
    var ks := Positions(b, 18 + x, n);
    RowStretch(b, x, n, ks, q);
    BoxListersShareRow(b, x, n);
  }

  lemma ColumnPartKeeps(b: Board, x: int, n: int, ks: seq<int>, q: int)
    requires Sized(b) && 0 <= x < 9 && |ks| > 0 && 0 <= ks[0] < 9 && 0 <= q < 81 && !Lists(b, q, n)
    ensures BoxColumnPart(b, x, n, ks).cands[q] == b.cands[q]
  {
    BoxColumnPartCases(b, x, n, ks);
    if SameResidue(ks) {
      ElimLineSpec(b, n, true, 3 * (x % 3) + ks[0] % 3, 0, 9, 3 * (x / 3), 3 * (x / 3) + 3);
    }
  }

  /** A list the column half changes lies in the shared column, outside the box. */
  lemma ColumnStretch(b: Board, x: int, n: int, ks: seq<int>, q: int)
    requires Sized(b) && 0 <= x < 9 && |ks| > 0 && 0 <= ks[0] < 9 && 0 <= q < 81
    requires BoxColumnPart(b, x, n, ks).cands[q] != b.cands[q]
    ensures SameResidue(ks) && q % 9 == 3 * (x % 3) + ks[0] % 3 && BoxOf(q) != x
    ensures Lists(b, q, n) && BoxColumnPart(b, x, n, ks).cands[q] == Remove(b.cands[q], n)
  {
    BoxOffset(x);
    BoxOffset(ks[0]);
    var col := 3 * (x % 3) + ks[0] % 3;
    BoxColumnPartCases(b, x, n, ks);
    assert SameResidue(ks);
    ElimLineSpec(b, n, true, col, 0, 9, 3 * (x / 3), 3 * (x / 3) + 3);
    assert OnStretch(q, true, col, 0, 9, 3 * (x / 3), 3 * (x / 3) + 3);
    OutsideBox(q, x);
  }

  lemma ColumnPartLocks(b: Board, b1: Board, x: int, n: int, q: int)
    requires Sized(b) && Sized(b1) && 0 <= x < 9 && 0 <= q < 81
    requires b1.values == b.values && b1.cands[q] == b.cands[q]
    requires var ks := Positions(b, 18 + x, n); |ks| > 0 && BoxColumnPart(b1, x, n, ks).cands[q] != b1.cands[q]
    ensures var b2 := BoxColumnPart(b1, x, n, Positions(b, 18 + x, n));
      Lists(b, q, n) && b2.cands[q] == Remove(b.cands[q], n) && LockedAgainst(b, x, n, q)
  {
    var ks := Positions(b, 18 + x, n);
    ColumnStretch(b1, x, n, ks, q);
    BoxListersShareColumn(b, x, n);
  }

  // ---------------------------------------------------------------------
  // The array methods

  /** One elimination loop; `did` tells whether a list changed. */
  method ElimLineLoop(v: array<int>, cs: array<seq<int>>, n: int, col: bool, idx: int, lo: int, hi: int, skipLo: int, skipHi: int)
    returns (did: bool)
    requires v.Length == 81 && cs.Length == 81 && 0 <= idx < 9 && 0 <= lo <= hi <= 9
    modifies cs
    ensures Board(v[..], cs[..]) == ElimLine(old(Board(v[..], cs[..])), n, col, idx, lo, hi, skipLo, skipHi)
    ensures did <==> cs[..] != old(cs[..])
  {
    ghost var b0 := Board(v[..], cs[..]);
    did := false;
    PrunedRefl(b0);
    for j := lo to hi
      invariant ElimLine(Board(v[..], cs[..]), n, col, idx, j, hi, skipLo, skipHi) == ElimLine(b0, n, col, idx, lo, hi, skipLo, skipHi)
      invariant Pruned(b0, Board(v[..], cs[..]))
      invariant did <==> CandTotal(cs[..]) < CandTotal(b0.cands)
    {
      ghost var cur := Board(v[..], cs[..]);
      var p := LineCell(col, idx, j);
      if (j < skipLo || j >= skipHi) && v[p] == 0 && n in cs[p] {
        RemoveSublist(cs[p], n);
        CandTotalUpdate(cs[..], p, Remove(cs[p], n));
        cs[p] := Remove(cs[p], n);
        did := true;
        PrunedRefl(cur);
        PrunedTrans(b0, cur, Board(v[..], cs[..]));
        SublistsTotal(b0.cands, cur.cands);
      }
    }
    SublistsTotal(b0.cands, cs[..]);
  }

  /** The row half of one box, for the box's positions `ks`. */
  method BoxRowLoop(v: array<int>, cs: array<seq<int>>, x: int, num: int, ks: seq<int>) returns (did: bool)
    requires v.Length == 81 && cs.Length == 81 && 0 <= x < 9 && |ks| > 0
    requires forall i :: 0 <= i < |ks| ==> 0 <= ks[i] < 9
    modifies cs
    ensures Board(v[..], cs[..]) == BoxRowPart(old(Board(v[..], cs[..])), x, num, ks)
    ensures did <==> cs[..] != old(cs[..])
  {
    ghost var b0 := Board(v[..], cs[..]);
    var oneRow := OneBand(ks);
    BoxRowPartCases(b0, x, num, ks);
    did := false;
    if oneRow {
      BoxOffset(x);
      BoxOffset(ks[0]);
      var row := 3 * (x / 3) + ks[0] / 3;
      did := ElimLineLoop(v, cs, num, false, row, 0, 9, 3 * (x % 3), 3 * (x % 3) + 3);
    }
  }

  /** The column half of one box. */
  method BoxColumnLoop(v: array<int>, cs: array<seq<int>>, x: int, num: int, ks: seq<int>) returns (did: bool)
    requires v.Length == 81 && cs.Length == 81 && 0 <= x < 9 && |ks| > 0
    requires forall i :: 0 <= i < |ks| ==> 0 <= ks[i] < 9
    modifies cs
    ensures Board(v[..], cs[..]) == BoxColumnPart(old(Board(v[..], cs[..])), x, num, ks)
    ensures did <==> cs[..] != old(cs[..])
  {
    ghost var b0 := Board(v[..], cs[..]);
    var oneColumn := OneResidue(ks);
    BoxColumnPartCases(b0, x, num, ks);
    did := false;
    if oneColumn {
      BoxOffset(x);
      BoxOffset(ks[0]);
      var col := 3 * (x % 3) + ks[0] % 3;
      did := ElimLineLoop(v, cs, num, true, col, 0, 9, 3 * (x / 3), 3 * (x / 3) + 3);
    }
  }

  /** One box of lockedCandidates for digit `num`. */
  method BoxInUnit(v: array<int>, cs: array<seq<int>>, x: int, num: int) returns (did: bool)
    requires v.Length == 81 && cs.Length == 81 && 0 <= x < 9
    modifies cs
    ensures Board(v[..], cs[..]) == BoxStep(old(Board(v[..], cs[..])), x, num)
    ensures did <==> cs[..] != old(cs[..])
  {
    ghost var b0 := Board(v[..], cs[..]);
    var ks := UnitPositions(v, cs, 18 + x, num);
    if |ks| == 0 {
      return false;
    }
    assert ks == Positions(b0, 18 + x, num);
    BoxStepParts(b0, x, num);
    var d1 := BoxRowLoop(v, cs, x, num, ks);
    ghost var b1 := Board(v[..], cs[..]);
    assert b1 == BoxRowPart(b0, x, num, ks);
    var d2 := BoxColumnLoop(v, cs, x, num, ks);
    ghost var b2 := Board(v[..], cs[..]);
    assert b2 == BoxColumnPart(b1, x, num, ks);
    BoxRowPartPruned(b0, x, num, ks);
    BoxColumnPartPruned(b1, x, num, ks);
    PrunedChain(b0, b1, b2);
    did := d1 || d2;
  }

  /** One row (`col` false) or column of lockedCandidates for digit `num`. */
  method LineInUnit(v: array<int>, cs: array<seq<int>>, line: int, col: bool, num: int) returns (did: bool)
    requires v.Length == 81 && cs.Length == 81 && 0 <= line < 9
    modifies cs
    ensures Board(v[..], cs[..]) ==
      (if col then ColumnBasedStep(old(Board(v[..], cs[..])), line, num) else RowBasedStep(old(Board(v[..], cs[..])), line, num))
    ensures did <==> cs[..] != old(cs[..])
  {
    var ks := UnitPositions(v, cs, if col then 9 + line else line, num);
    did := false;
    if |ks| > 0 {
      var oneBand := OneBand(ks);
      if oneBand {
        did := ElimLineLoop(v, cs, num, !col, ks[0], 3 * (ks[0] / 3), 3 * (ks[0] / 3) + 3, line, line + 1);
      }
    }
  }

  /**
   * `new Set(ks.map(k => Math.floor(k / 3))).size === 1` (the box's cells
   * share a row, or a line's cells share a band), for positions `ks` in 0..8.
   */
  method OneBand(ks: seq<int>) returns (one: bool)
    requires |ks| > 0
    ensures one <==> SameThird(ks)
  {
    var bands := set k | k in ks :: k / 3;
    SetOfThirds(ks);
    one := |bands| == 1;
  }

  /** `new Set(...).size === 1` on the columns of a box's cells, as `k % 3` of positions `ks`. */
  method OneResidue(ks: seq<int>) returns (one: bool)
    requires |ks| > 0
    ensures one <==> SameResidue(ks)
  {
    var residues := set k | k in ks :: k % 3;
    SetOfThirds(ks);
    one := |residues| == 1;
  }

  /** The source's `new Set(...).size === 1` tests, for a non-empty list. */
  lemma SetOfThirds(ks: seq<int>)
    requires |ks| > 0
    ensures |set k | k in ks :: k / 3| == 1 <==> SameThird(ks)
    ensures |set k | k in ks :: k % 3| == 1 <==> SameResidue(ks)
  {
    var thirds := set k | k in ks :: k / 3;
    var residues := set k | k in ks :: k % 3;
    assert ks[0] in ks;
    if SameThird(ks) {
      assert thirds == {ks[0] / 3};
    } else {
      var i :| 0 <= i < |ks| && ks[i] / 3 != ks[0] / 3;
      assert ks[i] in ks;
      assert {ks[0] / 3, ks[i] / 3} <= thirds;
      assert |{ks[0] / 3, ks[i] / 3}| == 2;
      SubsetCard({ks[0] / 3, ks[i] / 3}, thirds);
    }
    if SameResidue(ks) {
      assert residues == {ks[0] % 3};
    } else {
      var i :| 0 <= i < |ks| && ks[i] % 3 != ks[0] % 3;
      assert ks[i] in ks;
      assert {ks[0] % 3, ks[i] % 3} <= residues;
      assert |{ks[0] % 3, ks[i] % 3}| == 2;
      SubsetCard({ks[0] % 3, ks[i] % 3}, residues);
    }
  }

  lemma SubsetCard(a: set<int>, b: set<int>)
    requires a <= b
    ensures |a| <= |b|
  {
    assert b == a + (b - a);
  }

  /** One digit's round of lockedCandidates: every box, then every row, then every column. */
  method LockedDigit(v: array<int>, cs: array<seq<int>>, num: int) returns (did: bool)
    requires v.Length == 81 && cs.Length == 81 && 1 <= num <= 9
    modifies cs
    ensures Board(v[..], cs[..]) == LockedUnits(old(Board(v[..], cs[..])), num, 0)
    ensures Pruned(old(Board(v[..], cs[..])), Board(v[..], cs[..]))
    ensures did <==> cs[..] != old(cs[..])
  {
    ghost var b0 := Board(v[..], cs[..]);
    did := false;
    PrunedRefl(b0);
    for u := 0 to 27
      invariant LockedUnits(Board(v[..], cs[..]), num, u) == LockedUnits(b0, num, 0)
      invariant Pruned(b0, Board(v[..], cs[..]))
      invariant did <==> cs[..] != b0.cands
    {
      ghost var cur := Board(v[..], cs[..]);
      var d;
      if u < 9 {
        d := BoxInUnit(v, cs, u, num);
      } else {
        d := LineInUnit(v, cs, if u < 18 then u - 9 else u - 18, u >= 18, num);
      }
      LockedStepPruned(cur, u, num);
      PrunedChain(b0, cur, Board(v[..], cs[..]));
      did := did || d;
    }
  }

  /**
   * lockedCandidates.  `changed` reports whether some list lost an entry;
   * the values are not touched (only `cs` may change).
   */
  method LockedCandidates(v: array<int>, cs: array<seq<int>>) returns (changed: bool)
    requires v.Length == 81 && cs.Length == 81
    modifies cs
    ensures Board(v[..], cs[..]) == LockedPass(old(Board(v[..], cs[..])))
    ensures changed <==> cs[..] != old(cs[..])
  {
    ghost var b0 := Board(v[..], cs[..]);
    changed := false;
    PrunedRefl(b0);
    for num := 1 to 10
      invariant LockedDigits(Board(v[..], cs[..]), num) == LockedPass(b0)
      invariant Pruned(b0, Board(v[..], cs[..]))
      invariant changed <==> cs[..] != b0.cands
    {
      ghost var cur := Board(v[..], cs[..]);
      LockedDigitsUnfold(cur, num);
      var d := LockedDigit(v, cs, num);
      PrunedChain(b0, cur, Board(v[..], cs[..]));
      changed := changed || d;
    }
  }
}
