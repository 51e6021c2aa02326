/** `solve` of normal.py: pick the empty cell with the fewest candidates
    (MRV), try its raised flags in ascending order, recurse, and undo each
    try with `unsetCell`. */
module NormalSolver {
  import opened Wrappers
  import opened Digits
  import opened NormalGrid

  /** Scan order of the selection loops: x outer, y inner. */
  function ScanPos(k: int): Pos {
    (k / 9, k % 9)
  }

  function ScanIndexOf(p: Pos): int {
    9 * p.0 + p.1
  }

  lemma ScanRoundTrip(p: Pos)
    requires OnBoard(p)
    ensures 0 <= ScanIndexOf(p) < 81 && ScanPos(ScanIndexOf(p)) == p
  {
  }

  /** A cell the selection loop may pick: empty, and with a count below the
      loop's initial bound of 10. */
  predicate Eligible(g: Grid, p: Pos)
    requires p in g.cells
  {
    g.cells[p].value.None? && g.cells[p].candidateCount < 10
  }

  function CountAt(g: Grid, k: int): int
    requires Shaped(g) && 0 <= k < 81
  {
    g.cells[ScanPos(k)].candidateCount
  }

  /** The cell at scan index k is what the selection loop returns: it is
      eligible, every earlier eligible cell has a strictly larger count other
      than 1 (a count of 1 would have stopped the loop there), and every
      later one has a count at least as large unless the loop stopped early
      at a count of 1. */
  ghost predicate IsMrvChoice(g: Grid, k: int)
    requires Shaped(g) && 0 <= k < 81
  {
    && Eligible(g, ScanPos(k))
    && (forall j :: 0 <= j < k && Eligible(g, ScanPos(j)) ==> CountAt(g, j) > CountAt(g, k))
    && (forall j :: 0 <= j < k && Eligible(g, ScanPos(j)) ==> CountAt(g, j) != 1)
    && (CountAt(g, k) == 1 || forall j :: k < j < 81 && Eligible(g, ScanPos(j)) ==> CountAt(g, j) >= CountAt(g, k))
  }

  /** The state of the selection loops after scan indices 0..k-1: with no
      cell picked nothing so far was eligible; otherwise `chosen` is picked,
      its count is `smallest`, every earlier eligible cell has a larger count
      other than 1, and no later one seen so far has a smaller count. */
  ghost predicate Scanned(g: Grid, k: int, r: Option<Pos>, chosen: int, smallest: int)
    requires Shaped(g)
  {
    && 0 <= k <= 81
    && (r.None? ==> smallest == 10 && forall j :: 0 <= j < k ==> !Eligible(g, ScanPos(j)))
    && (r.Some? ==>
      && 0 <= chosen < k && r.value == ScanPos(chosen) && Eligible(g, ScanPos(chosen))
      && smallest == CountAt(g, chosen)
      && (forall j :: 0 <= j < chosen && Eligible(g, ScanPos(j)) ==> CountAt(g, j) > smallest)
      && (forall j :: 0 <= j < chosen && Eligible(g, ScanPos(j)) ==> CountAt(g, j) != 1)
      && (forall j :: chosen < j < k && Eligible(g, ScanPos(j)) ==> CountAt(g, j) >= smallest))
  }

  /** The selection loops of `solve`. `None` is the source's `smallestCell`
      left at `None`. */
  method SelectCell(g: Grid) returns (r: Option<Pos>)
    requires Wf(g)
    ensures r.None? <==> forall k :: 0 <= k < 81 ==> !Eligible(g, ScanPos(k))
    ensures r.Some? ==> OnBoard(r.value) && ScanPos(ScanIndexOf(r.value)) == r.value && IsMrvChoice(g, ScanIndexOf(r.value))
  {
    r := None;
    var smallestCount := 10;
    ghost var chosen := 0;
    var k := 0;
    while k < 81 && smallestCount != 1
      invariant Scanned(g, k, r, chosen, smallestCount)
      decreases 81 - k
    {
      ghost var r0, chosen0, smallest0 := r, chosen, smallestCount;
      var c := g.cells[ScanPos(k)];
      if c.value.None? && c.candidateCount < smallestCount {
        smallestCount := c.candidateCount;
        r := Some(ScanPos(k));
        chosen := k;
      }
      ScanStep(g, k, r0, chosen0, smallest0, r, chosen, smallestCount);
      k := k + 1;
    }
    ScanDone(g, k, r, chosen, smallestCount);
  }

  /** One turn of the selection loops keeps `Scanned`. */
  lemma {:induction false} ScanStep(g: Grid, k: int, r0: Option<Pos>, chosen0: int, smallest0: int,
                                    r: Option<Pos>, chosen: int, smallest: int)
    requires Wf(g) && 0 <= k < 81 && smallest0 != 1 && Scanned(g, k, r0, chosen0, smallest0)
    requires var c := g.cells[ScanPos(k)];
      (r, chosen, smallest) ==
        if c.value.None? && c.candidateCount < smallest0 then (Some(ScanPos(k)), k, c.candidateCount)
        else (r0, chosen0, smallest0)
    ensures Scanned(g, k + 1, r, chosen, smallest)
  {
  }

  /** When the loops stop, `Scanned` gives the contract of `SelectCell`. */
  lemma {:induction false} ScanDone(g: Grid, k: int, r: Option<Pos>, chosen: int, smallest: int)
    requires Wf(g) && Scanned(g, k, r, chosen, smallest) && !(k < 81 && smallest != 1)
    ensures r.None? <==> forall k :: 0 <= k < 81 ==> !Eligible(g, ScanPos(k))
    ensures r.Some? ==> OnBoard(r.value) && ScanPos(ScanIndexOf(r.value)) == r.value && IsMrvChoice(g, ScanIndexOf(r.value))
  {
    if r.Some? {
      assert chosen == ScanIndexOf(r.value);
    }
  }

  /** The selection is determined: no two scan indices meet
      `IsMrvChoice`. */
  lemma MrvChoiceUnique(g: Grid, k1: int, k2: int)
    requires Wf(g) && 0 <= k1 < 81 && 0 <= k2 < 81
    ensures IsMrvChoice(g, k1) && IsMrvChoice(g, k2) ==> k1 == k2
  {
  }

  /** How a search ends. `Solved` is the source's `sys.exit()` once
      `isSolved()` holds; `Exhausted` is the return after the digit loop;
      `NoCellSelected` is the AttributeError raised when the selection found
      no cell. Each carries the grid as it stands at that point. */
  datatype SolveResult = Solved(grid: Grid) | Exhausted(grid: Grid) | NoCellSelected(grid: Grid)

  lemma SameValuesSameSets(a: Grid, b: Grid)
    requires Shaped(a) && Shaped(b) && SameValues(a, b)
    ensures Assigned(a) == Assigned(b) && Unassigned(a) == Unassigned(b)
  {
  }

  lemma {:induction false} ScannedSize(n: nat)
    requires n <= 81
    ensures |set k | 0 <= k < n :: ScanPos(k)| == n
  {
    if n > 0 {
      ScannedSize(n - 1);
      var prev := set k | 0 <= k < n - 1 :: ScanPos(k);
      assert (set k | 0 <= k < n :: ScanPos(k)) == prev + {ScanPos(n - 1)};
    }
  }

  /** With a consistent counter, an unsolved grid has an eligible cell. */
  lemma UnsolvedHasEligible(g: Grid)
    requires Wf(g) && Consistent(g) && !IsSolved(g)
    ensures exists k :: 0 <= k < 81 && Eligible(g, ScanPos(k))
  {
    var board := set k | 0 <= k < 81 :: ScanPos(k);
    ScannedSize(81);
    forall p | p in Assigned(g)
      ensures p in board
    {
      ScanRoundTrip(p);
    }
    assert Assigned(g) != board;
    var p :| p in board && p !in Assigned(g);
    ScanRoundTrip(p);
    CountTrueBound(g.cells[p].candidates);
    assert Eligible(g, ScanPos(ScanIndexOf(p)));
  }

  /** With a consistent counter, `isSolved` holds exactly when every cell
      holds a value. */
  lemma SolvedIffFull(g: Grid)
    requires Wf(g) && Consistent(g)
    ensures IsSolved(g) <==> forall p :: OnBoard(p) ==> g.cells[p].value.Some?
  {
    var board := set k | 0 <= k < 81 :: ScanPos(k);
    ScannedSize(81);
    forall p | p in Assigned(g)
      ensures p in board
    {
      ScanRoundTrip(p);
    }
    if forall p :: OnBoard(p) ==> g.cells[p].value.Some? {
      assert Assigned(g) == board;
    } else {
      var p :| OnBoard(p) && g.cells[p].value.None?;
      ScanRoundTrip(p);
      assert |board - Assigned(g)| > 0 by {
        assert p in board - Assigned(g);
      }
    }
  }

  /** Trying digit c at the empty cell p of `cur` removes p from the empty
      cells and keeps the counter consistent. */
  lemma PlaceTry(g: Grid, cur: Grid, p: Pos, c: int)
    requires Wf(cur) && Shaped(g) && SameValues(cur, g) && OnBoard(p) && IsDigit(c)
    requires g.cells[p].value.None?
    ensures Unassigned(SetCell(cur, p.0, p.1, c)) == Unassigned(g) - {p} && p in Unassigned(g)
    ensures Consistent(cur) ==> Consistent(SetCell(cur, p.0, p.1, c))
  {
    SameValuesSameSets(cur, g);
    FillingOneCell(cur, SetCell(cur, p.0, p.1, c), p);
    if Consistent(cur) {
      SetCellConsistent(cur, p.0, p.1, c);
    }
  }

  lemma RemovingShrinks(a: set<Pos>, p: Pos)
    requires p in a
    ensures |a - {p}| < |a|
  {
  }

  /** A grid that keeps every value of a try, which filled the empty cell p
      and changed no other value, keeps every value of the grid the try
      started from. */
  lemma TryExtends(g: Grid, placed: Grid, p: Pos, s: Grid)
    requires Shaped(g) && Shaped(placed) && Shaped(s) && OnBoard(p) && g.cells[p].value.None?
    requires forall q :: OnBoard(q) && q != p ==> placed.cells[q].value == g.cells[q].value
    requires Extends(s, placed)
    ensures Extends(s, g)
  {
  }

  /** What the digit loop of `solve` keeps between tries: the entry values
      and counter, the well-formedness invariant, and counter consistency. */
  ghost predicate Restored(cur: Grid, g: Grid)
    requires Shaped(g)
  {
    && Wf(cur) && SameValues(cur, g) && cur.numSetCells == g.numSetCells
    && (Consistent(g) ==> Consistent(cur))
  }

  /** Undoing a failed try restores the entry values and counter. */
  lemma UndoTry(g: Grid, cur: Grid, p: Pos, c: int, sub: Grid)
    requires Wf(cur) && Shaped(g) && SameValues(cur, g) && cur.numSetCells == g.numSetCells
    requires OnBoard(p) && IsDigit(c) && g.cells[p].value.None?
    requires Wf(sub) && sub.numSetCells == cur.numSetCells + 1
    requires SameValues(sub, SetCell(cur, p.0, p.1, c))
    requires Consistent(g) ==> Consistent(sub)
    ensures sub.cells[p].value == Some(c)
    ensures Restored(UnsetCell(sub, p.0, p.1), g)
  {
    var placed := SetCell(cur, p.0, p.1, c);
    assert sub.cells[p].value == placed.cells[p].value == Some(c);
    var next := UnsetCell(sub, p.0, p.1);
    forall q | OnBoard(q)
      ensures next.cells[q].value == g.cells[q].value
    {
      if q != p {
        assert next.cells[q].value == sub.cells[q].value == placed.cells[q].value == cur.cells[q].value;
      }
    }
    if Consistent(g) {
      UnsetCellConsistent(sub, p.0, p.1);
    }
  }

  /** `solve`. A grid that is solved on entry is returned as found. In every
      other case the result's grid keeps the well-formedness invariant; a
      found grid is solved and keeps every value the entry grid held; after
      an exhausted search the values and the counter are back to their entry
      state (the flags need not be); and a consistent counter rules out the
      failed selection. */
  method Solve(g: Grid) returns (res: SolveResult)
    requires Wf(g)
    ensures Wf(res.grid)
    ensures IsSolved(g) ==> res == Solved(g)
    ensures res.Solved? ==> IsSolved(res.grid) && Extends(res.grid, g)
    ensures res.Exhausted? ==> !IsSolved(g) && res.grid.numSetCells == g.numSetCells && SameValues(res.grid, g)
    ensures Consistent(g) ==> !res.NoCellSelected? && Consistent(res.grid)
    decreases |Unassigned(g)|
  {
    if IsSolved(g) {
      return Solved(g);
    }
    var choice := SelectCell(g);
    if choice.None? {
      if Consistent(g) {
        UnsolvedHasEligible(g);
      }
      return NoCellSelected(g);
    }
    var p := choice.value;
    assert p in Unassigned(g);
    var cur := g;
    var c := 1;
    while c < 10
      invariant 1 <= c <= 10
      invariant Restored(cur, g)
    {
      if Flag(cur, p, c) {
        var placed := SetCell(cur, p.0, p.1, c);
        PlaceTry(g, cur, p, c);
        assert |Unassigned(placed)| < |Unassigned(g)| by {
          RemovingShrinks(Unassigned(g), p);
        }
        var sub := Solve(placed);
        if !sub.Exhausted? {
          if sub.Solved? {
            TryExtends(g, placed, p, sub.grid);
          }
          return sub;
        }
        UndoTry(g, cur, p, c, sub.grid);
        cur := UnsetCell(sub.grid, p.0, p.1);
      }
      c := c + 1;
    }
    return Exhausted(cur);
  }
}
