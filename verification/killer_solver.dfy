/** `solve` of killer.py: one greedy step. Pick the cage with the fewest
    candidate lists, among those that still have one, place the digits of
    its first list with `setCell`, then empty that cage's lists. */
module KillerSolver {
  import opened Wrappers
  import opened Seqs
  import opened KillerCage
  import opened KillerGrid

  /** The initial `smallestCageSize`: a cage with this many lists or more
      is never picked. */
  const SizeBound := 99999

  /** A cage the selection loop may pick: its lists are not empty and are
      fewer than the bound. */
  predicate Selectable(c: Cage)
    requires c.candidateLists.Some?
  {
    c.candidateLists.value != [] && |c.candidateLists.value| < SizeBound
  }

  function ListCount(c: Cage): nat
    requires c.candidateLists.Some?
  {
    |c.candidateLists.value|
  }

  /** Every cage has lists, as `Grid.__init__` leaves them. */
  ghost predicate AllHaveLists(cages: seq<Cage>) {
    forall j :: 0 <= j < |cages| ==> cages[j].candidateLists.Some?
  }

  /** Cage k is the one the loop picks: it is selectable, every earlier
      selectable cage has strictly more lists and no later one has fewer. */
  ghost predicate IsSmallestCage(cages: seq<Cage>, k: int)
    requires AllHaveLists(cages)
  {
    && 0 <= k < |cages| && Selectable(cages[k])
    && (forall j :: 0 <= j < k && Selectable(cages[j]) ==> ListCount(cages[j]) > ListCount(cages[k]))
    && (forall j :: k < j < |cages| && Selectable(cages[j]) ==> ListCount(cages[j]) >= ListCount(cages[k]))
  }

  /** The selection loop of `solve`; `None` is `smallestCage` left at
      `None`. */
  method SelectCage(cages: seq<Cage>) returns (r: Option<nat>)
    requires AllHaveLists(cages)
    ensures r.None? <==> forall j :: 0 <= j < |cages| ==> !Selectable(cages[j])
    ensures r.Some? ==> IsSmallestCage(cages, r.value)
  {
    r := None;
    var smallest := SizeBound;
    var j := 0;
    while j < |cages|
      invariant 0 <= j <= |cages|
      invariant r.None? ==> smallest == SizeBound && forall i :: 0 <= i < j ==> !Selectable(cages[i])
      invariant r.Some? ==> r.value < j && Selectable(cages[r.value]) && smallest == ListCount(cages[r.value])
      invariant r.Some? ==> forall i :: 0 <= i < r.value && Selectable(cages[i]) ==> ListCount(cages[i]) > smallest
      invariant r.Some? ==> forall i :: r.value < i < j && Selectable(cages[i]) ==> ListCount(cages[i]) >= smallest
    {
      var lists := cages[j].candidateLists.value;
      if lists != [] && |lists| < smallest {
        smallest := |lists|;
        r := Some(j);
      }
      j := j + 1;
    }
  }

  /** Coordinates of a cell, as keys of `values`. */
  function At(c: KCell): Coord {
    (c.x, c.y)
  }

  /** The cells after position k of the first n do not repeat cell k, so
      the value placed there is the last one written. */
  ghost predicate LastAt(cells: seq<KCell>, n: int, k: int)
    requires 0 <= k < n <= |cells|
  {
    forall i :: k < i < n ==> At(cells[i]) != At(cells[k])
  }

  ghost predicate AmongFirst(cells: seq<KCell>, n: int, p: Coord)
    requires 0 <= n <= |cells|
  {
    exists i :: 0 <= i < n && At(cells[i]) == p
  }

  /** Each cage keeps its total and cells and a subsequence of its lists. */
  ghost predicate ListsShrink(a: seq<Cage>, b: seq<Cage>) {
    && SameCages(a, b) && AllHaveLists(a) && AllHaveLists(b)
    && forall j :: 0 <= j < |a| ==> IsSubsequence(b[j].candidateLists.value, a[j].candidateLists.value)
  }

  lemma {:induction false} ListsShrinkTransitive(a: seq<Cage>, b: seq<Cage>, c: seq<Cage>)
    requires ListsShrink(a, b) && ListsShrink(b, c)
    ensures ListsShrink(a, c)
  {
    forall j | 0 <= j < |a|
      ensures IsSubsequence(c[j].candidateLists.value, a[j].candidateLists.value)
    {
      SubsequenceTransitive(c[j].candidateLists.value, b[j].candidateLists.value, a[j].candidateLists.value);
    }
  }

  /** What placing `guess` in `cells` did to the values: every cell the
      loop reached is on the board, each guess digit sits in its cell unless
      a later cell of the loop is the same one, and every other cell keeps
      its value. */
  ghost predicate Placed(before: map<Coord, Option<int>>, after: map<Coord, Option<int>>,
                         cells: seq<KCell>, guess: seq<int>)
    requires |guess| <= |cells|
  {
    && (forall k :: 0 <= k < |guess| ==> OnBoard(At(cells[k])))
    && (forall k :: 0 <= k < |guess| && LastAt(cells, |guess|, k) ==>
      At(cells[k]) in after && after[At(cells[k])] == Some(guess[k]))
    && (forall p :: OnBoard(p) && !AmongFirst(cells, |guess|, p) ==>
      p in before && p in after && after[p] == before[p])
  }

  /** The guess digits the loop places in cells of a region. */
  function GuessIn(cells: seq<KCell>, guess: seq<int>, reg: Region): multiset<int>
    requires |guess| <= |cells|
    decreases |guess|
  {
    if |guess| == 0 then multiset{}
    else (if InRegion(cells[0], reg) then multiset{guess[0]} else multiset{}) + GuessIn(cells[1..], guess[1..], reg)
  }

  /** Every region lost exactly the guess digits placed in it from its
      free digits. */
  ghost predicate FreeLost(before: KGrid, after: KGrid, cells: seq<KCell>, guess: seq<int>)
    requires Wf(before) && Wf(after) && |guess| <= |cells|
  {
    forall reg :: ValidRegion(reg) ==>
      multiset(Free(after, reg)) + GuessIn(cells, guess, reg) == multiset(Free(before, reg))
  }

  /** `setCell(c.x, c.y, v)` drops list `cl` of a cage with these cells:
      the list puts v in the column, row or group of c. */
  ghost predicate Hits(cageCells: seq<KCell>, cl: seq<int>, c: KCell, v: int) {
    || PutsValueIn(cageCells, cl, Column(c.x), v)
    || PutsValueIn(cageCells, cl, Row(c.y), v)
    || PutsValueIn(cageCells, cl, Group(c.x / 3, c.y / 3), v)
  }

  /** Some placement of the loop drops list `cl`. */
  ghost predicate Struck(cageCells: seq<KCell>, cl: seq<int>, cells: seq<KCell>, guess: seq<int>)
    requires |guess| <= |cells|
  {
    exists i :: 0 <= i < |guess| && Hits(cageCells, cl, cells[i], guess[i])
  }

  /** Every cage other than `except` kept exactly its lists that no
      placement strikes, each as often as before. */
  ghost predicate PrunedBut(a: seq<Cage>, b: seq<Cage>, cells: seq<KCell>, guess: seq<int>, except: int)
    requires |guess| <= |cells|
  {
    && SameCages(a, b) && AllHaveLists(a) && AllHaveLists(b)
    && forall j, cl :: 0 <= j < |a| && j != except ==>
      multiset(b[j].candidateLists.value)[cl] ==
        if Struck(a[j].cells, cl, cells, guess) then 0 else multiset(a[j].candidateLists.value)[cl]
  }

  /** Every cage kept exactly its lists that no placement strikes. */
  ghost predicate Pruned(a: seq<Cage>, b: seq<Cage>, cells: seq<KCell>, guess: seq<int>)
    requires |guess| <= |cells|
  {
    PrunedBut(a, b, cells, guess, -1)
  }

  /** The placement loop of `solve`: `setCell(cells[i].x, cells[i].y,
      guess[i])` for each i in turn, stopping at the first exception. */
  function PlaceGuess(g: KGrid, cells: seq<KCell>, guess: seq<int>): (r: Result<KGrid>)
    requires Wf(g) && |guess| <= |cells|
    ensures r.Success? ==> Wf(r.value) && r.value.lookups == g.lookups
    ensures r.Success? ==> ListsShrink(g.cages, r.value.cages) && Placed(g.values, r.value.values, cells, guess)
    ensures r.Success? ==> Pruned(g.cages, r.value.cages, cells, guess) && FreeLost(g, r.value, cells, guess)
    decreases |guess|
  {
    if |guess| == 0 then
      assert ListsShrink(g.cages, g.cages) by {
        forall j | 0 <= j < |g.cages| {
          SubsequenceReflexive(g.cages[j].candidateLists.value);
        }
      }
      PlacedNothing(g, cells, guess);
      Success(g)
    else
      match KSetCell(g, cells[0].x, cells[0].y, guess[0])
      case Failure(e) => Failure(e)
      case Success(g1) =>
        var r := PlaceGuess(g1, cells[1..], guess[1..]);
        if r.Success? then
          ListsShrinkTransitive(g.cages, g1.cages, r.value.cages);
          PlacedStep(g.values, g1.values, r.value.values, cells, guess);
          SetCellPruned(g, cells[0], guess[0]);
          PrunedCompose(g.cages, g1.cages, r.value.cages, cells, guess);
          FreeLostStep(g, g1, r.value, cells, guess);
          r
        else r
  }

  lemma {:induction false} PlacedNothing(g: KGrid, cells: seq<KCell>, guess: seq<int>)
    requires Wf(g) && |guess| == 0 && |guess| <= |cells|
    ensures Pruned(g.cages, g.cages, cells, guess) && FreeLost(g, g, cells, guess)
  {
  }

  /** One `setCell(c.x, c.y, v)` prunes every cage as a loop of one
      placement would. */
  lemma {:induction false} SetCellPruned(g: KGrid, c: KCell, v: int)
    requires Wf(g) && Placeable(g, c.x, c.y, v)
    ensures Pruned(g.cages, KSetCell(g, c.x, c.y, v).value.cages, [c], [v])
  {
    SetCellPrunesExactly(g, c.x, c.y, v);
    forall j, cl | 0 <= j < |g.cages|
      ensures Struck(g.cages[j].cells, cl, [c], [v]) <==> Hits(g.cages[j].cells, cl, c, v)
    {
      if Hits(g.cages[j].cells, cl, c, v) {
        assert Hits(g.cages[j].cells, cl, [c][0], [v][0]);
      }
    }
  }

  /** The first placement composed with the rest of the loop. */
  lemma {:induction false} PrunedCompose(a: seq<Cage>, b: seq<Cage>, c: seq<Cage>, cells: seq<KCell>, guess: seq<int>)
    requires 0 < |guess| <= |cells|
    requires Pruned(a, b, [cells[0]], [guess[0]]) && Pruned(b, c, cells[1..], guess[1..])
    ensures Pruned(a, c, cells, guess)
  {
    forall j, cl | 0 <= j < |a|
      ensures multiset(c[j].candidateLists.value)[cl] ==
        if Struck(a[j].cells, cl, cells, guess) then 0 else multiset(a[j].candidateLists.value)[cl]
    {
      StruckCons(a[j].cells, cl, cells, guess);
      StruckCons(a[j].cells, cl, [cells[0]], [guess[0]]);
      assert [cells[0]][1..] == [] && [guess[0]][1..] == [];
    }
  }

  lemma {:induction false} StruckCons(cageCells: seq<KCell>, cl: seq<int>, cells: seq<KCell>, guess: seq<int>)
    requires 0 < |guess| <= |cells|
    ensures Struck(cageCells, cl, cells, guess) <==>
      Hits(cageCells, cl, cells[0], guess[0]) || Struck(cageCells, cl, cells[1..], guess[1..])
  {
    if Struck(cageCells, cl, cells, guess) && !Hits(cageCells, cl, cells[0], guess[0]) {
      var i :| 0 <= i < |guess| && Hits(cageCells, cl, cells[i], guess[i]);
      assert cells[1..][i - 1] == cells[i] && guess[1..][i - 1] == guess[i];
    }
    if Struck(cageCells, cl, cells[1..], guess[1..]) {
      var i :| 0 <= i < |guess| - 1 && Hits(cageCells, cl, cells[1..][i], guess[1..][i]);
      assert cells[1..][i] == cells[i + 1] && guess[1..][i] == guess[i + 1];
    }
  }

  /** One `setCell` composed with the rest of the loop, for the free
      digits. */
  lemma {:induction false} FreeLostStep(g: KGrid, g1: KGrid, r: KGrid, cells: seq<KCell>, guess: seq<int>)
    requires Wf(g) && Wf(r) && 0 < |guess| <= |cells|
    requires KSetCell(g, cells[0].x, cells[0].y, guess[0]) == Success(g1)
    requires FreeLost(g1, r, cells[1..], guess[1..])
    ensures FreeLost(g, r, cells, guess)
  {
    var c := cells[0];
    forall reg | ValidRegion(reg)
      ensures multiset(Free(r, reg)) + GuessIn(cells, guess, reg) == multiset(Free(g, reg))
    {
      SetCellFree(g, c.x, c.y, guess[0], reg);
      assert KCell(c.x, c.y) == c;
      var here := if InRegion(c, reg) then multiset{guess[0]} else multiset{};
      assert GuessIn(cells, guess, reg) == here + GuessIn(cells[1..], guess[1..], reg);
      Regroup(multiset(Free(r, reg)), GuessIn(cells[1..], guess[1..], reg), here,
              multiset(Free(g1, reg)), multiset(Free(g, reg)));
    }
  }

  lemma Regroup(a: multiset<int>, b: multiset<int>, p: multiset<int>, m1: multiset<int>, m2: multiset<int>)
    requires a + b == m1 && m1 + p == m2
    ensures a + (p + b) == m2
  {
  }

  /** One turn of the placement loop composed with the rest of it. */
  lemma {:induction false} PlacedStep(v0: map<Coord, Option<int>>, v1: map<Coord, Option<int>>,
                                      v2: map<Coord, Option<int>>, cells: seq<KCell>, guess: seq<int>)
    requires 0 < |guess| <= |cells| && OnBoard(At(cells[0]))
    requires forall p :: p in v0 <==> OnBoard(p)
    requires v1 == v0[At(cells[0]) := Some(guess[0])]
    requires Placed(v1, v2, cells[1..], guess[1..])
    ensures Placed(v0, v2, cells, guess)
  {
    var n := |guess|;
    PlacedOnBoard(cells, n);
    forall k | 0 <= k < n && LastAt(cells, n, k)
      ensures At(cells[k]) in v2 && v2[At(cells[k])] == Some(guess[k])
    {
      PlacedLast(v0, v1, v2, cells, guess, k);
    }
    forall p | OnBoard(p) && !AmongFirst(cells, n, p)
      ensures p in v0 && p in v2 && v2[p] == v0[p]
    {
      PlacedOther(v0, v1, v2, cells, guess, p);
    }
  }

  lemma {:induction false} PlacedOnBoard(cells: seq<KCell>, n: int)
    requires 0 < n <= |cells| && OnBoard(At(cells[0]))
    requires forall k :: 0 <= k < n - 1 ==> OnBoard(At(cells[1..][k]))
    ensures forall k :: 0 <= k < n ==> OnBoard(At(cells[k]))
  {
    forall k | 0 < k < n
      ensures OnBoard(At(cells[k]))
    {
      assert cells[1..][k - 1] == cells[k];
    }
  }

  lemma {:induction false} PlacedLast(v0: map<Coord, Option<int>>, v1: map<Coord, Option<int>>,
                                      v2: map<Coord, Option<int>>, cells: seq<KCell>, guess: seq<int>, k: int)
    requires 0 <= k < |guess| <= |cells| && LastAt(cells, |guess|, k) && OnBoard(At(cells[0]))
    requires forall p :: p in v0 <==> OnBoard(p)
    requires v1 == v0[At(cells[0]) := Some(guess[0])]
    requires Placed(v1, v2, cells[1..], guess[1..])
    ensures At(cells[k]) in v2 && v2[At(cells[k])] == Some(guess[k])
  {
    var n := |guess|;
    if k == 0 {
      forall i | 0 <= i < n - 1
        ensures At(cells[1..][i]) != At(cells[0])
      {
        assert cells[1..][i] == cells[i + 1];
      }
    } else {
      assert cells[1..][k - 1] == cells[k];
      assert LastAt(cells[1..], n - 1, k - 1) by {
        forall i | k - 1 < i < n - 1
          ensures At(cells[1..][i]) != At(cells[1..][k - 1])
        {
          assert cells[1..][i] == cells[i + 1];
        }
      }
    }
  }

  lemma {:induction false} PlacedOther(v0: map<Coord, Option<int>>, v1: map<Coord, Option<int>>,
                                       v2: map<Coord, Option<int>>, cells: seq<KCell>, guess: seq<int>, p: Coord)
    requires 0 < |guess| <= |cells| && OnBoard(p) && !AmongFirst(cells, |guess|, p)
    requires forall p :: p in v0 <==> OnBoard(p)
    requires v1 == v0[At(cells[0]) := Some(guess[0])]
    requires Placed(v1, v2, cells[1..], guess[1..])
    ensures p in v0 && p in v2 && v2[p] == v0[p]
  {
    var n := |guess|;
    forall i | 0 <= i < n - 1
      ensures At(cells[1..][i]) != p
    {
      assert cells[1..][i] == cells[i + 1];
    }
    assert p != At(cells[0]);
  }

  /** The number of cages that still have a list. */
  function LiveCount(cages: seq<Cage>): nat
    requires AllHaveLists(cages)
  {
    if |cages| == 0 then 0
    else (if cages[0].candidateLists.value != [] then 1 else 0) + LiveCount(cages[1..])
  }

  /** If no cage gains lists and cage k loses all of its, fewer cages are
      live. */
  lemma {:induction false} LiveCountDrops(a: seq<Cage>, b: seq<Cage>, k: int)
    requires AllHaveLists(a) && AllHaveLists(b) && |a| == |b|
    requires forall j :: 0 <= j < |a| && a[j].candidateLists.value == [] ==> b[j].candidateLists.value == []
    requires 0 <= k < |a| && a[k].candidateLists.value != [] && b[k].candidateLists.value == []
    ensures LiveCount(b) < LiveCount(a)
    decreases |a|
  {
    if k > 0 {
      LiveCountDrops(a[1..], b[1..], k - 1);
    } else {
      LiveCountNoGain(a[1..], b[1..]);
    }
  }

  lemma {:induction false} LiveCountNoGain(a: seq<Cage>, b: seq<Cage>)
    requires AllHaveLists(a) && AllHaveLists(b) && |a| == |b|
    requires forall j :: 0 <= j < |a| && a[j].candidateLists.value == [] ==> b[j].candidateLists.value == []
    ensures LiveCount(b) <= LiveCount(a)
    decreases |a|
  {
    if |a| > 0 {
      LiveCountNoGain(a[1..], b[1..]);
    }
  }

  /** `smallestCage.candidateLists = []`. */
  function ClearLists(g: KGrid, k: nat): (r: KGrid)
    requires Wf(g) && k < |g.cages|
    ensures Wf(r) && r.lookups == g.lookups && r.values == g.values
    ensures r.rowCandidates == g.rowCandidates && r.columnCandidates == g.columnCandidates
    ensures r.groupCandidates == g.groupCandidates
    ensures ListsShrink(g.cages, r.cages) && r.cages[k].candidateLists == Some([])
    ensures forall j :: 0 <= j < |g.cages| && j != k ==> r.cages[j] == g.cages[j]
  {
    ClearedCages(g, k);
    g.(cages := g.cages[k := g.cages[k].(candidateLists := Some([]))])
  }

  lemma {:induction false} ClearedCages(g: KGrid, k: nat)
    requires Wf(g) && k < |g.cages|
    ensures var cages := g.cages[k := g.cages[k].(candidateLists := Some([]))];
      Wf(g.(cages := cages)) && ListsShrink(g.cages, cages)
  {
    var cages := g.cages[k := g.cages[k].(candidateLists := Some([]))];
    ClearedShrink(g.cages, k);
    SameCagesIndexes(g.lookups, g.cages, cages);
    assert forall j :: 0 <= j < |cages| ==> cages[j].candidateLists.Some? && ListsFit(cages[j]);
  }

  lemma {:induction false} ClearedShrink(cages: seq<Cage>, k: nat)
    requires AllHaveLists(cages) && k < |cages|
    ensures ListsShrink(cages, cages[k := cages[k].(candidateLists := Some([]))])
  {
    var b := cages[k := cages[k].(candidateLists := Some([]))];
    forall j | 0 <= j < |cages|
      ensures IsSubsequence(b[j].candidateLists.value, cages[j].candidateLists.value)
    {
      if j == k {
        assert b[j].candidateLists.value == [];
      } else {
        SubsequenceReflexive(cages[j].candidateLists.value);
      }
    }
  }

  /** Emptying cage k after the placement loop keeps what the loop did to
      the free digits and to the lists of every other cage. */
  lemma {:induction false} ClearedPruned(g: KGrid, placed: KGrid, cleared: KGrid, cells: seq<KCell>,
                                         guess: seq<int>, k: nat)
    requires Wf(g) && Wf(placed) && k < |placed.cages| && |guess| <= |cells|
    requires Pruned(g.cages, placed.cages, cells, guess) && FreeLost(g, placed, cells, guess)
    requires cleared == ClearLists(placed, k)
    ensures FreeLost(g, cleared, cells, guess) && PrunedBut(g.cages, cleared.cages, cells, guess, k)
  {
  }

  /** A step that only shrinks lists and empties a cage that had some
      leaves fewer cages with lists. */
  lemma {:induction false} ShrinkingLiveCount(a: seq<Cage>, b: seq<Cage>, k: int)
    requires ListsShrink(a, b) && 0 <= k < |a|
    requires a[k].candidateLists.value != [] && b[k].candidateLists.value == []
    ensures LiveCount(b) < LiveCount(a)
  {
    LiveCountDrops(a, b, k);
  }

  /** `solve(grid)`. `chosen` is the cage the selection loop picked. With
      no selectable cage nothing changes. Otherwise the digits of the
      chosen cage's first list are placed in its cells in order; on success
      the lookups are untouched, the chosen cage has no lists left, every
      cage keeps a subsequence of its lists, the guess digits sit in their
      cells, every region lost
      exactly the guess digits placed in it, every other cage kept exactly
      the lists no placement strikes, and fewer cages have lists left. */
  method Solve(g: KGrid) returns (chosen: Option<nat>, r: Result<KGrid>)
    requires Wf(g)
    ensures chosen.None? <==> forall j :: 0 <= j < |g.cages| ==> !Selectable(g.cages[j])
    ensures chosen.None? ==> r == Success(g)
    ensures chosen.Some? ==> IsSmallestCage(g.cages, chosen.value)
    ensures chosen.Some? && r.Success? ==> Wf(r.value) && ListsShrink(g.cages, r.value.cages)
    ensures chosen.Some? && r.Success? ==> r.value.lookups == g.lookups
    ensures chosen.Some? && r.Success? ==> r.value.cages[chosen.value].candidateLists == Some([])
    ensures chosen.Some? && r.Success? ==>
      var c := g.cages[chosen.value];
      Placed(g.values, r.value.values, c.cells, c.candidateLists.value[0])
    ensures chosen.Some? && r.Success? ==> LiveCount(r.value.cages) < LiveCount(g.cages)
    ensures chosen.Some? && r.Success? ==>
      var c := g.cages[chosen.value];
      && FreeLost(g, r.value, c.cells, c.candidateLists.value[0])
      && PrunedBut(g.cages, r.value.cages, c.cells, c.candidateLists.value[0], chosen.value)
  {
    chosen := SelectCage(g.cages);
    if chosen.None? {
      return None, Success(g);
    }
    var k := chosen.value;
    var c := g.cages[k];
    var guess := c.candidateLists.value[0];
    var placed := PlaceGuess(g, c.cells, guess);
    if placed.Failure? {
      return chosen, Failure(placed.error);
    }
    var g2 := ClearLists(placed.value, k);
    ClearedPruned(g, placed.value, g2, c.cells, guess, k);
    ListsShrinkTransitive(g.cages, placed.value.cages, g2.cages);
    ShrinkingLiveCount(g.cages, g2.cages, k);
    return chosen, Success(g2);
  }
}
