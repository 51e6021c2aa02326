/** `Grid` of killer.py: the cages of the puzzle, lookups from each row,
    column and 3x3 group to the cages with a cell in it, the digits still
    free in each row, column and group, and the placed values. Cage objects
    are shared between `cages` and the lookups in the source; here a lookup
    holds cage indices, which denote the same shared object. */
module KillerGrid {
  import opened Wrappers
  import opened Digits
  import opened Seqs
  import opened CageLists
  import opened KillerCage

  /** Coordinates (x, y): x is the column, y the row. `NormalGrid` has its
      own `Pos` and `OnBoard`: the two engines share no code. */
  type Coord = (int, int)

  /** One entry of the puzzle's `cages` array: the total and the cells. */
  datatype CageDef = CageDef(total: int, cells: seq<Coord>)

  predicate InNine(i: int) {
    0 <= i < 9
  }

  predicate InThree(i: int) {
    0 <= i < 3
  }

  predicate OnBoard(p: Coord) {
    InNine(p.0) && InNine(p.1)
  }

  /** The keys the source creates for its row, column and group
      dictionaries: 0..8 for rows and columns, (0..2, 0..2) for groups. */
  predicate ValidRegion(r: Region) {
    match r
    case Column(x) => InNine(x)
    case Row(y) => InNine(y)
    case Group(gx, gy) => InThree(gx) && InThree(gy)
  }

  /** `cageLookupByCell`, `cageLookupByRow`, `cageLookupByColumn` and
      `cageLookupByGroup`, holding cage indices. */
  datatype Lookups = Lookups(
    byCell: map<Coord, nat>,
    byRow: map<int, seq<nat>>,
    byColumn: map<int, seq<nat>>,
    byGroup: map<Coord, seq<nat>>)

  ghost predicate LookupsShaped(lk: Lookups) {
    && (forall i :: i in lk.byRow <==> InNine(i))
    && (forall i :: i in lk.byColumn <==> InNine(i))
    && (forall q :: q in lk.byGroup <==> InThree(q.0) && InThree(q.1))
  }

  /** The cage indices listed under a region. */
  function Listed(lk: Lookups, r: Region): seq<nat>
    requires LookupsShaped(lk) && ValidRegion(r)
  {
    match r
    case Column(x) => lk.byColumn[x]
    case Row(y) => lk.byRow[y]
    case Group(gx, gy) => lk.byGroup[(gx, gy)]
  }

  /** A dictionary with the keys 0..8, each holding v. */
  function ByIndex<V>(v: V): (m: map<int, V>)
    ensures forall i :: i in m <==> InNine(i)
    ensures forall i :: i in m ==> m[i] == v
  {
    map[0 := v, 1 := v, 2 := v, 3 := v, 4 := v, 5 := v, 6 := v, 7 := v, 8 := v]
  }

  /** A dictionary with the group keys (0..2, 0..2), each holding v. */
  function ByGroup<V>(v: V): (m: map<Coord, V>)
    ensures forall q :: q in m <==> InThree(q.0) && InThree(q.1)
    ensures forall q :: q in m ==> m[q] == v
  {
    map[(0, 0) := v, (0, 1) := v, (0, 2) := v,
        (1, 0) := v, (1, 1) := v, (1, 2) := v,
        (2, 0) := v, (2, 1) := v, (2, 2) := v]
  }

  /** The lookups as the source initialises them: every row, column and
      group key present with an empty list. */
  function EmptyLookups(): (lk: Lookups)
    ensures LookupsShaped(lk) && lk.byCell == map[]
    ensures forall r :: ValidRegion(r) ==> Listed(lk, r) == []
  {
    Lookups(map[], ByIndex([]), ByIndex([]), ByGroup([]))
  }

  predicate CellsOnBoard(cells: seq<KCell>) {
    forall k :: 0 <= k < |cells| ==> InNine(cells[k].x) && InNine(cells[k].y)
  }

  /** Every cell of every cage has row and column keys in the lookups. */
  predicate AllOnBoard(cages: seq<Cage>) {
    forall j :: 0 <= j < |cages| ==> CellsOnBoard(cages[j].cells)
  }

  lemma AllOnBoardSplit(cages: seq<Cage>)
    requires |cages| > 0
    ensures AllOnBoard(cages) <==> AllOnBoard(cages[..|cages| - 1]) && CellsOnBoard(cages[|cages| - 1].cells)
  {
    assert forall j :: 0 <= j < |cages| - 1 ==> cages[..|cages| - 1][j] == cages[j];
  }

  ghost predicate HasCellIn(cells: seq<KCell>, r: Region) {
    exists k :: 0 <= k < |cells| && InRegion(cells[k], r)
  }

  ghost function CellCoords(cells: seq<KCell>): set<Coord> {
    set k | 0 <= k < |cells| :: (cells[k].x, cells[k].y)
  }

  /** One turn of the lookup loop for a cell of cage j. A row or column key
      outside 0..8 raises KeyError; for coordinates inside it the group key
      `(x / 3, y / 3)` always exists. */
  function AddCell(lk: Lookups, j: nat, c: KCell): (r: Result<Lookups>)
    requires LookupsShaped(lk)
    ensures r.Success? <==> InNine(c.x) && InNine(c.y)
    ensures r.Failure? ==> r.error == MissingKey
    ensures r.Success? ==> LookupsShaped(r.value) && r.value.byCell == lk.byCell[(c.x, c.y) := j]
    ensures r.Success? ==> forall reg :: ValidRegion(reg) ==>
      Listed(r.value, reg) == Listed(lk, reg) + (if InRegion(c, reg) then [j] else [])
  {
    var byCell := lk.byCell[(c.x, c.y) := j];
    if c.y !in lk.byRow then Failure(MissingKey)
    else if c.x !in lk.byColumn then Failure(MissingKey)
    else
      var g := (c.x / 3, c.y / 3);
      Success(Lookups(
        byCell,
        lk.byRow[c.y := lk.byRow[c.y] + [j]],
        lk.byColumn[c.x := lk.byColumn[c.x] + [j]],
        lk.byGroup[g := lk.byGroup[g] + [j]]))
  }

  /** The lookup loop over the cells of cage j. */
  function AddCells(lk: Lookups, j: nat, cells: seq<KCell>): (r: Result<Lookups>)
    requires LookupsShaped(lk)
    ensures r.Success? <==> CellsOnBoard(cells)
    ensures r.Failure? ==> r.error == MissingKey
    ensures r.Success? ==> ListsCells(lk, r.value, j, cells) && RecordsCells(lk, r.value, j, cells)
    ensures r.Success? ==> AppendsCells(lk, r.value, j, cells)
    decreases |cells|
  {
    if |cells| == 0 then
      assert CellCoords(cells) == {};
      assert forall reg :: ValidRegion(reg) ==>
        Listed(lk, reg) + seq(CountIn(cells, reg), _ => j) == Listed(lk, reg);
      Success(lk)
    else
      match AddCell(lk, j, cells[0])
      case Failure(e) => Failure(e)
      case Success(lk1) =>
        var r := AddCells(lk1, j, cells[1..]);
        AddCellsStep(lk, lk1, j, cells, r);
        AppendsStep(lk, lk1, j, cells, r);
        r
  }

  /** The number of cells of a cage that lie in a region. */
  function CountIn(cells: seq<KCell>, reg: Region): nat {
    if |cells| == 0 then 0
    else (if InRegion(cells[0], reg) then 1 else 0) + CountIn(cells[1..], reg)
  }

  /** Each region list grows by cage j once for every cell of the cage in
      that region, and by nothing else. */
  ghost predicate AppendsCells(lk: Lookups, lk2: Lookups, j: nat, cells: seq<KCell>) {
    && LookupsShaped(lk) && LookupsShaped(lk2)
    && forall reg :: ValidRegion(reg) ==>
      Listed(lk2, reg) == Listed(lk, reg) + seq(CountIn(cells, reg), _ => j)
  }

  lemma {:induction false} AppendsStep(lk: Lookups, lk1: Lookups, j: nat, cells: seq<KCell>, r: Result<Lookups>)
    requires LookupsShaped(lk) && |cells| > 0 && AddCell(lk, j, cells[0]) == Success(lk1)
    requires r.Success? ==> AppendsCells(lk1, r.value, j, cells[1..])
    ensures r.Success? ==> AppendsCells(lk, r.value, j, cells)
  {
    if r.Success? {
      forall reg | ValidRegion(reg)
        ensures Listed(r.value, reg) == Listed(lk, reg) + seq(CountIn(cells, reg), _ => j)
      {
        AppendOne(Listed(lk, reg), Listed(lk1, reg), Listed(r.value, reg), j,
                  InRegion(cells[0], reg), CountIn(cells[1..], reg));
      }
    }
  }

  lemma AppendOne(a: seq<nat>, b: seq<nat>, c: seq<nat>, j: nat, here: bool, n: nat)
    requires b == a + (if here then [j] else []) && c == b + seq(n, _ => j)
    ensures c == a + seq((if here then 1 else 0) + n, _ => j)
  {
    if here {
      assert [j] + seq(n, _ => j) == seq(n + 1, _ => j);
    }
  }

  lemma AddCellsStep(lk: Lookups, lk1: Lookups, j: nat, cells: seq<KCell>, r: Result<Lookups>)
    requires LookupsShaped(lk) && |cells| > 0 && AddCell(lk, j, cells[0]) == Success(lk1)
    requires r.Success? <==> CellsOnBoard(cells[1..])
    requires r.Success? ==> ListsCells(lk1, r.value, j, cells[1..]) && RecordsCells(lk1, r.value, j, cells[1..])
    ensures r.Success? <==> CellsOnBoard(cells)
    ensures r.Success? ==> ListsCells(lk, r.value, j, cells) && RecordsCells(lk, r.value, j, cells)
  {
    assert CellsOnBoard(cells) <==> InNine(cells[0].x) && InNine(cells[0].y) && CellsOnBoard(cells[1..]) by {
      assert forall k :: 0 <= k < |cells| - 1 ==> cells[1..][k] == cells[k + 1];
    }
    if r.Success? {
      ListsCellsStep(lk, lk1, j, cells, r.value);
      RecordsCellsStep(lk, lk1, j, cells, r.value);
    }
  }

  lemma {:induction false} ListsCellsStep(lk: Lookups, lk1: Lookups, j: nat, cells: seq<KCell>, lk2: Lookups)
    requires LookupsShaped(lk) && |cells| > 0 && AddCell(lk, j, cells[0]) == Success(lk1)
    requires ListsCells(lk1, lk2, j, cells[1..])
    ensures ListsCells(lk, lk2, j, cells)
  {
    forall reg | ValidRegion(reg)
      ensures HasCellIn(cells, reg) <==> InRegion(cells[0], reg) || HasCellIn(cells[1..], reg)
    {
      HasCellInCons(cells, reg);
    }
  }

  lemma {:induction false} RecordsCellsStep(lk: Lookups, lk1: Lookups, j: nat, cells: seq<KCell>, lk2: Lookups)
    requires LookupsShaped(lk) && |cells| > 0 && AddCell(lk, j, cells[0]) == Success(lk1)
    requires RecordsCells(lk1, lk2, j, cells[1..])
    ensures RecordsCells(lk, lk2, j, cells)
  {
    CellCoordsCons(cells);
  }

  lemma CellCoordsCons(cells: seq<KCell>)
    requires |cells| > 0
    ensures CellCoords(cells) == {(cells[0].x, cells[0].y)} + CellCoords(cells[1..])
  {
    forall p | p in CellCoords(cells)
      ensures p in {(cells[0].x, cells[0].y)} + CellCoords(cells[1..])
    {
      var k :| 0 <= k < |cells| && p == (cells[k].x, cells[k].y);
      if k > 0 {
        assert p == (cells[1..][k - 1].x, cells[1..][k - 1].y);
      }
    }
    forall p | p in CellCoords(cells[1..])
      ensures p in CellCoords(cells)
    {
      var k :| 0 <= k < |cells[1..]| && p == (cells[1..][k].x, cells[1..][k].y);
      assert p == (cells[k + 1].x, cells[k + 1].y);
    }
  }

  lemma HasCellInCons(cells: seq<KCell>, reg: Region)
    requires |cells| > 0
    ensures HasCellIn(cells, reg) <==> InRegion(cells[0], reg) || HasCellIn(cells[1..], reg)
  {
    if HasCellIn(cells, reg) && !InRegion(cells[0], reg) {
      var k :| 0 <= k < |cells| && InRegion(cells[k], reg);
      assert InRegion(cells[1..][k - 1], reg);
    }
    if HasCellIn(cells[1..], reg) {
      var k :| 0 <= k < |cells[1..]| && InRegion(cells[1..][k], reg);
      assert InRegion(cells[k + 1], reg);
    }
  }

  /** Size of the largest cage, 0 for no cages: the
      `maxCageSize` the source computes while reading the cages. */
  function MaxCageSize(defs: seq<CageDef>): (m: nat)
    ensures forall j :: 0 <= j < |defs| ==> |defs[j].cells| <= m
    ensures m == 0 || exists j :: 0 <= j < |defs| && |defs[j].cells| == m
  {
    if |defs| == 0 then 0
    else
      var m := MaxCageSize(defs[..|defs| - 1]);
      var last := |defs[|defs| - 1].cells|;
      assert forall j :: 0 <= j < |defs| - 1 ==> defs[..|defs| - 1][j] == defs[j];
      if last > m then last else m
  }

  function ToCells(coords: seq<Coord>): (cells: seq<KCell>)
    ensures |cells| == |coords|
    ensures forall k :: 0 <= k < |coords| ==> cells[k] == KCell(coords[k].0, coords[k].1)
  {
    seq(|coords|, k requires 0 <= k < |coords| => KCell(coords[k].0, coords[k].1))
  }

  /** The lookup loop over all cages, built up one cage at a time. */
  function BuildLookups(cages: seq<Cage>): (r: Result<Lookups>)
    ensures r.Success? <==> AllOnBoard(cages)
    ensures r.Failure? ==> r.error == MissingKey
    ensures r.Success? ==> IndexesCages(r.value, cages) && ByCellIndexes(r.value, cages)
  {
    if |cages| == 0 then Success(EmptyLookups())
    else
      var n := |cages| - 1;
      var front := cages[..n];
      AllOnBoardSplit(cages);
      match BuildLookups(front)
      case Failure(e) => Failure(e)
      case Success(lk) =>
        var r := AddCells(lk, n, cages[n].cells);
        if r.Success? then
          StepListed(cages, lk, r.value);
          StepByCell(cages, lk, r.value);
          r
        else r
  }

  /** A region lists exactly the cages with a cell in it. */
  ghost predicate IndexesCages(lk: Lookups, cages: seq<Cage>) {
    && LookupsShaped(lk)
    && forall reg, i {:trigger i in Listed(lk, reg)} {:trigger HasCellIn(cages[i].cells, reg)} :: ValidRegion(reg) ==>
      (i in Listed(lk, reg) <==> 0 <= i < |cages| && HasCellIn(cages[i].cells, reg))
  }

  /** `cageLookupByCell` has a key for every cell of every cage, and it
      names the last cage holding that cell: a later cage's entry overwrites
      an earlier one's. */
  ghost predicate ByCellIndexes(lk: Lookups, cages: seq<Cage>) {
    && (forall p :: p in lk.byCell <==> exists j :: 0 <= j < |cages| && p in CellCoords(cages[j].cells))
    && (forall p :: p in lk.byCell ==> ByCellFacts(cages, p, lk.byCell[p]))
  }

  ghost predicate ByCellFacts(cages: seq<Cage>, p: Coord, j: nat) {
    && j < |cages| && p in CellCoords(cages[j].cells)
    && forall i :: j < i < |cages| ==> p !in CellCoords(cages[i].cells)
  }

  /** What `AddCells` promises about the region lists. */
  ghost predicate ListsCells(lk: Lookups, lk2: Lookups, j: nat, cells: seq<KCell>) {
    && LookupsShaped(lk) && LookupsShaped(lk2)
    && forall reg, i :: ValidRegion(reg) ==>
      (i in Listed(lk2, reg) <==> i in Listed(lk, reg) || (i == j && HasCellIn(cells, reg)))
  }

  /** What `AddCells` promises about `cageLookupByCell`. */
  ghost predicate RecordsCells(lk: Lookups, lk2: Lookups, j: nat, cells: seq<KCell>) {
    && lk2.byCell.Keys == lk.byCell.Keys + CellCoords(cells)
    && forall p :: p in lk2.byCell ==> lk2.byCell[p] == if p in CellCoords(cells) then j else lk.byCell[p]
  }

  lemma StepListed(cages: seq<Cage>, lk: Lookups, lk2: Lookups)
    requires |cages| > 0 && IndexesCages(lk, cages[..|cages| - 1])
    requires ListsCells(lk, lk2, |cages| - 1, cages[|cages| - 1].cells)
    ensures IndexesCages(lk2, cages)
  {
    var n := |cages| - 1;
    forall reg, i | ValidRegion(reg)
      ensures i in Listed(lk2, reg) <==> 0 <= i < |cages| && HasCellIn(cages[i].cells, reg)
    {
      assert i in Listed(lk2, reg) <==> i in Listed(lk, reg) || (i == n && HasCellIn(cages[n].cells, reg));
      assert i in Listed(lk, reg) <==> 0 <= i < n && HasCellIn(cages[..n][i].cells, reg);
      if 0 <= i < n {
        assert cages[..n][i] == cages[i];
      }
    }
  }

  lemma StepByCell(cages: seq<Cage>, lk: Lookups, lk2: Lookups)
    requires |cages| > 0 && ByCellIndexes(lk, cages[..|cages| - 1])
    requires RecordsCells(lk, lk2, |cages| - 1, cages[|cages| - 1].cells)
    ensures ByCellIndexes(lk2, cages)
  {
    StepByCellKeys(cages, lk, lk2);
    StepByCellFacts(cages, lk, lk2);
  }

  lemma StepByCellFacts(cages: seq<Cage>, lk: Lookups, lk2: Lookups)
    requires |cages| > 0 && ByCellIndexes(lk, cages[..|cages| - 1])
    requires RecordsCells(lk, lk2, |cages| - 1, cages[|cages| - 1].cells)
    ensures forall p :: p in lk2.byCell ==> ByCellFacts(cages, p, lk2.byCell[p])
  {
    var n := |cages| - 1;
    var front := cages[..n];
    forall p | p in lk2.byCell
      ensures ByCellFacts(cages, p, lk2.byCell[p])
    {
      if p !in CellCoords(cages[n].cells) {
        var j := lk.byCell[p];
        assert ByCellFacts(front, p, j);
        assert front[j] == cages[j];
        forall i | j < i < |cages|
          ensures p !in CellCoords(cages[i].cells)
        {
          if i < n {
            assert front[i] == cages[i];
          }
        }
      }
    }
  }

  lemma StepByCellKeys(cages: seq<Cage>, lk: Lookups, lk2: Lookups)
    requires |cages| > 0 && ByCellIndexes(lk, cages[..|cages| - 1])
    requires RecordsCells(lk, lk2, |cages| - 1, cages[|cages| - 1].cells)
    ensures forall p :: p in lk2.byCell <==> exists j :: 0 <= j < |cages| && p in CellCoords(cages[j].cells)
  {
    var n := |cages| - 1;
    var front := cages[..n];
    forall p | p in lk2.byCell
      ensures exists j :: 0 <= j < |cages| && p in CellCoords(cages[j].cells)
    {
      if p !in CellCoords(cages[n].cells) {
        var j :| 0 <= j < |front| && p in CellCoords(front[j].cells);
        assert front[j] == cages[j];
      }
    }
    forall p | exists j :: 0 <= j < |cages| && p in CellCoords(cages[j].cells)
      ensures p in lk2.byCell
    {
      var j :| 0 <= j < |cages| && p in CellCoords(cages[j].cells);
      if j < n {
        assert front[j] == cages[j];
        assert p in CellCoords(front[j].cells);
      }
    }
  }

  /** The engine state. `values` maps every board coordinate to the placed
      digit, `None` for the source's blank `' '`. */
  datatype KGrid = KGrid(
    cages: seq<Cage>,
    lookups: Lookups,
    rowCandidates: map<int, seq<int>>,
    columnCandidates: map<int, seq<int>>,
    groupCandidates: map<Coord, seq<int>>,
    values: map<Coord, Option<int>>)

  /** The invariant the methods of `Grid` keep: the dictionaries have the
      keys `__init__` creates, the region lookups list exactly the cages
      with a cell in the region, and every cage has candidate lists that fit
      its cells. */
  ghost predicate Wf(g: KGrid) {
    && IndexesCages(g.lookups, g.cages)
    && (forall i :: i in g.rowCandidates <==> InNine(i))
    && (forall i :: i in g.columnCandidates <==> InNine(i))
    && (forall q :: q in g.groupCandidates <==> InThree(q.0) && InThree(q.1))
    && (forall p :: p in g.values <==> OnBoard(p))
    && forall j :: 0 <= j < |g.cages| ==> g.cages[j].candidateLists.Some? && ListsFit(g.cages[j])
  }

  /** `range(1, 10)`. */
  function DigitList(): (s: seq<int>)
    ensures |s| == 9 && forall i :: 0 <= i < 9 ==> s[i] == i + 1
  {
    [1, 2, 3, 4, 5, 6, 7, 8, 9]
  }

  function BlankValues(): (m: map<Coord, Option<int>>)
    ensures forall p :: p in m <==> OnBoard(p)
    ensures forall p :: p in m ==> m[p] == None
  {
    map x: int, y: int | 0 <= x < 9 && 0 <= y < 9 :: (x, y) := None
  }

  /** Some list of 1..maxSize distinct digits sums to `total`: exactly the
      totals the generator has a key for. */
  ghost predicate Reachable(total: int, maxSize: int) {
    exists e :: IsCandidateList(e, maxSize) && Sum(e) == total
  }

  /** The loop of `__init__` that asks the generator for each cage's lists;
      a total the generator has no key for raises KeyError. */
  function AssignLists(gen: Generator, cages: seq<Cage>): (r: Result<seq<Cage>>)
    ensures r.Failure? <==> exists j :: 0 <= j < |cages| && cages[j].total !in gen.candidateListsByTotal
    ensures r.Failure? ==> r.error == MissingKey
    ensures r.Success? ==> AssignedLists(gen, cages, r.value)
  {
    if |cages| == 0 then Success([])
    else
      match GetPermutedCandidateLists(gen, cages[0].total, |cages[0].cells|)
      case Failure(e) => Failure(e)
      case Success(lists) =>
        match AssignLists(gen, cages[1..])
        case Failure(e) => Failure(e)
        case Success(rest) =>
          AssignListsStep(gen, cages, lists, rest);
          Success([cages[0].(candidateLists := Some(lists))] + rest)
  }

  /** Each cage gets the lists for its total and size. */
  ghost predicate AssignedLists(gen: Generator, cages: seq<Cage>, r: seq<Cage>) {
    && |r| == |cages|
    && forall j :: 0 <= j < |cages| ==>
      && r[j].total == cages[j].total && r[j].cells == cages[j].cells
      && cages[j].total in gen.candidateListsByTotal
      && r[j].candidateLists == Some(GetPermutedCandidateLists(gen, cages[j].total, |cages[j].cells|).value)
  }

  lemma {:induction false} AssignListsStep(gen: Generator, cages: seq<Cage>, lists: Lists, rest: seq<Cage>)
    requires |cages| > 0
    requires GetPermutedCandidateLists(gen, cages[0].total, |cages[0].cells|) == Success(lists)
    requires AssignedLists(gen, cages[1..], rest)
    ensures AssignedLists(gen, cages, [cages[0].(candidateLists := Some(lists))] + rest)
  {
    var r := [cages[0].(candidateLists := Some(lists))] + rest;
    forall j | 0 < j < |cages|
      ensures r[j] == rest[j - 1] && cages[j] == cages[1..][j - 1]
    {
    }
  }

  function InitialCages(defs: seq<CageDef>): (cages: seq<Cage>)
    ensures |cages| == |defs|
    ensures forall j :: 0 <= j < |defs| ==> cages[j] == NewCage(defs[j].total, ToCells(defs[j].cells))
  {
    seq(|defs|, j requires 0 <= j < |defs| => NewCage(defs[j].total, ToCells(defs[j].cells)))
  }

  ghost predicate DefsOnBoard(defs: seq<CageDef>) {
    forall j, k :: 0 <= j < |defs| && 0 <= k < |defs[j].cells| ==> OnBoard(defs[j].cells[k])
  }

  /** The lists `__init__` gives cage j: every ordering of |cells| distinct
      digits summing to the total, each exactly once. */
  ghost predicate HoldsAllOrderings(c: Cage) {
    && c.candidateLists.Some?
    && forall e :: (multiset(c.candidateLists.value)[e] ==
      if IsCandidateList(e, |c.cells|) && |e| == |c.cells| && Sum(e) == c.total then 1 else 0)
  }

  /** The state `Grid.__init__` leaves: the invariant holds, cage j has the
      total and cells of definition j and holds each ordering of distinct
      digits that fills it and reaches its total exactly once,
      `cageLookupByCell` is filled, every row, column and group has all nine
      digits free and no cell has a value. */
  ghost predicate InitialState(defs: seq<CageDef>, g: KGrid) {
    && Wf(g) && |g.cages| == |defs|
    && (forall j :: 0 <= j < |defs| ==>
      g.cages[j].total == defs[j].total && g.cages[j].cells == ToCells(defs[j].cells))
    && (forall j :: 0 <= j < |defs| ==> HoldsAllOrderings(g.cages[j]))
    && ByCellIndexes(g.lookups, g.cages)
    && (forall i :: InNine(i) ==> g.rowCandidates[i] == DigitList() && g.columnCandidates[i] == DigitList())
    && (forall q :: q in g.groupCandidates ==> g.groupCandidates[q] == DigitList())
    && (forall p :: OnBoard(p) ==> g.values[p] == None)
  }

  /** `Grid.__init__` on the decoded puzzle. It fails with KeyError exactly
      when a cell lies off the board or when no list of at most
      maxCageSize distinct digits reaches some cage's total. */
  function NewKGrid(defs: seq<CageDef>): (r: Result<KGrid>)
    ensures r.Success? <==> DefsOnBoard(defs) && AllReachable(defs, MaxCageSize(defs))
    ensures r.Failure? ==> r.error == MissingKey
    ensures r.Success? ==> InitialState(defs, r.value)
  {
    var cages0 := InitialCages(defs);
    InitialCagesOnBoard(defs);
    match BuildLookups(cages0)
    case Failure(e) => Failure(e)
    case Success(lk) =>
      var maxSize := MaxCageSize(defs);
      var gen := NewGenerator(maxSize);
      TotalsReachable(defs, maxSize);
      match AssignLists(gen, cages0)
      case Failure(e) => Failure(e)
      case Success(cages) =>
        var g := KGrid(cages, lk, ByIndex(DigitList()), ByIndex(DigitList()), ByGroup(DigitList()), BlankValues());
        InitialGrid(defs, gen, cages0, g);
        Success(g)
  }

  lemma {:induction false} InitialGrid(defs: seq<CageDef>, gen: Generator, cages0: seq<Cage>, g: KGrid)
    requires gen == NewGenerator(MaxCageSize(defs)) && cages0 == InitialCages(defs)
    requires AssignLists(gen, cages0) == Success(g.cages)
    requires IndexesCages(g.lookups, cages0) && ByCellIndexes(g.lookups, cages0)
    requires g.rowCandidates == ByIndex(DigitList()) && g.columnCandidates == ByIndex(DigitList())
    requires g.groupCandidates == ByGroup(DigitList()) && g.values == BlankValues()
    ensures InitialState(defs, g)
  {
    InitialLists(defs, gen, cages0, g.cages);
    InitialGridWf(defs, cages0, g);
  }

  /** Two cage sequences that differ at most in their candidate lists. */
  ghost predicate SameCages(a: seq<Cage>, b: seq<Cage>) {
    |a| == |b| && forall j :: 0 <= j < |a| ==> a[j].total == b[j].total && a[j].cells == b[j].cells
  }

  /** Replacing the candidate lists leaves the lookups valid. */
  lemma {:induction false} SameCagesIndexes(lk: Lookups, a: seq<Cage>, b: seq<Cage>)
    requires SameCages(a, b)
    ensures IndexesCages(lk, a) ==> IndexesCages(lk, b)
    ensures ByCellIndexes(lk, a) ==> ByCellIndexes(lk, b)
  {
    if ByCellIndexes(lk, a) {
      forall p | p in lk.byCell
        ensures ByCellFacts(b, p, lk.byCell[p])
      {
        assert ByCellFacts(a, p, lk.byCell[p]);
      }
    }
  }

  lemma {:induction false} InitialGridWf(defs: seq<CageDef>, cages0: seq<Cage>, g: KGrid)
    requires cages0 == InitialCages(defs) && SameCages(cages0, g.cages)
    requires IndexesCages(g.lookups, cages0) && ByCellIndexes(g.lookups, cages0)
    requires forall j :: 0 <= j < |g.cages| ==> HoldsAllOrderings(g.cages[j]) && ListsFit(g.cages[j])
    requires g.rowCandidates == ByIndex(DigitList()) && g.columnCandidates == ByIndex(DigitList())
    requires g.groupCandidates == ByGroup(DigitList()) && g.values == BlankValues()
    ensures InitialState(defs, g)
  {
    SameCagesIndexes(g.lookups, cages0, g.cages);
  }

  lemma {:induction false} InitialCagesOnBoard(defs: seq<CageDef>)
    ensures AllOnBoard(InitialCages(defs)) <==> DefsOnBoard(defs)
  {
    var cages := InitialCages(defs);
    if !DefsOnBoard(defs) {
      var j, k :| 0 <= j < |defs| && 0 <= k < |defs[j].cells| && !OnBoard(defs[j].cells[k]);
      assert !CellsOnBoard(cages[j].cells);
    }
  }

  ghost predicate AllReachable(defs: seq<CageDef>, maxSize: int) {
    forall j :: 0 <= j < |defs| ==> Reachable(defs[j].total, maxSize)
  }

  /** The generator has a key for every cage's total exactly when every
      total is reachable. */
  lemma {:induction false} TotalsReachable(defs: seq<CageDef>, maxSize: int)
    ensures var cages := InitialCages(defs);
      AllReachable(defs, maxSize) <==>
      !exists j :: 0 <= j < |cages| && cages[j].total !in NewGenerator(maxSize).candidateListsByTotal
  {
    GeneratorContents(maxSize);
  }

  lemma {:induction false} InitialLists(defs: seq<CageDef>, gen: Generator, cages0: seq<Cage>, cages: seq<Cage>)
    requires gen == NewGenerator(MaxCageSize(defs)) && cages0 == InitialCages(defs)
    requires AssignLists(gen, cages0) == Success(cages)
    ensures SameCages(cages0, cages)
    ensures forall j :: 0 <= j < |defs| ==> HoldsAllOrderings(cages[j]) && ListsFit(cages[j])
  {
    forall j | 0 <= j < |defs|
      ensures HoldsAllOrderings(cages[j]) && ListsFit(cages[j])
    {
      var c := cages[j];
      assert c.candidateLists == Some(GetPermutedCandidateLists(gen, c.total, |c.cells|).value);
      assert |c.cells| <= MaxCageSize(defs);
      OrderingsOfSize(MaxCageSize(defs), c);
    }
  }

  /** Asked of a generator for at least the cage's size, the lists of that
      size are all the orderings that fill the cage. */
  lemma {:induction false} OrderingsOfSize(maxSize: int, c: Cage)
    requires |c.cells| <= maxSize
    requires var r := GetPermutedCandidateLists(NewGenerator(maxSize), c.total, |c.cells|);
      r.Success? && c.candidateLists == Some(r.value)
    ensures HoldsAllOrderings(c) && ListsFit(c)
  {
    PermutedLists(maxSize, c.total, |c.cells|);
    var lists := c.candidateLists.value;
    forall cl | cl in lists
      ensures |cl| <= |c.cells|
    {
      assert multiset(lists)[cl] > 0;
    }
  }

  /** The cage loops of `setCell` for one region: each cage listed under it
      is filtered, in list order. A cage listed several times ends up
      filtered exactly as if listed once. */
  function FilterCages(cages: seq<Cage>, idxs: seq<nat>, reg: Region, v: int): (res: seq<Cage>)
    requires forall i :: i in idxs ==> i < |cages|
    requires forall j :: 0 <= j < |cages| ==> ListsFit(cages[j])
    ensures |res| == |cages|
    ensures forall j :: 0 <= j < |cages| ==> res[j] == if j in idxs then RemoveBy(cages[j], reg, v) else cages[j]
    decreases |idxs|
  {
    if |idxs| == 0 then cages
    else
      var j := idxs[0];
      assert j in idxs && forall i :: i in idxs[1..] ==> i in idxs;
      var res := FilterCages(cages[j := RemoveBy(cages[j], reg, v)], idxs[1..], reg, v);
      RemoveByIdempotent(cages[j], reg, v);
      res
  }

  /** A cage with no cell in the region loses no list to it. */
  lemma RemoveByOutside(c: Cage, r: Region, v: int)
    requires ListsFit(c) && !HasCellIn(c.cells, r)
    ensures RemoveBy(c, r, v) == c
  {
    if c.candidateLists.Some? {
      FilterKeepsAll(c.candidateLists.value, Keeps(c.cells, r, v));
    }
  }

  /** Every cage lies in the lookups' region lists exactly when it has a
      cell there, so filtering the listed cages is filtering every cage. */
  lemma {:induction false} FilterListed(cages: seq<Cage>, lk: Lookups, reg: Region, v: int)
    requires IndexesCages(lk, cages) && ValidRegion(reg)
    requires forall j :: 0 <= j < |cages| ==> ListsFit(cages[j])
    ensures forall i :: i in Listed(lk, reg) ==> i < |cages|
    ensures var res := FilterCages(cages, Listed(lk, reg), reg, v);
      |res| == |cages| && forall j :: 0 <= j < |cages| ==> res[j] == RemoveBy(cages[j], reg, v)
  {
    var res := FilterCages(cages, Listed(lk, reg), reg, v);
    forall j | 0 <= j < |cages|
      ensures res[j] == RemoveBy(cages[j], reg, v)
    {
      if j !in Listed(lk, reg) {
        assert !HasCellIn(cages[j].cells, reg);
        RemoveByOutside(cages[j], reg, v);
      }
    }
  }

  /** One cage loop of `setCell`: every cage listed under the region is
      filtered, which is every cage, each by the same region. */
  function PruneRegion(cages: seq<Cage>, lk: Lookups, reg: Region, v: int): (res: seq<Cage>)
    requires IndexesCages(lk, cages) && ValidRegion(reg)
    requires forall j :: 0 <= j < |cages| ==> ListsFit(cages[j])
    ensures SameCages(cages, res) && IndexesCages(lk, res)
    ensures forall j :: 0 <= j < |res| ==> res[j] == RemoveBy(cages[j], reg, v) && ListsFit(res[j])
  {
    FilterListed(cages, lk, reg, v);
    var res := FilterCages(cages, Listed(lk, reg), reg, v);
    SameCagesIndexes(lk, cages, res);
    res
  }

  /** The three cage loops of `setCell(x, y, v)`: the cages listed under
      column x, then row y, then group (x / 3, y / 3). */
  function PruneCages(g: KGrid, x: int, y: int, v: int): (cages: seq<Cage>)
    requires Wf(g) && InNine(x) && InNine(y)
    ensures SameCages(g.cages, cages) && IndexesCages(g.lookups, cages)
    ensures forall j :: 0 <= j < |cages| ==> (ListsFit(cages[j]) &&
      cages[j] == RemoveBy(RemoveBy(RemoveBy(g.cages[j], Column(x), v), Row(y), v), Group(x / 3, y / 3), v))
  {
    var c1 := PruneRegion(g.cages, g.lookups, Column(x), v);
    var c2 := PruneRegion(c1, g.lookups, Row(y), v);
    PruneRegion(c2, g.lookups, Group(x / 3, y / 3), v)
  }

  /** The lookups `setCell(x, y, v)` reaches without an exception: keys x
      and y exist and v is still free in column x, row y and the group. */
  predicate Placeable(g: KGrid, x: int, y: int, v: int)
    requires Wf(g)
  {
    && InNine(x) && InNine(y)
    && v in g.columnCandidates[x] && v in g.rowCandidates[y] && v in g.groupCandidates[(x / 3, y / 3)]
  }

  /** `setCell(x, y, v)`. The checks run in the source's order: the column
      key (KeyError), v in the column's list (ValueError), the row key, v in
      the row's list, v in the group's list. On success v is placed, one
      occurrence of it leaves the column's, row's and group's free digits,
      nothing else there changes, and each cage keeps its total and cells
      and a subsequence of its lists. */
  function KSetCell(g: KGrid, x: int, y: int, v: int): (r: Result<KGrid>)
    requires Wf(g)
    ensures r.Success? <==> Placeable(g, x, y, v)
    ensures r.Failure? ==>
      r.error == if !InNine(x) || (v in g.columnCandidates[x] && !InNine(y)) then MissingKey else MissingValue
    ensures r.Success? ==> Wf(r.value) && r.value.lookups == g.lookups
    ensures r.Success? ==> r.value.values == g.values[(x, y) := Some(v)]
    ensures r.Success? ==>
      (multiset(r.value.columnCandidates[x]) == multiset(g.columnCandidates[x]) - multiset{v}
       && forall i :: InNine(i) && i != x ==> r.value.columnCandidates[i] == g.columnCandidates[i])
    ensures r.Success? ==>
      (multiset(r.value.rowCandidates[y]) == multiset(g.rowCandidates[y]) - multiset{v}
       && forall i :: InNine(i) && i != y ==> r.value.rowCandidates[i] == g.rowCandidates[i])
    ensures r.Success? ==> var q := (x / 3, y / 3);
      multiset(r.value.groupCandidates[q]) == multiset(g.groupCandidates[q]) - multiset{v}
      && forall q' :: q' in g.groupCandidates && q' != q ==> r.value.groupCandidates[q'] == g.groupCandidates[q']
    ensures r.Success? ==> SameCages(g.cages, r.value.cages) && forall j :: 0 <= j < |g.cages| ==>
      IsSubsequence(r.value.cages[j].candidateLists.value, g.cages[j].candidateLists.value)
  {
    if !InNine(x) then Failure(MissingKey)
    else if v !in g.columnCandidates[x] then Failure(MissingValue)
    else if !InNine(y) then Failure(MissingKey)
    else if v !in g.rowCandidates[y] then Failure(MissingValue)
    else if v !in g.groupCandidates[(x / 3, y / 3)] then Failure(MissingValue)
    else
      var q := (x / 3, y / 3);
      var cages := PruneCages(g, x, y, v);
      PrunedSubsequence(g, x, y, v);
      Success(g.(
        values := g.values[(x, y) := Some(v)],
        columnCandidates := g.columnCandidates[x := RemoveFirst(g.columnCandidates[x], v)],
        rowCandidates := g.rowCandidates[y := RemoveFirst(g.rowCandidates[y], v)],
        groupCandidates := g.groupCandidates[q := RemoveFirst(g.groupCandidates[q], v)],
        cages := cages))
  }

  /** Each pruned cage keeps a subsequence of its lists. */
  lemma {:induction false} PrunedSubsequence(g: KGrid, x: int, y: int, v: int)
    requires Wf(g) && InNine(x) && InNine(y)
    ensures var cages := PruneCages(g, x, y, v);
      forall j :: 0 <= j < |g.cages| ==> (cages[j].candidateLists.Some? &&
        IsSubsequence(cages[j].candidateLists.value, g.cages[j].candidateLists.value))
  {
    var cages := PruneCages(g, x, y, v);
    forall j | 0 <= j < |g.cages|
      ensures cages[j].candidateLists.Some?
      ensures IsSubsequence(cages[j].candidateLists.value, g.cages[j].candidateLists.value)
    {
      var c0 := g.cages[j];
      var c1 := RemoveBy(c0, Column(x), v);
      var c2 := RemoveBy(c1, Row(y), v);
      var c3 := RemoveBy(c2, Group(x / 3, y / 3), v);
      SubsequenceTransitive(c3.candidateLists.value, c2.candidateLists.value, c1.candidateLists.value);
      SubsequenceTransitive(c3.candidateLists.value, c1.candidateLists.value, c0.candidateLists.value);
    }
  }

  /** The digits still free in a region: `columnCandidates[x]`,
      `rowCandidates[y]` or `groupCandidates[(gx, gy)]`. */
  function Free(g: KGrid, reg: Region): seq<int>
    requires Wf(g) && ValidRegion(reg)
  {
    match reg
    case Column(x) => g.columnCandidates[x]
    case Row(y) => g.rowCandidates[y]
    case Group(gx, gy) => g.groupCandidates[(gx, gy)]
  }

  /** `setCell(x, y, v)` takes exactly one v out of each region holding
      (x, y) and leaves the free digits of every other region alone. */
  lemma {:induction false} SetCellFree(g: KGrid, x: int, y: int, v: int, reg: Region)
    requires Wf(g) && Placeable(g, x, y, v) && ValidRegion(reg)
    ensures multiset(Free(KSetCell(g, x, y, v).value, reg))
      + (if InRegion(KCell(x, y), reg) then multiset{v} else multiset{}) == multiset(Free(g, reg))
  {
    var r := KSetCell(g, x, y, v).value;
    var a, b := Free(g, reg), Free(r, reg);
    if InRegion(KCell(x, y), reg) {
      TakenFrom(g, x, y, v, reg);
      PutBack(a, b, v);
    } else {
      assert b == a by {
        LeftAlone(g, x, y, v, reg);
      }
    }
  }

  lemma {:induction false} TakenFrom(g: KGrid, x: int, y: int, v: int, reg: Region)
    requires Wf(g) && Placeable(g, x, y, v) && ValidRegion(reg) && InRegion(KCell(x, y), reg)
    ensures v in Free(g, reg)
    ensures multiset(Free(KSetCell(g, x, y, v).value, reg)) == multiset(Free(g, reg)) - multiset{v}
  {
  }

  lemma PutBack(a: seq<int>, b: seq<int>, v: int)
    requires v in a && multiset(b) == multiset(a) - multiset{v}
    ensures multiset(b) + multiset{v} == multiset(a)
  {
  }

  lemma {:induction false} LeftAlone(g: KGrid, x: int, y: int, v: int, reg: Region)
    requires Wf(g) && Placeable(g, x, y, v) && ValidRegion(reg) && !InRegion(KCell(x, y), reg)
    ensures Free(KSetCell(g, x, y, v).value, reg) == Free(g, reg)
  {
  }

  /** The lists `setCell(x, y, v)` leaves a cage are exactly those it had
      that put v neither in column x, nor in row y, nor in the group of
      (x, y), each as often as before: the lookups reach every cage the
      placement can affect. */
  lemma {:induction false} SetCellPrunesExactly(g: KGrid, x: int, y: int, v: int)
    requires Wf(g) && Placeable(g, x, y, v)
    ensures forall j, cl :: 0 <= j < |g.cages| ==>
      var c := g.cages[j];
      (cl in KSetCell(g, x, y, v).value.cages[j].candidateLists.value <==>
        && cl in c.candidateLists.value
        && !PutsValueIn(c.cells, cl, Column(x), v)
        && !PutsValueIn(c.cells, cl, Row(y), v)
        && !PutsValueIn(c.cells, cl, Group(x / 3, y / 3), v))
    ensures forall j, cl :: 0 <= j < |g.cages| ==>
      var c := g.cages[j];
      multiset(KSetCell(g, x, y, v).value.cages[j].candidateLists.value)[cl] ==
        if PutsValueIn(c.cells, cl, Column(x), v) || PutsValueIn(c.cells, cl, Row(y), v)
          || PutsValueIn(c.cells, cl, Group(x / 3, y / 3), v)
        then 0
        else multiset(c.candidateLists.value)[cl]
  {
    var cages := KSetCell(g, x, y, v).value.cages;
    assert cages == PruneCages(g, x, y, v);
    forall j, cl | 0 <= j < |g.cages|
      ensures cl in cages[j].candidateLists.value <==>
        && cl in g.cages[j].candidateLists.value
        && !PutsValueIn(g.cages[j].cells, cl, Column(x), v)
        && !PutsValueIn(g.cages[j].cells, cl, Row(y), v)
        && !PutsValueIn(g.cages[j].cells, cl, Group(x / 3, y / 3), v)
      ensures multiset(cages[j].candidateLists.value)[cl] ==
        if PutsValueIn(g.cages[j].cells, cl, Column(x), v) || PutsValueIn(g.cages[j].cells, cl, Row(y), v)
          || PutsValueIn(g.cages[j].cells, cl, Group(x / 3, y / 3), v)
        then 0
        else multiset(g.cages[j].candidateLists.value)[cl]
    {
      var c0 := g.cages[j];
      var c1 := RemoveBy(c0, Column(x), v);
      var c2 := RemoveBy(c1, Row(y), v);
      assert cages[j] == RemoveBy(c2, Group(x / 3, y / 3), v);
    }
  }

  /** A cage with no cell in column x, row y or the group of (x, y) is left
      as it was by `setCell(x, y, v)`. */
  lemma {:induction false} SetCellLeavesOtherCages(g: KGrid, x: int, y: int, v: int, j: int)
    requires Wf(g) && Placeable(g, x, y, v) && 0 <= j < |g.cages|
    requires !HasCellIn(g.cages[j].cells, Column(x)) && !HasCellIn(g.cages[j].cells, Row(y))
    requires !HasCellIn(g.cages[j].cells, Group(x / 3, y / 3))
    ensures KSetCell(g, x, y, v).value.cages[j] == g.cages[j]
  {
    var c0 := g.cages[j];
    RemoveByOutside(c0, Column(x), v);
    RemoveByOutside(c0, Row(y), v);
    RemoveByOutside(c0, Group(x / 3, y / 3), v);
    assert KSetCell(g, x, y, v).value.cages == PruneCages(g, x, y, v);
  }
}
