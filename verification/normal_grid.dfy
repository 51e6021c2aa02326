/** The classic-Sudoku grid of normal.py: 81 cells keyed by (x, y), each with
    an optional value, one boolean candidate flag per digit and a cached
    count of the raised flags. Every mutating method of the source is a pure
    function here that returns the new grid. */
module NormalGrid {
  import opened Wrappers
  import opened Digits

  /** Grid coordinates (x, y): x is the column, y the row. `KillerGrid`
      has its own `Coord` and `OnBoard`: the two engines share no code. */
  type Pos = (int, int)

  predicate OnBoard(p: Pos) {
    0 <= p.0 < 9 && 0 <= p.1 < 9
  }

  /** Two positions share a column, a row or a 3x3 box. Every position is
      its own peer. */
  predicate Peer(p: Pos, q: Pos) {
    q.0 == p.0 || q.1 == p.1 || (q.0 / 3 == p.0 / 3 && q.1 / 3 == p.1 / 3)
  }

  /** One grid square. The flag of digit d is `candidates[d - 1]`. */
  datatype Cell = Cell(x: int, y: int, value: Option<int>, candidates: seq<bool>, candidateCount: int)

  /** Number of raised flags. */
  function CountTrue(s: seq<bool>): nat {
    if |s| == 0 then 0 else (if s[0] then 1 else 0) + CountTrue(s[1..])
  }

  lemma {:induction false} CountTrueUpdate(s: seq<bool>, i: int, b: bool)
    requires 0 <= i < |s|
    ensures CountTrue(s[i := b]) == CountTrue(s) - (if s[i] then 1 else 0) + (if b then 1 else 0)
    decreases |s|
  {
    if i == 0 {
      assert s[i := b][1..] == s[1..];
    } else {
      assert s[i := b][1..] == s[1..][i - 1 := b];
      CountTrueUpdate(s[1..], i - 1, b);
    }
  }

  lemma {:induction false} CountTrueBound(s: seq<bool>)
    ensures CountTrue(s) <= |s|
    decreases |s|
  {
    if |s| > 0 {
      CountTrueBound(s[1..]);
    }
  }

  lemma {:induction false} CountTrueAllRaised(s: seq<bool>)
    requires forall i :: 0 <= i < |s| ==> s[i]
    ensures CountTrue(s) == |s|
    decreases |s|
  {
    if |s| > 0 {
      CountTrueAllRaised(s[1..]);
    }
  }

  function HasCandidate(c: Cell, d: int): bool
    requires |c.candidates| == 9 && IsDigit(d)
  {
    c.candidates[d - 1]
  }

  /** The cached count agrees with the flags and a stored value is a digit. */
  predicate CellWf(c: Cell) {
    && |c.candidates| == 9
    && c.candidateCount == CountTrue(c.candidates)
    && (c.value.Some? ==> IsDigit(c.value.value))
  }

  /** `Cell.__init__`: every digit is a candidate. */
  function NewCell(x: int, y: int, value: Option<int>): (c: Cell)
    ensures c.x == x && c.y == y && c.value == value
    ensures |c.candidates| == 9 && forall d :: IsDigit(d) ==> HasCandidate(c, d)
    ensures c.candidateCount == 9 && c.candidateCount == CountTrue(c.candidates)
  {
    var flags := seq(9, _ => true);
    CountTrueAllRaised(flags);
    Cell(x, y, value, flags, 9)
  }

  datatype Grid = Grid(cells: map<Pos, Cell>, numSetCells: int)

  /** Every board position, and nothing else, holds a cell that knows its
      own coordinates and has nine flags: what the source's indexing needs. */
  ghost predicate Shaped(g: Grid) {
    && (forall p :: p in g.cells <==> OnBoard(p))
    && (forall p :: p in g.cells ==> g.cells[p].x == p.0 && g.cells[p].y == p.1 && |g.cells[p].candidates| == 9)
  }

  /** Shaped, and every cell's cached count equals its number of raised flags. */
  ghost predicate Wf(g: Grid) {
    Shaped(g) && forall p :: p in g.cells ==> CellWf(g.cells[p])
  }

  function Flag(g: Grid, p: Pos, d: int): bool
    requires p in g.cells && |g.cells[p].candidates| == 9 && IsDigit(d)
  {
    HasCandidate(g.cells[p], d)
  }

  ghost function Assigned(g: Grid): set<Pos> {
    set p | p in g.cells && g.cells[p].value.Some?
  }

  ghost function Unassigned(g: Grid): set<Pos> {
    set p | p in g.cells && g.cells[p].value.None?
  }

  /** `numSetCells` counts the cells that hold a value. */
  ghost predicate Consistent(g: Grid) {
    g.numSetCells == |Assigned(g)|
  }

  /** The two grids hold the same values everywhere. */
  ghost predicate SameValues(a: Grid, b: Grid)
    requires Shaped(a) && Shaped(b)
  {
    forall p :: OnBoard(p) ==> a.cells[p].value == b.cells[p].value
  }

  /** `a` keeps every value `b` holds (and may hold more). */
  ghost predicate Extends(a: Grid, b: Grid)
    requires Shaped(a) && Shaped(b)
  {
    forall p :: OnBoard(p) && b.cells[p].value.Some? ==> a.cells[p].value == b.cells[p].value
  }

  /** `Grid.__init__`: 81 fresh cells and no value set. */
  function NewGrid(): (g: Grid)
    ensures Wf(g) && Consistent(g)
    ensures g.numSetCells == 0
    ensures forall p :: OnBoard(p) ==> g.cells[p].value.None? && g.cells[p].candidateCount == 9
    ensures forall p, d :: OnBoard(p) && IsDigit(d) ==> Flag(g, p, d)
  {
    var g := Grid(map x: int, y: int | 0 <= x < 9 && 0 <= y < 9 :: (x, y) := NewCell(x, y, None), 0);
    assert Assigned(g) == {};
    g
  }

  /** `isSolved`. */
  predicate IsSolved(g: Grid) {
    g.numSetCells == 9 * 9
  }

  /** `removeCandidate`: lower the flag of `value` at (x, y), and the count
      with it when the flag was raised. */
  function RemoveCandidate(g: Grid, x: int, y: int, value: int): (r: Grid)
    requires (x, y) in g.cells && |g.cells[(x, y)].candidates| == 9 && IsDigit(value)
    ensures r.cells.Keys == g.cells.Keys && r.numSetCells == g.numSetCells
    ensures |r.cells[(x, y)].candidates| == 9 && !Flag(r, (x, y), value)
    ensures r.cells[(x, y)].candidateCount ==
      if Flag(g, (x, y), value) then g.cells[(x, y)].candidateCount - 1 else g.cells[(x, y)].candidateCount
    ensures forall d :: IsDigit(d) && d != value ==> Flag(r, (x, y), d) == Flag(g, (x, y), d)
    ensures r.cells[(x, y)].value == g.cells[(x, y)].value
    ensures forall q :: q in g.cells && q != (x, y) ==> r.cells[q] == g.cells[q]
    ensures CellWf(g.cells[(x, y)]) ==> CellWf(r.cells[(x, y)])
    ensures Shaped(g) ==> Shaped(r)
    ensures Wf(g) ==> Wf(r)
  {
    var c := g.cells[(x, y)];
    if c.candidates[value - 1] then
      CountTrueUpdate(c.candidates, value - 1, false);
      var c' := c.(candidates := c.candidates[value - 1 := false], candidateCount := c.candidateCount - 1);
      g.(cells := g.cells[(x, y) := c'])
    else
      g
  }

  /** `addCandidate`: the mirror image of `RemoveCandidate`. */
  function AddCandidate(g: Grid, x: int, y: int, value: int): (r: Grid)
    requires (x, y) in g.cells && |g.cells[(x, y)].candidates| == 9 && IsDigit(value)
    ensures r.cells.Keys == g.cells.Keys && r.numSetCells == g.numSetCells
    ensures |r.cells[(x, y)].candidates| == 9 && Flag(r, (x, y), value)
    ensures r.cells[(x, y)].candidateCount ==
      if Flag(g, (x, y), value) then g.cells[(x, y)].candidateCount else g.cells[(x, y)].candidateCount + 1
    ensures forall d :: IsDigit(d) && d != value ==> Flag(r, (x, y), d) == Flag(g, (x, y), d)
    ensures r.cells[(x, y)].value == g.cells[(x, y)].value
    ensures forall q :: q in g.cells && q != (x, y) ==> r.cells[q] == g.cells[q]
    ensures CellWf(g.cells[(x, y)]) ==> CellWf(r.cells[(x, y)])
    ensures Shaped(g) ==> Shaped(r)
    ensures Wf(g) ==> Wf(r)
  {
    var c := g.cells[(x, y)];
    if !c.candidates[value - 1] then
      CountTrueUpdate(c.candidates, value - 1, true);
      var c' := c.(candidates := c.candidates[value - 1 := true], candidateCount := c.candidateCount + 1);
      g.(cells := g.cells[(x, y) := c'])
    else
      g
  }

  /** The cells `setCell` and `unsetCell` visit, in call order: column x and
      row y interleaved (`(x, i)` then `(i, y)` for i = 0..8), then the box
      column by column (x offset k / 3, y offset k % 3). Python 2's `/` on
      these non-negative ints is Dafny's `/`. */
  function Targets(x: int, y: int): seq<Pos> {
    seq(18, k => if k % 2 == 0 then (x, k / 2) else (k / 2, y)) +
    seq(9, k => ((x / 3) * 3 + k / 3, (y / 3) * 3 + k % 3))
  }

  /** The visited cells are exactly the peers of (x, y). */
  lemma {:induction false} TargetsArePeers(x: int, y: int)
    requires OnBoard((x, y))
    ensures forall i :: 0 <= i < |Targets(x, y)| ==> OnBoard(Targets(x, y)[i])
    ensures forall q :: q in Targets(x, y) <==> OnBoard(q) && Peer((x, y), q)
  {
    var t := Targets(x, y);
    forall q | OnBoard(q) && Peer((x, y), q)
      ensures q in t
    {
      if q.0 == x {
        assert t[2 * q.1] == q;
      } else if q.1 == y {
        assert t[2 * q.0 + 1] == q;
      } else {
        var i, j := q.0 - (x / 3) * 3, q.1 - (y / 3) * 3;
        assert 0 <= i < 3 && 0 <= j < 3;
        assert t[18 + 3 * i + j] == q;
      }
    }
  }

  /** `removeCandidate` applied at each position of `ps` in turn. */
  function RemoveAll(g: Grid, ps: seq<Pos>, value: int): (r: Grid)
    requires Shaped(g) && IsDigit(value)
    requires forall i :: 0 <= i < |ps| ==> OnBoard(ps[i])
    ensures Shaped(r) && r.numSetCells == g.numSetCells
    ensures Wf(g) ==> Wf(r)
    ensures forall q :: OnBoard(q) ==> r.cells[q].value == g.cells[q].value
    ensures forall q :: OnBoard(q) ==> Flag(r, q, value) == (Flag(g, q, value) && q !in ps)
    ensures forall q, d :: OnBoard(q) && IsDigit(d) && d != value ==> Flag(r, q, d) == Flag(g, q, d)
    decreases |ps|
  {
    if |ps| == 0 then g
    else
      var r := RemoveAll(RemoveCandidate(g, ps[0].0, ps[0].1, value), ps[1..], value);
      RemoveStep(g, ps, value, r);
      r
  }

  /** One step of `RemoveAll`: lowering the flag at `ps[0]` and then along
      the rest of `ps` lowers it along all of `ps`. */
  lemma {:induction false} RemoveStep(g: Grid, ps: seq<Pos>, value: int, r: Grid)
    requires Shaped(g) && IsDigit(value) && |ps| > 0 && OnBoard(ps[0]) && Shaped(r)
    requires var h := RemoveCandidate(g, ps[0].0, ps[0].1, value);
      && r.numSetCells == h.numSetCells
      && (Wf(h) ==> Wf(r))
      && (forall q :: OnBoard(q) ==> r.cells[q].value == h.cells[q].value)
      && (forall q :: OnBoard(q) ==> Flag(r, q, value) == (Flag(h, q, value) && q !in ps[1..]))
      && (forall q, d :: OnBoard(q) && IsDigit(d) && d != value ==> Flag(r, q, d) == Flag(h, q, d))
    ensures r.numSetCells == g.numSetCells
    ensures Wf(g) ==> Wf(r)
    ensures forall q :: OnBoard(q) ==> r.cells[q].value == g.cells[q].value
    ensures forall q :: OnBoard(q) ==> Flag(r, q, value) == (Flag(g, q, value) && q !in ps)
    ensures forall q, d :: OnBoard(q) && IsDigit(d) && d != value ==> Flag(r, q, d) == Flag(g, q, d)
  {
    assert ps == [ps[0]] + ps[1..];
  }

  /** `addCandidate` applied at each position of `ps` in turn. */
  function AddAll(g: Grid, ps: seq<Pos>, value: int): (r: Grid)
    requires Shaped(g) && IsDigit(value)
    requires forall i :: 0 <= i < |ps| ==> OnBoard(ps[i])
    ensures Shaped(r) && r.numSetCells == g.numSetCells
    ensures Wf(g) ==> Wf(r)
    ensures forall q :: OnBoard(q) ==> r.cells[q].value == g.cells[q].value
    ensures forall q :: OnBoard(q) ==> Flag(r, q, value) == (Flag(g, q, value) || q in ps)
    ensures forall q, d :: OnBoard(q) && IsDigit(d) && d != value ==> Flag(r, q, d) == Flag(g, q, d)
    decreases |ps|
  {
    if |ps| == 0 then g
    else
      var r := AddAll(AddCandidate(g, ps[0].0, ps[0].1, value), ps[1..], value);
      AddStep(g, ps, value, r);
      r
  }

  /** One step of `AddAll`: raising the flag at `ps[0]` and then along the
      rest of `ps` raises it along all of `ps`. */
  lemma {:induction false} AddStep(g: Grid, ps: seq<Pos>, value: int, r: Grid)
    requires Shaped(g) && IsDigit(value) && |ps| > 0 && OnBoard(ps[0]) && Shaped(r)
    requires var h := AddCandidate(g, ps[0].0, ps[0].1, value);
      && r.numSetCells == h.numSetCells
      && (Wf(h) ==> Wf(r))
      && (forall q :: OnBoard(q) ==> r.cells[q].value == h.cells[q].value)
      && (forall q :: OnBoard(q) ==> Flag(r, q, value) == (Flag(h, q, value) || q in ps[1..]))
      && (forall q, d :: OnBoard(q) && IsDigit(d) && d != value ==> Flag(r, q, d) == Flag(h, q, d))
    ensures r.numSetCells == g.numSetCells
    ensures Wf(g) ==> Wf(r)
    ensures forall q :: OnBoard(q) ==> r.cells[q].value == g.cells[q].value
    ensures forall q :: OnBoard(q) ==> Flag(r, q, value) == (Flag(g, q, value) || q in ps)
    ensures forall q, d :: OnBoard(q) && IsDigit(d) && d != value ==> Flag(r, q, d) == Flag(g, q, d)
  {
    assert ps == [ps[0]] + ps[1..];
  }

  /** The grid with the value at (x, y) replaced and the counter set to
      `count`; no flag changes. */
  function WithValue(g: Grid, x: int, y: int, v: Option<int>, count: int): (r: Grid)
    requires Shaped(g) && OnBoard((x, y)) && (v.Some? ==> IsDigit(v.value))
    ensures Shaped(r) && (Wf(g) ==> Wf(r)) && r.numSetCells == count
    ensures r.cells[(x, y)].value == v
    ensures forall q :: OnBoard(q) && q != (x, y) ==> r.cells[q].value == g.cells[q].value
    ensures forall q, d :: OnBoard(q) && IsDigit(d) ==> Flag(r, q, d) == Flag(g, q, d)
  {
    Grid(g.cells[(x, y) := g.cells[(x, y)].(value := v)], count)
  }

  /** `setCell`: store `value` at (x, y), count it, and lower its flag in
      every cell of column x, row y and the box, (x, y) included. Nothing
      checks that the cell was empty or that `value` was a candidate. */
  function SetCell(g: Grid, x: int, y: int, value: int): (r: Grid)
    requires Shaped(g) && OnBoard((x, y)) && IsDigit(value)
    ensures Shaped(r)
    ensures Wf(g) ==> Wf(r)
    ensures r.numSetCells == g.numSetCells + 1
    ensures r.cells[(x, y)].value == Some(value)
    ensures forall q :: OnBoard(q) && q != (x, y) ==> r.cells[q].value == g.cells[q].value
    ensures forall q :: OnBoard(q) ==> Flag(r, q, value) == (Flag(g, q, value) && !Peer((x, y), q))
    ensures forall q, d :: OnBoard(q) && IsDigit(d) && d != value ==> Flag(r, q, d) == Flag(g, q, d)
  {
    var placed := WithValue(g, x, y, Some(value), g.numSetCells + 1);
    TargetsArePeers(x, y);
    RemoveAll(placed, Targets(x, y), value)
  }

  /** `unsetCell`: clear (x, y), uncount it, and raise the old value's flag
      in every cell of column x, row y and the box, whether or not another
      placement still excludes it there. The old value must be a digit
      (looking up the flag of `None` raises KeyError). */
  function UnsetCell(g: Grid, x: int, y: int): (r: Grid)
    requires Shaped(g) && OnBoard((x, y))
    requires g.cells[(x, y)].value.Some? && IsDigit(g.cells[(x, y)].value.value)
    ensures Shaped(r)
    ensures Wf(g) ==> Wf(r)
    ensures r.numSetCells == g.numSetCells - 1
    ensures r.cells[(x, y)].value == None
    ensures forall q :: OnBoard(q) && q != (x, y) ==> r.cells[q].value == g.cells[q].value
    ensures var v := g.cells[(x, y)].value.value;
      forall q :: OnBoard(q) ==> Flag(r, q, v) == (Flag(g, q, v) || Peer((x, y), q))
    ensures var v := g.cells[(x, y)].value.value;
      forall q, d :: OnBoard(q) && IsDigit(d) && d != v ==> Flag(r, q, d) == Flag(g, q, d)
  {
    var value := g.cells[(x, y)].value.value;
    var cleared := WithValue(g, x, y, None, g.numSetCells - 1);
    TargetsArePeers(x, y);
    AddAll(cleared, Targets(x, y), value)
  }

  /** `b` is `a` with the empty cell p filled. */
  lemma {:induction false} FillingOneCell(a: Grid, b: Grid, p: Pos)
    requires Shaped(a) && Shaped(b) && OnBoard(p)
    requires a.cells[p].value.None? && b.cells[p].value.Some?
    requires forall q :: OnBoard(q) && q != p ==> a.cells[q].value == b.cells[q].value
    ensures Assigned(b) == Assigned(a) + {p} && p !in Assigned(a)
    ensures Unassigned(a) == Unassigned(b) + {p} && p !in Unassigned(b)
  {
  }

  /** `setCell` on an empty cell keeps `numSetCells` equal to the number of
      cells holding a value. */
  lemma {:induction false} SetCellConsistent(g: Grid, x: int, y: int, value: int)
    requires Shaped(g) && OnBoard((x, y)) && IsDigit(value)
    requires g.cells[(x, y)].value.None? && Consistent(g)
    ensures Consistent(SetCell(g, x, y, value))
  {
    FillingOneCell(g, SetCell(g, x, y, value), (x, y));
  }

  /** So does `unsetCell` on a cell holding a value. */
  lemma {:induction false} UnsetCellConsistent(g: Grid, x: int, y: int)
    requires Shaped(g) && OnBoard((x, y))
    requires g.cells[(x, y)].value.Some? && IsDigit(g.cells[(x, y)].value.value) && Consistent(g)
    ensures Consistent(UnsetCell(g, x, y))
  {
    FillingOneCell(UnsetCell(g, x, y), g, (x, y));
  }

  /** Two shaped, well-formed grids with the same values, counters and flags
      are equal: the cached counts follow from the flags. */
  lemma {:induction false} GridEquality(a: Grid, b: Grid)
    requires Wf(a) && Wf(b) && a.numSetCells == b.numSetCells
    requires forall p :: OnBoard(p) ==> a.cells[p].value == b.cells[p].value
    requires forall p, d :: OnBoard(p) && IsDigit(d) ==> Flag(a, p, d) == Flag(b, p, d)
    ensures a == b
  {
    forall p | p in a.cells
      ensures a.cells[p] == b.cells[p]
    {
      var ca, cb := a.cells[p], b.cells[p];
      forall i | 0 <= i < 9
        ensures ca.candidates[i] == cb.candidates[i]
      {
        assert Flag(a, p, i + 1) == Flag(b, p, i + 1);
      }
      assert ca.candidates == cb.candidates;
    }
    assert a.cells == b.cells;
  }

  /** The round trip `unsetCell(setCell(g))` is exact when the cell was empty
      and `value` was still a candidate in every one of its peers. */
  lemma {:induction false} SetUnsetRoundTrip(g: Grid, x: int, y: int, value: int)
    requires Wf(g) && OnBoard((x, y)) && IsDigit(value)
    requires g.cells[(x, y)].value == None
    requires forall q :: OnBoard(q) && Peer((x, y), q) ==> Flag(g, q, value)
    ensures UnsetCell(SetCell(g, x, y, value), x, y) == g
  {
    var s := SetCell(g, x, y, value);
    var r := UnsetCell(s, x, y);
    assert Wf(s) && Wf(r) && r.numSetCells == g.numSetCells;
    forall q | OnBoard(q)
      ensures r.cells[q].value == g.cells[q].value
    {
    }
    RoundTripFlags(g, x, y, value);
    GridEquality(r, g);
  }

  lemma {:induction false} RoundTripFlags(g: Grid, x: int, y: int, value: int)
    requires Wf(g) && OnBoard((x, y)) && IsDigit(value)
    requires forall q :: OnBoard(q) && Peer((x, y), q) ==> Flag(g, q, value)
    ensures var r := UnsetCell(SetCell(g, x, y, value), x, y);
      forall q, d :: OnBoard(q) && IsDigit(d) ==> Flag(r, q, d) == Flag(g, q, d)
  {
    var s := SetCell(g, x, y, value);
    var r := UnsetCell(s, x, y);
    assert s.cells[(x, y)].value.value == value;
    forall q, d | OnBoard(q) && IsDigit(d)
      ensures Flag(r, q, d) == Flag(g, q, d)
    {
      if d == value {
        assert Flag(r, q, value) == (Flag(s, q, value) || Peer((x, y), q));
      } else {
        assert Flag(r, q, d) == Flag(s, q, d);
      }
    }
  }

  /** Without that condition the round trip is not exact: a peer whose flag
      another placement had lowered gets it raised again. */
  lemma {:induction false} SetUnsetReraisesFlag(g: Grid, x: int, y: int, value: int, q: Pos)
    requires Wf(g) && OnBoard((x, y)) && IsDigit(value)
    requires OnBoard(q) && Peer((x, y), q) && !Flag(g, q, value)
    ensures Flag(UnsetCell(SetCell(g, x, y, value), x, y), q, value)
    ensures UnsetCell(SetCell(g, x, y, value), x, y) != g
  {
  }

  /** Row-major scan index of the `fill` loop: k = 9 * y + x. */
  function FillPos(k: int): Pos {
    (k % 9, k / 9)
  }

  /** `data` has nine rows of nine entries and no positive entry above 9
      (`setCell` with such a value would look up a missing flag). */
  ghost predicate FillData(data: seq<seq<int>>) {
    && |data| >= 9
    && (forall y :: 0 <= y < 9 ==> |data[y]| >= 9)
    && (forall y, x :: 0 <= y < 9 && 0 <= x < 9 ==> data[y][x] <= 9)
  }

  /** Number of positive entries at scan indices k..80. */
  function PositivesFrom(data: seq<seq<int>>, k: nat): nat
    requires FillData(data)
    decreases 81 - k
  {
    if k >= 81 then 0
    else (if data[k / 9][k % 9] > 0 then 1 else 0) + PositivesFrom(data, k + 1)
  }

  /** The `fill` loop from scan index k on. */
  function FillFrom(g: Grid, data: seq<seq<int>>, k: nat): (r: Grid)
    requires Shaped(g) && FillData(data) && k <= 81
    ensures Shaped(r)
    ensures Wf(g) ==> Wf(r)
    ensures r.numSetCells == g.numSetCells + PositivesFrom(data, k)
    ensures forall q, d :: OnBoard(q) && IsDigit(d) && Flag(r, q, d) ==> Flag(g, q, d)
    decreases 81 - k
  {
    if k == 81 then g
    else
      FillFrom(FillStep(g, data, k), data, k + 1)
  }

  lemma {:induction false} ScanIndex(k: int, q: Pos)
    requires 0 <= k < 81 && OnBoard(q)
    ensures 9 * q.1 + q.0 == k <==> q == FillPos(k)
  {
  }

  /** One step of the `fill` loop. */
  function FillStep(g: Grid, data: seq<seq<int>>, k: nat): (r: Grid)
    requires Shaped(g) && FillData(data) && k < 81
    ensures Shaped(r)
  {
    var p := FillPos(k);
    if data[p.1][p.0] > 0 then SetCell(g, p.0, p.1, data[p.1][p.0]) else g
  }

  lemma {:induction false} FillFromValues(g: Grid, data: seq<seq<int>>, k: nat)
    requires Shaped(g) && FillData(data) && k <= 81
    ensures forall q :: OnBoard(q) ==> (FillFrom(g, data, k).cells[q].value ==
      (if 9 * q.1 + q.0 >= k && data[q.1][q.0] > 0 then Some(data[q.1][q.0]) else g.cells[q].value))
    decreases 81 - k
  {
    if k < 81 {
      var next := FillStep(g, data, k);
      assert FillFrom(g, data, k) == FillFrom(next, data, k + 1);
      FillFromValues(next, data, k + 1);
      forall q | OnBoard(q)
        ensures next.cells[q].value == if q == FillPos(k) && data[q.1][q.0] > 0 then Some(data[q.1][q.0]) else g.cells[q].value
      {
      }
      forall q | OnBoard(q)
        ensures 9 * q.1 + q.0 == k <==> q == FillPos(k)
      {
        ScanIndex(k, q);
      }
    }
  }

  /** Some positive entry at scan index k or later holds digit d at a peer
      of q: the entries from k on that lower the flag of d at q. */
  ghost predicate ExcludedFrom(data: seq<seq<int>>, k: int, q: Pos, d: int)
    requires FillData(data)
  {
    exists p :: OnBoard(p) && 9 * p.1 + p.0 >= k && data[p.1][p.0] == d && Peer(p, q)
  }

  lemma {:induction false} ExcludedStep(data: seq<seq<int>>, k: nat, q: Pos, d: int)
    requires FillData(data) && k < 81
    ensures var p := FillPos(k);
      ExcludedFrom(data, k, q, d) <==> ExcludedFrom(data, k + 1, q, d) || (data[p.1][p.0] == d && Peer(p, q))
  {
    var pk := FillPos(k);
    if ExcludedFrom(data, k, q, d) {
      var p :| OnBoard(p) && 9 * p.1 + p.0 >= k && data[p.1][p.0] == d && Peer(p, q);
      ScanIndex(k, p);
    }
    if data[pk.1][pk.0] == d && Peer(pk, q) {
      assert 9 * pk.1 + pk.0 == k;
    }
  }

  /** After the `fill` loop from scan index k, the flag of d at q is raised
      exactly when it was raised before and no entry from k on placed d at a
      peer of q. */
  lemma {:induction false} FillFromFlags(g: Grid, data: seq<seq<int>>, k: nat)
    requires Shaped(g) && FillData(data) && k <= 81
    ensures forall q, d :: OnBoard(q) && IsDigit(d) ==>
      (Flag(FillFrom(g, data, k), q, d) == (Flag(g, q, d) && !ExcludedFrom(data, k, q, d)))
    decreases 81 - k
  {
    if k < 81 {
      var next := FillStep(g, data, k);
      var r := FillFrom(g, data, k);
      assert r == FillFrom(next, data, k + 1);
      FillFromFlags(next, data, k + 1);
      forall q, d | OnBoard(q) && IsDigit(d)
        ensures Flag(r, q, d) == (Flag(g, q, d) && !ExcludedFrom(data, k, q, d))
      {
        ExcludedStep(data, k, q, d);
      }
    } else {
      forall q, d | OnBoard(q) && IsDigit(d)
        ensures !ExcludedFrom(data, k, q, d)
      {
      }
    }
  }

  /** `fill`: `setCell(x, y, data[y][x])` for every positive entry, rows
      first. Afterwards each such cell holds its entry, the other cells keep
      their values, the counter grew by the number of positive entries, and
      a flag is lowered exactly at the peers of the cells filled with its
      digit, the flags lowered before staying lowered. */
  function Fill(g: Grid, data: seq<seq<int>>): (r: Grid)
    requires Shaped(g) && FillData(data)
    ensures Shaped(r)
    ensures Wf(g) ==> Wf(r)
    ensures r.numSetCells == g.numSetCells + PositivesFrom(data, 0)
    ensures forall q :: OnBoard(q) ==> (r.cells[q].value ==
      (if data[q.1][q.0] > 0 then Some(data[q.1][q.0]) else g.cells[q].value))
    ensures forall q, d :: OnBoard(q) && IsDigit(d) ==>
      (Flag(r, q, d) == (Flag(g, q, d) && !exists p :: OnBoard(p) && data[p.1][p.0] == d && Peer(p, q)))
  {
    FillFromValues(g, data, 0);
    FillFromFlags(g, data, 0);
    FillFrom(g, data, 0)
  }
}
