/** `Cell` and `Cage` of killer.py: a cage is a target total, its cells in
    puzzle order and the candidate lists still possible for it, where entry
    i of a list is the digit for cell i. The three `removeBy...` methods
    drop the lists that would put a placed value into a cell of the given
    column, row or 3x3 group. */
module KillerCage {
  import opened Wrappers
  import opened Seqs
  import opened CageLists

  /** `Cell(x, y)`: x is the column, y the row. */
  datatype KCell = KCell(x: int, y: int)

  /** `Cage(total, cells)`. `None` is the source's `candidateLists` being
      `None`, a case every `removeBy...` method tests for. */
  datatype Cage = Cage(total: int, cells: seq<KCell>, candidateLists: Option<Lists>)

  /** `Cage.__init__`: the candidate lists start out empty. */
  function NewCage(total: int, cells: seq<KCell>): (c: Cage)
    ensures c.total == total && c.cells == cells && c.candidateLists == Some([])
  {
    Cage(total, cells, Some([]))
  }

  /** The three kinds of region a placement excludes a value from. A group
      is named by `(x / 3, y / 3)` of its cells. */
  datatype Region = Column(x: int) | Row(y: int) | Group(gx: int, gy: int)

  /** Python 2 floors `/` on ints; with the divisor 3 that is Dafny's `/`. */
  predicate InRegion(c: KCell, r: Region) {
    match r
    case Column(x) => c.x == x
    case Row(y) => c.y == y
    case Group(gx, gy) => c.x / 3 == gx && c.y / 3 == gy
  }

  /** The inner loop of every `removeBy...` method clears `allowed` when
      some entry i of `cl` is `v` and cell i lies in the region. */
  predicate PutsValueIn(cells: seq<KCell>, cl: seq<int>, r: Region, v: int) {
    exists i :: 0 <= i < |cl| && i < |cells| && InRegion(cells[i], r) && cl[i] == v
  }

  function Keeps(cells: seq<KCell>, r: Region, v: int): seq<int> -> bool {
    cl => !PutsValueIn(cells, cl, r, v)
  }

  /** No list is longer than the cage: the inner loop indexes `cells[i]` for
      every entry of a list, which raises IndexError otherwise. */
  ghost predicate ListsFit(c: Cage) {
    c.candidateLists.Some? ==> forall cl :: cl in c.candidateLists.value ==> |cl| <= |c.cells|
  }

  /** The loop shared by `removeByColumn`, `removeByRow` and `removeByGroup`. */
  function RemoveBy(c: Cage, r: Region, v: int): (res: Cage)
    requires ListsFit(c)
    ensures res.total == c.total && res.cells == c.cells && ListsFit(res)
    ensures c.candidateLists.None? ==> res == c
    ensures c.candidateLists.Some? ==> res.candidateLists.Some?
    ensures c.candidateLists.Some? ==>
      IsSubsequence(res.candidateLists.value, c.candidateLists.value)
    ensures c.candidateLists.Some? ==> forall cl ::
      (cl in res.candidateLists.value <==> cl in c.candidateLists.value && !PutsValueIn(c.cells, cl, r, v))
    ensures c.candidateLists.Some? ==> forall cl ::
      multiset(res.candidateLists.value)[cl] ==
        if PutsValueIn(c.cells, cl, r, v) then 0 else multiset(c.candidateLists.value)[cl]
  {
    match c.candidateLists
    case None => c
    case Some(lists) => c.(candidateLists := Some(Filter(lists, Keeps(c.cells, r, v))))
  }

  /** `removeByColumn(x, value)`. */
  function RemoveByColumn(c: Cage, x: int, v: int): (res: Cage)
    requires ListsFit(c)
    ensures res.total == c.total && res.cells == c.cells && ListsFit(res)
    ensures c.candidateLists.None? ==> res == c
    ensures c.candidateLists.Some? ==>
      (res.candidateLists.Some? && IsSubsequence(res.candidateLists.value, c.candidateLists.value))
    ensures c.candidateLists.Some? ==> forall cl :: cl in res.candidateLists.value <==>
      (cl in c.candidateLists.value && forall i :: 0 <= i < |cl| && c.cells[i].x == x ==> cl[i] != v)
    ensures c.candidateLists.Some? ==> forall cl ::
      multiset(res.candidateLists.value)[cl] ==
        if exists i :: 0 <= i < |cl| && i < |c.cells| && c.cells[i].x == x && cl[i] == v then 0
        else multiset(c.candidateLists.value)[cl]
  {
    RemoveBy(c, Column(x), v)
  }

  /** `removeByRow(y, value)`. */
  function RemoveByRow(c: Cage, y: int, v: int): (res: Cage)
    requires ListsFit(c)
    ensures res.total == c.total && res.cells == c.cells && ListsFit(res)
    ensures c.candidateLists.None? ==> res == c
    ensures c.candidateLists.Some? ==>
      (res.candidateLists.Some? && IsSubsequence(res.candidateLists.value, c.candidateLists.value))
    ensures c.candidateLists.Some? ==> forall cl :: cl in res.candidateLists.value <==>
      (cl in c.candidateLists.value && forall i :: 0 <= i < |cl| && c.cells[i].y == y ==> cl[i] != v)
    ensures c.candidateLists.Some? ==> forall cl ::
      multiset(res.candidateLists.value)[cl] ==
        if exists i :: 0 <= i < |cl| && i < |c.cells| && c.cells[i].y == y && cl[i] == v then 0
        else multiset(c.candidateLists.value)[cl]
  {
    RemoveBy(c, Row(y), v)
  }

  /** `removeByGroup(x, y, value)`, where x and y are the group's
      coordinates `(cell.x / 3, cell.y / 3)`. */
  function RemoveByGroup(c: Cage, gx: int, gy: int, v: int): (res: Cage)
    requires ListsFit(c)
    ensures res.total == c.total && res.cells == c.cells && ListsFit(res)
    ensures c.candidateLists.None? ==> res == c
    ensures c.candidateLists.Some? ==>
      (res.candidateLists.Some? && IsSubsequence(res.candidateLists.value, c.candidateLists.value))
    ensures c.candidateLists.Some? ==> forall cl :: cl in res.candidateLists.value <==>
      (cl in c.candidateLists.value &&
       forall i :: 0 <= i < |cl| && c.cells[i].x / 3 == gx && c.cells[i].y / 3 == gy ==> cl[i] != v)
    ensures c.candidateLists.Some? ==> forall cl ::
      multiset(res.candidateLists.value)[cl] ==
        if exists i ::
            0 <= i < |cl| && i < |c.cells| && c.cells[i].x / 3 == gx && c.cells[i].y / 3 == gy && cl[i] == v
        then 0
        else multiset(c.candidateLists.value)[cl]
  {
    RemoveBy(c, Group(gx, gy), v)
  }

  /** Filtering a second time by the same region and value drops nothing
      more, so a cage listed twice under one region is filtered as if once. */
  lemma RemoveByIdempotent(c: Cage, r: Region, v: int)
    requires ListsFit(c)
    ensures RemoveBy(RemoveBy(c, r, v), r, v) == RemoveBy(c, r, v)
  {
    if c.candidateLists.Some? {
      FilterIdempotent(c.candidateLists.value, Keeps(c.cells, r, v));
    }
  }

  /** Filterings by two regions can be applied in either order. */
  lemma RemoveByCommute(c: Cage, r1: Region, v1: int, r2: Region, v2: int)
    requires ListsFit(c)
    ensures RemoveBy(RemoveBy(c, r1, v1), r2, v2) == RemoveBy(RemoveBy(c, r2, v2), r1, v1)
  {
    if c.candidateLists.Some? {
      FilterCommute(c.candidateLists.value, Keeps(c.cells, r1, v1), Keeps(c.cells, r2, v2));
    }
  }
}
