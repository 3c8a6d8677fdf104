/**
 * The hint search: the lowest-numbered region that holds no firewall, and the
 * first cell of that region, in row-major order, on which a firewall may go.
 */
module Hints {
  import opened Cells
  import opened Placement
  import opened Regions
  import opened Coverage

  /** `regionCoverage.findIndex(count => count === 0)`: the first empty region, or -1. */
  function LowestUncovered(counts: seq<int>): (id: int)
    ensures id == -1 <==> forall i :: 0 <= i < |counts| ==> counts[i] != 0
    ensures id != -1 ==> 0 <= id < |counts| && counts[id] == 0
    ensures forall i :: 0 <= i < id ==> counts[i] != 0
  {
    if counts == [] then -1
    else if counts[0] == 0 then 0
    else
      var rest := LowestUncovered(counts[1..]);
      assert forall i :: 1 <= i < |counts| ==> counts[i] == counts[1..][i - 1];
      if rest == -1 then -1 else rest + 1
  }

  /** Cell (row, col) lies in region `id` of the n-board and a firewall may go there. */
  predicate Placeable(fs: seq<Cell>, n: int, id: int, row: int, col: int)
  {
    0 <= row < n && 0 <= col < n && RegionOf(n, row, col) == id && CanPlace(fs, row, col)
  }

  /** Row-major order: (r1, c1) is visited before (r2, c2). */
  predicate Before(r1: int, c1: int, r2: int, c2: int)
  {
    r1 < r2 || (r1 == r2 && c1 < c2)
  }

  /** `cell` is the first placeable cell of region `id` in row-major order. */
  ghost predicate IsHint(fs: seq<Cell>, n: int, id: int, cell: Cell): (h: bool)
    ensures h ==> 0 <= cell.row < n && 0 <= cell.col < n && RegionOf(n, cell.row, cell.col) == id
    ensures h ==> CanPlace(fs, cell.row, cell.col)
    ensures h ==> forall row, col :: 0 <= row < cell.row && Placeable(fs, n, id, row, col) ==> false
  {
    Placeable(fs, n, id, cell.row, cell.col) &&
    forall row, col :: Placeable(fs, n, id, row, col) ==> !Before(row, col, cell.row, cell.col)
  }

  /** The hint for a region, when there is one, is a single cell. */
  lemma HintIsUnique(fs: seq<Cell>, n: int, id: int, a: Cell, b: Cell)
    requires IsHint(fs, n, id, a) && IsHint(fs, n, id, b)
    ensures a == b
  {
    assert !Before(a.row, a.col, b.row, b.col);
    assert !Before(b.row, b.col, a.row, a.col);
  }

  /**
   * Following a hint for an empty region keeps the board legal, gives that
   * region its one firewall, and so adds one to the properly covered regions.
   */
  lemma FollowingHint(fs: seq<Cell>, n: nat, id: int, cell: Cell)
    requires InBoard(fs, n) && NonAttacking(fs)
    requires IsHint(fs, n, id, cell) && CountIn(fs, n, id) == 0
    ensures NonAttacking(fs + [cell]) && InBoard(fs + [cell], n)
    ensures CountIn(fs + [cell], n, id) == 1
    ensures ProperlyCovered(RegionCounts(fs + [cell], n)) == ProperlyCovered(RegionCounts(fs, n)) + 1
  {
    PlaceKeepsNonAttacking(fs, cell.row, cell.col);
    assert Cell(cell.row, cell.col) == cell;
    CountInAppend(fs, cell, n, id);
    forall i | 0 <= i < n && i != id
      ensures RegionCounts(fs + [cell], n)[i] == RegionCounts(fs, n)[i]
    {
      CountInAppend(fs, cell, n, i);
    }
    ProperlyCoveredBump(RegionCounts(fs, n), RegionCounts(fs + [cell], n), id);
  }
}
