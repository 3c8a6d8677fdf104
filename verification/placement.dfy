/**
 * The placement rule of the puzzle: a firewall may go on a cell only when no
 * firewall already on the board shares its row, its column or a diagonal.
 * Also the list filter that removes a firewall, and the set of cells the board
 * shows as protected.
 */
module Placement {
  import opened Cells

  /** Two cells attack each other when they share a row, a column or a diagonal. */
  predicate Attacks(a: Cell, b: Cell)
  {
    a.row == b.row || a.col == b.col || Abs(a.row - b.row) == Abs(a.col - b.col)
  }

  /**
   * `canPlaceFirewall`: scan the firewalls in order and refuse at the first one
   * on the same row or column, or on a diagonal of the candidate.
   */
  function CanPlace(fs: seq<Cell>, row: int, col: int): (ok: bool)
    ensures ok <==> forall i :: 0 <= i < |fs| ==> !Attacks(fs[i], Cell(row, col))
    ensures fs == [] ==> ok
  {
    if fs == [] then true
    else if fs[0].row == row || fs[0].col == col then false
    else if Abs(fs[0].row - row) == Abs(fs[0].col - col) then false
    else
      assert forall i :: 1 <= i < |fs| ==> fs[i] == fs[1..][i - 1];
      CanPlace(fs[1..], row, col)
  }

  /** The invariant of a legal board: no two firewalls attack each other. */
  predicate NonAttacking(fs: seq<Cell>)
  {
    forall i, j :: 0 <= i < j < |fs| ==> !Attacks(fs[i], fs[j])
  }

  /**
   * Appending a cell that `CanPlace` accepts keeps the board legal, and the
   * cell was not on the board already (a cell shares its own row).
   */
  lemma PlaceKeepsNonAttacking(fs: seq<Cell>, row: int, col: int)
    requires NonAttacking(fs) && CanPlace(fs, row, col)
    ensures NonAttacking(fs + [Cell(row, col)])
    ensures Cell(row, col) !in fs
  {
    var gs := fs + [Cell(row, col)];
    forall i, j | 0 <= i < j < |gs|
      ensures !Attacks(gs[i], gs[j])
    {
      if j == |fs| {
        assert gs[i] == fs[i];
      } else {
        assert gs[i] == fs[i] && gs[j] == fs[j];
      }
    }
  }

  /** A legal board holds no cell twice. */
  lemma NonAttackingHasNoDuplicates(fs: seq<Cell>)
    requires NonAttacking(fs)
    ensures forall i, j :: 0 <= i < j < |fs| ==> fs[i] != fs[j]
  {
    forall i, j | 0 <= i < j < |fs|
      ensures fs[i] != fs[j]
    {
      if fs[i] == fs[j] {
        assert Attacks(fs[i], fs[j]);
      }
    }
  }

  /** Pairwise distinct values drawn from [0, n) number at most n. */
  lemma {:induction false} DistinctBelow(s: seq<int>, n: nat)
    requires forall i :: 0 <= i < |s| ==> 0 <= s[i] < n
    requires forall i, j :: 0 <= i < j < |s| ==> s[i] != s[j]
    ensures |s| <= n
    decreases |s|
  {
    if s != [] {
      var m, r := |s| - 1, s[|s| - 1];
      // Drop the last value and close the gap it leaves in [0, n).
      var t := seq(m, i requires 0 <= i < m => if s[i] > r then s[i] - 1 else s[i]);
      assert forall i :: 0 <= i < m ==> s[i] != r;
      DistinctBelow(t, n - 1);
    }
  }

  /** A legal board holds at most n firewalls: no two of them share a row. */
  lemma NonAttackingAtMostN(fs: seq<Cell>, n: nat)
    requires InBoard(fs, n)
    ensures NonAttacking(fs) ==> |fs| <= n
  {
    if !NonAttacking(fs) {
      return;
    }
    var rows := seq(|fs|, i requires 0 <= i < |fs| => fs[i].row);
    forall i, j | 0 <= i < j < |rows|
      ensures rows[i] != rows[j]
    {
      assert !Attacks(fs[i], fs[j]);
    }
    DistinctBelow(rows, n);
  }

  /**
   * `removeFirewall`'s `filter`: keep, in order, every entry that differs from
   * `c`. Every copy of `c` goes, every other entry keeps its multiplicity.
   */
  function Without(fs: seq<Cell>, c: Cell): (r: seq<Cell>)
    ensures multiset(r) == multiset(fs)[c := 0]
  {
    if fs == [] then []
    else
      assert fs == [fs[0]] + fs[1..];
      (if fs[0] == c then [] else [fs[0]]) + Without(fs[1..], c)
  }

  /** The filter distributes over concatenation, so it keeps the order of what it keeps. */
  lemma {:induction false} WithoutAppend(a: seq<Cell>, b: seq<Cell>, c: Cell)
    ensures Without(a + b, c) == Without(a, c) + Without(b, c)
  {
    if a == [] {
      assert a + b == b;
    } else {
      assert (a + b)[1..] == a[1..] + b;
      WithoutAppend(a[1..], b, c);
    }
  }

  /** Removing a cell that holds no firewall changes nothing. */
  lemma {:induction false} WithoutAbsent(fs: seq<Cell>, c: Cell)
    requires c !in fs
    ensures Without(fs, c) == fs
  {
    if fs != [] {
      WithoutAbsent(fs[1..], c);
      assert fs == [fs[0]] + fs[1..];
    }
  }

  /** After the filter a cell is on the list exactly when it was before and is not `c`; every cell stays on the board. */
  lemma WithoutMembers(fs: seq<Cell>, c: Cell, n: int)
    requires InBoard(fs, n)
    ensures forall x :: x in Without(fs, c) <==> x in fs && x != c
    ensures InBoard(Without(fs, c), n)
  {
    var r := Without(fs, c);
    assert forall x :: x in r <==> multiset(r)[x] > 0;
    assert forall x :: x in fs <==> multiset(fs)[x] > 0;
    forall i | 0 <= i < |r|
      ensures 0 <= r[i].row < n && 0 <= r[i].col < n
    {
      assert r[i] in r;
      var k :| 0 <= k < |fs| && fs[k] == r[i];
    }
  }

  /** Removing twice is the same as removing once. */
  lemma WithoutIdempotent(fs: seq<Cell>, c: Cell)
    ensures Without(Without(fs, c), c) == Without(fs, c)
  {
    var r := Without(fs, c);
    assert multiset(r)[c] == 0;
    WithoutAbsent(r, c);
  }

  /** A board with a first firewall is legal when the rest is legal and the first attacks none of the rest. */
  lemma NonAttackingCons(x: Cell, rest: seq<Cell>)
    ensures NonAttacking([x] + rest) <==>
            NonAttacking(rest) && forall y :: y in rest ==> !Attacks(x, y)
  {
    var fs := [x] + rest;
    if NonAttacking(rest) && forall y :: y in rest ==> !Attacks(x, y) {
      forall i, j | 0 <= i < j < |fs|
        ensures !Attacks(fs[i], fs[j])
      {
        assert fs[j] == rest[j - 1];
        if i > 0 {
          assert fs[i] == rest[i - 1];
        }
      }
    }
    if NonAttacking(fs) {
      forall i, j | 0 <= i < j < |rest|
        ensures !Attacks(rest[i], rest[j])
      {
        assert rest[i] == fs[i + 1] && rest[j] == fs[j + 1];
      }
      forall y | y in rest
        ensures !Attacks(x, y)
      {
        var k :| 0 <= k < |rest| && rest[k] == y;
        assert fs[0] == x && fs[k + 1] == y;
      }
    }
  }

  /** Removing a firewall keeps the board legal and on the board. */
  lemma {:induction false} WithoutKeepsNonAttacking(fs: seq<Cell>, c: Cell, n: int)
    requires NonAttacking(fs) && InBoard(fs, n)
    ensures NonAttacking(Without(fs, c)) && InBoard(Without(fs, c), n)
  {
    if fs != [] {
      var tail := fs[1..];
      assert fs == [fs[0]] + tail;
      NonAttackingCons(fs[0], tail);
      WithoutKeepsNonAttacking(tail, c, n);
      var rest := Without(tail, c);
      forall x | x in rest
        ensures x in tail
      {
        assert multiset(rest)[x] > 0;
      }
      if fs[0] != c {
        NonAttackingCons(fs[0], rest);
      }
    }
  }

  /** The same, as an implication a caller can use whether or not the board is legal. */
  lemma WithoutKeepsLegal(fs: seq<Cell>, c: Cell, n: int)
    requires InBoard(fs, n)
    ensures NonAttacking(fs) ==> NonAttacking(Without(fs, c))
  {
    if NonAttacking(fs) {
      WithoutKeepsNonAttacking(fs, c, n);
    }
  }

  /**
   * `markProtectedZones` for one firewall `f`: the rest of its row, the rest
   * of its column and the four diagonal rays, clipped to the n-board.
   */
  predicate Covers(f: Cell, n: int, row: int, col: int): (c: bool)
    ensures c <==> 0 <= row < n && 0 <= col < n && Cell(row, col) != f && Attacks(f, Cell(row, col))
  {
    0 <= row < n && 0 <= col < n &&
    ((row == f.row && col != f.col) ||
     (col == f.col && row != f.row) ||
     (1 <= Abs(row - f.row) && Abs(row - f.row) == Abs(col - f.col)))
  }

  /** A cell is shown as protected when some firewall covers it and it is not itself a firewall. */
  predicate IsProtected(fs: seq<Cell>, n: int, row: int, col: int): (p: bool)
    ensures p ==> 0 <= row < n && 0 <= col < n && Cell(row, col) !in fs && !CanPlace(fs, row, col)
  {
    Cell(row, col) !in fs && exists k :: 0 <= k < |fs| && Covers(fs[k], n, row, col)
  }

  /**
   * The protected cells are exactly the empty cells on which `CanPlace`
   * refuses a firewall; the remaining empty cells, shown as vulnerable, are
   * exactly those where a firewall may go.
   */
  lemma ProtectedIffRejected(fs: seq<Cell>, n: int, row: int, col: int)
    requires 0 <= row < n && 0 <= col < n && Cell(row, col) !in fs
    ensures IsProtected(fs, n, row, col) <==> !CanPlace(fs, row, col)
  {
    if !CanPlace(fs, row, col) {
      var k :| 0 <= k < |fs| && Attacks(fs[k], Cell(row, col));
      assert fs[k] != Cell(row, col);
      assert Covers(fs[k], n, row, col);
    }
  }
}
