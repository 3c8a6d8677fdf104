/**
 * The auto-solver: a depth-first search that places one firewall per row,
 * rows top to bottom, trying columns left to right, and backtracks on a dead
 * end. A partial placement is written as the list of its columns, `cols[i]`
 * being the column of the firewall on row i.
 */
module Solver {
  import opened Cells
  import opened Placement

  /**
   * The candidate column `col` on row `|cols|` shares no column and no
   * diagonal with the firewalls already placed on the rows above.
   */
  predicate Safe(cols: seq<int>, col: int)
  {
    forall i :: 0 <= i < |cols| ==> cols[i] != col && Abs(cols[i] - col) != |cols| - i
  }

  /** Every row of `cols` holds a column of the n-board that was safe when it was placed. */
  predicate Consistent(n: nat, cols: seq<int>)
  {
    forall k :: 0 <= k < |cols| ==> 0 <= cols[k] < n && Safe(cols[..k], cols[k])
  }

  /** A full solution: one firewall on every row, none attacking another. */
  predicate Solution(n: nat, t: seq<int>)
  {
    |t| == n && Consistent(n, t)
  }

  /** `a` comes strictly before `b` in lexicographic order. */
  predicate LexLess(a: seq<int>, b: seq<int>)
  {
    exists k :: 0 <= k < |a| && k < |b| && a[..k] == b[..k] && a[k] < b[k]
  }

  /** The placement of `cols` as cells: row i holds column `cols[i]`. */
  function Placements(cols: seq<int>): (cells: seq<Cell>)
    ensures |cells| == |cols|
    ensures forall i :: 0 <= i < |cols| ==> cells[i] == Cell(i, cols[i])
  {
    seq(|cols|, i requires 0 <= i < |cols| => Cell(i, cols[i]))
  }

  /** The columns of a list of cells. */
  function ColsOf(cells: seq<Cell>): (cols: seq<int>)
    ensures |cols| == |cells|
    ensures forall i :: 0 <= i < |cells| ==> cols[i] == cells[i].col
  {
    seq(|cells|, i requires 0 <= i < |cells| => cells[i].col)
  }

  /**
   * `solve(row)` as a function of the columns already placed: the first full
   * solution the search reaches from `cols`, or None.
   */
  function Search(n: nat, cols: seq<int>): (r: Option<seq<int>>)
    requires |cols| <= n
    ensures r.Some? ==> |r.value| == n && cols <= r.value
    decreases n - |cols|, 1, 0
  {
    if |cols| == n then Some(cols) else TryFrom(n, cols, 0)
  }

  /** The loop of `solve(row)` from column `c` on. */
  function TryFrom(n: nat, cols: seq<int>, c: nat): (r: Option<seq<int>>)
    requires |cols| < n && c <= n
    ensures r.Some? ==> |r.value| == n && cols <= r.value
    decreases n - |cols|, 0, n - c
  {
    if c == n then None
    else if Safe(cols, c) then
      var r := Search(n, cols + [c]);
      if r.Some? then
        assert r.value[..|cols|] == (cols + [c])[..|cols|];
        r
      else TryFrom(n, cols, c + 1)
    else TryFrom(n, cols, c + 1)
  }

  /** Extending a consistent placement by a safe column of the board keeps it consistent. */
  lemma ConsistentExtend(n: nat, cols: seq<int>, c: int)
    requires Consistent(n, cols) && 0 <= c < n && Safe(cols, c)
    ensures Consistent(n, cols + [c])
  {
    var e := cols + [c];
    forall k | 0 <= k < |e|
      ensures 0 <= e[k] < n && Safe(e[..k], e[k])
    {
      if k < |cols| {
        assert e[..k] == cols[..k];
      } else {
        assert e[..k] == cols;
      }
    }
  }

  /** Full solutions extending `cols` whose next column is at least `c`. */
  predicate ExtendsFrom(n: nat, cols: seq<int>, c: int, t: seq<int>)
  {
    Solution(n, t) && cols <= t && |cols| < |t| && t[|cols|] >= c
  }

  /**
   * The loop from column `c`: it finds a solution exactly when one extends
   * `cols` with a next column of at least `c`, and what it finds is the
   * lexicographically first of them.
   */
  lemma {:induction false} TryFromCorrect(n: nat, cols: seq<int>, c: nat)
    requires |cols| < n && c <= n && Consistent(n, cols)
    ensures TryFrom(n, cols, c).None? ==> forall t :: !ExtendsFrom(n, cols, c, t)
    ensures TryFrom(n, cols, c).Some? ==>
              ExtendsFrom(n, cols, c, TryFrom(n, cols, c).value) &&
              forall t :: ExtendsFrom(n, cols, c, t) ==> !LexLess(t, TryFrom(n, cols, c).value)
    decreases n - |cols|, 0, n - c
  {
    if c == n {
      forall t | ExtendsFrom(n, cols, c, t)
        ensures false
      {
      }
    } else {
      var next := cols + [c];
      TryFromCorrect(n, cols, c + 1);
      // Solutions whose next column is exactly c extend `next`.
      forall t | ExtendsFrom(n, cols, c, t) && t[|cols|] == c
        ensures next <= t && Solution(n, t)
      {
        assert t[..|cols| + 1] == next;
      }
      if Safe(cols, c) {
        ConsistentExtend(n, cols, c);
        SearchCorrect(n, next);
        var r := Search(n, next);
        if r.Some? {
          FoundAtColumn(n, cols, c);
        } else {
          forall t | ExtendsFrom(n, cols, c, t)
            ensures ExtendsFrom(n, cols, c + 1, t)
          {
            assert !ExtendsSearch(n, next, t);
          }
        }
      } else {
        forall t | ExtendsFrom(n, cols, c, t)
          ensures ExtendsFrom(n, cols, c + 1, t)
        {
        }
      }
    }
  }

  /**
   * When the search below column `c` succeeds, what it finds extends `cols`
   * with `c` and no solution extending `cols` from column `c` on precedes it.
   */
  lemma FoundAtColumn(n: nat, cols: seq<int>, c: nat)
    requires |cols| < n && c < n && Consistent(n, cols) && Safe(cols, c)
    requires Search(n, cols + [c]).Some?
    requires forall t :: ExtendsSearch(n, cols + [c], t) ==> !LexLess(t, Search(n, cols + [c]).value)
    ensures forall t :: ExtendsFrom(n, cols, c, t) ==> !LexLess(t, Search(n, cols + [c]).value)
  {
    var next := cols + [c];
    var s := Search(n, next).value;
    assert s[..|cols|] == cols by { assert s[..|next|][..|cols|] == s[..|cols|]; }
    assert s[|cols|] == c by { assert s[..|next|][|cols|] == s[|cols|]; }
    forall t | ExtendsFrom(n, cols, c, t)
      ensures !LexLess(t, s)
    {
      if t[|cols|] == c {
        assert t[..|cols| + 1] == next;
        assert ExtendsSearch(n, next, t);
      } else {
        assert LexLess(s, t) by { assert s[..|cols|] == t[..|cols|]; }
      }
    }
  }

  /** Full solutions extending `cols`. */
  predicate ExtendsSearch(n: nat, cols: seq<int>, t: seq<int>)
  {
    Solution(n, t) && cols <= t
  }

  /**
   * The search from a consistent partial placement finds a solution exactly
   * when one extends it, and what it finds is the lexicographically first.
   */
  lemma {:induction false} SearchCorrect(n: nat, cols: seq<int>)
    requires |cols| <= n && Consistent(n, cols)
    ensures Search(n, cols).None? ==> forall t :: !ExtendsSearch(n, cols, t)
    ensures Search(n, cols).Some? ==>
              ExtendsSearch(n, cols, Search(n, cols).value) &&
              forall t :: ExtendsSearch(n, cols, t) ==> !LexLess(t, Search(n, cols).value)
    decreases n - |cols|, 1, 0
  {
    if |cols| == n {
      forall t | ExtendsSearch(n, cols, t)
        ensures !LexLess(t, cols)
      {
        assert t == cols by { assert t[..|cols|] == t; }
      }
    } else {
      TryFromCorrect(n, cols, 0);
      forall t | ExtendsSearch(n, cols, t)
        ensures ExtendsFrom(n, cols, 0, t)
      {
      }
    }
  }

  /** Two rows of a solution hold different columns of the board, off each other's diagonals. */
  lemma RowPair(n: nat, t: seq<int>, i: int, j: int)
    requires Solution(n, t) && 0 <= i < j < n
    ensures 0 <= t[i] < n && 0 <= t[j] < n && t[i] != t[j] && Abs(t[i] - t[j]) != j - i
  {
    assert Safe(t[..j], t[j]);
    assert t[..j][i] == t[i];
  }

  /** Columns of a solution are pairwise distinct and no two of its firewalls share a diagonal. */
  lemma SolutionIsNonAttacking(n: nat, t: seq<int>)
    requires Solution(n, t)
    ensures forall i, j :: 0 <= i < j < n ==> t[i] != t[j] && Abs(t[i] - t[j]) != j - i
    ensures NonAttacking(Placements(t)) && InBoard(Placements(t), n)
  {
    forall i, j | 0 <= i < j < n
      ensures t[i] != t[j] && Abs(t[i] - t[j]) != j - i
    {
      assert Safe(t[..j], t[j]);
      assert t[..j][i] == t[i];
    }
  }

  /**
   * The converse: n firewalls, one per row, on the board and none attacking
   * another under the placement rule, make a solution.
   */
  lemma NonAttackingIsSolution(n: nat, t: seq<int>)
    requires |t| == n && NonAttacking(Placements(t)) && InBoard(Placements(t), n)
    ensures Solution(n, t)
  {
    var p := Placements(t);
    forall k | 0 <= k < |t|
      ensures 0 <= t[k] < n && Safe(t[..k], t[k])
    {
      assert p[k] == Cell(k, t[k]);
      forall i | 0 <= i < k
        ensures t[..k][i] != t[k] && Abs(t[..k][i] - t[k]) != k - i
      {
        assert p[i] == Cell(i, t[i]) && !Attacks(p[i], p[k]);
      }
    }
  }

  /** A solution is exactly a non-attacking placement of one firewall per row of the board. */
  lemma SolutionIffNonAttacking(n: nat, t: seq<int>)
    ensures Solution(n, t) <==> |t| == n && NonAttacking(Placements(t)) && InBoard(Placements(t), n)
  {
    if Solution(n, t) {
      SolutionIsNonAttacking(n, t);
    }
    if |t| == n && NonAttacking(Placements(t)) && InBoard(Placements(t), n) {
      NonAttackingIsSolution(n, t);
    }
  }

  /**
   * What the solver returns: when some solution exists it returns the first
   * one in lexicographic order of the columns, else it reports failure.
   */
  lemma SearchFromEmpty(n: nat)
    ensures Search(n, []).Some? <==> exists t :: Solution(n, t)
    ensures Search(n, []).Some? ==>
              Solution(n, Search(n, []).value) &&
              forall t :: Solution(n, t) ==> !LexLess(t, Search(n, []).value)
  {
    assert Consistent(n, []);
    SearchCorrect(n, []);
    assert forall t :: Solution(n, t) ==> ExtendsSearch(n, [], t);
  }

  /** Sizes 2 and 3 have no solution, size 1 has the single firewall at (0, 0). */
  lemma SmallSizes()
    ensures Search(1, []) == Some([0])
    ensures Search(2, []) == None
    ensures Search(3, []) == None
  {
    SearchFromEmpty(1);
    var s := Search(1, []).value;
    assert Solution(1, [0]);
    assert s == [0];
    SearchFromEmpty(2);
    forall t | Solution(2, t)
      ensures false
    {
      RowPair(2, t, 0, 1);
    }
    SearchFromEmpty(3);
    forall t | Solution(3, t)
      ensures false
    {
      RowPair(3, t, 0, 1);
      RowPair(3, t, 1, 2);
      RowPair(3, t, 0, 2);
    }
  }

  /**
   * The solver's working state: the boolean board `board` and the stack
   * `result` of the cells placed so far, row i holding `result[i]`.
   */
  class Solver {
    const n: nat
    const board: array2<bool>
    var result: seq<Cell>

    ghost predicate Valid()
      reads this, board
    {
      board.Length0 == n && board.Length1 == n && |result| <= n &&
      (forall k :: 0 <= k < |result| ==> result[k].row == k && 0 <= result[k].col < n) &&
      (forall i, j :: 0 <= i < n && 0 <= j < n ==> (board[i, j] <==> i < |result| && result[i].col == j))
    }

    constructor (n: nat)
      ensures Valid() && this.n == n && result == [] && fresh(board)
    {
      this.n := n;
      board := new bool[n, n]((_, _) => false);
      result := [];
    }

    /** `isValid(row, col)`: the three upward scans of the board. */
    method IsValid(row: int, col: int) returns (ok: bool)
      requires Valid() && row == |result| && row < n && 0 <= col < n
      ensures ok == Safe(ColsOf(result), col)
    {
      var cols := ColsOf(result);
      var i := 0;
      while i < row
        invariant 0 <= i <= row
        invariant forall k :: 0 <= k < i ==> cols[k] != col
      {
        if board[i, col] {
          return false;
        }
        i := i + 1;
      }
      i := row - 1;
      var j := col - 1;
      while i >= 0 && j >= 0
        invariant -1 <= i < row && j == col - (row - i)
        invariant forall k :: i < k < row ==> cols[k] != col - (row - k)
        decreases i
      {
        if board[i, j] {
          return false;
        }
        i, j := i - 1, j - 1;
      }
      i, j := row - 1, col + 1;
      while i >= 0 && j < n
        invariant -1 <= i < row && j == col + (row - i)
        invariant forall k :: i < k < row ==> cols[k] != col + (row - k)
        decreases i
      {
        if board[i, j] {
          return false;
        }
        i, j := i - 1, j + 1;
      }
      return true;
    }

    /** `board[row][col] = true; result.push([row, col])`. */
    method Push(row: int, col: int)
      requires Valid() && row == |result| < n && 0 <= col < n
      modifies this, board
      ensures Valid()
      ensures result == old(result) + [Cell(row, col)]
      ensures ColsOf(result) == ColsOf(old(result)) + [col]
    {
      board[row, col] := true;
      result := result + [Cell(row, col)];
    }

    /** `board[row][col] = false; result.pop()`, undoing the matching `Push`. */
    method Pop(row: int, col: int)
      requires Valid() && |result| > 0 && result[|result| - 1] == Cell(row, col)
      modifies this, board
      ensures Valid()
      ensures result == old(result)[..|old(result)| - 1]
    {
      board[row, col] := false;
      result := result[..|result| - 1];
    }

    /**
     * `solve(row)`: on success the stack holds the solution the search
     * reaches from the rows already placed; on failure stack and board are
     * as they were.
     */
    method SolveRow(row: int) returns (found: bool)
      requires Valid() && row == |result|
      modifies this, board
      decreases n - row
      ensures Valid()
      ensures found == Search(n, ColsOf(old(result))).Some?
      ensures found ==> ColsOf(result) == Search(n, ColsOf(old(result))).value
      ensures !found ==> result == old(result)
    {
      if row == n {
        return true;
      }
      var col := 0;
      while col < n
        invariant 0 <= col <= n
        invariant Valid() && result == old(result)
        invariant TryFrom(n, ColsOf(result), col) == Search(n, ColsOf(result))
      {
        var ok := IsValid(row, col);
        if ok {
          Push(row, col);
          var done := SolveRow(row + 1);
          if done {
            return true;
          }
          Pop(row, col);
        }
        col := col + 1;
      }
      return false;
    }
  }

  /**
   * `solveNQueens`: the first solution in lexicographic order of the columns,
   * as cells on rows 0 to n-1, or None when the n-board has no solution.
   */
  method SolveNQueens(n: nat) returns (sol: Option<seq<Cell>>)
    ensures sol.None? <==> forall t :: !Solution(n, t)
    ensures sol.None? <==> forall t :: !(|t| == n && NonAttacking(Placements(t)) && InBoard(Placements(t), n))
    ensures sol.Some? ==> exists t :: Solution(n, t) && sol.value == Placements(t) &&
                                      forall u :: Solution(n, u) ==> !LexLess(u, t)
    ensures sol.Some? ==> |sol.value| == n && NonAttacking(sol.value) && InBoard(sol.value, n)
    ensures sol.Some? <==> Search(n, []).Some?
    ensures sol.Some? ==> sol.value == Placements(Search(n, []).value)
  {
    var s := new Solver(n);
    assert ColsOf(s.result) == [];
    var found := s.SolveRow(0);
    SearchFromEmpty(n);
    forall t {
      SolutionIffNonAttacking(n, t);
    }
    if found {
      var t := Search(n, []).value;
      assert ColsOf(s.result) == t;
      assert s.result == Placements(t);
      SolutionIsNonAttacking(n, t);
      sol := Some(s.result);
    } else {
      sol := None;
    }
  }
}
