/**
 * The game object: the board state the puzzle keeps between clicks and the
 * operations that change it. The `firewalls` list and the 0/1 `board` grid are
 * kept in step, `regions` holds the partition of the current board size, and
 * `score` and `status` are what the score panel shows.
 */
module Engine {
  import opened Cells
  import opened Placement
  import opened Regions
  import opened Coverage
  import opened Hints
  import Solver

  /** What `showHint` reports. */
  datatype Hint = AlreadySecured | Suggest(cell: Cell, region: int) | NoHint

  /** Which branch of `handleCellClick` ran, and so which message the player sees. */
  datatype Click = Ignored | Removed | Placed | Rejected

  class Game {
    var boardSize: nat
    var board: array2<int>
    var regions: array2<int>
    var firewalls: seq<Cell>
    var isGameComplete: bool
    var score: int
    var status: Status

    /**
     * Both grids are boardSize by boardSize, every firewall lies on the board,
     * `regions` holds the partition of `generateRegions`, and `board` marks
     * with 1 exactly the cells on the `firewalls` list.
     */
    ghost predicate Valid()
      reads this, board, regions
    {
      1 <= boardSize &&
      board.Length0 == boardSize && board.Length1 == boardSize &&
      regions.Length0 == boardSize && regions.Length1 == boardSize &&
      board != regions &&
      InBoard(firewalls, boardSize) &&
      (forall row, col :: 0 <= row < boardSize && 0 <= col < boardSize ==>
         regions[row, col] == RegionOf(boardSize, row, col)) &&
      (forall row, col :: 0 <= row < boardSize && 0 <= col < boardSize ==>
         board[row, col] == if Cell(row, col) in firewalls then 1 else 0)
    }

    /** A new game starts on the 8-by-8 board with nothing placed. */
    constructor ()
      ensures Valid() && fresh(board) && fresh(regions)
      ensures boardSize == 8 && firewalls == [] && !isGameComplete
      ensures score == 0 && status == Planning
    {
      boardSize := 8;
      board := new int[8, 8]((row, col) => 0);
      regions := new int[8, 8]((row, col) => -1);
      firewalls := [];
      isGameComplete := false;
      score := 0;
      status := Planning;
      new;
      InitializeGame();
    }

    /** `initializeGame`: clear the board and the list, rebuild the regions, refresh the panel. */
    method InitializeGame()
      requires 1 <= boardSize
      modifies this
      ensures Valid() && fresh(board) && fresh(regions)
      ensures boardSize == old(boardSize)
      ensures firewalls == [] && !isGameComplete
      ensures score == 0 && status == Planning
    {
      board := new int[boardSize, boardSize]((row, col) => 0);
      firewalls := [];
      isGameComplete := false;
      score := 0;
      GenerateRegions();
      UpdateDisplay();
    }

    /** `generateRegions`: a fresh grid filled with -1, then the builder for this size. */
    method GenerateRegions()
      requires 1 <= boardSize
      modifies this`regions
      ensures fresh(regions)
      ensures regions.Length0 == boardSize && regions.Length1 == boardSize
      ensures forall row, col :: 0 <= row < boardSize && 0 <= col < boardSize ==>
                regions[row, col] == RegionOf(boardSize, row, col)
    {
      regions := new int[boardSize, boardSize]((row, col) => -1);
      if boardSize == 4 {
        CreateTemplateRegions(SmallTemplate);
      } else if boardSize == 6 {
        CreateTemplateRegions(MediumTemplate);
      } else if boardSize == 8 {
        CreateTemplateRegions(LargeTemplate);
      } else {
        CreateCustomBoardRegions();
      }
    }

    /** The shared loop of the three template builders: copy `pattern` cell by cell. */
    method CreateTemplateRegions(pattern: seq<seq<int>>)
      requires regions.Length0 == boardSize && regions.Length1 == boardSize
      requires IsSquare(pattern, boardSize)
      modifies regions
      ensures forall row, col :: 0 <= row < boardSize && 0 <= col < boardSize ==>
                regions[row, col] == pattern[row][col]
    {
      for row := 0 to boardSize
        invariant forall r, c :: 0 <= r < row && 0 <= c < boardSize ==> regions[r, c] == pattern[r][c]
      {
        for col := 0 to boardSize
          invariant forall r, c :: 0 <= r < row && 0 <= c < boardSize ==> regions[r, c] == pattern[r][c]
          invariant forall c :: 0 <= c < col ==> regions[row, c] == pattern[row][c]
        {
          regions[row, col] := pattern[row][col];
        }
      }
    }

    /** `createCustomBoardRegions`: diagonal stripes `(row + col) % n`. */
    method CreateCustomBoardRegions()
      requires 1 <= boardSize
      requires regions.Length0 == boardSize && regions.Length1 == boardSize
      modifies regions
      ensures forall row, col :: 0 <= row < boardSize && 0 <= col < boardSize ==>
                regions[row, col] == (row + col) % boardSize
    {
      for row := 0 to boardSize
        invariant forall r, c :: 0 <= r < row && 0 <= c < boardSize ==> regions[r, c] == (r + c) % boardSize
      {
        for col := 0 to boardSize
          invariant forall r, c :: 0 <= r < row && 0 <= c < boardSize ==> regions[r, c] == (r + c) % boardSize
          invariant forall c :: 0 <= c < col ==> regions[row, c] == (row + c) % boardSize
        {
          regions[row, col] := (row + col) % boardSize;
        }
      }
    }

    /** `changeBoardSize`: switch to a new size and start over. */
    method ChangeBoardSize(newSize: int)
      requires 1 <= newSize
      modifies this
      ensures Valid() && fresh(board) && fresh(regions)
      ensures boardSize == newSize
      ensures firewalls == [] && !isGameComplete
      ensures score == 0 && status == Planning
    {
      boardSize := newSize;
      InitializeGame();
    }

    /**
     * `newGame`: start over on the same size. The partition depends on the
     * size alone, so the regions come out exactly as they were.
     */
    method NewGame()
      requires Valid()
      modifies this
      ensures Valid() && fresh(board) && fresh(regions)
      ensures boardSize == old(boardSize)
      ensures firewalls == [] && !isGameComplete
      ensures score == 0 && status == Planning
      ensures forall row, col :: 0 <= row < boardSize && 0 <= col < boardSize ==>
                regions[row, col] == old(regions[row, col])
    {
      InitializeGame();
    }

    /** `placeFirewall`: append the cell to the list and mark it on the board; no check here. */
    method PlaceFirewall(row: int, col: int)
      requires Valid() && 0 <= row < boardSize && 0 <= col < boardSize
      modifies this`firewalls, board
      ensures Valid()
      ensures firewalls == old(firewalls) + [Cell(row, col)]
      ensures board[row, col] == 1
      ensures forall r, c :: 0 <= r < boardSize && 0 <= c < boardSize && (r, c) != (row, col) ==>
                board[r, c] == old(board[r, c])
      ensures NonAttacking(old(firewalls)) && CanPlace(old(firewalls), row, col) ==>
                NonAttacking(firewalls) && Cell(row, col) !in old(firewalls)
    {
      if NonAttacking(firewalls) && CanPlace(firewalls, row, col) {
        PlaceKeepsNonAttacking(firewalls, row, col);
      }
      firewalls := firewalls + [Cell(row, col)];
      board[row, col] := 1;
    }

    /**
     * `removeFirewall`: drop every entry equal to the cell, keep the others in
     * order, and clear the cell on the board. On a cell holding no firewall the
     * list is left as it was.
     */
    method RemoveFirewall(row: int, col: int)
      requires Valid() && 0 <= row < boardSize && 0 <= col < boardSize
      modifies this`firewalls, board
      ensures Valid()
      ensures firewalls == Without(old(firewalls), Cell(row, col))
      ensures Cell(row, col) !in firewalls && board[row, col] == 0
      ensures forall r, c :: 0 <= r < boardSize && 0 <= c < boardSize && (r, c) != (row, col) ==>
                board[r, c] == old(board[r, c])
      ensures Cell(row, col) !in old(firewalls) ==> firewalls == old(firewalls)
    {
      var cell := Cell(row, col);
      var kept := Without(firewalls, cell);
      WithoutMembers(firewalls, cell, boardSize);
      if cell !in firewalls {
        WithoutAbsent(firewalls, cell);
      }
      forall r, c | 0 <= r < boardSize && 0 <= c < boardSize && (r, c) != (row, col)
        ensures Cell(r, c) in kept <==> Cell(r, c) in firewalls
      {
      }
      firewalls := kept;
      board[row, col] := 0;
    }

    /** `resetBoard`: empty list, fresh all-zero board, not complete, panel refreshed. */
    method ResetBoard()
      requires Valid()
      modifies this`firewalls, this`board, this`isGameComplete, this`score, this`status
      ensures Valid() && fresh(board)
      ensures firewalls == [] && !isGameComplete
      ensures score == 0 && status == Planning
    {
      firewalls := [];
      board := new int[boardSize, boardSize]((row, col) => 0);
      isGameComplete := false;
      UpdateDisplay();
    }

    /** The counting loop shared by `updateDisplay`, `checkGameComplete` and `showHint`. */
    method RegionCoverage() returns (counts: seq<int>)
      requires Valid()
      ensures counts == RegionCounts(firewalls, boardSize)
    {
      var tally := new int[boardSize](i => 0);
      for i := 0 to |firewalls|
        invariant InBoard(firewalls[..i], boardSize)
        invariant tally[..] == RegionCounts(firewalls[..i], boardSize)
      {
        var f := firewalls[i];
        var id := regions[f.row, f.col];
        assert firewalls[..i + 1] == firewalls[..i] + [f];
        RegionCountsAppend(firewalls[..i], f, boardSize);
        tally[id] := tally[id] + 1;
      }
      assert firewalls[..|firewalls|] == firewalls;
      counts := tally[..];
    }

    /**
     * `updateDisplay`: recompute the score from the region counts and set the
     * status line from the completion flag and the firewall count.
     */
    method UpdateDisplay()
      requires Valid()
      modifies this`score, this`status
      ensures Valid()
      ensures score == BoardScore(firewalls, boardSize)
      ensures 0 <= score <= 1000 + 5 * boardSize
      ensures Won(firewalls, boardSize) ==> score == 1000 + 3 * boardSize
      ensures firewalls == [] ==> score == 0
      ensures status == StatusOf(isGameComplete, |firewalls|)
    {
      var counts := RegionCoverage();
      var properlyCovered := ProperlyCovered(counts);
      var coverage := Percent(properlyCovered, boardSize);
      score := Score(coverage, properlyCovered, |firewalls|);
      BoardScoreRange(firewalls, boardSize);
      if firewalls == [] {
        EmptyBoardScore(boardSize);
      }
      if isGameComplete {
        status := Secured;
      } else if |firewalls| > 0 {
        status := Deploying;
      } else {
        status := Planning;
      }
    }

    /** `checkGameComplete`: set the flag when every region holds one firewall and there are n of them. */
    method CheckGameComplete()
      requires Valid()
      modifies this`isGameComplete
      ensures Valid()
      ensures isGameComplete == (old(isGameComplete) || Won(firewalls, boardSize))
    {
      var counts := RegionCoverage();
      var allRegionsCovered := AllCoveredOnce(counts);
      var correctFirewallCount := |firewalls| == boardSize;
      if allRegionsCovered && correctFirewallCount {
        isGameComplete := true;
      }
    }

    /**
     * `showHint`: nothing to suggest once the game is complete; otherwise the
     * first placeable cell, in row-major order, of the lowest region holding
     * no firewall, or no suggestion at all.
     */
    method ShowHint() returns (hint: Hint)
      requires Valid()
      ensures hint == AlreadySecured <==> isGameComplete
      ensures hint.Suggest? ==>
                var id := LowestUncovered(RegionCounts(firewalls, boardSize));
                id != -1 && hint.region == id && IsHint(firewalls, boardSize, id, hint.cell)
      ensures hint == NoHint ==>
                var id := LowestUncovered(RegionCounts(firewalls, boardSize));
                id == -1 || forall row, col :: !Placeable(firewalls, boardSize, id, row, col)
    {
      if isGameComplete {
        return AlreadySecured;
      }
      var counts := RegionCoverage();
      var uncoveredRegion := LowestUncovered(counts);
      if uncoveredRegion != -1 {
        for row := 0 to boardSize
          invariant forall r, c :: Placeable(firewalls, boardSize, uncoveredRegion, r, c) ==> r >= row
        {
          for col := 0 to boardSize
            invariant forall r, c :: Placeable(firewalls, boardSize, uncoveredRegion, r, c) ==> r >= row
            invariant forall c :: Placeable(firewalls, boardSize, uncoveredRegion, row, c) ==> c >= col
          {
            if regions[row, col] == uncoveredRegion && CanPlace(firewalls, row, col) {
              return Suggest(Cell(row, col), uncoveredRegion);
            }
          }
        }
      }
      return NoHint;
    }

    /** The three branches of `handleCellClick`: remove a firewall, place one, or refuse. */
    method ApplyClick(row: int, col: int) returns (click: Click)
      requires Valid() && 0 <= row < boardSize && 0 <= col < boardSize
      modifies this`firewalls, board
      ensures Valid()
      ensures click == Removed <==> Cell(row, col) in old(firewalls)
      ensures click == Placed <==> Cell(row, col) !in old(firewalls) && CanPlace(old(firewalls), row, col)
      ensures click != Ignored
      ensures click == Removed ==> firewalls == Without(old(firewalls), Cell(row, col))
      ensures click == Placed ==> firewalls == old(firewalls) + [Cell(row, col)]
      ensures click == Rejected ==> firewalls == old(firewalls)
      ensures NonAttacking(old(firewalls)) ==> NonAttacking(firewalls)
    {
      if board[row, col] == 1 {
        WithoutKeepsLegal(firewalls, Cell(row, col), boardSize);
        RemoveFirewall(row, col);
        click := Removed;
      } else if CanPlace(firewalls, row, col) {
        PlaceFirewall(row, col);
        click := Placed;
      } else {
        click := Rejected;
      }
    }

    /**
     * `handleCellClick`: ignored once the game is complete; otherwise apply
     * the click, refresh the panel, then test for a win. Because the panel is
     * refreshed before the test, the status shown after a winning click is
     * still "Deploying...".
     */
    method HandleCellClick(row: int, col: int) returns (click: Click)
      requires Valid() && 0 <= row < boardSize && 0 <= col < boardSize
      modifies this`firewalls, board, this`score, this`status, this`isGameComplete
      ensures Valid()
      ensures old(isGameComplete) ==>
                click == Ignored && isGameComplete && firewalls == old(firewalls) &&
                score == old(score) && status == old(status) && unchanged(board)
      ensures !old(isGameComplete) ==>
                click != Ignored &&
                (click == Removed <==> Cell(row, col) in old(firewalls)) &&
                (click == Placed <==> Cell(row, col) !in old(firewalls) && CanPlace(old(firewalls), row, col))
      ensures click == Removed ==> firewalls == Without(old(firewalls), Cell(row, col))
      ensures click == Placed ==> firewalls == old(firewalls) + [Cell(row, col)]
      ensures click == Rejected ==> firewalls == old(firewalls)
      ensures NonAttacking(old(firewalls)) ==> NonAttacking(firewalls)
      ensures !old(isGameComplete) ==>
                isGameComplete == Won(firewalls, boardSize) &&
                score == BoardScore(firewalls, boardSize) &&
                status == StatusOf(false, |firewalls|)
      ensures !old(isGameComplete) && isGameComplete ==> status == Deploying
      ensures NonAttacking(old(firewalls)) ==> |firewalls| <= boardSize
    {
      if isGameComplete {
        NonAttackingAtMostN(firewalls, boardSize);
        return Ignored;
      }
      click := ApplyClick(row, col);
      UpdateDisplay();
      CheckGameComplete();
      WonIffAllProperlyCovered(firewalls, boardSize);
      NonAttackingAtMostN(firewalls, boardSize);
    }

    /**
     * The click handler with the win test moved before the panel refresh:
     * the status line then reads "Network Secured!" exactly when the click
     * completed the game.
     */
    method HandleCellClickCheckingFirst(row: int, col: int) returns (click: Click)
      requires Valid() && 0 <= row < boardSize && 0 <= col < boardSize
      modifies this`firewalls, board, this`score, this`status, this`isGameComplete
      ensures Valid()
      ensures old(isGameComplete) ==>
                click == Ignored && isGameComplete && firewalls == old(firewalls) &&
                score == old(score) && status == old(status) && unchanged(board)
      ensures !old(isGameComplete) ==>
                click != Ignored &&
                (click == Removed <==> Cell(row, col) in old(firewalls)) &&
                (click == Placed <==> Cell(row, col) !in old(firewalls) && CanPlace(old(firewalls), row, col))
      ensures click == Removed ==> firewalls == Without(old(firewalls), Cell(row, col))
      ensures click == Placed ==> firewalls == old(firewalls) + [Cell(row, col)]
      ensures click == Rejected ==> firewalls == old(firewalls)
      ensures NonAttacking(old(firewalls)) ==> NonAttacking(firewalls)
      ensures !old(isGameComplete) ==>
                isGameComplete == Won(firewalls, boardSize) &&
                score == BoardScore(firewalls, boardSize) &&
                status == StatusOf(isGameComplete, |firewalls|)
      ensures !old(isGameComplete) ==> (status == Secured <==> isGameComplete)
    {
      if isGameComplete {
        return Ignored;
      }
      click := ApplyClick(row, col);
      CheckGameComplete();
      UpdateDisplay();
    }

    /**
     * `autoSolve`, with the staged replay run synchronously: reset, run the
     * solver, then place its cells one by one. The result is the solver's first
     * solution; whether it wins depends on the regions.
     */
    method AutoSolve() returns (solved: bool)
      requires Valid()
      modifies this`firewalls, this`board, this`score, this`status, this`isGameComplete
      ensures Valid()
      ensures solved <==> exists t :: Solver.Solution(boardSize, t)
      ensures solved <==> Solver.Search(boardSize, []).Some?
      ensures solved ==> firewalls == Solver.Placements(Solver.Search(boardSize, []).value)
      ensures !solved ==> firewalls == []
      ensures NonAttacking(firewalls)
      ensures isGameComplete == (solved && Won(firewalls, boardSize))
      ensures score == BoardScore(firewalls, boardSize)
      ensures status == StatusOf(false, |firewalls|)
    {
      ResetBoard();
      EmptyBoardScore(boardSize);
      Solver.SearchFromEmpty(boardSize);
      var solution := Solver.SolveNQueens(boardSize);
      if solution.Some? {
        ReplaySolution(solution.value);
      }
      solved := solution.Some?;
    }

    /** One timer callback of the replay: place the cell, then refresh the panel. */
    method ReplayStep(cell: Cell)
      requires Valid() && 0 <= cell.row < boardSize && 0 <= cell.col < boardSize
      modifies this`firewalls, board, this`score, this`status
      ensures Valid()
      ensures firewalls == old(firewalls) + [cell]
      ensures score == BoardScore(firewalls, boardSize)
      ensures status == StatusOf(isGameComplete, |firewalls|)
    {
      PlaceFirewall(cell.row, cell.col);
      UpdateDisplay();
    }

    /**
     * The staged replay of `autoSolve`: place each cell, refresh the panel
     * after each, and test for a win after the last one.
     */
    method ReplaySolution(cells: seq<Cell>)
      requires Valid() && firewalls == [] && !isGameComplete
      requires 1 <= |cells| && InBoard(cells, boardSize)
      requires score == BoardScore([], boardSize) && status == Planning
      modifies this`firewalls, board, this`score, this`status, this`isGameComplete
      ensures Valid()
      ensures firewalls == cells
      ensures isGameComplete == Won(cells, boardSize)
      ensures score == BoardScore(cells, boardSize)
      ensures status == StatusOf(false, |cells|)
    {
      for index := 0 to |cells|
        invariant Valid() && board == old(board)
        invariant firewalls == cells[..index]
        invariant index < |cells| ==> !isGameComplete
        invariant index == |cells| ==> isGameComplete == Won(cells, boardSize)
        invariant score == BoardScore(firewalls, boardSize)
        invariant status == StatusOf(false, |firewalls|)
      {
        assert cells[..index + 1] == cells[..index] + [cells[index]];
        ReplayStep(cells[index]);
        if index == |cells| - 1 {
          assert firewalls == cells;
          CheckGameComplete();
        }
      }
      assert cells[..|cells|] == cells;
    }
  }
}
