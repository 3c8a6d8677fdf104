/**
 * Concrete sessions with the game object, played on the 4-board and on the
 * default 8-board.
 */
module Scenarios {
  import opened Cells
  import opened Placement
  import opened Coverage
  import opened Solver
  import opened KnownSolutions
  import opened Outcomes
  import opened Engine

  /** Firewalls at (0, 0) and (2, 1) of the 4-board lie in regions 0 and 2. */
  lemma CountsOfTwoOnFour()
    ensures InBoard([Cell(0, 0), Cell(2, 1)], 4)
    ensures RegionCounts([Cell(0, 0), Cell(2, 1)], 4) == [1, 0, 1, 0]
  {
    assert RegionCounts([Cell(0, 0)], 4) == [1, 0, 0, 0] by {
      RegionCountsEmpty(4);
      RegionCountsAppend([], Cell(0, 0), 4);
      assert [] + [Cell(0, 0)] == [Cell(0, 0)];
    }
    RegionCountsAppend([Cell(0, 0)], Cell(2, 1), 4);
    assert [Cell(0, 0)] + [Cell(2, 1)] == [Cell(0, 0), Cell(2, 1)];
  }

  /** Two of the counts 1, 0, 1, 0 are exactly 1. */
  lemma ProperlyCoveredOfTwoOnFour()
    ensures ProperlyCovered([1, 0, 1, 0]) == 2
  {
    assert ProperlyCovered([1]) == 1 by {
      ProperlyCoveredSnoc([], 1);
      assert [] + [1] == [1];
    }
    assert ProperlyCovered([1, 0]) == 1 by {
      ProperlyCoveredSnoc([1], 0);
      assert [1] + [0] == [1, 0];
    }
    assert ProperlyCovered([1, 0, 1]) == 2 by {
      ProperlyCoveredSnoc([1, 0], 1);
      assert [1, 0] + [1] == [1, 0, 1];
    }
    ProperlyCoveredSnoc([1, 0, 1], 0);
    assert [1, 0, 1] + [0] == [1, 0, 1, 0];
  }

  /** Two firewalls covering two of the four regions: coverage 50%, score 506. */
  lemma ScoreOfTwoOnFour()
    ensures InBoard([Cell(0, 0), Cell(2, 1)], 4)
    ensures BoardScore([Cell(0, 0), Cell(2, 1)], 4) == 506
  {
    CountsOfTwoOnFour();
    ProperlyCoveredOfTwoOnFour();
    assert Percent(2, 4) == 50;
  }

  /** A click on an empty cell that `canPlaceFirewall` accepts places a firewall there. */
  method ClickAccepted(game: Game, row: int, col: int) returns (click: Click)
    requires game.Valid() && !game.isGameComplete
    requires 0 <= row < game.boardSize && 0 <= col < game.boardSize
    requires Cell(row, col) !in game.firewalls && CanPlace(game.firewalls, row, col)
    modifies game, game.board
    ensures game.Valid() && game.boardSize == old(game.boardSize) && game.board == old(game.board)
    ensures click == Placed
    ensures game.firewalls == old(game.firewalls) + [Cell(row, col)]
    ensures game.isGameComplete == Won(game.firewalls, game.boardSize)
    ensures game.score == BoardScore(game.firewalls, game.boardSize)
    ensures game.status == StatusOf(false, |game.firewalls|)
  {
    click := game.HandleCellClick(row, col);
  }

  /** A click on an empty cell that `canPlaceFirewall` refuses changes no firewall. */
  method ClickRefused(game: Game, row: int, col: int) returns (click: Click)
    requires game.Valid() && !game.isGameComplete
    requires 0 <= row < game.boardSize && 0 <= col < game.boardSize
    requires Cell(row, col) !in game.firewalls && !CanPlace(game.firewalls, row, col)
    modifies game, game.board
    ensures game.Valid() && game.boardSize == old(game.boardSize) && game.board == old(game.board)
    ensures click == Rejected
    ensures game.firewalls == old(game.firewalls)
    ensures game.isGameComplete == Won(game.firewalls, game.boardSize)
    ensures game.score == BoardScore(game.firewalls, game.boardSize)
  {
    click := game.HandleCellClick(row, col);
  }

  /**
   * On the 4-board: (0, 0) is accepted, (1, 1) is refused (diagonal), (0, 3)
   * is refused (row), (2, 1) is accepted, and the score is then 506.
   */
  method FourBoardWalkthrough() returns (clicks: seq<Click>, firewalls: seq<Cell>, score: int)
    ensures clicks == [Placed, Rejected, Rejected, Placed]
    ensures firewalls == [Cell(0, 0), Cell(2, 1)]
    ensures score == 506
  {
    var game := new Game();
    game.ChangeBoardSize(4);
    var first := ClickAccepted(game, 0, 0);
    assert game.firewalls == [Cell(0, 0)] && !game.isGameComplete;
    var second := ClickRefused(game, 1, 1);
    var third := ClickRefused(game, 0, 3);
    var fourth := ClickAccepted(game, 2, 1);
    assert game.firewalls == [Cell(0, 0), Cell(2, 1)];
    ScoreOfTwoOnFour();
    clicks, firewalls, score := [first, second, third, fourth], game.firewalls, game.score;
  }

  /** The winning firewalls of the 4-board, in the order the player places them. */
  lemma WinningFour()
    ensures InBoard([Cell(0, 1), Cell(1, 3), Cell(2, 0), Cell(3, 2)], 4)
    ensures Won([Cell(0, 1), Cell(1, 3), Cell(2, 0), Cell(3, 2)], 4)
  {
    AutoSolveWinsOnFour();
    FirstSolutionOfFour();
    assert Placements([1, 3, 0, 2]) == [Cell(0, 1), Cell(1, 3), Cell(2, 0), Cell(3, 2)];
  }

  /** A fresh 4-board holding the first three firewalls of the winning placement. */
  method ThreePlacedOnFour() returns (game: Game)
    ensures fresh(game) && fresh(game.board) && game.Valid() && game.boardSize == 4
    ensures game.firewalls == [Cell(0, 1), Cell(1, 3), Cell(2, 0)] && !game.isGameComplete
  {
    game := new Game();
    game.ChangeBoardSize(4);
    var click := ClickAccepted(game, 0, 1);
    assert game.firewalls == [Cell(0, 1)] && !game.isGameComplete;
    click := ClickAccepted(game, 1, 3);
    assert game.firewalls == [Cell(0, 1), Cell(1, 3)] && !game.isGameComplete;
    click := ClickAccepted(game, 2, 0);
  }

  /**
   * Playing (0, 1), (1, 3), (2, 0) and then (3, 2) on the 4-board completes the
   * game, yet the status line the winning click leaves on screen is
   * "Deploying...", because the panel is refreshed before the win test.
   */
  method WinningClickOnFour() returns (complete: bool, shown: Status, score: int)
    ensures complete && shown == Deploying && score == 1012
  {
    var game := ThreePlacedOnFour();
    var click := ClickAccepted(game, 3, 2);
    assert game.firewalls == [Cell(0, 1), Cell(1, 3), Cell(2, 0), Cell(3, 2)];
    WinningFour();
    BoardScoreRange(game.firewalls, 4);
    complete, shown, score := game.isGameComplete, game.status, game.score;
  }

  /** The same clicks with the win test made before the panel refresh show "Network Secured!". */
  method WinningClickOnFourCheckingFirst() returns (complete: bool, shown: Status)
    ensures complete && shown == Secured
  {
    var game := ThreePlacedOnFour();
    assert CanPlace(game.firewalls, 3, 2);
    var click := game.HandleCellClickCheckingFirst(3, 2);
    assert game.firewalls == [Cell(0, 1), Cell(1, 3), Cell(2, 0), Cell(3, 2)];
    WinningFour();
    complete, shown := game.isGameComplete, game.status;
  }

  /**
   * Auto-solve on the default 8-board places the solver's first solution,
   * which leaves two firewalls in region 2: the game is not complete and the
   * score is 244.
   */
  method AutoSolveOnEight() returns (solved: bool, complete: bool, score: int)
    ensures solved && !complete && score == 244
  {
    var game := new Game();
    solved := game.AutoSolve();
    AutoSolveMissesOnEight();
    complete, score := game.isGameComplete, game.score;
  }
}
