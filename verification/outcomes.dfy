/**
 * What the auto-solver's placement scores on the three template boards. The
 * solver ignores the regions, so its first solution wins on the 4-board but
 * puts two firewalls in one region of the 6-board and of the 8-board.
 */
module Outcomes {
  import opened Cells
  import opened Regions
  import opened Coverage
  import opened Solver
  import opened KnownSolutions

  /** The counts after the first 3 firewalls of the 4-board placement. */
  lemma CountsOfFourUpto3()
    ensures RegionCounts([Cell(0, 1), Cell(1, 3), Cell(2, 0)], 4) == [1, 1, 1, 0]
  {
    assert RegionCounts([Cell(0, 1)], 4) == [1, 0, 0, 0] by {
      RegionCountsEmpty(4);
      RegionCountsAppend([], Cell(0, 1), 4);
      assert [] + [Cell(0, 1)] == [Cell(0, 1)];
    }
    assert RegionCounts([Cell(0, 1), Cell(1, 3)], 4) == [1, 1, 0, 0] by {
      RegionCountsAppend([Cell(0, 1)], Cell(1, 3), 4);
      assert [Cell(0, 1)] + [Cell(1, 3)] == [Cell(0, 1), Cell(1, 3)];
    }
    assert RegionCounts([Cell(0, 1), Cell(1, 3), Cell(2, 0)], 4) == [1, 1, 1, 0] by {
      RegionCountsAppend([Cell(0, 1), Cell(1, 3)], Cell(2, 0), 4);
      assert [Cell(0, 1), Cell(1, 3)] + [Cell(2, 0)] == [Cell(0, 1), Cell(1, 3), Cell(2, 0)];
    }
  }

  /** The region counts of the solver's placement on the 4-board: one firewall per region. */
  lemma CountsOfFour()
    ensures RegionCounts(Placements([1, 3, 0, 2]), 4) == [1, 1, 1, 1]
  {
    CountsOfFourUpto3();
    assert RegionCounts([Cell(0, 1), Cell(1, 3), Cell(2, 0), Cell(3, 2)], 4) == [1, 1, 1, 1] by {
      RegionCountsAppend([Cell(0, 1), Cell(1, 3), Cell(2, 0)], Cell(3, 2), 4);
      assert [Cell(0, 1), Cell(1, 3), Cell(2, 0)] + [Cell(3, 2)] == [Cell(0, 1), Cell(1, 3), Cell(2, 0), Cell(3, 2)];
    }
    assert Placements([1, 3, 0, 2]) == [Cell(0, 1), Cell(1, 3), Cell(2, 0), Cell(3, 2)];
  }

  /** The counts after the first 3 firewalls of the 6-board placement. */
  lemma CountsOfSixUpto3()
    ensures RegionCounts([Cell(0, 1), Cell(1, 3), Cell(2, 5)], 6) == [1, 1, 1, 0, 0, 0]
  {
    assert RegionCounts([Cell(0, 1)], 6) == [1, 0, 0, 0, 0, 0] by {
      RegionCountsEmpty(6);
      RegionCountsAppend([], Cell(0, 1), 6);
      assert [] + [Cell(0, 1)] == [Cell(0, 1)];
    }
    assert RegionCounts([Cell(0, 1), Cell(1, 3)], 6) == [1, 1, 0, 0, 0, 0] by {
      RegionCountsAppend([Cell(0, 1)], Cell(1, 3), 6);
      assert [Cell(0, 1)] + [Cell(1, 3)] == [Cell(0, 1), Cell(1, 3)];
    }
    assert RegionCounts([Cell(0, 1), Cell(1, 3), Cell(2, 5)], 6) == [1, 1, 1, 0, 0, 0] by {
      RegionCountsAppend([Cell(0, 1), Cell(1, 3)], Cell(2, 5), 6);
      assert [Cell(0, 1), Cell(1, 3)] + [Cell(2, 5)] == [Cell(0, 1), Cell(1, 3), Cell(2, 5)];
    }
  }

  /** The region counts of the solver's placement on the 6-board: region 4 twice, region 5 never. */
  lemma CountsOfSix()
    ensures RegionCounts(Placements([1, 3, 5, 0, 2, 4]), 6) == [1, 1, 1, 1, 2, 0]
  {
    CountsOfSixUpto3();
    assert RegionCounts([Cell(0, 1), Cell(1, 3), Cell(2, 5), Cell(3, 0)], 6) == [1, 1, 1, 1, 0, 0] by {
      RegionCountsAppend([Cell(0, 1), Cell(1, 3), Cell(2, 5)], Cell(3, 0), 6);
      assert [Cell(0, 1), Cell(1, 3), Cell(2, 5)] + [Cell(3, 0)] == [Cell(0, 1), Cell(1, 3), Cell(2, 5), Cell(3, 0)];
    }
    assert RegionCounts([Cell(0, 1), Cell(1, 3), Cell(2, 5), Cell(3, 0), Cell(4, 2)], 6) == [1, 1, 1, 1, 1, 0] by {
      RegionCountsAppend([Cell(0, 1), Cell(1, 3), Cell(2, 5), Cell(3, 0)], Cell(4, 2), 6);
      assert [Cell(0, 1), Cell(1, 3), Cell(2, 5), Cell(3, 0)] + [Cell(4, 2)] == [Cell(0, 1), Cell(1, 3), Cell(2, 5), Cell(3, 0), Cell(4, 2)];
    }
    assert RegionCounts([Cell(0, 1), Cell(1, 3), Cell(2, 5), Cell(3, 0), Cell(4, 2), Cell(5, 4)], 6) == [1, 1, 1, 1, 2, 0] by {
      RegionCountsAppend([Cell(0, 1), Cell(1, 3), Cell(2, 5), Cell(3, 0), Cell(4, 2)], Cell(5, 4), 6);
      assert [Cell(0, 1), Cell(1, 3), Cell(2, 5), Cell(3, 0), Cell(4, 2)] + [Cell(5, 4)] == [Cell(0, 1), Cell(1, 3), Cell(2, 5), Cell(3, 0), Cell(4, 2), Cell(5, 4)];
    }
    assert Placements([1, 3, 5, 0, 2, 4]) == [Cell(0, 1), Cell(1, 3), Cell(2, 5), Cell(3, 0), Cell(4, 2), Cell(5, 4)];
  }

  /** The counts after the first 3 firewalls of the 8-board placement. */
  lemma CountsOfEightUpto3()
    ensures RegionCounts([Cell(0, 0), Cell(1, 4), Cell(2, 7)], 8) == [1, 0, 1, 0, 0, 0, 0, 1]
  {
    assert RegionCounts([Cell(0, 0)], 8) == [1, 0, 0, 0, 0, 0, 0, 0] by {
      RegionCountsEmpty(8);
      RegionCountsAppend([], Cell(0, 0), 8);
      assert [] + [Cell(0, 0)] == [Cell(0, 0)];
    }
    assert RegionCounts([Cell(0, 0), Cell(1, 4)], 8) == [1, 0, 1, 0, 0, 0, 0, 0] by {
      RegionCountsAppend([Cell(0, 0)], Cell(1, 4), 8);
      assert [Cell(0, 0)] + [Cell(1, 4)] == [Cell(0, 0), Cell(1, 4)];
    }
    assert RegionCounts([Cell(0, 0), Cell(1, 4), Cell(2, 7)], 8) == [1, 0, 1, 0, 0, 0, 0, 1] by {
      RegionCountsAppend([Cell(0, 0), Cell(1, 4)], Cell(2, 7), 8);
      assert [Cell(0, 0), Cell(1, 4)] + [Cell(2, 7)] == [Cell(0, 0), Cell(1, 4), Cell(2, 7)];
    }
  }

  /** The counts after the first 6 firewalls of the 8-board placement. */
  lemma CountsOfEightUpto6()
    ensures RegionCounts([Cell(0, 0), Cell(1, 4), Cell(2, 7), Cell(3, 5), Cell(4, 2), Cell(5, 6)], 8) == [1, 0, 2, 0, 0, 0, 2, 1]
  {
    CountsOfEightUpto3();
    assert RegionCounts([Cell(0, 0), Cell(1, 4), Cell(2, 7), Cell(3, 5)], 8) == [1, 0, 1, 0, 0, 0, 1, 1] by {
      RegionCountsAppend([Cell(0, 0), Cell(1, 4), Cell(2, 7)], Cell(3, 5), 8);
      assert [Cell(0, 0), Cell(1, 4), Cell(2, 7)] + [Cell(3, 5)] == [Cell(0, 0), Cell(1, 4), Cell(2, 7), Cell(3, 5)];
    }
    assert RegionCounts([Cell(0, 0), Cell(1, 4), Cell(2, 7), Cell(3, 5), Cell(4, 2)], 8) == [1, 0, 2, 0, 0, 0, 1, 1] by {
      RegionCountsAppend([Cell(0, 0), Cell(1, 4), Cell(2, 7), Cell(3, 5)], Cell(4, 2), 8);
      assert [Cell(0, 0), Cell(1, 4), Cell(2, 7), Cell(3, 5)] + [Cell(4, 2)] == [Cell(0, 0), Cell(1, 4), Cell(2, 7), Cell(3, 5), Cell(4, 2)];
    }
    assert RegionCounts([Cell(0, 0), Cell(1, 4), Cell(2, 7), Cell(3, 5), Cell(4, 2), Cell(5, 6)], 8) == [1, 0, 2, 0, 0, 0, 2, 1] by {
      RegionCountsAppend([Cell(0, 0), Cell(1, 4), Cell(2, 7), Cell(3, 5), Cell(4, 2)], Cell(5, 6), 8);
      assert [Cell(0, 0), Cell(1, 4), Cell(2, 7), Cell(3, 5), Cell(4, 2)] + [Cell(5, 6)] == [Cell(0, 0), Cell(1, 4), Cell(2, 7), Cell(3, 5), Cell(4, 2), Cell(5, 6)];
    }
  }

  /** The region counts of the solver's placement on the 8-board: regions 2, 6 and 7 twice, regions 1, 3 and 4 never. */
  lemma CountsOfEight()
    ensures RegionCounts(Placements([0, 4, 7, 5, 2, 6, 1, 3]), 8) == [1, 0, 2, 0, 0, 1, 2, 2]
  {
    CountsOfEightUpto6();
    assert RegionCounts([Cell(0, 0), Cell(1, 4), Cell(2, 7), Cell(3, 5), Cell(4, 2), Cell(5, 6), Cell(6, 1)], 8) == [1, 0, 2, 0, 0, 1, 2, 1] by {
      RegionCountsAppend([Cell(0, 0), Cell(1, 4), Cell(2, 7), Cell(3, 5), Cell(4, 2), Cell(5, 6)], Cell(6, 1), 8);
      assert [Cell(0, 0), Cell(1, 4), Cell(2, 7), Cell(3, 5), Cell(4, 2), Cell(5, 6)] + [Cell(6, 1)] == [Cell(0, 0), Cell(1, 4), Cell(2, 7), Cell(3, 5), Cell(4, 2), Cell(5, 6), Cell(6, 1)];
    }
    assert RegionCounts([Cell(0, 0), Cell(1, 4), Cell(2, 7), Cell(3, 5), Cell(4, 2), Cell(5, 6), Cell(6, 1), Cell(7, 3)], 8) == [1, 0, 2, 0, 0, 1, 2, 2] by {
      RegionCountsAppend([Cell(0, 0), Cell(1, 4), Cell(2, 7), Cell(3, 5), Cell(4, 2), Cell(5, 6), Cell(6, 1)], Cell(7, 3), 8);
      assert [Cell(0, 0), Cell(1, 4), Cell(2, 7), Cell(3, 5), Cell(4, 2), Cell(5, 6), Cell(6, 1)] + [Cell(7, 3)] == [Cell(0, 0), Cell(1, 4), Cell(2, 7), Cell(3, 5), Cell(4, 2), Cell(5, 6), Cell(6, 1), Cell(7, 3)];
    }
    assert Placements([0, 4, 7, 5, 2, 6, 1, 3]) == [Cell(0, 0), Cell(1, 4), Cell(2, 7), Cell(3, 5), Cell(4, 2), Cell(5, 6), Cell(6, 1), Cell(7, 3)];
  }

  /** On the 4-board the solver's first solution wins the game, with score 1012. */
  lemma AutoSolveWinsOnFour()
    ensures Search(4, []).Some? && InBoard(Placements(Search(4, []).value), 4) &&
            Won(Placements(Search(4, []).value), 4) &&
            BoardScore(Placements(Search(4, []).value), 4) == 1012
  {
    FirstSolutionOfFour();
    CountsOfFour();
    WonIffAllProperlyCovered(Placements([1, 3, 0, 2]), 4);
    BoardScoreRange(Placements([1, 3, 0, 2]), 4);
  }

  /** On the 6-board the solver's first solution does not win: region 4 holds two firewalls. */
  lemma AutoSolveMissesOnSix()
    ensures Search(6, []).Some? && InBoard(Placements(Search(6, []).value), 6) &&
            !Won(Placements(Search(6, []).value), 6) &&
            CountIn(Placements(Search(6, []).value), 6, 4) == 2
  {
    FirstSolutionOfSix();
    CountsOfSix();
    assert RegionCounts(Placements([1, 3, 5, 0, 2, 4]), 6)[4] == 2;
  }

  /** Two of the eight region counts of the solver's 8-board placement are exactly 1. */
  lemma ProperlyCoveredOfEight()
    ensures ProperlyCovered([1, 0, 2, 0, 0, 1, 2, 2]) == 2
  {
    assert ProperlyCovered([1]) == 1 by {
      ProperlyCoveredSnoc([], 1);
      assert [] + [1] == [1];
    }
    assert ProperlyCovered([1, 0]) == 1 by {
      ProperlyCoveredSnoc([1], 0);
      assert [1] + [0] == [1, 0];
    }
    assert ProperlyCovered([1, 0, 2]) == 1 by {
      ProperlyCoveredSnoc([1, 0], 2);
      assert [1, 0] + [2] == [1, 0, 2];
    }
    assert ProperlyCovered([1, 0, 2, 0]) == 1 by {
      ProperlyCoveredSnoc([1, 0, 2], 0);
      assert [1, 0, 2] + [0] == [1, 0, 2, 0];
    }
    assert ProperlyCovered([1, 0, 2, 0, 0]) == 1 by {
      ProperlyCoveredSnoc([1, 0, 2, 0], 0);
      assert [1, 0, 2, 0] + [0] == [1, 0, 2, 0, 0];
    }
    assert ProperlyCovered([1, 0, 2, 0, 0, 1]) == 2 by {
      ProperlyCoveredSnoc([1, 0, 2, 0, 0], 1);
      assert [1, 0, 2, 0, 0] + [1] == [1, 0, 2, 0, 0, 1];
    }
    assert ProperlyCovered([1, 0, 2, 0, 0, 1, 2]) == 2 by {
      ProperlyCoveredSnoc([1, 0, 2, 0, 0, 1], 2);
      assert [1, 0, 2, 0, 0, 1] + [2] == [1, 0, 2, 0, 0, 1, 2];
    }
    assert ProperlyCovered([1, 0, 2, 0, 0, 1, 2, 2]) == 2 by {
      ProperlyCoveredSnoc([1, 0, 2, 0, 0, 1, 2], 2);
      assert [1, 0, 2, 0, 0, 1, 2] + [2] == [1, 0, 2, 0, 0, 1, 2, 2];
    }
  }

  /**
   * On the 8-board the solver's first solution does not win: region 2 holds
   * two firewalls, at (1, 4) and (4, 2), and the score is 244.
   */
  lemma AutoSolveMissesOnEight()
    ensures Search(8, []).Some? && InBoard(Placements(Search(8, []).value), 8) &&
            !Won(Placements(Search(8, []).value), 8) &&
            CountIn(Placements(Search(8, []).value), 8, 2) == 2 &&
            BoardScore(Placements(Search(8, []).value), 8) == 244
  {
    FirstSolutionOfEight();
    CountsOfEight();
    var counts := RegionCounts(Placements([0, 4, 7, 5, 2, 6, 1, 3]), 8);
    assert counts[2] == 2;
    ProperlyCoveredOfEight();
    assert Percent(2, 8) == 25;
  }
}
