/**
 * The region partition of the board: fixed templates for sizes 4, 6 and 8,
 * and the diagonal-stripe formula `(row + col) % n` for every other size.
 */
module Regions {

  /** The 4-by-4 template: four 2-by-2 quadrants. */
  const SmallTemplate: seq<seq<int>> := [
    [0, 0, 1, 1],
    [0, 0, 1, 1],
    [2, 2, 3, 3],
    [2, 2, 3, 3]
  ]

  /** The 6-by-6 template. */
  const MediumTemplate: seq<seq<int>> := [
    [0, 0, 1, 1, 1, 2],
    [0, 0, 1, 1, 1, 2],
    [3, 3, 4, 4, 4, 2],
    [3, 3, 4, 4, 4, 5],
    [3, 3, 4, 4, 4, 5],
    [0, 1, 2, 3, 4, 5]
  ]

  /** The 8-by-8 template. */
  const LargeTemplate: seq<seq<int>> := [
    [0, 0, 1, 1, 2, 2, 3, 3],
    [0, 0, 1, 1, 2, 2, 3, 3],
    [4, 4, 5, 5, 6, 6, 7, 7],
    [4, 4, 5, 5, 6, 6, 7, 7],
    [0, 1, 2, 3, 4, 5, 6, 7],
    [0, 1, 2, 3, 4, 5, 6, 7],
    [4, 5, 6, 7, 0, 1, 2, 3],
    [4, 5, 6, 7, 0, 1, 2, 3]
  ]

  /** A template for an n-board has n rows of n entries each. */
  predicate IsSquare(pattern: seq<seq<int>>, n: int)
  {
    |pattern| == n && forall r :: 0 <= r < n ==> |pattern[r]| == n
  }

  /** Sizes with a fixed template; every other size uses the fallback formula. */
  predicate HasTemplate(n: int)
  {
    n == 4 || n == 6 || n == 8
  }

  /** The template `generateRegions` copies for a size that has one. */
  function Template(n: int): (pattern: seq<seq<int>>)
    requires HasTemplate(n)
    ensures IsSquare(pattern, n)
  {
    if n == 4 then SmallTemplate else if n == 6 then MediumTemplate else LargeTemplate
  }

  /** The region id `generateRegions` gives cell (row, col) of an n-board. */
  function RegionOf(n: int, row: int, col: int): (id: int)
    requires 0 <= row < n && 0 <= col < n
    ensures 0 <= id < n
  {
    if HasTemplate(n) then Template(n)[row][col] else (row + col) % n
  }

  /** On an n-board every id below n names some cell: each region is non-empty. */
  lemma EveryRegionUsed(n: int, id: int)
    requires 0 <= id < n
    ensures exists row, col :: 0 <= row < n && 0 <= col < n && RegionOf(n, row, col) == id
  {
    if n == 4 {
      var row, col := 2 * (id / 2), 2 * (id % 2);
      assert RegionOf(n, row, col) == id;
    } else if n == 6 {
      assert RegionOf(n, 5, id) == id;
    } else if n == 8 {
      assert RegionOf(n, 4, id) == id;
    } else {
      assert RegionOf(n, 0, id) == id;
    }
  }

  /** For 0 <= x < 2n the remainder by n is found by one subtraction at most. */
  lemma ModBelowTwice(x: int, n: int)
    requires 0 < n && 0 <= x < 2 * n
    ensures x % n == if x < n then x else x - n
  {
    if x >= n {
      assert x == 1 * n + (x - n);
    }
  }

  /**
   * The fallback partition is a Latin square: in every row and in every
   * column of the board each id below n appears exactly once.
   */
  lemma FallbackIsLatin(n: int, line: int, id: int)
    requires !HasTemplate(n) && 0 <= line < n && 0 <= id < n
    ensures exists col :: 0 <= col < n && RegionOf(n, line, col) == id
    ensures exists row :: 0 <= row < n && RegionOf(n, row, line) == id
    ensures forall c1, c2 :: 0 <= c1 < n && 0 <= c2 < n && RegionOf(n, line, c1) == RegionOf(n, line, c2) ==> c1 == c2
    ensures forall r1, r2 :: 0 <= r1 < n && 0 <= r2 < n && RegionOf(n, r1, line) == RegionOf(n, r2, line) ==> r1 == r2
  {
    var k := if id >= line then id - line else id - line + n;
    ModBelowTwice(line + k, n);
    assert RegionOf(n, line, k) == id;
    assert RegionOf(n, k, line) == id;
    forall c | 0 <= c < n
      ensures RegionOf(n, line, c) == RegionOf(n, c, line) == if line + c < n then line + c else line + c - n
    {
      ModBelowTwice(line + c, n);
      assert c + line == line + c;
    }
  }
}
