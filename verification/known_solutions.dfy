/**
 * The placements the auto-solver produces on the three template sizes. Each
 * pin is proved without running the search: a search result is a solution
 * that no solution precedes in lexicographic order, and the arithmetic facts a
 * solution of size n satisfies leave only one candidate that nothing precedes.
 */
module KnownSolutions {
  import opened Cells
  import opened Solver

  /** Two columns on rows `d` apart share no column and no diagonal. */
  predicate Apart(a: int, b: int, d: int)
  {
    a != b && Abs(a - b) != d
  }

  /** A list of columns that no list agreeing with `a` on the first k entries can precede at entry k. */
  lemma LexStep(a: seq<int>, s: seq<int>, k: int)
    requires !LexLess(a, s) && |a| == |s| && 0 <= k < |a|
    ensures (forall i :: 0 <= i < k ==> s[i] == a[i]) ==> s[k] <= a[k]
  {
    if forall i :: 0 <= i < k ==> s[i] == a[i] {
      assert a[..k] == s[..k];
    }
  }

  /** The only 4-column list meeting the solution and not-preceded facts is [1, 3, 0, 2]. */
  lemma FourColumns(c0: int, c1: int, c2: int, c3: int)
    requires 0 <= c0 < 4 && 0 <= c1 < 4 && 0 <= c2 < 4 && 0 <= c3 < 4
    requires Apart(c0, c1, 1) && Apart(c0, c2, 2) && Apart(c0, c3, 3)
    requires Apart(c1, c2, 1) && Apart(c1, c3, 2)
    requires Apart(c2, c3, 1)
    requires c0 <= 1
    requires c0 == 1 ==> c1 <= 3
    requires c0 == 1 && c1 == 3 ==> c2 <= 0
    requires c0 == 1 && c1 == 3 && c2 == 0 ==> c3 <= 2
    ensures c0 == 1 && c1 == 3 && c2 == 0 && c3 == 2
  {
  }

  // The `Apart` facts of row k against every earlier row, one lemma per row:
  // the split keeps each proof obligation small enough for the verifier.
  lemma FourRowApart1(s: seq<int>)
    requires Solution(4, s)
    ensures 0 <= s[1] < 4 && Apart(s[0], s[1], 1)
  {
    RowPair(4, s, 0, 1);
  }

  lemma FourRowApart2(s: seq<int>)
    requires Solution(4, s)
    ensures 0 <= s[2] < 4 && Apart(s[0], s[2], 2) && Apart(s[1], s[2], 1)
  {
    RowPair(4, s, 0, 2); RowPair(4, s, 1, 2);
  }

  lemma FourRowApart3(s: seq<int>)
    requires Solution(4, s)
    ensures 0 <= s[3] < 4 && Apart(s[0], s[3], 3) && Apart(s[1], s[3], 2) && Apart(s[2], s[3], 1)
  {
    RowPair(4, s, 0, 3); RowPair(4, s, 1, 3); RowPair(4, s, 2, 3);
  }

  /** What a size-4 solution that does not come after [1, 3, 0, 2] satisfies, entry by entry. */
  lemma FourFacts(s: seq<int>)
    requires Solution(4, s) && !LexLess([1, 3, 0, 2], s)
    ensures |s| == 4
    ensures 0 <= s[0] < 4 && 0 <= s[1] < 4 && 0 <= s[2] < 4 && 0 <= s[3] < 4
    ensures Apart(s[0], s[1], 1) && Apart(s[0], s[2], 2) && Apart(s[0], s[3], 3)
    ensures Apart(s[1], s[2], 1) && Apart(s[1], s[3], 2)
    ensures Apart(s[2], s[3], 1)
    ensures s[0] <= 1
    ensures s[0] == 1 ==> s[1] <= 3
    ensures s[0] == 1 && s[1] == 3 ==> s[2] <= 0
    ensures s[0] == 1 && s[1] == 3 && s[2] == 0 ==> s[3] <= 2
  {
    var a := [1, 3, 0, 2];
    RowPair(4, s, 0, 1);
    FourRowApart1(s); FourRowApart2(s); FourRowApart3(s);
    LexStep(a, s, 0); LexStep(a, s, 1); LexStep(a, s, 2); LexStep(a, s, 3);
  }

  /** The one size-4 solution that no size-4 solution precedes is [1, 3, 0, 2]. */
  lemma OnlyFour(s: seq<int>)
    requires Solution(4, s) && !LexLess([1, 3, 0, 2], s)
    ensures s == [1, 3, 0, 2]
  {
    FourFacts(s);
    FourColumns(s[0], s[1], s[2], s[3]);
    assert forall i :: 0 <= i < 4 ==> s[i] == [1, 3, 0, 2][i];
  }

  /** On the 4-board the search returns [1, 3, 0, 2]. */
  lemma FirstSolutionOfFour()
    ensures Search(4, []) == Some([1, 3, 0, 2])
  {
    var a := [1, 3, 0, 2];
    assert Solution(4, a) by {
      assert a[..0] == [] && a[..1] == [1] && a[..2] == [1, 3] && a[..3] == [1, 3, 0];
    }
    SearchFromEmpty(4);
    OnlyFour(Search(4, []).value);
  }

  /** The only 6-column list meeting the solution and not-preceded facts is [1, 3, 5, 0, 2, 4]. */
  lemma SixColumns(c0: int, c1: int, c2: int, c3: int, c4: int, c5: int)
    requires 0 <= c0 < 6 && 0 <= c1 < 6 && 0 <= c2 < 6 && 0 <= c3 < 6 && 0 <= c4 < 6 && 0 <= c5 < 6
    requires Apart(c0, c1, 1) && Apart(c0, c2, 2) && Apart(c0, c3, 3) && Apart(c0, c4, 4) && Apart(c0, c5, 5)
    requires Apart(c1, c2, 1) && Apart(c1, c3, 2) && Apart(c1, c4, 3) && Apart(c1, c5, 4)
    requires Apart(c2, c3, 1) && Apart(c2, c4, 2) && Apart(c2, c5, 3)
    requires Apart(c3, c4, 1) && Apart(c3, c5, 2)
    requires Apart(c4, c5, 1)
    requires c0 <= 1
    requires c0 == 1 ==> c1 <= 3
    requires c0 == 1 && c1 == 3 ==> c2 <= 5
    requires c0 == 1 && c1 == 3 && c2 == 5 ==> c3 <= 0
    requires c0 == 1 && c1 == 3 && c2 == 5 && c3 == 0 ==> c4 <= 2
    requires c0 == 1 && c1 == 3 && c2 == 5 && c3 == 0 && c4 == 2 ==> c5 <= 4
    ensures c0 == 1 && c1 == 3 && c2 == 5 && c3 == 0 && c4 == 2 && c5 == 4
  {
  }

  // The `Apart` facts of row k against every earlier row, one lemma per row:
  // the split keeps each proof obligation small enough for the verifier.
  lemma SixRowApart1(s: seq<int>)
    requires Solution(6, s)
    ensures 0 <= s[1] < 6 && Apart(s[0], s[1], 1)
  {
    RowPair(6, s, 0, 1);
  }

  lemma SixRowApart2(s: seq<int>)
    requires Solution(6, s)
    ensures 0 <= s[2] < 6 && Apart(s[0], s[2], 2) && Apart(s[1], s[2], 1)
  {
    RowPair(6, s, 0, 2); RowPair(6, s, 1, 2);
  }

  lemma SixRowApart3(s: seq<int>)
    requires Solution(6, s)
    ensures 0 <= s[3] < 6 && Apart(s[0], s[3], 3) && Apart(s[1], s[3], 2) && Apart(s[2], s[3], 1)
  {
    RowPair(6, s, 0, 3); RowPair(6, s, 1, 3); RowPair(6, s, 2, 3);
  }

  lemma SixRowApart4(s: seq<int>)
    requires Solution(6, s)
    ensures 0 <= s[4] < 6 && Apart(s[0], s[4], 4) && Apart(s[1], s[4], 3) && Apart(s[2], s[4], 2) && Apart(s[3], s[4], 1)
  {
    RowPair(6, s, 0, 4); RowPair(6, s, 1, 4); RowPair(6, s, 2, 4); RowPair(6, s, 3, 4);
  }

  lemma SixRowApart5(s: seq<int>)
    requires Solution(6, s)
    ensures 0 <= s[5] < 6 && Apart(s[0], s[5], 5) && Apart(s[1], s[5], 4) && Apart(s[2], s[5], 3) && Apart(s[3], s[5], 2) && Apart(s[4], s[5], 1)
  {
    RowPair(6, s, 0, 5); RowPair(6, s, 1, 5); RowPair(6, s, 2, 5); RowPair(6, s, 3, 5); RowPair(6, s, 4, 5);
  }

  /** What a size-6 solution that does not come after [1, 3, 5, 0, 2, 4] satisfies, entry by entry. */
  lemma SixFacts(s: seq<int>)
    requires Solution(6, s) && !LexLess([1, 3, 5, 0, 2, 4], s)
    ensures |s| == 6
    ensures 0 <= s[0] < 6 && 0 <= s[1] < 6 && 0 <= s[2] < 6 && 0 <= s[3] < 6 && 0 <= s[4] < 6 && 0 <= s[5] < 6
    ensures Apart(s[0], s[1], 1) && Apart(s[0], s[2], 2) && Apart(s[0], s[3], 3) && Apart(s[0], s[4], 4) && Apart(s[0], s[5], 5)
    ensures Apart(s[1], s[2], 1) && Apart(s[1], s[3], 2) && Apart(s[1], s[4], 3) && Apart(s[1], s[5], 4)
    ensures Apart(s[2], s[3], 1) && Apart(s[2], s[4], 2) && Apart(s[2], s[5], 3)
    ensures Apart(s[3], s[4], 1) && Apart(s[3], s[5], 2)
    ensures Apart(s[4], s[5], 1)
    ensures s[0] <= 1
    ensures s[0] == 1 ==> s[1] <= 3
    ensures s[0] == 1 && s[1] == 3 ==> s[2] <= 5
    ensures s[0] == 1 && s[1] == 3 && s[2] == 5 ==> s[3] <= 0
    ensures s[0] == 1 && s[1] == 3 && s[2] == 5 && s[3] == 0 ==> s[4] <= 2
    ensures s[0] == 1 && s[1] == 3 && s[2] == 5 && s[3] == 0 && s[4] == 2 ==> s[5] <= 4
  {
    var a := [1, 3, 5, 0, 2, 4];
    RowPair(6, s, 0, 1);
    SixRowApart1(s); SixRowApart2(s); SixRowApart3(s); SixRowApart4(s); SixRowApart5(s);
    LexStep(a, s, 0); LexStep(a, s, 1); LexStep(a, s, 2); LexStep(a, s, 3); LexStep(a, s, 4); LexStep(a, s, 5);
  }

  /** The one size-6 solution that no size-6 solution precedes is [1, 3, 5, 0, 2, 4]. */
  lemma OnlySix(s: seq<int>)
    requires Solution(6, s) && !LexLess([1, 3, 5, 0, 2, 4], s)
    ensures s == [1, 3, 5, 0, 2, 4]
  {
    SixFacts(s);
    SixColumns(s[0], s[1], s[2], s[3], s[4], s[5]);
    assert forall i :: 0 <= i < 6 ==> s[i] == [1, 3, 5, 0, 2, 4][i];
  }

  /** On the 6-board the search returns [1, 3, 5, 0, 2, 4]. */
  lemma FirstSolutionOfSix()
    ensures Search(6, []) == Some([1, 3, 5, 0, 2, 4])
  {
    var a := [1, 3, 5, 0, 2, 4];
    assert Solution(6, a) by {
      assert a[..0] == [] && a[..1] == [1] && a[..2] == [1, 3] && a[..3] == [1, 3, 5] && a[..4] == [1, 3, 5, 0] && a[..5] == [1, 3, 5, 0, 2];
    }
    SearchFromEmpty(6);
    OnlySix(Search(6, []).value);
  }

  /** The only 8-column list meeting the solution and not-preceded facts is [0, 4, 7, 5, 2, 6, 1, 3]. */
  lemma EightColumns(c0: int, c1: int, c2: int, c3: int, c4: int, c5: int, c6: int, c7: int)
    requires 0 <= c0 < 8 && 0 <= c1 < 8 && 0 <= c2 < 8 && 0 <= c3 < 8 && 0 <= c4 < 8 && 0 <= c5 < 8 && 0 <= c6 < 8 && 0 <= c7 < 8
    requires Apart(c0, c1, 1) && Apart(c0, c2, 2) && Apart(c0, c3, 3) && Apart(c0, c4, 4) && Apart(c0, c5, 5) && Apart(c0, c6, 6) && Apart(c0, c7, 7)
    requires Apart(c1, c2, 1) && Apart(c1, c3, 2) && Apart(c1, c4, 3) && Apart(c1, c5, 4) && Apart(c1, c6, 5) && Apart(c1, c7, 6)
    requires Apart(c2, c3, 1) && Apart(c2, c4, 2) && Apart(c2, c5, 3) && Apart(c2, c6, 4) && Apart(c2, c7, 5)
    requires Apart(c3, c4, 1) && Apart(c3, c5, 2) && Apart(c3, c6, 3) && Apart(c3, c7, 4)
    requires Apart(c4, c5, 1) && Apart(c4, c6, 2) && Apart(c4, c7, 3)
    requires Apart(c5, c6, 1) && Apart(c5, c7, 2)
    requires Apart(c6, c7, 1)
    requires c0 <= 0
    requires c0 == 0 ==> c1 <= 4
    requires c0 == 0 && c1 == 4 ==> c2 <= 7
    requires c0 == 0 && c1 == 4 && c2 == 7 ==> c3 <= 5
    requires c0 == 0 && c1 == 4 && c2 == 7 && c3 == 5 ==> c4 <= 2
    requires c0 == 0 && c1 == 4 && c2 == 7 && c3 == 5 && c4 == 2 ==> c5 <= 6
    requires c0 == 0 && c1 == 4 && c2 == 7 && c3 == 5 && c4 == 2 && c5 == 6 ==> c6 <= 1
    requires c0 == 0 && c1 == 4 && c2 == 7 && c3 == 5 && c4 == 2 && c5 == 6 && c6 == 1 ==> c7 <= 3
    ensures c0 == 0 && c1 == 4 && c2 == 7 && c3 == 5 && c4 == 2 && c5 == 6 && c6 == 1 && c7 == 3
  {
  }

  // The `Apart` facts of row k against every earlier row, one lemma per row:
  // the split keeps each proof obligation small enough for the verifier.
  lemma EightRowApart1(s: seq<int>)
    requires Solution(8, s)
    ensures 0 <= s[1] < 8 && Apart(s[0], s[1], 1)
  {
    RowPair(8, s, 0, 1);
  }

  lemma EightRowApart2(s: seq<int>)
    requires Solution(8, s)
    ensures 0 <= s[2] < 8 && Apart(s[0], s[2], 2) && Apart(s[1], s[2], 1)
  {
    RowPair(8, s, 0, 2); RowPair(8, s, 1, 2);
  }

  lemma EightRowApart3(s: seq<int>)
    requires Solution(8, s)
    ensures 0 <= s[3] < 8 && Apart(s[0], s[3], 3) && Apart(s[1], s[3], 2) && Apart(s[2], s[3], 1)
  {
    RowPair(8, s, 0, 3); RowPair(8, s, 1, 3); RowPair(8, s, 2, 3);
  }

  lemma EightRowApart4(s: seq<int>)
    requires Solution(8, s)
    ensures 0 <= s[4] < 8 && Apart(s[0], s[4], 4) && Apart(s[1], s[4], 3) && Apart(s[2], s[4], 2) && Apart(s[3], s[4], 1)
  {
    RowPair(8, s, 0, 4); RowPair(8, s, 1, 4); RowPair(8, s, 2, 4); RowPair(8, s, 3, 4);
  }

  lemma EightRowApart5(s: seq<int>)
    requires Solution(8, s)
    ensures 0 <= s[5] < 8 && Apart(s[0], s[5], 5) && Apart(s[1], s[5], 4) && Apart(s[2], s[5], 3) && Apart(s[3], s[5], 2) && Apart(s[4], s[5], 1)
  {
    RowPair(8, s, 0, 5); RowPair(8, s, 1, 5); RowPair(8, s, 2, 5); RowPair(8, s, 3, 5); RowPair(8, s, 4, 5);
  }

  lemma EightRowApart6(s: seq<int>)
    requires Solution(8, s)
    ensures 0 <= s[6] < 8 && Apart(s[0], s[6], 6) && Apart(s[1], s[6], 5) && Apart(s[2], s[6], 4) && Apart(s[3], s[6], 3) && Apart(s[4], s[6], 2) && Apart(s[5], s[6], 1)
  {
    RowPair(8, s, 0, 6); RowPair(8, s, 1, 6); RowPair(8, s, 2, 6); RowPair(8, s, 3, 6); RowPair(8, s, 4, 6); RowPair(8, s, 5, 6);
  }

  lemma EightRowApart7(s: seq<int>)
    requires Solution(8, s)
    ensures 0 <= s[7] < 8 && Apart(s[0], s[7], 7) && Apart(s[1], s[7], 6) && Apart(s[2], s[7], 5) && Apart(s[3], s[7], 4) && Apart(s[4], s[7], 3) && Apart(s[5], s[7], 2) && Apart(s[6], s[7], 1)
  {
    RowPair(8, s, 0, 7); RowPair(8, s, 1, 7); RowPair(8, s, 2, 7); RowPair(8, s, 3, 7); RowPair(8, s, 4, 7); RowPair(8, s, 5, 7); RowPair(8, s, 6, 7);
  }

  /** What a size-8 solution that does not come after [0, 4, 7, 5, 2, 6, 1, 3] satisfies, entry by entry. */
  lemma EightFacts(s: seq<int>)
    requires Solution(8, s) && !LexLess([0, 4, 7, 5, 2, 6, 1, 3], s)
    ensures |s| == 8
    ensures 0 <= s[0] < 8 && 0 <= s[1] < 8 && 0 <= s[2] < 8 && 0 <= s[3] < 8 && 0 <= s[4] < 8 && 0 <= s[5] < 8 && 0 <= s[6] < 8 && 0 <= s[7] < 8
    ensures Apart(s[0], s[1], 1) && Apart(s[0], s[2], 2) && Apart(s[0], s[3], 3) && Apart(s[0], s[4], 4) && Apart(s[0], s[5], 5) && Apart(s[0], s[6], 6) && Apart(s[0], s[7], 7)
    ensures Apart(s[1], s[2], 1) && Apart(s[1], s[3], 2) && Apart(s[1], s[4], 3) && Apart(s[1], s[5], 4) && Apart(s[1], s[6], 5) && Apart(s[1], s[7], 6)
    ensures Apart(s[2], s[3], 1) && Apart(s[2], s[4], 2) && Apart(s[2], s[5], 3) && Apart(s[2], s[6], 4) && Apart(s[2], s[7], 5)
    ensures Apart(s[3], s[4], 1) && Apart(s[3], s[5], 2) && Apart(s[3], s[6], 3) && Apart(s[3], s[7], 4)
    ensures Apart(s[4], s[5], 1) && Apart(s[4], s[6], 2) && Apart(s[4], s[7], 3)
    ensures Apart(s[5], s[6], 1) && Apart(s[5], s[7], 2)
    ensures Apart(s[6], s[7], 1)
    ensures s[0] <= 0
    ensures s[0] == 0 ==> s[1] <= 4
    ensures s[0] == 0 && s[1] == 4 ==> s[2] <= 7
    ensures s[0] == 0 && s[1] == 4 && s[2] == 7 ==> s[3] <= 5
    ensures s[0] == 0 && s[1] == 4 && s[2] == 7 && s[3] == 5 ==> s[4] <= 2
    ensures s[0] == 0 && s[1] == 4 && s[2] == 7 && s[3] == 5 && s[4] == 2 ==> s[5] <= 6
    ensures s[0] == 0 && s[1] == 4 && s[2] == 7 && s[3] == 5 && s[4] == 2 && s[5] == 6 ==> s[6] <= 1
    ensures s[0] == 0 && s[1] == 4 && s[2] == 7 && s[3] == 5 && s[4] == 2 && s[5] == 6 && s[6] == 1 ==> s[7] <= 3
  {
    var a := [0, 4, 7, 5, 2, 6, 1, 3];
    RowPair(8, s, 0, 1);
    EightRowApart1(s); EightRowApart2(s); EightRowApart3(s); EightRowApart4(s); EightRowApart5(s); EightRowApart6(s); EightRowApart7(s);
    LexStep(a, s, 0); LexStep(a, s, 1); LexStep(a, s, 2); LexStep(a, s, 3); LexStep(a, s, 4); LexStep(a, s, 5); LexStep(a, s, 6); LexStep(a, s, 7);
  }

  /** The one size-8 solution that no size-8 solution precedes is [0, 4, 7, 5, 2, 6, 1, 3]. */
  lemma OnlyEight(s: seq<int>)
    requires Solution(8, s) && !LexLess([0, 4, 7, 5, 2, 6, 1, 3], s)
    ensures s == [0, 4, 7, 5, 2, 6, 1, 3]
  {
    EightFacts(s);
    EightColumns(s[0], s[1], s[2], s[3], s[4], s[5], s[6], s[7]);
    assert forall i :: 0 <= i < 8 ==> s[i] == [0, 4, 7, 5, 2, 6, 1, 3][i];
  }

  /** On the 8-board the search returns [0, 4, 7, 5, 2, 6, 1, 3]. */
  lemma FirstSolutionOfEight()
    ensures Search(8, []) == Some([0, 4, 7, 5, 2, 6, 1, 3])
  {
    var a := [0, 4, 7, 5, 2, 6, 1, 3];
    assert Solution(8, a) by {
      assert a[..0] == [] && a[..1] == [0] && a[..2] == [0, 4] && a[..3] == [0, 4, 7] && a[..4] == [0, 4, 7, 5] && a[..5] == [0, 4, 7, 5, 2] && a[..6] == [0, 4, 7, 5, 2, 6] && a[..7] == [0, 4, 7, 5, 2, 6, 1];
    }
    SearchFromEmpty(8);
    OnlyEight(Search(8, []).value);
  }

}
