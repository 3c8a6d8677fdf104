/**
 * Coverage of the regions by the firewalls: how many firewalls each region
 * holds, how many regions hold exactly one, the coverage percentage, the
 * score, the status shown to the player and the win condition.
 */
module Coverage {
  import opened Cells
  import opened Regions

  /** Number of firewalls of `fs` whose cell lies in region `id` of the n-board. */
  function CountIn(fs: seq<Cell>, n: int, id: int): (k: nat)
    requires InBoard(fs, n)
    ensures k <= |fs|
    ensures (id < 0 || id >= n) ==> k == 0
  {
    if fs == [] then 0
    else
      var last := fs[|fs| - 1];
      CountIn(fs[..|fs| - 1], n, id) + (if RegionOf(n, last.row, last.col) == id then 1 else 0)
  }

  /** The `regionCoverage` array: entry `id` counts the firewalls in region `id`. */
  function RegionCounts(fs: seq<Cell>, n: nat): (counts: seq<nat>)
    requires InBoard(fs, n)
    ensures |counts| == n
  {
    seq(n, id => CountIn(fs, n, id))
  }

  function Sum(s: seq<int>): int
  {
    if s == [] then 0 else Sum(s[..|s| - 1]) + s[|s| - 1]
  }

  /** Adding one to a single entry adds one to the sum. */
  lemma {:induction false} SumBump(s: seq<int>, t: seq<int>, k: int)
    requires |s| == |t| && 0 <= k < |s|
    requires forall i :: 0 <= i < |s| ==> t[i] == s[i] + (if i == k then 1 else 0)
    ensures Sum(t) == Sum(s) + 1
  {
    var m := |s| - 1;
    if k == m {
      assert s[..m] == t[..m];
    } else {
      SumBump(s[..m], t[..m], k);
    }
  }

  /** Placing one more firewall adds one to the count of its own region and to no other. */
  lemma CountInAppend(fs: seq<Cell>, f: Cell, n: int, id: int)
    requires InBoard(fs, n) && 0 <= f.row < n && 0 <= f.col < n
    ensures InBoard(fs + [f], n)
    ensures CountIn(fs + [f], n, id) == CountIn(fs, n, id) + (if RegionOf(n, f.row, f.col) == id then 1 else 0)
  {
    assert (fs + [f])[..|fs|] == fs;
    assert forall i :: 0 <= i < |fs| ==> fs[i] == (fs + [f])[i];
  }

  /** An empty board has every count at 0. */
  lemma RegionCountsEmpty(n: nat)
    ensures RegionCounts([], n) == seq(n, id => 0)
  {
  }

  /** Placing one more firewall raises the count of its own region by one and leaves the others. */
  lemma RegionCountsAppend(fs: seq<Cell>, f: Cell, n: nat)
    requires InBoard(fs, n) && 0 <= f.row < n && 0 <= f.col < n
    ensures InBoard(fs + [f], n)
    ensures var id := RegionOf(n, f.row, f.col);
            RegionCounts(fs + [f], n) == RegionCounts(fs, n)[id := RegionCounts(fs, n)[id] + 1]
  {
    var id := RegionOf(n, f.row, f.col);
    forall k | 0 <= k < n
      ensures RegionCounts(fs + [f], n)[k] == RegionCounts(fs, n)[id := RegionCounts(fs, n)[id] + 1][k]
    {
      CountInAppend(fs, f, n, k);
    }
  }

  /** The region counts add up to the number of firewalls. */
  lemma {:induction false} CoverageSumsToTotal(fs: seq<Cell>, n: nat)
    requires InBoard(fs, n)
    ensures Sum(RegionCounts(fs, n)) == |fs|
  {
    if fs == [] {
      SumZeros(RegionCounts(fs, n));
    } else {
      var front, f := fs[..|fs| - 1], fs[|fs| - 1];
      assert fs == front + [f];
      CountInAppend(front, f, n, 0);
      CoverageSumsToTotal(front, n);
      forall id | 0 <= id < n
        ensures RegionCounts(fs, n)[id] == RegionCounts(front, n)[id] + (if id == RegionOf(n, f.row, f.col) then 1 else 0)
      {
        CountInAppend(front, f, n, id);
      }
      SumBump(RegionCounts(front, n), RegionCounts(fs, n), RegionOf(n, f.row, f.col));
    }
  }

  lemma {:induction false} SumZeros(s: seq<int>)
    requires forall i :: 0 <= i < |s| ==> s[i] == 0
    ensures Sum(s) == 0
  {
    if s != [] {
      SumZeros(s[..|s| - 1]);
    }
  }

  lemma {:induction false} SumOnes(s: seq<int>)
    requires forall i :: 0 <= i < |s| ==> s[i] == 1
    ensures Sum(s) == |s|
  {
    if s != [] {
      SumOnes(s[..|s| - 1]);
    }
  }

  /**
   * `regionCoverage.filter(count => count === 1).length`: the number of
   * regions holding exactly one firewall. It reaches the number of regions
   * exactly when every region holds exactly one.
   */
  function ProperlyCovered(counts: seq<int>): (p: nat)
    ensures p <= |counts|
    ensures p == |counts| <==> forall i :: 0 <= i < |counts| ==> counts[i] == 1
  {
    if counts == [] then 0
    else
      var front := counts[..|counts| - 1];
      assert forall i :: 0 <= i < |front| ==> front[i] == counts[i];
      ProperlyCovered(front) + (if counts[|counts| - 1] == 1 then 1 else 0)
  }

  /** Raising one entry from 0 to 1 adds one region to the properly covered ones. */
  lemma {:induction false} ProperlyCoveredBump(s: seq<int>, t: seq<int>, k: int)
    requires |s| == |t| && 0 <= k < |s| && s[k] == 0 && t[k] == 1
    requires forall i :: 0 <= i < |s| && i != k ==> t[i] == s[i]
    ensures ProperlyCovered(t) == ProperlyCovered(s) + 1
  {
    var m := |s| - 1;
    if k == m {
      assert s[..m] == t[..m];
    } else {
      ProperlyCoveredBump(s[..m], t[..m], k);
    }
  }

  /** Appending one more region count adds one exactly when that count is 1. */
  lemma ProperlyCoveredSnoc(s: seq<int>, x: int)
    ensures ProperlyCovered(s + [x]) == ProperlyCovered(s) + (if x == 1 then 1 else 0)
  {
    assert (s + [x])[..|s|] == s;
  }

  /** `regionCoverage.every(count => count === 1)`. */
  predicate AllCoveredOnce(counts: seq<int>)
  {
    forall i :: 0 <= i < |counts| ==> counts[i] == 1
  }

  /** The win condition of `checkGameComplete`: every region holds one firewall and there are n of them. */
  predicate Won(fs: seq<Cell>, n: nat): (w: bool)
    requires InBoard(fs, n)
    ensures w ==> |fs| == n && forall id :: 0 <= id < n ==> CountIn(fs, n, id) == 1
    ensures w ==> ProperlyCovered(RegionCounts(fs, n)) == n
  {
    assert forall id :: 0 <= id < n ==> RegionCounts(fs, n)[id] == CountIn(fs, n, id);
    |fs| == n && AllCoveredOnce(RegionCounts(fs, n))
  }

  /**
   * The firewall count of the win condition follows from the region counts:
   * when every region holds exactly one firewall there are n firewalls. So the
   * game is won exactly when all n regions are properly covered.
   */
  lemma WonIffAllProperlyCovered(fs: seq<Cell>, n: nat)
    requires InBoard(fs, n)
    ensures AllCoveredOnce(RegionCounts(fs, n)) ==> |fs| == n
    ensures Won(fs, n) <==> ProperlyCovered(RegionCounts(fs, n)) == n
  {
    CoverageSumsToTotal(fs, n);
    if AllCoveredOnce(RegionCounts(fs, n)) {
      SumOnes(RegionCounts(fs, n));
    }
  }

  /**
   * `Math.round((properlyCovered / n) * 100)`, computed exactly in integers as
   * round-half-up: the result is the integer nearest to 100p/n, halves rounded up.
   */
  function Percent(p: nat, n: nat): (r: int)
    requires n > 0
    ensures n * (2 * r - 1) <= 200 * p < n * (2 * r + 1)
  {
    var q := (200 * p + n) / (2 * n);
    assert 200 * p + n == 2 * n * q + (200 * p + n) % (2 * n);
    assert n * (2 * q - 1) == 2 * n * q - n && n * (2 * q + 1) == 2 * n * q + n;
    q
  }

  /** The percentage lies in [0, 100]; none covered gives 0 and all covered gives 100. */
  lemma PercentBounds(p: nat, n: nat)
    requires 0 < n && p <= n
    ensures 0 <= Percent(p, n) <= 100
    ensures p == 0 ==> Percent(p, n) == 0
    ensures p == n ==> Percent(p, n) == 100
  {
    var r := Percent(p, n);
    if r < 0 {
      MulMonotone(n, 2 * r + 1, 0);
    }
    if r > 100 {
      MulMonotone(n, 201, 2 * r - 1);
    }
    if p == 0 && r > 0 {
      MulMonotone(n, 1, 2 * r - 1);
    }
    if p == n && r < 100 {
      MulMonotone(n, 2 * r + 1, 199);
    }
  }

  lemma MulMonotone(n: nat, a: int, b: int)
    requires a <= b
    ensures n * a <= n * b
  {
    assert n * b - n * a == n * (b - a);
  }

  /** `Math.max(0, coverage * 10 + properlyCovered * 5 - firewalls.length * 2)`. */
  function Score(percent: int, proper: int, count: int): (s: int)
    ensures 0 <= s && percent * 10 + proper * 5 - count * 2 <= s
    ensures s == 0 || s == percent * 10 + proper * 5 - count * 2
  {
    if percent * 10 + proper * 5 - count * 2 < 0 then 0
    else percent * 10 + proper * 5 - count * 2
  }

  /** The score of the current board, as `updateDisplay` computes it. */
  function BoardScore(fs: seq<Cell>, n: nat): (s: int)
    requires n > 0 && InBoard(fs, n)
    ensures 0 <= s <= 1000 + 5 * n
  {
    var proper := ProperlyCovered(RegionCounts(fs, n));
    PercentBounds(proper, n);
    Score(Percent(proper, n), proper, |fs|)
  }

  /**
   * The score is never negative and at most 1000 + 5n; a won board of size n
   * scores exactly 1000 + 3n (100% coverage, n regions, n firewalls).
   */
  lemma BoardScoreRange(fs: seq<Cell>, n: nat)
    requires n > 0 && InBoard(fs, n)
    ensures 0 <= BoardScore(fs, n) <= 1000 + 5 * n
    ensures Won(fs, n) ==> BoardScore(fs, n) == 1000 + 3 * n
  {
    var proper := ProperlyCovered(RegionCounts(fs, n));
    PercentBounds(proper, n);
    WonIffAllProperlyCovered(fs, n);
  }

  /** No region of an empty board holds exactly one firewall. */
  lemma {:induction false} ProperlyCoveredZeros(s: seq<int>)
    requires forall i :: 0 <= i < |s| ==> s[i] == 0
    ensures ProperlyCovered(s) == 0
  {
    if s != [] {
      ProperlyCoveredZeros(s[..|s| - 1]);
    }
  }

  /** An empty board has coverage 0%, score 0, and is not won. */
  lemma EmptyBoardScore(n: nat)
    requires n > 0
    ensures BoardScore([], n) == 0
    ensures !Won([], n)
  {
    ProperlyCoveredZeros(RegionCounts([], n));
    PercentBounds(0, n);
    assert RegionCounts([], n)[0] == 0;
  }

  /** The status line of `updateDisplay`. */
  datatype Status = Planning | Deploying | Secured

  /** Completion first, then "some firewall placed", else planning. */
  function StatusOf(complete: bool, count: nat): (s: Status)
    ensures s == Secured <==> complete
    ensures s == Planning <==> !complete && count == 0
    ensures s == Deploying <==> !complete && count > 0
  {
    if complete then Secured else if count > 0 then Deploying else Planning
  }
}
