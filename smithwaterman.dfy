// The aligner end to end: fill the two matrices, scan for the highest score,
// trace every cell that reaches it back to a stop cell, and lay out the two
// printed lines of each solution; plus the sign rule for the gap penalty.

module SmithWaterman {
  import opened Scoring
  import opened Grid
  import opened Solutions
  import opened Render

  /** The gap penalty is always used as a non-positive number: a positive
      entry is negated, anything else is kept. */
  function NormaliseGap(g: int): (r: int)
    ensures r <= 0
    ensures r == g || r == -g
  {
    if g > 0 then -g else g
  }

  /** One optimal alignment: the cell it was traced back from, the alignment,
      and its two printed lines. */
  datatype Solution = Solution(start: Pos, alignment: Alignment, line1: string, line2: string)

  /** The result of a run: the fatal lookup error, which leaves nothing
      behind, or the filled matrices, the highest score and one solution per
      cell listed by the scan. */
  datatype Outcome = UnknownCombination | Aligned(matrices: Matrices, highest: int, solutions: seq<Solution>)

  function Starts(solutions: seq<Solution>): (p: seq<Pos>)
    ensures |p| == |solutions|
    ensures forall k :: 0 <= k < |p| ==> p[k] == solutions[k].start
  {
    seq(|solutions|, k requires 0 <= k < |solutions| => solutions[k].start)
  }

  /** The solution is the traceback from its start cell, laid out in the
      lines the program prints; those are the corrected lines whenever neither
      strand holds two adjacent gaps. */
  ghost predicate Traced(m: Matrices, s1: string, s2: string, sol: Solution)
    reads m.arrows
  {
    m.Stops(s1, s2) && sol.start.i <= |s2| && sol.start.j <= |s1| &&
    sol.alignment == Walk(m, s1, s2, sol.start.i, sol.start.j) &&
    sol.alignment.anchor.i <= |s2| && sol.alignment.anchor.j <= |s1| &&
    (sol.line1, sol.line2) == LinesAsWritten(s1, s2, sol.alignment) &&
    (NoAdjacentGaps(sol.alignment.combS1, 0) && NoAdjacentGaps(sol.alignment.combS2, 0) ==>
      (sol.line1, sol.line2) == Lines(s1, s2, sol.alignment))
  }

  /** What the run reports for one listed cell: its traceback, laid out in
      lines, whose steps score exactly the highest score, and, for sequences
      without the gap symbol, whose columns score it too. */
  ghost predicate Reported(m: Matrices, t: Table, s1: string, s2: string, gap: int, highest: int, sol: Solution)
    reads m.arrows
  {
    Traced(m, s1, s2, sol) && Consistent(t) && AllKnown(t, s1, s2) &&
    WalkScore(m, t, s1, s2, gap, sol.start.i, sol.start.j) == highest &&
    (Gap !in s1 && Gap !in s2 ==> ScoresExactly(t, gap, sol.alignment, highest))
  }

  /** Traces back from one listed cell and lays out its alignment. */
  method TraceOne(m: Matrices, t: Table, s1: string, s2: string, gap: int, highest: int, p: Pos)
    returns (sol: Solution)
    requires Recurs(m, t, s1, s2, gap) && m.Cleared(s1, s2) && ScoresAt(m, s1, s2, p, highest)
    ensures sol.start == p && Reported(m, t, s1, s2, gap, highest, sol)
  {
    var a := Traceback(m, s1, s2, p);
    var line1, line2 := RenderAsWritten(s1, s2, a);
    assert (line1, line2) == LinesAsWritten(s1, s2, a);
    LinesWithoutAdjacentGaps(s1, s2, a);
    WalkScoreIsCellScore(m, t, s1, s2, gap, p.i, p.j);
    if Gap !in s1 && Gap !in s2 {
      PathScoreIsCellScore(m, t, s1, s2, gap, p.i, p.j);
    }
    sol := Solution(p, a, line1, line2);
  }

  /** Traces back from every listed cell and lays out each alignment. */
  method TraceAll(m: Matrices, t: Table, s1: string, s2: string, gap: int, highest: int, position: seq<Pos>)
    returns (solutions: seq<Solution>)
    requires Recurs(m, t, s1, s2, gap) && m.Cleared(s1, s2)
    requires forall p :: p in position ==> ScoresAt(m, s1, s2, p, highest)
    ensures Starts(solutions) == position
    ensures forall k :: 0 <= k < |solutions| ==> Reported(m, t, s1, s2, gap, highest, solutions[k])
  {
    solutions := [];
    var k := 0;
    while k < |position|
      invariant 0 <= k <= |position|
      invariant Starts(solutions) == position[..k]
      invariant forall n :: 0 <= n < k ==> Reported(m, t, s1, s2, gap, highest, solutions[n])
    {
      var sol := TraceOne(m, t, s1, s2, gap, highest, position[k]);
      assert Starts(solutions + [sol]) == Starts(solutions) + [sol.start];
      assert position[..k + 1] == position[..k] + [position[k]];
      solutions := solutions + [sol];
      k := k + 1;
    }
    assert position[..k] == position;
  }

  /** Aligns s1 against s2: fills the matrices, stopping with the lookup error
      at the first residue pair the table lacks, then reports the highest
      score and, for every cell the scan lists, its traceback and lines. */
  method SmithAlgorithm(t: Table, s1: string, s2: string, gap: int) returns (r: Outcome)
    requires Consistent(t)
    ensures r.UnknownCombination? <==> !AllKnown(t, s1, s2)
    ensures r.Aligned? ==> fresh(r.matrices.scores) && fresh(r.matrices.arrows)
    ensures r.Aligned? ==> r.matrices.Holds(t, s1, s2, gap)
    ensures r.Aligned? ==>
      r.highest == Scan(Interior(r.matrices.scores, |s2|, 0)).highest &&
      Starts(r.solutions) == Scan(Interior(r.matrices.scores, |s2|, 0)).position
    ensures r.Aligned? ==>
      forall k :: 0 <= k < |r.solutions| ==> Reported(r.matrices, t, s1, s2, gap, r.highest, r.solutions[k])
  {
    var m := new Matrices(s1, s2);
    var ok := Fill(m, t, s1, s2, gap);
    if !ok {
      r := UnknownCombination;
      return;
    }
    var highest, position := FindHighest(m, s1, s2);
    HoldsBorder(m, t, s1, s2, gap);
    HoldsRecurs(m, t, s1, s2, gap);
    ScanListsTheHighest(m, s1, s2);
    var solutions := TraceAll(m, t, s1, s2, gap, highest, position);
    r := Aligned(m, highest, solutions);
  }

  /** A two-entry table: W against W scores 15, A against W scores -3. */
  const WTable: Table := map[('W', 'W') := 15, ('A', 'W') := -3]

  lemma WTableScores()
    ensures Consistent(WTable) && AllKnown(WTable, "WW", "WAA")
    ensures CombinationScore(WTable, 'W', 'W') == Some(15)
    ensures CombinationScore(WTable, 'W', 'A') == Some(-3)
  {
    var s1, s2 := "WW", "WAA";
    forall r, c | 0 <= r < |s2| && 0 <= c < |s1|
      ensures Known(WTable, s1[c], s2[r])
    {
      assert s1[c] == 'W';
      assert s2[r] == 'W' || s2[r] == 'A';
    }
  }

  /** The recurrence on "WW" against "WAA" with gap penalty 0: column 1 goes
      D, U, U and every interior cell scores 15. */
  lemma WGrid()
    ensures Consistent(WTable) && AllKnown(WTable, "WW", "WAA")
    ensures Expected(WTable, "WW", "WAA", 0, 1, 1) == Cell(15, D)
    ensures Expected(WTable, "WW", "WAA", 0, 1, 2) == Cell(15, D)
    ensures Expected(WTable, "WW", "WAA", 0, 2, 1) == Cell(15, U)
    ensures Expected(WTable, "WW", "WAA", 0, 2, 2) == Cell(15, L)
    ensures Expected(WTable, "WW", "WAA", 0, 3, 1) == Cell(15, U)
    ensures Expected(WTable, "WW", "WAA", 0, 3, 2) == Cell(15, L)
  {
    WTableScores();
    var t, s1, s2 := WTable, "WW", "WAA";
    assert s1[0] == 'W' && s1[1] == 'W' && s2[0] == 'W' && s2[1] == 'A' && s2[2] == 'A';
    assert Expected(t, s1, s2, 0, 1, 1) == Cell(15, D);
    assert Expected(t, s1, s2, 0, 1, 2) == Cell(15, D);
    assert Expected(t, s1, s2, 0, 2, 1) == Cell(15, U);
    assert Expected(t, s1, s2, 0, 2, 2) == Cell(15, L);
    assert Expected(t, s1, s2, 0, 3, 1) == Cell(15, U);
  }

  /** The filled matrices for "WW" against "WAA" with gap penalty 0: every
      interior cell scores 15, column 1 carries the arrows D, U, U. */
  lemma WMatrices(m: Matrices)
    requires m.Holds(WTable, "WW", "WAA", 0)
    ensures m.Cleared("WW", "WAA")
    ensures m.scores[1, 1] == 15 && m.scores[1, 2] == 15 && m.scores[2, 1] == 15
    ensures m.scores[2, 2] == 15 && m.scores[3, 1] == 15 && m.scores[3, 2] == 15
    ensures m.arrows[1, 1] == D && m.arrows[2, 1] == U && m.arrows[3, 1] == U
  {
    var t, s1, s2 := WTable, "WW", "WAA";
    HoldsBorder(m, t, s1, s2, 0);
    WGrid();
    assert Cell(m.scores[1, 1], m.arrows[1, 1]) == Expected(t, s1, s2, 0, 1, 1);
    assert Cell(m.scores[1, 2], m.arrows[1, 2]) == Expected(t, s1, s2, 0, 1, 2);
    assert Cell(m.scores[2, 1], m.arrows[2, 1]) == Expected(t, s1, s2, 0, 2, 1);
    assert Cell(m.scores[2, 2], m.arrows[2, 2]) == Expected(t, s1, s2, 0, 2, 2);
    assert Cell(m.scores[3, 1], m.arrows[3, 1]) == Expected(t, s1, s2, 0, 3, 1);
    assert Cell(m.scores[3, 2], m.arrows[3, 2]) == Expected(t, s1, s2, 0, 3, 2);
  }

  /** No cell of those matrices exceeds 15. */
  lemma WBound(m: Matrices)
    requires m.Cleared("WW", "WAA")
    requires m.scores[1, 1] == 15 && m.scores[1, 2] == 15 && m.scores[2, 1] == 15
    requires m.scores[2, 2] == 15 && m.scores[3, 1] == 15 && m.scores[3, 2] == 15
    ensures forall i, j :: 0 <= i <= 3 && 0 <= j <= 2 ==> m.scores[i, j] <= 15
  {
    forall i, j | 0 <= i <= 3 && 0 <= j <= 2
      ensures m.scores[i, j] <= 15
    {
      if i > 0 && j > 0 {
        assert (i == 1 || i == 2 || i == 3) && (j == 1 || j == 2);
      }
    }
  }

  /** The traceback from (3, 1) through the arrows D, U, U of column 1. */
  lemma WWalk(m: Matrices)
    requires m.Stops("WW", "WAA")
    requires m.arrows[1, 1] == D && m.arrows[2, 1] == U && m.arrows[3, 1] == U
    ensures Walk(m, "WW", "WAA", 3, 1) == Alignment("W--", "WAA", Pos(0, 0))
  {
    var s1, s2 := "WW", "WAA";
    assert Walk(m, s1, s2, 0, 0) == Alignment([], [], Pos(0, 0));
    assert Walk(m, s1, s2, 1, 1) == Alignment("W", "W", Pos(0, 0));
    assert Walk(m, s1, s2, 2, 1) == Alignment("W-", "WA", Pos(0, 0));
  }

  /** The engine does produce adjacent gaps: aligning "WW" against "WAA" with
      gap penalty 0, the cell (3, 1) holds the highest score 15 and its
      traceback is "W--" over "WAA", whose first line the strip loop prints
      without the residue that follows the alignment. */
  lemma EngineDoubleGap(m: Matrices)
    requires m.Holds(WTable, "WW", "WAA", 0)
    ensures m.scores[3, 1] == 15
    ensures forall i, j :: 0 <= i <= 3 && 0 <= j <= 2 ==> m.scores[i, j] <= 15
    ensures m.Stops("WW", "WAA")
    ensures Walk(m, "WW", "WAA", 3, 1) == Alignment("W--", "WAA", Pos(0, 0))
    ensures LineAsWritten(0, "WW", 0, "W--") != Line(0, "WW", 0, "W--")
  {
    WMatrices(m);
    WBound(m);
    WWalk(m);
    AsWrittenDropsResidue();
  }

  /** What the run reports for that input: the solution traced from (3, 1)
      prints "|W--|" as its first line, without the second residue of "WW",
      where the corrected line is "|W--|W". */
  lemma EnginePrintsDoubleGap(m: Matrices, sol: Solution)
    requires m.Holds(WTable, "WW", "WAA", 0) && sol.start == Pos(3, 1) && Traced(m, "WW", "WAA", sol)
    ensures sol.alignment == Alignment("W--", "WAA", Pos(0, 0))
    ensures sol.line1 == "|W--|"
    ensures Lines("WW", "WAA", sol.alignment).0 == "|W--|W"
  {
    EngineDoubleGap(m);
    AsWrittenDropsResidue();
  }
}
