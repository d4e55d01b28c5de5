// The two Smith-Waterman matrices and the row-by-row fill that computes them:
// scores with a linear gap cost, the D-L-U tie-break and the clamp of a
// negative winner to 0 with the stop arrow.

module Grid {
  import opened Scoring

  /** An arrow of the traceback matrix: diagonal, left, up, or the stop mark
      that the border cells and every clamped cell carry. */
  datatype Dir = D | L | U | X

  /** The score and the arrow of one cell. */
  datatype Cell = Cell(score: int, arrow: Dir)

  function Max(a: int, b: int): int {
    if a >= b then a else b
  }

  /** The value an interior cell receives from its diagonal, left and up
      candidates: the best of the three, ties going to D, then L, then U; a
      negative winner becomes 0 with the stop arrow, an exact 0 keeps its arrow. */
  function Select(diag: int, left: int, up: int): (c: Cell)
    ensures c.score == Max(0, Max(diag, Max(left, up)))
    ensures c.arrow == D <==> diag >= left && diag >= up && diag >= 0
    ensures c.arrow == L <==> left > diag && left >= up && left >= 0
    ensures c.arrow == U <==> up > diag && up > left && up >= 0
    ensures c.arrow == X <==> diag < 0 && left < 0 && up < 0
    ensures c.arrow == D ==> c.score == diag
    ensures c.arrow == L ==> c.score == left
    ensures c.arrow == U ==> c.score == up
    ensures c.arrow == X ==> c.score == 0
  {
    if diag >= up && diag >= left then
      (if diag < 0 then Cell(0, X) else Cell(diag, D))
    else if left >= diag && left >= up then
      (if left < 0 then Cell(0, X) else Cell(left, L))
    else
      (if up < 0 then Cell(0, X) else Cell(up, U))
  }

  /** Every residue pair met by the first `i` residues of `s2` and the first `j`
      residues of `s1` has a score in the table. */
  ghost predicate KnownBelow(t: Table, s1: string, s2: string, i: nat, j: nat)
    requires i <= |s2| && j <= |s1|
  {
    forall r, c :: 0 <= r < i && 0 <= c < j ==> Known(t, s1[c], s2[r])
  }

  ghost predicate AllKnown(t: Table, s1: string, s2: string) {
    KnownBelow(t, s1, s2, |s2|, |s1|)
  }

  /** The cell (i, j) of the filled matrices, row i standing for s2[i-1] and
      column j for s1[j-1]: row 0 and column 0 hold 0 and the stop arrow, every
      other cell is chosen by Select from its three neighbours. */
  ghost function Expected(t: Table, s1: string, s2: string, gap: int, i: nat, j: nat): (c: Cell)
    requires Consistent(t) && i <= |s2| && j <= |s1| && KnownBelow(t, s1, s2, i, j)
    ensures c.score >= 0
    ensures c.arrow == X ==> c.score == 0
    decreases i + j
  {
    if i == 0 || j == 0 then Cell(0, X)
    else
      var diag := CombinationScore(t, s1[j - 1], s2[i - 1]).value + Expected(t, s1, s2, gap, i - 1, j - 1).score;
      var left := Expected(t, s1, s2, gap, i, j - 1).score + gap;
      var up := Expected(t, s1, s2, gap, i - 1, j).score + gap;
      Select(diag, left, up)
  }

  /** The score matrix and the traceback matrix, both (|s2|+1) x (|s1|+1). */
  class Matrices {
    const scores: array2<int>
    const arrows: array2<Dir>

    /** Both matrices start out filled with 0 and the stop arrow. */
    constructor (s1: string, s2: string)
      ensures Shape(s1, s2) && fresh(scores) && fresh(arrows)
      ensures forall i, j :: 0 <= i < scores.Length0 && 0 <= j < scores.Length1 ==> scores[i, j] == 0
      ensures forall i, j :: 0 <= i < arrows.Length0 && 0 <= j < arrows.Length1 ==> arrows[i, j] == X
    {
      scores := new int[|s2| + 1, |s1| + 1]((i, j) => 0);
      arrows := new Dir[|s2| + 1, |s1| + 1]((i, j) => X);
    }

    predicate Shape(s1: string, s2: string) {
      scores.Length0 == arrows.Length0 == |s2| + 1 &&
      scores.Length1 == arrows.Length1 == |s1| + 1
    }

    /** Row 0 and column 0 carry the stop arrow. */
    ghost predicate Stops(s1: string, s2: string)
      reads arrows
    {
      Shape(s1, s2) &&
      (forall j :: 0 <= j <= |s1| ==> arrows[0, j] == X) &&
      (forall i :: 0 <= i <= |s2| ==> arrows[i, 0] == X)
    }

    /** Row 0 and column 0 are as the constructor left them. */
    ghost predicate Cleared(s1: string, s2: string)
      reads scores, arrows
    {
      Stops(s1, s2) &&
      (forall j :: 0 <= j <= |s1| ==> scores[0, j] == 0) &&
      (forall i :: 0 <= i <= |s2| ==> scores[i, 0] == 0)
    }

    /** Every cell holds the value the recurrence gives it. */
    ghost predicate Holds(t: Table, s1: string, s2: string, gap: int)
      reads scores, arrows
    {
      Shape(s1, s2) && Consistent(t) && AllKnown(t, s1, s2) &&
      forall i, j :: 0 <= i <= |s2| && 0 <= j <= |s1| ==>
        Cell(scores[i, j], arrows[i, j]) == Expected(t, s1, s2, gap, i, j)
    }
  }

  /** A filled grid has the stop arrow all along its border and no negative score. */
  lemma HoldsBorder(m: Matrices, t: Table, s1: string, s2: string, gap: int)
    requires m.Holds(t, s1, s2, gap)
    ensures m.Cleared(s1, s2)
    ensures forall i, j :: 0 <= i <= |s2| && 0 <= j <= |s1| ==> m.scores[i, j] >= 0
  {
    forall j | 0 <= j <= |s1|
      ensures m.arrows[0, j] == X && m.scores[0, j] == 0
    {
      assert Cell(m.scores[0, j], m.arrows[0, j]) == Expected(t, s1, s2, gap, 0, j);
    }
    forall i | 0 <= i <= |s2|
      ensures m.arrows[i, 0] == X && m.scores[i, 0] == 0
    {
      assert Cell(m.scores[i, 0], m.arrows[i, 0]) == Expected(t, s1, s2, gap, i, 0);
    }
    forall i, j | 0 <= i <= |s2| && 0 <= j <= |s1|
      ensures m.scores[i, j] >= 0
    {
      assert Cell(m.scores[i, j], m.arrows[i, j]) == Expected(t, s1, s2, gap, i, j);
    }
  }

  /** Every interior cell holds what Select makes of its three neighbours in
      the matrices, and the border carries the stop arrow. */
  ghost predicate Recurs(m: Matrices, t: Table, s1: string, s2: string, gap: int)
    reads m.scores, m.arrows
  {
    m.Stops(s1, s2) && Consistent(t) && AllKnown(t, s1, s2) &&
    forall i, j {:trigger m.arrows[i, j]} :: 1 <= i <= |s2| && 1 <= j <= |s1| ==>
      Cell(m.scores[i, j], m.arrows[i, j]) ==
        Select(CombinationScore(t, s1[j - 1], s2[i - 1]).value + m.scores[i - 1, j - 1],
               m.scores[i, j - 1] + gap, m.scores[i - 1, j] + gap)
  }

  /** Filled matrices satisfy the recurrence cell by cell. */
  lemma HoldsRecurs(m: Matrices, t: Table, s1: string, s2: string, gap: int)
    requires m.Holds(t, s1, s2, gap)
    ensures Recurs(m, t, s1, s2, gap)
  {
    HoldsBorder(m, t, s1, s2, gap);
    forall i, j | 1 <= i <= |s2| && 1 <= j <= |s1|
      ensures Cell(m.scores[i, j], m.arrows[i, j]) ==
        Select(CombinationScore(t, s1[j - 1], s2[i - 1]).value + m.scores[i - 1, j - 1],
               m.scores[i, j - 1] + gap, m.scores[i - 1, j] + gap)
    {
      assert Cell(m.scores[i, j], m.arrows[i, j]) == Expected(t, s1, s2, gap, i, j);
      assert Cell(m.scores[i - 1, j - 1], m.arrows[i - 1, j - 1]) == Expected(t, s1, s2, gap, i - 1, j - 1);
      assert Cell(m.scores[i, j - 1], m.arrows[i, j - 1]) == Expected(t, s1, s2, gap, i, j - 1);
      assert Cell(m.scores[i - 1, j], m.arrows[i - 1, j]) == Expected(t, s1, s2, gap, i - 1, j);
    }
  }

  /** `cell` is the value the recurrence gives cell (r, c). */
  ghost predicate Agrees(t: Table, s1: string, s2: string, gap: int, r: nat, c: nat, cell: Cell) {
    Consistent(t) && r <= |s2| && c <= |s1| && KnownBelow(t, s1, s2, r, c) &&
    cell == Expected(t, s1, s2, gap, r, c)
  }

  /** Rows 0..i of `m` agree with the recurrence in full, and row `row` up to column j. */
  ghost predicate FilledTo(m: Matrices, t: Table, s1: string, s2: string, gap: int, i: nat, row: nat, j: nat)
    reads m.scores, m.arrows
  {
    m.Shape(s1, s2) && i <= |s2| && row <= |s2| && j <= |s1| &&
    (forall r, c :: 0 <= r <= i && 0 <= c <= |s1| ==> Agrees(t, s1, s2, gap, r, c, Cell(m.scores[r, c], m.arrows[r, c]))) &&
    (forall c :: 0 <= c <= j ==> Agrees(t, s1, s2, gap, row, c, Cell(m.scores[row, c], m.arrows[row, c])))
  }

  /** When the table knows s1[j] against s2[i], the value the recurrence
      gives cell (i+1, j+1), from the three neighbours already in the matrices. */
  lemma NextCell(m: Matrices, t: Table, s1: string, s2: string, gap: int, i: nat, row: nat, j: nat)
    requires Consistent(t) && m.Shape(s1, s2) && row == i + 1 && i < |s2| && j < |s1|
    requires KnownBelow(t, s1, s2, row, j)
    requires FilledTo(m, t, s1, s2, gap, i, row, j)
    ensures Known(t, s1[j], s2[i]) <==> KnownBelow(t, s1, s2, row, j + 1)
    ensures Known(t, s1[j], s2[i]) ==>
      KnownBelow(t, s1, s2, row, j + 1) &&
      Expected(t, s1, s2, gap, row, j + 1) ==
        Select(CombinationScore(t, s1[j], s2[i]).value + m.scores[i, j], m.scores[row, j] + gap, m.scores[i, j + 1] + gap)
  {
    assert Agrees(t, s1, s2, gap, i, j, Cell(m.scores[i, j], m.arrows[i, j]));
    assert Agrees(t, s1, s2, gap, row, j, Cell(m.scores[row, j], m.arrows[row, j]));
    assert Agrees(t, s1, s2, gap, i, j + 1, Cell(m.scores[i, j + 1], m.arrows[i, j + 1]));
  }

  /** Computes cell (i+1, j+1) from its diagonal, left and up neighbours and
      writes it, touching no other cell. Returns `false`, writing nothing, when
      the table has no score for s1[j] against s2[i]. */
  method FillCell(m: Matrices, t: Table, s1: string, s2: string, gap: int, i: nat, j: nat) returns (ok: bool)
    requires Consistent(t) && m.Shape(s1, s2) && i < |s2| && j < |s1|
    modifies m.scores, m.arrows
    ensures ok <==> Known(t, s1[j], s2[i])
    ensures ok ==> (Cell(m.scores[i + 1, j + 1], m.arrows[i + 1, j + 1]) ==
      Select(CombinationScore(t, s1[j], s2[i]).value + old(m.scores[i, j]),
             old(m.scores[i + 1, j]) + gap, old(m.scores[i, j + 1]) + gap))
    ensures forall r, c :: 0 <= r <= |s2| && 0 <= c <= |s1| && (r, c) != (i + 1, j + 1) ==>
      m.scores[r, c] == old(m.scores[r, c]) && m.arrows[r, c] == old(m.arrows[r, c])
    ensures !ok ==> unchanged(m.scores, m.arrows)
  {
    var score := CombinationScore(t, s1[j], s2[i]);
    if score.None? {
      return false;
    }
    var combineVals := score.value + m.scores[i, j];
    var gapInS1 := m.scores[i + 1, j] + gap;
    var gapInS2 := m.scores[i, j + 1] + gap;
    if combineVals >= gapInS2 && combineVals >= gapInS1 {
      m.scores[i + 1, j + 1] := combineVals;
      m.arrows[i + 1, j + 1] := D;
      if combineVals < 0 {
        m.scores[i + 1, j + 1] := 0;
        m.arrows[i + 1, j + 1] := X;
      }
    } else if gapInS1 >= combineVals && gapInS1 >= gapInS2 {
      m.scores[i + 1, j + 1] := gapInS1;
      m.arrows[i + 1, j + 1] := L;
      if gapInS1 < 0 {
        m.scores[i + 1, j + 1] := 0;
        m.arrows[i + 1, j + 1] := X;
      }
    } else {
      m.scores[i + 1, j + 1] := gapInS2;
      m.arrows[i + 1, j + 1] := U;
      if gapInS2 < 0 {
        m.scores[i + 1, j + 1] := 0;
        m.arrows[i + 1, j + 1] := X;
      }
    }
    ok := true;
  }

  /** Fills row i+1 of the matrices from left to right. Stops with `false` at
      the first residue of `s1` that the table cannot pair with s2[i]. */
  method FillRow(m: Matrices, t: Table, s1: string, s2: string, gap: int, i: nat) returns (ok: bool)
    requires Consistent(t) && i < |s2|
    requires KnownBelow(t, s1, s2, i, |s1|) && FilledTo(m, t, s1, s2, gap, i, i + 1, 0)
    modifies m.scores, m.arrows
    ensures forall r, c :: 0 <= r <= |s2| && 0 <= c <= |s1| && (r != i + 1 || c == 0) ==>
      m.scores[r, c] == old(m.scores[r, c]) && m.arrows[r, c] == old(m.arrows[r, c])
    ensures ok <==> KnownBelow(t, s1, s2, i + 1, |s1|)
    ensures ok ==> FilledTo(m, t, s1, s2, gap, i, i + 1, |s1|)
  {
    ghost var row := i + 1;
    var j := 0;
    while j < |s1|
      invariant 0 <= j <= |s1|
      invariant forall r, c :: 0 <= r <= |s2| && 0 <= c <= |s1| && (r != row || c == 0 || c > j) ==>
        m.scores[r, c] == old(m.scores[r, c]) && m.arrows[r, c] == old(m.arrows[r, c])
      invariant KnownBelow(t, s1, s2, row, j)
      invariant FilledTo(m, t, s1, s2, gap, i, row, j)
    {
      NextCell(m, t, s1, s2, gap, i, row, j);
      ok := FillCell(m, t, s1, s2, gap, i, j);
      if !ok {
        return;
      }
      j := j + 1;
    }
    ok := true;
  }

  /** Fills the matrices row by row. Stops with `false`, the fatal lookup error,
      at the first residue pair the table lacks. */
  method Fill(m: Matrices, t: Table, s1: string, s2: string, gap: int) returns (ok: bool)
    requires Consistent(t) && m.Cleared(s1, s2)
    modifies m.scores, m.arrows
    ensures ok <==> AllKnown(t, s1, s2)
    ensures ok ==> m.Holds(t, s1, s2, gap)
  {
    var i := 0;
    while i < |s2|
      invariant 0 <= i <= |s2|
      invariant m.Cleared(s1, s2)
      invariant KnownBelow(t, s1, s2, i, |s1|)
      invariant FilledTo(m, t, s1, s2, gap, i, i, 0)
    {
      assert Agrees(t, s1, s2, gap, i + 1, 0, Cell(m.scores[i + 1, 0], m.arrows[i + 1, 0]));
      ok := FillRow(m, t, s1, s2, gap, i);
      if !ok {
        return;
      }
      i := i + 1;
    }
    forall r, c | 0 <= r <= |s2| && 0 <= c <= |s1|
      ensures Cell(m.scores[r, c], m.arrows[r, c]) == Expected(t, s1, s2, gap, r, c)
    {
      assert Agrees(t, s1, s2, gap, r, c, Cell(m.scores[r, c], m.arrows[r, c]));
    }
    ok := true;
  }
}
