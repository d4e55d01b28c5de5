// Finding the optimal alignments in the filled matrices: the row-major scan
// for the highest score and the cells that reach it, then the traceback from
// each such cell along the arrows to a stop cell.

module Solutions {
  import opened Scoring
  import opened Grid

  /** A cell of the matrices: row i (a residue of s2), column j (a residue of s1). */
  datatype Pos = Pos(i: nat, j: nat)

  /** An interior cell of the score matrix and its score. */
  datatype Entry = Entry(pos: Pos, score: int)

  /** The state of the scan: the running maximum and the cells listed with it. */
  datatype Scanned = Scanned(highest: int, position: seq<Pos>)

  /** The gap symbol written into a strand. */
  const Gap := '-'

  // ---------------------------------------------------------------------------
  // The maximum scan
  // ---------------------------------------------------------------------------

  /** The interior cells of `g` in row-major order: rows 1..i in full, then the
      first j cells of row i+1. */
  ghost function Interior(g: array2<int>, i: nat, j: nat): seq<Entry>
    reads g
    requires i < g.Length0 && j < g.Length1 && (j > 0 ==> i + 1 < g.Length0)
    decreases i, j
  {
    if j > 0 then Interior(g, i, j - 1) + [Entry(Pos(i + 1, j), g[i + 1, j])]
    else if i > 0 then Interior(g, i - 1, g.Length1 - 1)
    else []
  }

  /** The scan as a fold over the cells: it starts from 0 and the list holding
      the cell (0, 0); a cell equal to the running maximum is appended, a
      larger one becomes the maximum and restarts the list, a smaller one is
      skipped. */
  function Scan(cells: seq<Entry>): Scanned {
    if cells == [] then Scanned(0, [Pos(0, 0)])
    else
      var prev := Scan(cells[..|cells| - 1]);
      var e := cells[|cells| - 1];
      if e.score == prev.highest then Scanned(prev.highest, prev.position + [e.pos])
      else if e.score > prev.highest then Scanned(e.score, [e.pos])
      else prev
  }

  /** The largest score among the cells, or 0 when none is positive. */
  function MaxScore(cells: seq<Entry>): (h: int)
    ensures h >= 0
    ensures forall k :: 0 <= k < |cells| ==> cells[k].score <= h
    ensures h == 0 || exists k :: 0 <= k < |cells| && cells[k].score == h
  {
    if cells == [] then 0 else Max(MaxScore(cells[..|cells| - 1]), cells[|cells| - 1].score)
  }

  /** The positions of the cells scoring exactly `h`, in their order. */
  function WithScore(cells: seq<Entry>, h: int): (p: seq<Pos>)
    ensures |p| <= |cells|
    ensures forall q :: q in p <==> exists k :: 0 <= k < |cells| && cells[k].pos == q && cells[k].score == h
  {
    if cells == [] then []
    else
      var n := |cells| - 1;
      WithScore(cells[..n], h) + (if cells[n].score == h then [cells[n].pos] else [])
  }

  function Positions(cells: seq<Entry>): (p: seq<Pos>)
    ensures |p| == |cells|
    ensures forall k :: 0 <= k < |cells| ==> p[k] == cells[k].pos
  {
    seq(|cells|, k requires 0 <= k < |cells| => cells[k].pos)
  }

  /** The scan returns the largest score (at least 0) and exactly the cells that
      reach it, in order, behind the initial (0, 0) when that score is 0. */
  lemma {:induction false} ScanFindsAllMaxima(cells: seq<Entry>)
    ensures Scan(cells).highest == MaxScore(cells)
    ensures Scan(cells).position ==
      (if MaxScore(cells) == 0 then [Pos(0, 0)] else []) + WithScore(cells, MaxScore(cells))
  {
    if cells != [] {
      var n := |cells| - 1;
      ScanFindsAllMaxima(cells[..n]);
      var h := MaxScore(cells[..n]);
      var v := cells[n].score;
      if v > h {
        var above := WithScore(cells[..n], v);
        assert |above| == 0 || above[0] in above;
      }
    }
  }

  /** When no cell scores anything but 0, the scan lists (0, 0) followed by
      every cell. */
  lemma {:induction false} ScanOfZeros(cells: seq<Entry>)
    requires forall k :: 0 <= k < |cells| ==> cells[k].score == 0
    ensures Scan(cells) == Scanned(0, [Pos(0, 0)] + Positions(cells))
  {
    if cells != [] {
      var n := |cells| - 1;
      ScanOfZeros(cells[..n]);
      assert Positions(cells) == Positions(cells[..n]) + [cells[n].pos];
    }
  }

  /** `p` is one of the interior cells of rows 1..i, or of row i+1 up to column j. */
  ghost predicate ScannedBy(p: Pos, i: nat, j: nat, cols: int) {
    1 <= p.i && 1 <= p.j <= cols && (p.i <= i || (p.i == i + 1 && p.j <= j))
  }

  predicate RowMajorBefore(p: Pos, q: Pos) {
    p.i < q.i || (p.i == q.i && p.j < q.j)
  }

  /** Every listed cell is one of those rows 1..i and row i+1 up to column j
      cover, with the score the matrix holds there. */
  ghost predicate Within(cells: seq<Entry>, g: array2<int>, i: nat, j: nat)
    reads g
  {
    forall k :: 0 <= k < |cells| ==>
      ScannedBy(cells[k].pos, i, j, g.Length1 - 1) &&
      cells[k].pos.i < g.Length0 && cells[k].pos.j < g.Length1 &&
      cells[k].score == g[cells[k].pos.i, cells[k].pos.j]
  }

  /** The cells are listed in strictly increasing row-major order. */
  ghost predicate RowMajor(cells: seq<Entry>) {
    forall k1, k2 :: 0 <= k1 < k2 < |cells| ==> RowMajorBefore(cells[k1].pos, cells[k2].pos)
  }

  /** Every cell of rows 1..i and of row i+1 up to column j is listed. */
  ghost predicate Covers(cells: seq<Entry>, i: nat, j: nat, cols: int) {
    forall p :: ScannedBy(p, i, j, cols) ==> p in Positions(cells)
  }

  /** Interior lists every interior cell it covers exactly once, in row-major
      order, with the score the matrix holds there. */
  lemma {:induction false} InteriorEnumerates(g: array2<int>, i: nat, j: nat)
    requires i < g.Length0 && j < g.Length1 && (j > 0 ==> i + 1 < g.Length0)
    ensures Within(Interior(g, i, j), g, i, j)
    ensures RowMajor(Interior(g, i, j))
    ensures Covers(Interior(g, i, j), i, j, g.Length1 - 1)
    decreases i, j
  {
    var cols := g.Length1 - 1;
    var cells := Interior(g, i, j);
    if j > 0 {
      var prev := Interior(g, i, j - 1);
      InteriorEnumerates(g, i, j - 1);
      assert cells == prev + [Entry(Pos(i + 1, j), g[i + 1, j])];
      forall p | ScannedBy(p, i, j, cols)
        ensures p in Positions(cells)
      {
        if p != Pos(i + 1, j) {
          assert ScannedBy(p, i, j - 1, cols);
          var k :| 0 <= k < |prev| && Positions(prev)[k] == p;
          assert Positions(cells)[k] == p;
        } else {
          assert Positions(cells)[|prev|] == p;
        }
      }
    } else if i > 0 {
      InteriorEnumerates(g, i - 1, cols);
      forall p | ScannedBy(p, i, j, cols)
        ensures ScannedBy(p, i - 1, cols, cols)
      {
      }
    }
  }

  /** Cell `p` lies inside the matrices and its score is `h`. */
  ghost predicate ScoresAt(m: Matrices, s1: string, s2: string, p: Pos, h: int)
    reads m.scores
  {
    m.Shape(s1, s2) && p.i <= |s2| && p.j <= |s1| && m.scores[p.i, p.j] == h
  }

  /** The scan of a grid with a zero border lists only cells holding the
      highest score, and lists every interior cell that holds it. */
  lemma ScanListsTheHighest(m: Matrices, s1: string, s2: string)
    requires m.Cleared(s1, s2)
    ensures forall p :: p in Scan(Interior(m.scores, |s2|, 0)).position ==>
      ScoresAt(m, s1, s2, p, Scan(Interior(m.scores, |s2|, 0)).highest)
    ensures forall p :: ScannedBy(p, |s2|, 0, |s1|) && m.scores[p.i, p.j] == Scan(Interior(m.scores, |s2|, 0)).highest ==>
      p in Scan(Interior(m.scores, |s2|, 0)).position
  {
    var cells := Interior(m.scores, |s2|, 0);
    ScanFindsAllMaxima(cells);
    InteriorEnumerates(m.scores, |s2|, 0);
    var h := MaxScore(cells);
    var listed := WithScore(cells, h);
    assert Scan(cells).position == (if h == 0 then [Pos(0, 0)] else []) + listed;
    forall p | p in Scan(cells).position
      ensures ScoresAt(m, s1, s2, p, h)
    {
      if p !in listed {
        assert p == Pos(0, 0) && h == 0;
      }
    }
    forall p | ScannedBy(p, |s2|, 0, |s1|) && m.scores[p.i, p.j] == h
      ensures p in Scan(cells).position
    {
      assert p in Positions(cells);
      var k :| 0 <= k < |cells| && Positions(cells)[k] == p;
      assert cells[k].pos == p && cells[k].score == h;
      assert p in listed;
    }
  }

  /** Scans the interior of the score matrix row by row for the highest score
      and the list of cells that reach it. */
  method FindHighest(m: Matrices, s1: string, s2: string) returns (highest: int, position: seq<Pos>)
    requires m.Shape(s1, s2)
    ensures Scanned(highest, position) == Scan(Interior(m.scores, |s2|, 0))
    ensures highest == MaxScore(Interior(m.scores, |s2|, 0))
    ensures position == (if highest == 0 then [Pos(0, 0)] else []) + WithScore(Interior(m.scores, |s2|, 0), highest)
  {
    highest := 0;
    position := [Pos(0, 0)];
    var i := 0;
    while i < |s2|
      invariant 0 <= i <= |s2|
      invariant Scanned(highest, position) == Scan(Interior(m.scores, i, 0))
    {
      var j := 0;
      while j < |s1|
        invariant 0 <= j <= |s1|
        invariant Scanned(highest, position) == Scan(Interior(m.scores, i, j))
      {
        if m.scores[i + 1, j + 1] == highest {
          position := position + [Pos(i + 1, j + 1)];
        } else if m.scores[i + 1, j + 1] > highest {
          highest := m.scores[i + 1, j + 1];
          position := [Pos(i + 1, j + 1)];
        }
        j := j + 1;
      }
      i := i + 1;
    }
    ScanFindsAllMaxima(Interior(m.scores, |s2|, 0));
  }

  // ---------------------------------------------------------------------------
  // The traceback
  // ---------------------------------------------------------------------------

  /** The two aligned strands, residues and gaps, and the anchor: the stop cell
      where the traceback ended. */
  datatype Alignment = Alignment(combS1: string, combS2: string, anchor: Pos)

  /** The traceback from cell (i, j): a D arrow consumes a residue of each
      sequence, L one of s1 against a gap, U one of s2 against a gap; the
      strands grow at the front, so the cell's own column comes last. */
  ghost function Walk(m: Matrices, s1: string, s2: string, i: nat, j: nat): Alignment
    reads m.arrows
    requires m.Stops(s1, s2) && i <= |s2| && j <= |s1|
    decreases i + j
  {
    match m.arrows[i, j]
    case D =>
      var w := Walk(m, s1, s2, i - 1, j - 1);
      Alignment(w.combS1 + [s1[j - 1]], w.combS2 + [s2[i - 1]], w.anchor)
    case U =>
      var w := Walk(m, s1, s2, i - 1, j);
      Alignment(w.combS1 + [Gap], w.combS2 + [s2[i - 1]], w.anchor)
    case L =>
      var w := Walk(m, s1, s2, i, j - 1);
      Alignment(w.combS1 + [s1[j - 1]], w.combS2 + [Gap], w.anchor)
    case X =>
      Alignment([], [], Pos(i, j))
  }

  /** The residues of a strand, its gaps left out. */
  function DropGaps(s: string): (r: string)
    ensures Gap !in r
    ensures |r| <= |s|
  {
    if s == [] then []
    else DropGaps(s[..|s| - 1]) + (if s[|s| - 1] == Gap then [] else [s[|s| - 1]])
  }

  /** Dropping the gaps of a concatenation drops them from each part. */
  lemma {:induction false} DropGapsAppend(s: string, t: string)
    ensures DropGaps(s + t) == DropGaps(s) + DropGaps(t)
    decreases |t|
  {
    if t == [] {
      assert s + t == s;
    } else {
      var n := |t| - 1;
      assert (s + t)[..|s + t| - 1] == s + t[..n];
      DropGapsAppend(s, t[..n]);
    }
  }

  /** Appending one symbol to a strand appends it to the residues unless it is a gap. */
  lemma DropGapsSnoc(s: string, x: char)
    ensures DropGaps(s + [x]) == DropGaps(s) + (if x == Gap then [] else [x])
  {
    assert (s + [x])[..|s|] == s;
  }

  /** The traceback stops: its anchor is a stop cell no further down or right
      than the start, and the two strands have the same length. */
  lemma {:induction false} WalkEnds(m: Matrices, s1: string, s2: string, i: nat, j: nat)
    requires m.Stops(s1, s2) && i <= |s2| && j <= |s1|
    ensures |Walk(m, s1, s2, i, j).combS1| == |Walk(m, s1, s2, i, j).combS2|
    ensures Walk(m, s1, s2, i, j).anchor.i <= i && Walk(m, s1, s2, i, j).anchor.j <= j
    ensures m.arrows[Walk(m, s1, s2, i, j).anchor.i, Walk(m, s1, s2, i, j).anchor.j] == X
    decreases i + j
  {
    match m.arrows[i, j]
    case D => WalkEnds(m, s1, s2, i - 1, j - 1);
    case U => WalkEnds(m, s1, s2, i - 1, j);
    case L => WalkEnds(m, s1, s2, i, j - 1);
    case X =>
  }

  /** No column of two strands holds a gap in both. */
  ghost predicate NoDoubleGap(c1: string, c2: string) {
    |c1| == |c2| && forall k :: 0 <= k < |c1| ==> c1[k] != Gap || c2[k] != Gap
  }

  /** No column of an alignment holds two gaps. */
  lemma {:induction false} WalkNoDoubleGap(m: Matrices, s1: string, s2: string, i: nat, j: nat)
    requires m.Stops(s1, s2) && i <= |s2| && j <= |s1| && Gap !in s1 && Gap !in s2
    ensures NoDoubleGap(Walk(m, s1, s2, i, j).combS1, Walk(m, s1, s2, i, j).combS2)
    decreases i + j
  {
    match m.arrows[i, j]
    case D =>
      WalkNoDoubleGap(m, s1, s2, i - 1, j - 1);
      assert s1[j - 1] in s1;
    case U =>
      WalkNoDoubleGap(m, s1, s2, i - 1, j);
      assert s2[i - 1] in s2;
    case L =>
      WalkNoDoubleGap(m, s1, s2, i, j - 1);
      assert s1[j - 1] in s1;
    case X =>
  }

  /** With the gaps dropped, the strands of `a` are exactly the stretches
      s1[anchor.j..j] and s2[anchor.i..i] of the two sequences. */
  ghost predicate Residues(s1: string, s2: string, a: Alignment, i: nat, j: nat) {
    a.anchor.i <= i <= |s2| && a.anchor.j <= j <= |s1| &&
    DropGaps(a.combS1) == s1[a.anchor.j..j] && DropGaps(a.combS2) == s2[a.anchor.i..i]
  }

  /** With the gaps dropped, the strands of an alignment are exactly the
      stretches s1[anchor.j..j] and s2[anchor.i..i] of the two sequences. */
  lemma {:induction false} WalkResidues(m: Matrices, s1: string, s2: string, i: nat, j: nat)
    requires m.Stops(s1, s2) && i <= |s2| && j <= |s1| && Gap !in s1 && Gap !in s2
    ensures Residues(s1, s2, Walk(m, s1, s2, i, j), i, j)
    decreases i + j, 1
  {
    if m.arrows[i, j] == X {
      assert s1[j..j] == [] && s2[i..i] == [];
    } else {
      WalkResiduesStep(m, s1, s2, i, j);
    }
  }

  /** The step of WalkResidues at a cell whose arrow is not the stop mark. */
  lemma {:induction false} WalkResiduesStep(m: Matrices, s1: string, s2: string, i: nat, j: nat)
    requires m.Stops(s1, s2) && i <= |s2| && j <= |s1| && Gap !in s1 && Gap !in s2
    requires m.arrows[i, j] != X
    ensures Residues(s1, s2, Walk(m, s1, s2, i, j), i, j)
    decreases i + j, 0
  {
    var (pi, pj) := if m.arrows[i, j] == L then (i, j - 1) else if m.arrows[i, j] == U then (i - 1, j) else (i - 1, j - 1);
    WalkResidues(m, s1, s2, pi, pj);
    var w := Walk(m, s1, s2, pi, pj);
    if m.arrows[i, j] == D {
      ResiduesDiagonal(s1, s2, w, i, j);
    } else if m.arrows[i, j] == U {
      ResiduesUp(s1, s2, w, i, j);
    } else {
      ResiduesLeft(s1, s2, w, i, j);
    }
  }

  /** A D step consumes s1[j-1] and s2[i-1]. */
  lemma ResiduesDiagonal(s1: string, s2: string, w: Alignment, i: nat, j: nat)
    requires 0 < i <= |s2| && 0 < j <= |s1| && Gap !in s1 && Gap !in s2 && Residues(s1, s2, w, i - 1, j - 1)
    ensures Residues(s1, s2, Alignment(w.combS1 + [s1[j - 1]], w.combS2 + [s2[i - 1]], w.anchor), i, j)
  {
    ResidueStep(s1, w.combS1, w.anchor.j, j);
    ResidueStep(s2, w.combS2, w.anchor.i, i);
  }

  /** A U step consumes s2[i-1] against a gap. */
  lemma ResiduesUp(s1: string, s2: string, w: Alignment, i: nat, j: nat)
    requires 0 < i <= |s2| && Gap !in s2 && Residues(s1, s2, w, i - 1, j)
    ensures Residues(s1, s2, Alignment(w.combS1 + [Gap], w.combS2 + [s2[i - 1]], w.anchor), i, j)
  {
    DropGapsSnoc(w.combS1, Gap);
    ResidueStep(s2, w.combS2, w.anchor.i, i);
  }

  /** An L step consumes s1[j-1] against a gap. */
  lemma ResiduesLeft(s1: string, s2: string, w: Alignment, i: nat, j: nat)
    requires 0 < j <= |s1| && Gap !in s1 && Residues(s1, s2, w, i, j - 1)
    ensures Residues(s1, s2, Alignment(w.combS1 + [s1[j - 1]], w.combS2 + [Gap], w.anchor), i, j)
  {
    ResidueStep(s1, w.combS1, w.anchor.j, j);
    DropGapsSnoc(w.combS2, Gap);
  }

  /** One residue step of the traceback extends the stretch it has consumed. */
  lemma ResidueStep(s: string, c: string, lo: nat, hi: nat)
    requires 0 < hi <= |s| && lo <= hi - 1 && Gap !in s && DropGaps(c) == s[lo..hi - 1]
    ensures DropGaps(c + [s[hi - 1]]) == s[lo..hi]
  {
    var x := s[hi - 1];
    assert x != Gap by {
      assert x in s;
    }
    DropGapsSnoc(c, x);
    assert s[lo..hi] == s[lo..hi - 1] + [x];
  }

  /** The alignment `w` followed by the columns `c1`/`c2`. */
  function Extend(w: Alignment, c1: string, c2: string): Alignment {
    Alignment(w.combS1 + c1, w.combS2 + c2, w.anchor)
  }

  /** Moving the traceback one cell back moves that cell's column from the
      walk onto the front of the columns already built. */
  lemma ExtendStep(w: Alignment, x: char, y: char, c1: string, c2: string)
    ensures Extend(Alignment(w.combS1 + [x], w.combS2 + [y], w.anchor), c1, c2) == Extend(w, [x] + c1, [y] + c2)
  {
    assert (w.combS1 + [x]) + c1 == w.combS1 + ([x] + c1);
    assert (w.combS2 + [y]) + c2 == w.combS2 + ([y] + c2);
  }

  /** Follows the arrows from `start` until a stop cell, building the two
      strands from the back. */
  method Traceback(m: Matrices, s1: string, s2: string, start: Pos) returns (a: Alignment)
    requires m.Stops(s1, s2) && start.i <= |s2| && start.j <= |s1|
    ensures a == Walk(m, s1, s2, start.i, start.j)
    ensures |a.combS1| == |a.combS2| && a.anchor.i <= start.i && a.anchor.j <= start.j
    ensures m.arrows[a.anchor.i, a.anchor.j] == X
  {
    var i: nat, j: nat := start.i, start.j;
    var combS1: string, combS2: string := [], [];
    assert Extend(Walk(m, s1, s2, i, j), combS1, combS2) == Walk(m, s1, s2, i, j);
    while true
      invariant i <= |s2| && j <= |s1|
      invariant Walk(m, s1, s2, start.i, start.j) == Extend(Walk(m, s1, s2, i, j), combS1, combS2)
      decreases i + j
    {
      if m.arrows[i, j] == D {
        ExtendStep(Walk(m, s1, s2, i - 1, j - 1), s1[j - 1], s2[i - 1], combS1, combS2);
        combS1 := [s1[j - 1]] + combS1;
        combS2 := [s2[i - 1]] + combS2;
        i := i - 1;
        j := j - 1;
      } else if m.arrows[i, j] == U {
        ExtendStep(Walk(m, s1, s2, i - 1, j), Gap, s2[i - 1], combS1, combS2);
        combS1 := [Gap] + combS1;
        combS2 := [s2[i - 1]] + combS2;
        i := i - 1;
      } else if m.arrows[i, j] == L {
        ExtendStep(Walk(m, s1, s2, i, j - 1), s1[j - 1], Gap, combS1, combS2);
        combS1 := [s1[j - 1]] + combS1;
        combS2 := [Gap] + combS2;
        j := j - 1;
      } else {
        break;
      }
    }
    a := Alignment(combS1, combS2, Pos(i, j));
    WalkEnds(m, s1, s2, start.i, start.j);
  }

  // ---------------------------------------------------------------------------
  // The score of an alignment
  // ---------------------------------------------------------------------------

  /** Every column of two strands without a gap is a pair the table scores. */
  ghost predicate Scorable(t: Table, c1: string, c2: string) {
    |c1| == |c2| &&
    forall k :: 0 <= k < |c1| && c1[k] != Gap && c2[k] != Gap ==> Known(t, c1[k], c2[k])
  }

  /** The score of an alignment: the table's score for each column of two
      residues, plus `gap` for each column with a gap. */
  ghost function PathScore(t: Table, gap: int, c1: string, c2: string): int
    requires Consistent(t) && Scorable(t, c1, c2)
    decreases |c1|
  {
    if c1 == [] then 0
    else
      var n := |c1| - 1;
      PathScore(t, gap, c1[..n], c2[..n]) +
        (if c1[n] == Gap || c2[n] == Gap then gap else CombinationScore(t, c1[n], c2[n]).value)
  }

  /** Appending one column to an alignment adds that column's score. */
  lemma PathScoreSnoc(t: Table, gap: int, c1: string, c2: string, x: char, y: char)
    requires Consistent(t) && Scorable(t, c1, c2) && (x != Gap && y != Gap ==> Known(t, x, y))
    ensures Scorable(t, c1 + [x], c2 + [y])
    ensures PathScore(t, gap, c1 + [x], c2 + [y]) ==
      PathScore(t, gap, c1, c2) + (if x == Gap || y == Gap then gap else CombinationScore(t, x, y).value)
  {
    assert (c1 + [x])[..|c1|] == c1;
    assert (c2 + [y])[..|c2|] == c2;
  }

  /** The alignment scores `h` under the table and the gap penalty. */
  ghost predicate ScoresExactly(t: Table, gap: int, a: Alignment, h: int) {
    Consistent(t) && Scorable(t, a.combS1, a.combS2) && PathScore(t, gap, a.combS1, a.combS2) == h
  }

  /** Extending an alignment by one column adds that column's score. */
  lemma ScoreExtend(t: Table, gap: int, w: Alignment, x: char, y: char, prev: int, here: int)
    requires ScoresExactly(t, gap, w, prev) && (x != Gap && y != Gap ==> Known(t, x, y))
    requires here == prev + (if x == Gap || y == Gap then gap else CombinationScore(t, x, y).value)
    ensures ScoresExactly(t, gap, Alignment(w.combS1 + [x], w.combS2 + [y], w.anchor), here)
  {
    PathScoreSnoc(t, gap, w.combS1, w.combS2, x, y);
  }

  /** The score of the traceback from (i, j) step by step: the table's score
      of the two residues for each D step, the gap penalty for each L or U
      step, nothing at the stop cell. */
  ghost function WalkScore(m: Matrices, t: Table, s1: string, s2: string, gap: int, i: nat, j: nat): int
    reads m.arrows
    requires m.Stops(s1, s2) && Consistent(t) && AllKnown(t, s1, s2) && i <= |s2| && j <= |s1|
    decreases i + j
  {
    match m.arrows[i, j]
    case D => WalkScore(m, t, s1, s2, gap, i - 1, j - 1) + CombinationScore(t, s1[j - 1], s2[i - 1]).value
    case U => WalkScore(m, t, s1, s2, gap, i - 1, j) + gap
    case L => WalkScore(m, t, s1, s2, gap, i, j - 1) + gap
    case X => 0
  }

  /** On matrices that satisfy the recurrence, the traceback from a cell
      scores, step by step, exactly what the cell holds: a cell with a D, L or
      U arrow keeps the candidate its arrow names, and the stop cell holds 0. */
  lemma {:induction false} WalkScoreIsCellScore(m: Matrices, t: Table, s1: string, s2: string, gap: int, i: nat, j: nat)
    requires Recurs(m, t, s1, s2, gap) && m.Cleared(s1, s2) && i <= |s2| && j <= |s1|
    ensures WalkScore(m, t, s1, s2, gap, i, j) == m.scores[i, j]
    decreases i + j
  {
    if m.arrows[i, j] == X {
      if i > 0 && j > 0 {
        assert Cell(m.scores[i, j], m.arrows[i, j]).arrow == X;
      }
    } else {
      assert i > 0 && j > 0;
      assert Cell(m.scores[i, j], m.arrows[i, j]) ==
        Select(CombinationScore(t, s1[j - 1], s2[i - 1]).value + m.scores[i - 1, j - 1],
               m.scores[i, j - 1] + gap, m.scores[i - 1, j] + gap);
      if m.arrows[i, j] == D {
        WalkScoreIsCellScore(m, t, s1, s2, gap, i - 1, j - 1);
      } else if m.arrows[i, j] == U {
        WalkScoreIsCellScore(m, t, s1, s2, gap, i - 1, j);
      } else {
        WalkScoreIsCellScore(m, t, s1, s2, gap, i, j - 1);
      }
    }
  }

  /** On matrices that satisfy the recurrence, the alignment traced back from
      a cell scores exactly what the cell holds: a non-stop cell keeps the
      candidate its arrow names, and the anchor holds 0. */
  lemma {:induction false} PathScoreIsCellScore(m: Matrices, t: Table, s1: string, s2: string, gap: int, i: nat, j: nat)
    requires Recurs(m, t, s1, s2, gap) && m.Cleared(s1, s2) && i <= |s2| && j <= |s1|
    requires Gap !in s1 && Gap !in s2
    ensures ScoresExactly(t, gap, Walk(m, s1, s2, i, j), m.scores[i, j])
    decreases i + j, 1
  {
    if m.arrows[i, j] == X {
      if i > 0 && j > 0 {
        assert Cell(m.scores[i, j], m.arrows[i, j]).arrow == X;
      }
    } else if m.arrows[i, j] == D {
      PathScoreDiagonal(m, t, s1, s2, gap, i, j);
    } else if m.arrows[i, j] == U {
      PathScoreUp(m, t, s1, s2, gap, i, j);
    } else {
      PathScoreLeft(m, t, s1, s2, gap, i, j);
    }
  }

  /** The D step of PathScoreIsCellScore. */
  lemma {:induction false} PathScoreDiagonal(m: Matrices, t: Table, s1: string, s2: string, gap: int, i: nat, j: nat)
    requires Recurs(m, t, s1, s2, gap) && m.Cleared(s1, s2) && i <= |s2| && j <= |s1|
    requires Gap !in s1 && Gap !in s2 && m.arrows[i, j] == D
    ensures ScoresExactly(t, gap, Walk(m, s1, s2, i, j), m.scores[i, j])
    decreases i + j, 0
  {
    assert i > 0 && j > 0;
    PathScoreIsCellScore(m, t, s1, s2, gap, i - 1, j - 1);
    var w := Walk(m, s1, s2, i - 1, j - 1);
    var x, y := s1[j - 1], s2[i - 1];
    assert Cell(m.scores[i, j], m.arrows[i, j]) ==
      Select(CombinationScore(t, x, y).value + m.scores[i - 1, j - 1], m.scores[i, j - 1] + gap, m.scores[i - 1, j] + gap);
    assert Known(t, x, y);
    assert x in s1 && y in s2;
    ScoreExtend(t, gap, w, x, y, m.scores[i - 1, j - 1], m.scores[i, j]);
  }

  /** The U step of PathScoreIsCellScore. */
  lemma {:induction false} PathScoreUp(m: Matrices, t: Table, s1: string, s2: string, gap: int, i: nat, j: nat)
    requires Recurs(m, t, s1, s2, gap) && m.Cleared(s1, s2) && i <= |s2| && j <= |s1|
    requires Gap !in s1 && Gap !in s2 && m.arrows[i, j] == U
    ensures ScoresExactly(t, gap, Walk(m, s1, s2, i, j), m.scores[i, j])
    decreases i + j, 0
  {
    assert i > 0 && j > 0;
    PathScoreIsCellScore(m, t, s1, s2, gap, i - 1, j);
    var w := Walk(m, s1, s2, i - 1, j);
    assert Cell(m.scores[i, j], m.arrows[i, j]) ==
      Select(CombinationScore(t, s1[j - 1], s2[i - 1]).value + m.scores[i - 1, j - 1],
             m.scores[i, j - 1] + gap, m.scores[i - 1, j] + gap);
    ScoreExtend(t, gap, w, Gap, s2[i - 1], m.scores[i - 1, j], m.scores[i, j]);
  }

  /** The L step of PathScoreIsCellScore. */
  lemma {:induction false} PathScoreLeft(m: Matrices, t: Table, s1: string, s2: string, gap: int, i: nat, j: nat)
    requires Recurs(m, t, s1, s2, gap) && m.Cleared(s1, s2) && i <= |s2| && j <= |s1|
    requires Gap !in s1 && Gap !in s2 && m.arrows[i, j] == L
    ensures ScoresExactly(t, gap, Walk(m, s1, s2, i, j), m.scores[i, j])
    decreases i + j, 0
  {
    assert i > 0 && j > 0;
    PathScoreIsCellScore(m, t, s1, s2, gap, i, j - 1);
    var w := Walk(m, s1, s2, i, j - 1);
    assert Cell(m.scores[i, j], m.arrows[i, j]) ==
      Select(CombinationScore(t, s1[j - 1], s2[i - 1]).value + m.scores[i - 1, j - 1],
             m.scores[i, j - 1] + gap, m.scores[i - 1, j] + gap);
    ScoreExtend(t, gap, w, s1[j - 1], Gap, m.scores[i, j - 1], m.scores[i, j]);
  }
}
