// The two printed lines of a solution: padding, the residues before the
// alignment, the alignment between bars, and the residues after it. The
// residues after it are located by the length of the aligned strand with its
// gaps removed; the program removes them with a loop that deletes from the list
// it is iterating over, modelled here as written and corrected.

module Render {
  import opened Solutions

  /** The strand with its first occurrence of `c` removed, as a list's
      remove(c) leaves it. */
  function RemoveFirst(s: string, c: char): (r: string)
    ensures c in s ==> |r| == |s| - 1 && multiset(r) + multiset{c} == multiset(s)
    ensures c !in s ==> r == s
  {
    if s == [] then []
    else
      assert s == [s[0]] + s[1..];
      if s[0] == c then s[1..]
      else
        assert c in s ==> c in s[1..];
        [s[0]] + RemoveFirst(s[1..], c)
  }

  /** Removing a gap leaves the residues of a strand as they were. */
  lemma {:induction false} RemoveGapKeepsResidues(s: string)
    ensures DropGaps(RemoveFirst(s, Gap)) == DropGaps(s)
  {
    if s != [] {
      assert s == [s[0]] + s[1..];
      DropGapsAppend([s[0]], s[1..]);
      assert DropGaps([s[0]]) == DropGaps([]) + (if s[0] == Gap then [] else [s[0]]);
      if s[0] != Gap {
        RemoveGapKeepsResidues(s[1..]);
        DropGapsAppend([s[0]], RemoveFirst(s[1..], Gap));
      }
    }
  }

  /** The strip loop as written: a list iterator advances by index while the
      body removes the first gap of the same list, so the element that slides
      into the current place is never examined. */
  function StripWalk(s: string, k: nat): string
    decreases |s| - k
  {
    if k >= |s| then s
    else if s[k] == Gap then StripWalk(RemoveFirst(s, Gap), k + 1)
    else StripWalk(s, k + 1)
  }

  /** Removes the gaps of a strand by walking it with an index and removing
      the first gap each time the element under the index is one. */
  method StripGaps(comb: string) returns (r: string)
    ensures r == StripWalk(comb, 0)
  {
    r := comb;
    var k := 0;
    while k < |r|
      invariant StripWalk(r, k) == StripWalk(comb, 0)
      decreases |r| - k
    {
      if r[k] == Gap {
        r := RemoveFirst(r, Gap);
      }
      k := k + 1;
    }
  }

  /** `r` is `s` with some of its gaps deleted and nothing else changed: the
      symbols of `r` are those of `s` in order, and every symbol of `s` that
      is missing from `r` is a gap. */
  ghost predicate GapsDeletedFrom(r: string, s: string)
    decreases |s|
  {
    if s == [] then r == []
    else if s[0] == Gap then
      (r != [] && r[0] == Gap && GapsDeletedFrom(r[1..], s[1..])) || GapsDeletedFrom(r, s[1..])
    else r != [] && r[0] == s[0] && GapsDeletedFrom(r[1..], s[1..])
  }

  /** Deleting no gaps at all. */
  lemma {:induction false} GapsDeletedFromSelf(s: string)
    ensures GapsDeletedFrom(s, s)
  {
    if s != [] {
      GapsDeletedFromSelf(s[1..]);
    }
  }

  /** Deleting gaps twice is deleting gaps once. */
  lemma {:induction false} GapsDeletedTwice(a: string, b: string, c: string)
    requires GapsDeletedFrom(a, b) && GapsDeletedFrom(b, c)
    ensures GapsDeletedFrom(a, c)
    decreases |c|
  {
    if c != [] {
      if c[0] == Gap && GapsDeletedFrom(b, c[1..]) {
        GapsDeletedTwice(a, b, c[1..]);
      } else if c[0] == Gap {
        assert b != [] && b[0] == Gap && GapsDeletedFrom(b[1..], c[1..]);
        if a != [] && a[0] == Gap && GapsDeletedFrom(a[1..], b[1..]) {
          GapsDeletedTwice(a[1..], b[1..], c[1..]);
        } else {
          GapsDeletedTwice(a, b[1..], c[1..]);
        }
      } else {
        GapsDeletedTwice(a[1..], b[1..], c[1..]);
      }
    }
  }

  /** A list's remove of a gap deletes one gap. */
  lemma {:induction false} RemoveGapDeletesGap(s: string)
    ensures GapsDeletedFrom(RemoveFirst(s, Gap), s)
  {
    if s != [] {
      if s[0] == Gap {
        GapsDeletedFromSelf(s[1..]);
      } else {
        RemoveGapDeletesGap(s[1..]);
        assert RemoveFirst(s, Gap)[1..] == RemoveFirst(s[1..], Gap);
      }
    }
  }

  /** The strip loop only ever removes gaps: it leaves the strand with some of
      its gaps deleted, every residue kept in order, and never lengthens it. */
  lemma {:induction false} StripKeepsResidues(s: string, k: nat)
    ensures GapsDeletedFrom(StripWalk(s, k), s)
    ensures DropGaps(StripWalk(s, k)) == DropGaps(s)
    ensures |DropGaps(s)| <= |StripWalk(s, k)| <= |s|
    decreases |s| - k
  {
    if k < |s| {
      if s[k] == Gap {
        assert s[k] in s;
        RemoveGapKeepsResidues(s);
        RemoveGapDeletesGap(s);
        StripKeepsResidues(RemoveFirst(s, Gap), k + 1);
        GapsDeletedTwice(StripWalk(s, k), RemoveFirst(s, Gap), s);
      } else {
        StripKeepsResidues(s, k + 1);
      }
    } else {
      GapsDeletedFromSelf(s);
    }
  }

  /** No two gaps stand next to each other in s[k..]. */
  predicate NoAdjacentGaps(s: string, k: nat) {
    forall p :: k <= p && p + 1 < |s| ==> s[p] != Gap || s[p + 1] != Gap
  }

  /** Dropping the gaps of a strand one symbol at a time from the front. */
  lemma DropGapsCons(x: char, t: string)
    ensures DropGaps([x] + t) == (if x == Gap then [] else [x]) + DropGaps(t)
  {
    assert [x][..0] == [];
    assert DropGaps([x]) == (if x == Gap then [] else [x]);
    DropGapsAppend([x], t);
  }

  /** Removing the gap under the index when the next symbol is a residue. */
  lemma GapStep(s: string, k: nat)
    requires k + 1 < |s| && s[k] == Gap && Gap !in s[..k] && NoAdjacentGaps(s, k)
    ensures var r := s[..k] + s[k + 1..];
      r[..k + 1] == s[..k] + [s[k + 1]] && Gap !in r[..k + 1] &&
      r[k + 1..] == s[k + 2..] && NoAdjacentGaps(r, k + 1)
    ensures DropGaps(s[k..]) == [s[k + 1]] + DropGaps(s[k + 2..])
  {
    var r := s[..k] + s[k + 1..];
    assert r[..k + 1] == s[..k] + [s[k + 1]];
    assert s[k + 1] != Gap;
    assert r[k + 1..] == s[k + 2..];
    assert s[k..] == [Gap] + ([s[k + 1]] + s[k + 2..]);
    DropGapsCons(Gap, [s[k + 1]] + s[k + 2..]);
    DropGapsCons(s[k + 1], s[k + 2..]);
  }

  /** When no two gaps are adjacent, the strip loop removes every gap. */
  lemma {:induction false} StripSingleGaps(s: string, k: nat)
    requires k <= |s| && Gap !in s[..k] && NoAdjacentGaps(s, k)
    ensures StripWalk(s, k) == s[..k] + DropGaps(s[k..])
    decreases |s| - k, 2
  {
    if k == |s| {
      assert s[..k] == s && s[k..] == [];
    } else if s[k] == Gap {
      StripAtGap(s, k);
    } else {
      StripAtResidue(s, k);
    }
  }

  /** The step of StripSingleGaps where a gap is under the index: the loop
      removes it and moves on past the residue that slides into its place. */
  lemma {:induction false} StripAtGap(s: string, k: nat)
    requires k < |s| && s[k] == Gap && Gap !in s[..k] && NoAdjacentGaps(s, k)
    ensures StripWalk(s, k) == s[..k] + DropGaps(s[k..])
    decreases |s| - k, 1
  {
    FirstGapAt(s, k);
    assert StripWalk(s, k) == StripWalk(s[..k] + s[k + 1..], k + 1);
    if k + 1 == |s| {
      assert s[..k] + s[k + 1..] == s[..k];
      assert s[k..] == [Gap] + [];
      DropGapsCons(Gap, []);
    } else {
      StripPastGap(s, k);
    }
  }

  lemma {:induction false} StripPastGap(s: string, k: nat)
    requires k + 1 < |s| && s[k] == Gap && Gap !in s[..k] && NoAdjacentGaps(s, k)
    ensures StripWalk(s[..k] + s[k + 1..], k + 1) == s[..k] + DropGaps(s[k..])
    decreases |s| - k, 0
  {
    var r := s[..k] + s[k + 1..];
    GapStep(s, k);
    StripSingleGaps(r, k + 1);
    var x, rest := s[k + 1], DropGaps(s[k + 2..]);
    assert (s[..k] + [x]) + rest == s[..k] + ([x] + rest);
  }

  /** The step of StripSingleGaps where a residue is under the index. */
  lemma {:induction false} StripAtResidue(s: string, k: nat)
    requires k < |s| && s[k] != Gap && Gap !in s[..k] && NoAdjacentGaps(s, k)
    ensures StripWalk(s, k) == s[..k] + DropGaps(s[k..])
    decreases |s| - k, 0
  {
    assert s[..k + 1] == s[..k] + [s[k]];
    StripSingleGaps(s, k + 1);
    assert s[k..] == [s[k]] + s[k + 1..];
    DropGapsCons(s[k], s[k + 1..]);
  }

  /** Removing the first occurrence of `c` when it sits at index k. */
  lemma {:induction false} FirstGapAt(s: string, k: nat)
    requires k < |s| && s[k] == Gap && Gap !in s[..k]
    ensures RemoveFirst(s, Gap) == s[..k] + s[k + 1..]
  {
    if k > 0 {
      assert s[0] in s[..k];
      assert s[1..][..k - 1] == s[1..k];
      assert Gap !in s[1..][..k - 1];
      FirstGapAt(s[1..], k - 1);
      assert s[..k] == [s[0]] + s[1..][..k - 1];
      assert s[k + 1..] == s[1..][k..];
    }
  }

  /** `n` blanks, none when `n` is not positive. */
  function Spaces(n: int): (r: string)
    ensures |r| == if n > 0 then n else 0
    ensures forall k :: 0 <= k < |r| ==> r[k] == ' '
    decreases n
  {
    if n <= 0 then [] else [' '] + Spaces(n - 1)
  }

  /** One printed line: `pad` blanks, the residues before the alignment, the
      aligned strand between bars, then the residues after the aligned stretch
      when any remain, located by the length of `residues`. */
  function Layout(pad: int, s: string, at: nat, comb: string, residues: string): string
    requires at <= |s|
  {
    Spaces(pad) + s[..at] + "|" + comb + "|" +
      (if at - 1 + |residues| < |s| then s[at + |residues|..] else "")
  }

  /** The line as the program prints it, the residues after the alignment found
      with the strip loop. */
  function LineAsWritten(pad: int, s: string, at: nat, comb: string): string
    requires at <= |s|
  {
    Layout(pad, s, at, comb, StripWalk(comb, 0))
  }

  /** The line as evidently intended, the residues after the alignment found
      with every gap dropped. */
  function Line(pad: int, s: string, at: nat, comb: string): string
    requires at <= |s|
  {
    Layout(pad, s, at, comb, DropGaps(comb))
  }

  /** The printed line shows the whole sequence: when the strand is the
      stretch s[at..end] with gaps, the line is the prefix, the strand between
      bars and the rest of the sequence, and the three parts read without gaps
      spell `s`. */
  lemma LineShowsSequence(pad: int, s: string, at: nat, end: nat, comb: string)
    requires at <= end <= |s| && DropGaps(comb) == s[at..end]
    ensures Line(pad, s, at, comb) == Spaces(pad) + s[..at] + "|" + comb + "|" + s[end..]
    ensures s[..at] + DropGaps(comb) + s[end..] == s
  {
    if end == |s| {
      assert s[end..] == [];
    }
  }

  /** Without adjacent gaps in the strand, the line as written is the
      intended line. */
  lemma AsWrittenWithoutAdjacentGaps(pad: int, s: string, at: nat, comb: string)
    requires at <= |s| && NoAdjacentGaps(comb, 0)
    ensures LineAsWritten(pad, s, at, comb) == Line(pad, s, at, comb)
  {
    StripSingleGaps(comb, 0);
    assert comb[..0] == [] && comb[0..] == comb;
  }

  /** Of "W--" the strip loop leaves "W-": it removes the gap at index 1, the
      second gap slides into index 1, and the walk moves on to index 2. */
  lemma StripExample()
    ensures StripWalk("W--", 0) == "W-"
  {
    var w := "W--";
    assert RemoveFirst("--", Gap) == "-";
    assert w[1..] == "--";
    assert RemoveFirst(w, Gap) == "W-";
    assert StripWalk(w, 0) == StripWalk(w, 1);
    assert StripWalk(w, 1) == StripWalk("W-", 2);
  }

  lemma DropGapsExample()
    ensures DropGaps("W--") == "W"
  {
    DropGapsCons('W', "--");
    DropGapsCons('-', "-");
    DropGapsCons('-', "");
    assert "W--" == ['W'] + "--" && "--" == ['-'] + "-" && "-" == ['-'] + "";
  }

  /** Two adjacent gaps defeat the strip loop: of "W--" it leaves "W-", one
      character too long, so the line for s = "WW" whose alignment starts at
      the first residue omits the second residue. */
  lemma AsWrittenDropsResidue()
    ensures StripWalk("W--", 0) == "W-"
    ensures DropGaps("W--") == "W"
    ensures LineAsWritten(0, "WW", 0, "W--") == "|W--|"
    ensures Line(0, "WW", 0, "W--") == "|W--|W"
  {
    StripExample();
    DropGapsExample();
    LayoutExample();
  }

  lemma LayoutExample()
    ensures Layout(0, "WW", 0, "W--", "W-") == "|W--|"
    ensures Layout(0, "WW", 0, "W--", "W") == "|W--|W"
  {
    assert Spaces(0) == [];
    assert "WW"[..0] == [];
    assert "WW"[2..] == [];
    assert "WW"[1..] == "W";
  }

  /** The two printed lines of a solution as the program writes them. */
  method RenderAsWritten(s1: string, s2: string, a: Alignment) returns (line1: string, line2: string)
    requires a.anchor.i <= |s2| && a.anchor.j <= |s1|
    ensures line1 == LineAsWritten(a.anchor.i - a.anchor.j, s1, a.anchor.j, a.combS1)
    ensures line2 == LineAsWritten(a.anchor.j - a.anchor.i, s2, a.anchor.i, a.combS2)
  {
    var i: int, j: int := a.anchor.i, a.anchor.j;
    var rest1 := StripGaps(a.combS1);
    line1 := Layout(i - j, s1, j, a.combS1, rest1);
    var rest2 := StripGaps(a.combS2);
    line2 := Layout(j - i, s2, i, a.combS2, rest2);
  }

  /** The two printed lines of a solution as the program writes them. */
  function LinesAsWritten(s1: string, s2: string, a: Alignment): (string, string)
    requires a.anchor.i <= |s2| && a.anchor.j <= |s1|
  {
    (LineAsWritten(a.anchor.i - a.anchor.j, s1, a.anchor.j, a.combS1),
     LineAsWritten(a.anchor.j - a.anchor.i, s2, a.anchor.i, a.combS2))
  }

  /** When neither strand holds two adjacent gaps, the printed lines are the
      corrected ones. */
  lemma LinesWithoutAdjacentGaps(s1: string, s2: string, a: Alignment)
    requires a.anchor.i <= |s2| && a.anchor.j <= |s1|
    ensures NoAdjacentGaps(a.combS1, 0) && NoAdjacentGaps(a.combS2, 0) ==>
      LinesAsWritten(s1, s2, a) == Lines(s1, s2, a)
  {
    if NoAdjacentGaps(a.combS1, 0) && NoAdjacentGaps(a.combS2, 0) {
      AsWrittenWithoutAdjacentGaps(a.anchor.i - a.anchor.j, s1, a.anchor.j, a.combS1);
      AsWrittenWithoutAdjacentGaps(a.anchor.j - a.anchor.i, s2, a.anchor.i, a.combS2);
    }
  }

  /** The two lines of a solution as evidently intended, the residues after
      the alignment located by the strands with their gaps dropped. */
  function Lines(s1: string, s2: string, a: Alignment): (string, string)
    requires a.anchor.i <= |s2| && a.anchor.j <= |s1|
  {
    (Line(a.anchor.i - a.anchor.j, s1, a.anchor.j, a.combS1),
     Line(a.anchor.j - a.anchor.i, s2, a.anchor.i, a.combS2))
  }
}
