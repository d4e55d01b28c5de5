# Smith-Waterman local alignment, modelled in Dafny

This project models the Smith-Waterman aligner of `smithwaterman.py`. The aligner compares two amino-acid sequences, `s1` and `s2`, under a substitution table (BLOSUM50 in the program) and a linear gap penalty. It works in four steps:

1. It builds a score matrix and a traceback matrix of `(|s2|+1) x (|s1|+1)` cells, starting from 0 and the stop mark `X`.
2. It fills them row by row. Each interior cell takes the best of three candidates: the diagonal one (the table's score plus the diagonal neighbour), the left one and the up one (the neighbour plus the gap penalty). Ties go to D, then L, then U. A negative winner is clamped to 0 with the stop mark. A pair of residues missing from the table ends the run with a fatal error.
3. It scans the interior row by row for the highest score. It keeps the list of cells that reach that score, and the list starts out holding the cell (0, 0).
4. For every listed cell it follows the arrows back to a stop cell, building the two aligned strands with `-` for gaps, and prints two lines per solution.

The model proves the following:
- The fill computes the recurrence.
- The border stays 0 with the stop mark, and no score is negative.
- The tie-break and clamp rules hold exactly as the code has them.
- The scan returns the maximum and exactly the cells that reach it, in row-major order.
- The traceback ends on a stop cell, and its strands have equal length.
- No column of an alignment holds two gaps.
- With gaps dropped, the strands are the aligned stretches of the two sequences.
- The traceback's score, step by step (the table's entry for each D step, the gap penalty for each L or U step), equals the score of the cell it was traced from.
- For sequences without `-`, the same holds column by column: the table's entry for each column of two residues, the gap penalty for each column with a gap.

The printed lines are modelled as strings, and the engine reports them as the program prints them. A corrected layout sits beside them. The printed lines find the rest of the sequence through the program's gap-stripping loop, modelled literally as an index walk over a shrinking list. The corrected layout drops the gaps with a recursive filter (`DropGaps`), which is what the loop evidently intends. The two agree unless a strand holds two adjacent gaps, and that difference is a finding (below).

Modules:
- `Scoring`: the symmetric table lookup.
- `Grid`: the class `Matrices` with its two `array2` fields, the recurrence `Expected`, and the fill methods.
- `Solutions`: the maximum scan, the traceback and the alignment score.
- `Render`: the gap-strip loop and the line layout.
- `SmithWaterman`: the whole run, the gap sign rule and the worked example behind the finding.

The table is a parameter, a `map<(char, char), int>`. It must be `Consistent`: when both orientations of a pair are keys, they carry the same score. So the order in which the program walks the table's keys cannot change a lookup. The fatal `exit(-1)` of the lookup is modelled as `None` in `CombinationScore`, as `false` from `Fill`, and as the outcome `UnknownCombination` of `SmithAlgorithm`.

Textbook presentations of Smith-Waterman stop the traceback at any cell scoring 0. This code clamps only a negative winner, so a winner of exactly 0 keeps its D, L or U arrow (smithwaterman.py:70-87). The model follows the code (`Grid.Select`). The comment at smithwaterman.py:51-55 lists "0" as the value that points nowhere, but that is the stop marker, which the code writes as `X`; it says nothing about a zero score.

## Model

| member | source | states |
|---|---|---|
| `Scoring.CombinationScore` | smithwaterman.py:37-47 | A score exists iff the pair is a key in either orientation. When `(a, b)` is a key the result is its entry, and likewise for `(b, a)`. `None` stands for the fatal exit. |
| `Scoring.CombinationScoreSymmetric` | smithwaterman.py:37-47 | The lookup gives the same result with its arguments swapped. It fails exactly when neither orientation is a key. |
| `Grid.Matrices.constructor` | smithwaterman.py:18-21 | Both matrices have one row more than `s2` has residues and one column more than `s1` has. Every score is 0 and every arrow is `X`. |
| `Grid.Select` | smithwaterman.py:70-87 | The score is `max(0, diag, left, up)`. The arrow is D iff diag is at least both other candidates and not negative. It is L iff left beats diag strictly, is at least up, and is not negative. It is U iff up beats both strictly and is not negative. It is X iff all three candidates are negative, and then the score is 0. A D/L/U cell holds exactly its candidate. |
| `Grid.FillCell` | smithwaterman.py:66-87 | Succeeds iff the table knows `s1[j]` against `s2[i]`. On success, cell (i+1, j+1) becomes what `Select` makes of the three neighbours. No other cell changes, and a failure changes nothing. |
| `Grid.FillRow` | smithwaterman.py:65-87 | Succeeds iff every residue of `s1` pairs with `s2[i]` in the table. On success, row i+1 agrees with the recurrence `Expected`. Nothing outside the interior of row i+1 changes. |
| `Grid.Fill` | smithwaterman.py:64-87 | Succeeds iff the table knows every pair of residues. On success, every cell holds the value the recurrence `Expected` gives it. |
| `Grid.HoldsBorder` | smithwaterman.py:64-87 | In filled matrices, row 0 and column 0 still hold 0 and `X`, and no score is negative. |
| `Grid.HoldsRecurs` | smithwaterman.py:66-87 | In filled matrices, every interior cell is what `Select` makes of its own diagonal, left and up neighbours. |
| `Solutions.MaxScore` | smithwaterman.py:97-105 | The reference maximum is at least 0 and bounds every cell. It is 0 or the score of some cell. |
| `Solutions.ScanFindsAllMaxima` | smithwaterman.py:97-105 | The scan fold returns the largest score, at least 0. Its list holds exactly the cells reaching that score, in scan order. When the score is 0, the list also starts with the initial (0, 0). |
| `Solutions.ScanOfZeros` | smithwaterman.py:97-105 | When every interior score is 0, the scan returns 0 and the list (0, 0) followed by every interior cell. |
| `Solutions.InteriorEnumerates` | smithwaterman.py:99-101 | The nested scan loops visit every interior cell once, in strictly increasing row-major order, with the score the matrix holds there. |
| `Solutions.ScanListsTheHighest` | smithwaterman.py:97-105 | On a grid with a zero border, every listed cell holds the highest score. Every interior cell holding it is listed. |
| `Solutions.FindHighest` | smithwaterman.py:97-105 | The nested loops compute the scan fold. `highest` is the maximum interior score, floored at 0. `position` is the cells holding it in row-major order, preceded by (0, 0) when it is 0. |
| `Solutions.Traceback` | smithwaterman.py:111-128 | The loop returns the walk along the arrows from the start cell. Its strands have equal length. It ends on a cell marked `X`, no lower and no further right than the start. |
| `Solutions.WalkEnds` | smithwaterman.py:113-128 | The walk from any cell terminates on a stop cell, up and to the left of its start, with strands of equal length. |
| `Solutions.WalkNoDoubleGap` | smithwaterman.py:113-128 | No column of the two strands holds a gap in both. |
| `Solutions.WalkResidues` | smithwaterman.py:113-128 | With gaps dropped, the strands are exactly `s1[anchor.j..j]` and `s2[anchor.i..i]`. |
| `Solutions.WalkScoreIsCellScore` | smithwaterman.py:64-128 | On matrices satisfying the recurrence, the traceback from any cell scores exactly that cell's score. Each D step adds the table's entry for its two residues, and each L or U step adds the gap penalty. |
| `Solutions.PathScoreIsCellScore` | smithwaterman.py:64-128 | For sequences without `-`, on matrices satisfying the recurrence, the alignment traced from a cell scores exactly that cell's score, column by column. Each column of two residues adds the table's entry, and each column with a gap adds the penalty. |
| `Solutions.DropGaps` | smithwaterman.py:144-147 | The intended effect of the strip loop: the result holds no gap and is no longer than the strand. |
| `Render.RemoveFirst` | smithwaterman.py:147 | A list's `remove('-')` takes away exactly one occurrence, the first. Python raises `ValueError` when the value is absent. The strip loop never reaches that case, because it removes only right after reading a `-` from the list. The model returns the strand unchanged there. |
| `Render.RemoveGapKeepsResidues` | smithwaterman.py:147 | Removing a gap leaves the residues of the strand, in order, unchanged. |
| `Render.StripGaps` | smithwaterman.py:145-147 | The strip loop as written: an index walk that removes the first gap whenever the element under the index is a gap. It equals the function `StripWalk`. |
| `Render.StripKeepsResidues` | smithwaterman.py:145-147 | The strip loop only ever removes gaps. What it leaves is the strand with some of its gaps deleted: the remaining symbols keep their order, and every symbol dropped is a gap. So every residue is kept in order, and the strand never grows. |
| `Render.LinesWithoutAdjacentGaps` | smithwaterman.py:144-170 | When neither strand holds two adjacent gaps, both printed lines equal the corrected lines. |
| `Render.StripSingleGaps` | smithwaterman.py:145-147 | When no two gaps are adjacent, the strip loop removes every gap. |
| `Render.Spaces` | smithwaterman.py:134-135 | The padding is `n` blanks, and none when `n` is not positive. |
| `Render.LineShowsSequence` | smithwaterman.py:134-150 | When the strand without gaps is `s[at..end]`, the corrected line is the padding, the prefix `s[..at]`, the strand between bars and the rest `s[end..]`. The three parts spell `s`. |
| `Render.AsWrittenWithoutAdjacentGaps` | smithwaterman.py:144-150 | Without adjacent gaps in the strand, the line as written equals the corrected line. |
| `Render.AsWrittenDropsResidue` | smithwaterman.py:144-150 | Of `W--` the strip loop leaves `W-`, not `W`. So for the sequence `WW` with the alignment at its start, the line as written ends at the closing bar, while the corrected line ends with the second `W`. |
| `Render.RenderAsWritten` | smithwaterman.py:132-171 | The two lines as the program builds them. Line 1 pads with `i-j` blanks and lays out `s1`, line 2 pads with `j-i` blanks and lays out `s2`. Each locates its suffix through the strip loop. |
| `SmithWaterman.NormaliseGap` | smithwaterman.py:190-192 | The gap penalty used is never positive, and it is the input or its negation. |
| `SmithWaterman.TraceOne` | smithwaterman.py:109-171 | For one listed cell, the solution is its traceback with the two lines as the program prints them, built by `RenderAsWritten`. Those are the corrected lines whenever neither strand holds adjacent gaps. The traceback's steps score exactly the highest score. When the sequences hold no `-`, the alignment's columns score it too. |
| `SmithWaterman.TraceAll` | smithwaterman.py:108-171 | One solution per listed cell, in list order, each reported as in `TraceOne`: its traceback, its printed lines, its step-wise score equal to the highest score and, for sequences without `-`, its column-wise score. |
| `SmithWaterman.SmithAlgorithm` | smithwaterman.py:58-177 | The run fails iff some residue pair is missing from the table, and a failed run returns nothing else. A successful run returns fresh matrices that satisfy the recurrence. The highest score and the solutions' start cells are those of the scan. Every solution is a traceback, with its two lines as the program prints them, whose steps score exactly the highest score. When the sequences hold no `-`, its columns score it too. |
| `SmithWaterman.EngineDoubleGap` | smithwaterman.py:145-150 | For `WW` against `WAA` with gap penalty 0, W/W = 15 and A/W = -3, the filled matrices have their maximum, 15, at cell (3, 1). Its traceback is `W--` over `WAA`, and the line as written differs from the corrected line. |
| `SmithWaterman.EnginePrintsDoubleGap` | smithwaterman.py:109-150 | On that input, the solution the run reports for cell (3, 1) has the alignment `W--` over `WAA`. Its first line ends at the closing bar, without the second `W` of `s1`. The corrected first line ends with that `W`. |

## Left out

- Clearing the screen, reading the inputs, the integer parse of the gap penalty with its exit on a malformed number, and the wall-clock timing: these are terminal I/O and the clock. The two sequences and the gap penalty are parameters, and only the sign rule is modelled (`NormaliseGap`).
- The prints: the solution headers, the final "Value of alignment" line and the solution counter. The two lines of each solution are modelled as returned strings.
- The contents of BLOSUM50: the table is a parameter. The model requires both orientations of a pair to agree, rather than the program's reliance on key order.
- The commented-out matrix dumps.
- SmithWaterman.SmithAlgorithm: the column-by-column score of each reported alignment is stated only for sequences that hold no `-`, because a `-` in an input sequence cannot be told apart from a gap in a strand. The step-wise score is stated for every input.
- SmithWaterman.TraceOne: the alignment's column-by-column score is stated only for sequences that hold no `-`, for the same reason.
- SmithWaterman.TraceAll: the alignments' column-by-column scores are stated only for sequences that hold no `-`, for the same reason.
- Solutions.WalkNoDoubleGap: requires sequences without `-`, for the same reason.
- Solutions.WalkResidues: requires sequences without `-`, for the same reason.
- Solutions.PathScoreIsCellScore: requires sequences without `-`, for the same reason. It reads the score off the strands' columns, where a `-` residue looks like a gap. The step-wise score `Solutions.WalkScoreIsCellScore` carries the property for every input.

## Findings

| source | as written | input that shows it | evidently intended | confidence | as-written member | corrected member |
|---|---|---|---|---|---|---|
| smithwaterman.py:145-150 | The loop removes gaps from the strand while iterating over it. After each removal the next symbol slides into the current place and is never examined, so one gap of each adjacent pair survives. The suffix after the alignment then starts too far right, and residues vanish from the printed line. Lines 165-170 repeat this for `s2`. | `s1 = "WW"`, `s2 = "WAA"`, gap penalty 0, W/W = 15 and A/W = -3 (as in BLOSUM50). Cell (3, 1) holds the highest score 15 and traces back to `W--` over `WAA`. Line 1 ends at the closing bar and omits the second `W` of `s1`. | Remove every gap, so line 1 ends with the second `W` and its printed parts spell `s1`. | not executed | `SmithWaterman.EnginePrintsDoubleGap` | `Render.LineShowsSequence` |
