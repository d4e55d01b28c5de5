// The substitution-table lookup of the aligner: a symmetric lookup of a pair of
// residues in a table keyed by ordered pairs, failing when neither orientation
// of the pair is a key.

module Scoring {

  datatype Option<+T> = None | Some(value: T)

  /** A substitution table such as BLOSUM50, keyed by ordered residue pairs. */
  type Table = map<(char, char), int>

  /** When both orientations of a pair are keys they carry the same score, so the
      order in which the table's keys are enumerated cannot change a lookup. */
  ghost predicate Consistent(t: Table) {
    forall a, b :: (a, b) in t && (b, a) in t ==> t[(a, b)] == t[(b, a)]
  }

  /** The pair {a, b} has a score in either orientation. */
  predicate Known(t: Table, a: char, b: char) {
    (a, b) in t || (b, a) in t
  }

  /** The score of aligning `a` against `b`; `None` stands for the fatal error
      the lookup raises when the pair is in the table in neither orientation. */
  function CombinationScore(t: Table, a: char, b: char): (r: Option<int>)
    requires Consistent(t)
    ensures r.Some? <==> Known(t, a, b)
    ensures (a, b) in t ==> r == Some(t[(a, b)])
    ensures (b, a) in t ==> r == Some(t[(b, a)])
  {
    if (a, b) in t then Some(t[(a, b)])
    else if (b, a) in t then Some(t[(b, a)])
    else None
  }

  /** The lookup does not depend on the order of its arguments. */
  lemma CombinationScoreSymmetric(t: Table, a: char, b: char)
    requires Consistent(t)
    ensures CombinationScore(t, a, b) == CombinationScore(t, b, a)
    ensures CombinationScore(t, a, b).None? <==> (a, b) !in t && (b, a) !in t
  {
  }
}
