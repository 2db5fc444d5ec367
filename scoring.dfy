/** Scoring scheme of the bisulfite-tolerant global aligner (hbs_tools nw_align.c).
    The scores are named constants so that another scheme needs one edit here. */
module Scoring {

  const MATCH: int := 3
  const MISMATCH: int := -3
  const INDEL: int := -5

  /** The symbol written opposite a consumed symbol when the other sequence has none. */
  const GAP: char := '-'

  /** Score of x-symbol `a` aligned to y-symbol `b`. Equal symbols match; so do the
      bisulfite conversions T (in x) against C (in y) and G (in x) against A (in y).
      The rule is directional: C against T and A against G are ordinary mismatches. */
  function PairScore(a: char, b: char): (r: int)
    ensures r == MATCH || r == MISMATCH
    ensures a == b ==> r == MATCH
  {
    if a == b then MATCH
    else if (a == 'T' && b == 'C') || (a == 'G' && b == 'A') then MATCH
    else MISMATCH
  }

  /** The conversion-tolerant pairs score as matches in one direction only. */
  lemma ConversionIsDirectional()
    ensures PairScore('T', 'C') == MATCH && PairScore('C', 'T') == MISMATCH
    ensures PairScore('G', 'A') == MATCH && PairScore('A', 'G') == MISMATCH
  {
  }

  /** Swapping the two symbols changes the score exactly on the two converted pairs. */
  lemma AsymmetryIsConversion(a: char, b: char)
    ensures PairScore(a, b) != PairScore(b, a) <==>
      ((a == 'T' && b == 'C') || (a == 'C' && b == 'T') ||
       (a == 'G' && b == 'A') || (a == 'A' && b == 'G'))
  {
  }
}
