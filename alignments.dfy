/** Pairwise alignments as sequences of columns, their two printed rows, the symbols
    each row consumes, and their scores under the scheme of module Scoring. */
module Alignments {
  import opened Scoring

  /** One column of a pairwise alignment. */
  datatype Column =
    | Pair(a: char, b: char)   // x symbol aligned to y symbol (diagonal move)
    | XToGap(a: char)          // x symbol aligned to a gap (vertical move)
    | GapToY(b: char)          // gap aligned to a y symbol (horizontal move)

  /** The character the column prints in the x row. */
  function TopChar(c: Column): char {
    match c
    case Pair(a, _) => a
    case XToGap(a) => a
    case GapToY(_) => GAP
  }

  /** The character the column prints in the y row. */
  function BottomChar(c: Column): char {
    match c
    case Pair(_, b) => b
    case XToGap(_) => GAP
    case GapToY(b) => b
  }

  function TopRow(cols: seq<Column>): seq<char> {
    seq(|cols|, k requires 0 <= k < |cols| => TopChar(cols[k]))
  }

  function BottomRow(cols: seq<Column>): seq<char> {
    seq(|cols|, k requires 0 <= k < |cols| => BottomChar(cols[k]))
  }

  /** The x symbols a column consumes (none for a gap in x). */
  function XPart(c: Column): seq<char> {
    match c
    case Pair(a, _) => [a]
    case XToGap(a) => [a]
    case GapToY(_) => []
  }

  /** The y symbols a column consumes (none for a gap in y). */
  function YPart(c: Column): seq<char> {
    match c
    case Pair(_, b) => [b]
    case XToGap(_) => []
    case GapToY(b) => [b]
  }

  /** The x sequence an alignment accounts for, left to right. */
  function XSymbols(cols: seq<Column>): seq<char> {
    if cols == [] then [] else XSymbols(cols[..|cols| - 1]) + XPart(cols[|cols| - 1])
  }

  /** The y sequence an alignment accounts for, left to right. */
  function YSymbols(cols: seq<Column>): seq<char> {
    if cols == [] then [] else YSymbols(cols[..|cols| - 1]) + YPart(cols[|cols| - 1])
  }

  function ColumnScore(c: Column): int {
    match c
    case Pair(a, b) => PairScore(a, b)
    case XToGap(_) => INDEL
    case GapToY(_) => INDEL
  }

  /** Linear-gap score of an alignment: the sum of its column scores. */
  function AlignScore(cols: seq<Column>): int {
    if cols == [] then 0 else AlignScore(cols[..|cols| - 1]) + ColumnScore(cols[|cols| - 1])
  }

  /** A row with every gap symbol deleted. */
  function StripGaps(s: seq<char>): seq<char> {
    if s == [] then []
    else StripGaps(s[..|s| - 1]) + (if s[|s| - 1] == GAP then [] else [s[|s| - 1]])
  }

  /** Score of two printed rows read column by column: a column holding a gap
      costs INDEL, any other column is scored by PairScore. */
  function RowsScore(s: seq<char>, t: seq<char>): int
    requires |s| == |t|
  {
    if s == [] then 0
    else
      RowsScore(s[..|s| - 1], t[..|t| - 1]) +
      (if s[|s| - 1] == GAP || t[|t| - 1] == GAP then INDEL
       else PairScore(s[|s| - 1], t[|t| - 1]))
  }

  /** No symbol a column consumes is the gap character. */
  predicate Clean(c: Column) {
    match c
    case Pair(a, b) => a != GAP && b != GAP
    case XToGap(a) => a != GAP
    case GapToY(b) => b != GAP
  }

  function Reversed<T>(s: seq<T>): seq<T> {
    if s == [] then [] else Reversed(s[1..]) + [s[0]]
  }

  lemma {:induction false} ReversedAt<T>(s: seq<T>)
    ensures |Reversed(s)| == |s|
    ensures forall k :: 0 <= k < |s| ==> Reversed(s)[k] == s[|s| - 1 - k]
  {
    if s != [] {
      ReversedAt(s[1..]);
    }
  }

  /** Reversal only reorders: the reversed sequence holds the same elements. */
  lemma {:induction false} ReversedPermutes<T>(s: seq<T>)
    ensures multiset(Reversed(s)) == multiset(s)
  {
    if s != [] {
      ReversedPermutes(s[1..]);
      assert s == [s[0]] + s[1..];
    }
  }

  /** Each column consumes at least one symbol and at most one of each sequence,
      so an alignment of x against y has between max(|x|, |y|) and |x| + |y| columns. */
  lemma {:induction false} AlignmentLength(cols: seq<Column>)
    ensures |XSymbols(cols)| <= |cols| && |YSymbols(cols)| <= |cols|
    ensures |cols| <= |XSymbols(cols)| + |YSymbols(cols)|
  {
    if cols != [] {
      AlignmentLength(cols[..|cols| - 1]);
    }
  }

  /** A clean column never prints a gap in both rows. */
  lemma NoDoubleGap(c: Column)
    requires Clean(c)
    ensures TopChar(c) != GAP || BottomChar(c) != GAP
  {
  }

  lemma RowsOfPrefix(cols: seq<Column>)
    requires cols != []
    ensures TopRow(cols)[..|cols| - 1] == TopRow(cols[..|cols| - 1])
    ensures BottomRow(cols)[..|cols| - 1] == BottomRow(cols[..|cols| - 1])
  {
  }

  /** Deleting the gaps from the printed rows of a clean alignment gives back the
      sequences it consumes. */
  lemma {:induction false} StripRows(cols: seq<Column>)
    requires forall k :: 0 <= k < |cols| ==> Clean(cols[k])
    ensures StripGaps(TopRow(cols)) == XSymbols(cols)
    ensures StripGaps(BottomRow(cols)) == YSymbols(cols)
  {
    if cols != [] {
      var n := |cols| - 1;
      RowsOfPrefix(cols);
      StripRows(cols[..n]);
    }
  }

  /** Scoring the printed rows of a clean alignment gives its column score. */
  lemma {:induction false} RowsScoreIsAlignScore(cols: seq<Column>)
    requires forall k :: 0 <= k < |cols| ==> Clean(cols[k])
    ensures RowsScore(TopRow(cols), BottomRow(cols)) == AlignScore(cols)
  {
    if cols != [] {
      var n := |cols| - 1;
      RowsOfPrefix(cols);
      RowsScoreIsAlignScore(cols[..n]);
    }
  }

  /** Appending a column extends each projection by that column's part. */
  lemma Snoc(cols: seq<Column>, c: Column)
    ensures XSymbols(cols + [c]) == XSymbols(cols) + XPart(c)
    ensures YSymbols(cols + [c]) == YSymbols(cols) + YPart(c)
    ensures AlignScore(cols + [c]) == AlignScore(cols) + ColumnScore(c)
  {
    assert (cols + [c])[..|cols|] == cols;
  }

  /** Reversing an alignment reverses both of its printed rows. */
  lemma RowsReversed(cols: seq<Column>)
    ensures TopRow(Reversed(cols)) == Reversed(TopRow(cols))
    ensures BottomRow(Reversed(cols)) == Reversed(BottomRow(cols))
  {
    ReversedAt(cols);
    ReversedAt(TopRow(cols));
    ReversedAt(BottomRow(cols));
  }

  lemma RowsSnoc(cols: seq<Column>, c: Column)
    ensures TopRow(cols + [c]) == TopRow(cols) + [TopChar(c)]
    ensures BottomRow(cols + [c]) == BottomRow(cols) + [BottomChar(c)]
  {
  }
}
