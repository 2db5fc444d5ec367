/** The Needleman-Wunsch score matrix: its defining recursion (Score), the method that
    fills an (M+1) x (N+1) array with it (BuildMatrix), and what a cell means: the best
    score of any alignment of the two prefixes (ScoreOptimal). Sequences are 0-based
    here, so the C program's x[i] is x[i - 1]. */
module ScoreMatrix {
  import opened Scoring
  import opened Alignments

  function Max(a: int, b: int): int {
    if a < b then b else a
  }

  /** Score of x[..i] against y[..j]: linear-gap boundary, and every inner cell the
      best of the diagonal, vertical and horizontal moves into it. */
  ghost function Score(x: seq<char>, y: seq<char>, i: nat, j: nat): int
    requires i <= |x| && j <= |y|
    decreases i + j
  {
    if i == 0 then j * INDEL
    else if j == 0 then i * INDEL
    else
      Max(Max(Score(x, y, i - 1, j - 1) + PairScore(x[i - 1], y[j - 1]),
              Score(x, y, i - 1, j) + INDEL),
          Score(x, y, i, j - 1) + INDEL)
  }

  /** The matrix the recursion defines, as a value: row i, column j holds Score(x, y, i, j). */
  ghost function Table(x: seq<char>, y: seq<char>): seq<seq<int>> {
    seq(|x| + 1, i requires 0 <= i <= |x| =>
      seq(|y| + 1, j requires 0 <= j <= |y| => Score(x, y, i, j)))
  }

  /** T has m + 1 rows of n + 1 cells. */
  ghost predicate Shaped(T: seq<seq<int>>, m: nat, n: nat) {
    |T| == m + 1 && forall i :: 0 <= i <= m ==> |T[i]| == n + 1
  }

  /** Cell (i, j) of T is the best of the diagonal, vertical and horizontal moves into it. */
  ghost predicate Recurs(T: seq<seq<int>>, x: seq<char>, y: seq<char>, i: nat, j: nat)
    requires Shaped(T, |x|, |y|) && 1 <= i <= |x| && 1 <= j <= |y|
  {
    T[i][j] == Max(Max(T[i - 1][j - 1] + PairScore(x[i - 1], y[j - 1]),
                       T[i - 1][j] + INDEL),
                   T[i][j - 1] + INDEL)
  }

  /** T has the matrix's shape, the linear-gap boundary, and the recurrence in every
      inner cell. */
  ghost predicate WellFormed(T: seq<seq<int>>, x: seq<char>, y: seq<char>) {
    Shaped(T, |x|, |y|) &&
    T[0][0] == 0 &&
    (forall i :: 1 <= i <= |x| ==> T[i][0] == i * INDEL) &&
    (forall j :: 1 <= j <= |y| ==> T[0][j] == j * INDEL) &&
    (forall i, j :: 1 <= i <= |x| && 1 <= j <= |y| ==> Recurs(T, x, y, i, j))
  }

  lemma {:induction false} WellFormedCell(T: seq<seq<int>>, x: seq<char>, y: seq<char>, i: nat, j: nat)
    requires WellFormed(T, x, y)
    requires i <= |x| && j <= |y|
    ensures T[i][j] == Score(x, y, i, j)
    decreases i + j
  {
    if i > 0 && j > 0 {
      assert Recurs(T, x, y, i, j);
      WellFormedCell(T, x, y, i - 1, j - 1);
      WellFormedCell(T, x, y, i - 1, j);
      WellFormedCell(T, x, y, i, j - 1);
    }
  }

  /** The boundary and the recurrence determine the matrix: a table is well formed
      exactly when it is the table of Score. */
  lemma WellFormedIsTable(T: seq<seq<int>>, x: seq<char>, y: seq<char>)
    ensures WellFormed(T, x, y) <==> T == Table(x, y)
  {
    var R := Table(x, y);
    if WellFormed(T, x, y) {
      forall i | 0 <= i <= |x| ensures T[i] == R[i] {
        forall j | 0 <= j <= |y| ensures T[i][j] == R[i][j] {
          WellFormedCell(T, x, y, i, j);
        }
      }
    }
    if T == R {
      assert Shaped(R, |x|, |y|);
      forall i, j | 1 <= i <= |x| && 1 <= j <= |y| ensures Recurs(R, x, y, i, j) {
        assert R[i][j] == Score(x, y, i, j);
        assert R[i - 1][j - 1] == Score(x, y, i - 1, j - 1);
        assert R[i - 1][j] == Score(x, y, i - 1, j);
        assert R[i][j - 1] == Score(x, y, i, j - 1);
      }
    }
  }

  /** The contents of the array, row by row. */
  ghost function Cells(S: array2<int>): seq<seq<int>>
    reads S
  {
    seq(S.Length0, i requires 0 <= i < S.Length0 reads S =>
      seq(S.Length1, j requires 0 <= j < S.Length1 reads S => S[i, j]))
  }

  /** The array has the matrix's shape and the linear-gap boundary. */
  ghost predicate Boundary(S: array2<int>, x: seq<char>, y: seq<char>)
    reads S
  {
    S.Length0 == |x| + 1 && S.Length1 == |y| + 1 &&
    S[0, 0] == 0 &&
    (forall i :: 1 <= i <= |x| ==> S[i, 0] == i * INDEL) &&
    (forall j :: 1 <= j <= |y| ==> S[0, j] == j * INDEL)
  }

  /** Inner cell (a, b) of the array holds the best of its three candidates. */
  ghost predicate CellRecurs(S: array2<int>, x: seq<char>, y: seq<char>, a: nat, b: nat)
    reads S
    requires S.Length0 == |x| + 1 && S.Length1 == |y| + 1
    requires 1 <= a <= |x| && 1 <= b <= |y|
  {
    S[a, b] == Max(Max(S[a - 1, b - 1] + PairScore(x[a - 1], y[b - 1]), S[a - 1, b] + INDEL),
                   S[a, b - 1] + INDEL)
  }

  /** Inner cells of rows 1..i, and of row i + 1 before column j, satisfy the recurrence. */
  ghost predicate RecurrenceUpTo(S: array2<int>, x: seq<char>, y: seq<char>, i: nat, j: nat)
    reads S
    requires S.Length0 == |x| + 1 && S.Length1 == |y| + 1
  {
    forall a, b :: 1 <= a <= |x| && 1 <= b <= |y| && (a <= i || (a == i + 1 && b < j)) ==>
      CellRecurs(S, x, y, a, b)
  }

  /** Fills the matrix as the C program does: boundary first, then row by row, each
      inner cell from the diagonal candidate raised by the vertical and the horizontal
      candidates. Each cell reads only cells of earlier rows or earlier in its row. */
  method BuildMatrix(x: seq<char>, y: seq<char>) returns (S: array2<int>)
    ensures S.Length0 == |x| + 1 && S.Length1 == |y| + 1
    ensures WellFormed(Cells(S), x, y)
  {
    S := new int[|x| + 1, |y| + 1];
    FillBoundary(S, x, y);
    for i := 1 to |x| + 1
      invariant Boundary(S, x, y)
      invariant RecurrenceUpTo(S, x, y, i - 1, 0)
    {
      FillRow(S, x, y, i);
    }
    CellsWellFormed(S, x, y);
  }

  /** A fully filled array, read as a table, is well formed. */
  lemma CellsWellFormed(S: array2<int>, x: seq<char>, y: seq<char>)
    requires Boundary(S, x, y) && RecurrenceUpTo(S, x, y, |x|, 0)
    ensures WellFormed(Cells(S), x, y)
  {
    var T := Cells(S);
    forall i, j | 1 <= i <= |x| && 1 <= j <= |y| ensures Recurs(T, x, y, i, j) {
      assert CellRecurs(S, x, y, i, j);
      assert T[i][j] == S[i, j] && T[i - 1][j - 1] == S[i - 1, j - 1];
      assert T[i - 1][j] == S[i - 1, j] && T[i][j - 1] == S[i, j - 1];
    }
  }

  /** Writes row 0 and column 0; the inner cells are left as they were. */
  method FillBoundary(S: array2<int>, x: seq<char>, y: seq<char>)
    requires S.Length0 == |x| + 1 && S.Length1 == |y| + 1
    modifies S
    ensures Boundary(S, x, y)
    ensures forall a, b :: 1 <= a <= |x| && 1 <= b <= |y| ==> S[a, b] == old(S[a, b])
  {
    S[0, 0] := 0;
    for i := 1 to |x| + 1
      invariant S[0, 0] == 0
      invariant forall a :: 1 <= a < i ==> S[a, 0] == a * INDEL
      invariant forall a, b :: 1 <= a <= |x| && 1 <= b <= |y| ==> S[a, b] == old(S[a, b])
    {
      S[i, 0] := i * INDEL;
    }
    for j := 1 to |y| + 1
      invariant S[0, 0] == 0
      invariant forall a :: 1 <= a <= |x| ==> S[a, 0] == a * INDEL
      invariant forall b :: 1 <= b < j ==> S[0, b] == b * INDEL
      invariant forall a, b :: 1 <= a <= |x| && 1 <= b <= |y| ==> S[a, b] == old(S[a, b])
    {
      S[0, j] := j * INDEL;
    }
  }

  /** One pass of the inner loop: fills row i, columns 1..N, left to right; every
      other cell is left as it was. */
  method FillRow(S: array2<int>, x: seq<char>, y: seq<char>, i: nat)
    requires 1 <= i <= |x|
    requires Boundary(S, x, y) && RecurrenceUpTo(S, x, y, i - 1, 0)
    modifies S
    ensures Boundary(S, x, y) && RecurrenceUpTo(S, x, y, i, 0)
    ensures forall a, b :: 0 <= a <= |x| && 0 <= b <= |y| && (a != i || b == 0) ==>
      S[a, b] == old(S[a, b])
  {
    for j := 1 to |y| + 1
      invariant Boundary(S, x, y)
      invariant RecurrenceUpTo(S, x, y, i - 1, j)
      invariant forall a, b :: 0 <= a <= |x| && 0 <= b <= |y| && (a != i || b == 0 || b >= j) ==>
        S[a, b] == old(S[a, b])
    {
      var best := S[i - 1, j - 1] + PairScore(x[i - 1], y[j - 1]);
      var sc := S[i - 1, j] + INDEL;
      if sc > best {
        best := sc;
      }
      sc := S[i, j - 1] + INDEL;
      if sc > best {
        best := sc;
      }
      label before:
      S[i, j] := best;
      forall a, b | 1 <= a <= |x| && 1 <= b <= |y| && (a < i || (a == i && b <= j))
        ensures CellRecurs(S, x, y, a, b)
      {
        if (a, b) != (i, j) {
          assert old@before(CellRecurs(S, x, y, a, b));
          assert S[a, b] == old@before(S[a, b]);
          assert S[a - 1, b - 1] == old@before(S[a - 1, b - 1]);
          assert S[a - 1, b] == old@before(S[a - 1, b]);
          assert S[a, b - 1] == old@before(S[a, b - 1]);
        }
      }
    }
  }

  /** Each move into a cell is bounded by the cell: Score is the best of them. */
  lemma ScoreDominates(x: seq<char>, y: seq<char>, i: nat, j: nat, c: Column)
    requires i <= |x| && j <= |y|
    requires c.Pair? ==> i > 0 && j > 0 && c == Pair(x[i - 1], y[j - 1])
    requires c.XToGap? ==> i > 0
    requires c.GapToY? ==> j > 0
    ensures Score(x, y, if c.GapToY? then i else i - 1, if c.XToGap? then j else j - 1)
              + ColumnScore(c) <= Score(x, y, i, j)
  {
  }

  /** A prefix of x that ends in symbol a is x[..i - 1] followed by x[i - 1]. */
  lemma PrefixCancel(s: seq<char>, a: char, x: seq<char>, i: nat)
    requires i <= |x| && s + [a] == x[..i]
    ensures i > 0 && s == x[..i - 1] && a == x[i - 1]
  {
    assert |s| + 1 == i;
    assert s == (s + [a])[..|s|];
    assert x[..i][..i - 1] == x[..i - 1];
  }

  /** Optimality: no alignment of x[..i] against y[..j] scores more than Score. */
  lemma {:induction false} ScoreOptimal(x: seq<char>, y: seq<char>, i: nat, j: nat, cols: seq<Column>)
    requires i <= |x| && j <= |y|
    requires XSymbols(cols) == x[..i] && YSymbols(cols) == y[..j]
    ensures AlignScore(cols) <= Score(x, y, i, j)
    decreases |cols|
  {
    if cols == [] {
      assert |x[..i]| == 0 && |y[..j]| == 0;
    } else {
      var n := |cols| - 1;
      var p, c := cols[..n], cols[n];
      assert XSymbols(cols) == XSymbols(p) + XPart(c);
      assert YSymbols(cols) == YSymbols(p) + YPart(c);
      assert AlignScore(cols) == AlignScore(p) + ColumnScore(c);
      match c
      case Pair(a, b) =>
        PrefixCancel(XSymbols(p), a, x, i);
        PrefixCancel(YSymbols(p), b, y, j);
        ScoreOptimal(x, y, i - 1, j - 1, p);
        ScoreDominates(x, y, i, j, c);
      case XToGap(a) =>
        PrefixCancel(XSymbols(p), a, x, i);
        ScoreOptimal(x, y, i - 1, j, p);
        ScoreDominates(x, y, i, j, c);
      case GapToY(b) =>
        PrefixCancel(YSymbols(p), b, y, j);
        ScoreOptimal(x, y, i, j - 1, p);
        ScoreDominates(x, y, i, j, c);
    }
  }
}
