/** Traceback of nw_align.c: from cell (M, N) back to (0, 0), one column per step,
    with a tie-break order that depends on the position; then the in-place reversal
    of the two backward-built rows, and the whole per-record alignment (Align). */
module Traceback {
  import opened Scoring
  import opened Alignments
  import opened ScoreMatrix

  datatype Option<T> = None | Some(value: T)

  /** The three transitions of the traceback. */
  datatype Move =
    | Diagonal     // x[i] aligned to y[j], to (i - 1, j - 1)
    | Vertical     // x[i] aligned to a gap, to (i - 1, j)
    | Horizontal   // a gap aligned to y[j], to (i, j - 1)

  /** Outer region of the trace, near its start: there gaps are tried before the diagonal. */
  predicate Outer(m: nat, n: nat, i: nat, j: nat) {
    i * 4 >= m + n && j * 4 >= m + n
  }

  /** The order in which the traceback tries the moves at (i, j). */
  function Preference(m: nat, n: nat, i: nat, j: nat): seq<Move> {
    if Outer(m, n, i, j) then [Vertical, Horizontal, Diagonal]
    else [Diagonal, Vertical, Horizontal]
  }

  /** The C program's test for a move at (i, j): the boundary guard, and the
      predecessor's score plus the move's cost equal to the cell's score. */
  ghost predicate Valid(T: seq<seq<int>>, x: seq<char>, y: seq<char>, i: nat, j: nat, mv: Move)
    requires Shaped(T, |x|, |y|) && i <= |x| && j <= |y|
  {
    match mv
    case Vertical => i > 0 && T[i - 1][j] + INDEL == T[i][j]
    case Horizontal => j > 0 && T[i][j - 1] + INDEL == T[i][j]
    case Diagonal => i > 0 && j > 0 && T[i - 1][j - 1] + PairScore(x[i - 1], y[j - 1]) == T[i][j]
  }

  /** The first move of `prefs` that is valid at (i, j), if any. */
  ghost function FirstValid(T: seq<seq<int>>, x: seq<char>, y: seq<char>, i: nat, j: nat, prefs: seq<Move>): (r: Option<Move>)
    requires Shaped(T, |x|, |y|) && i <= |x| && j <= |y|
    ensures r.None? <==> forall k :: 0 <= k < |prefs| ==> !Valid(T, x, y, i, j, prefs[k])
    ensures r.Some? ==> r.value in prefs && Valid(T, x, y, i, j, r.value)
    ensures r.Some? ==> exists k :: 0 <= k < |prefs| && prefs[k] == r.value &&
                                    (forall m :: 0 <= m < k ==> !Valid(T, x, y, i, j, prefs[m]))
  {
    if prefs == [] then None
    else if Valid(T, x, y, i, j, prefs[0]) then Some(prefs[0])
    else
      var r := FirstValid(T, x, y, i, j, prefs[1..]);
      assert r.None? ==> forall k :: 0 <= k < |prefs| ==> !Valid(T, x, y, i, j, prefs[k]) by {
        if r.None? {
          forall k | 0 <= k < |prefs| ensures !Valid(T, x, y, i, j, prefs[k]) {
            if k > 0 { assert prefs[k] == prefs[1..][k - 1]; }
          }
        }
      }
      assert r.Some? ==> exists k :: 0 <= k < |prefs| && prefs[k] == r.value &&
                                     (forall m :: 0 <= m < k ==> !Valid(T, x, y, i, j, prefs[m])) by {
        if r.Some? {
          var k :| 0 <= k < |prefs[1..]| && prefs[1..][k] == r.value &&
                   (forall m :: 0 <= m < k ==> !Valid(T, x, y, i, j, prefs[1..][m]));
          forall m | 0 <= m < k + 1 ensures !Valid(T, x, y, i, j, prefs[m]) {
            if m > 0 { assert prefs[m] == prefs[1..][m - 1]; }
          }
          assert prefs[k + 1] == r.value;
        }
      }
      r
  }

  /** The move the traceback takes at (i, j). */
  ghost function Step(T: seq<seq<int>>, x: seq<char>, y: seq<char>, i: nat, j: nat): Option<Move>
    requires Shaped(T, |x|, |y|) && i <= |x| && j <= |y|
  {
    FirstValid(T, x, y, i, j, Preference(|x|, |y|, i, j))
  }

  lemma FirstOfThree(T: seq<seq<int>>, x: seq<char>, y: seq<char>, i: nat, j: nat, m0: Move, m1: Move, m2: Move)
    requires Shaped(T, |x|, |y|) && i <= |x| && j <= |y|
    ensures FirstValid(T, x, y, i, j, [m0, m1, m2]) ==
      if Valid(T, x, y, i, j, m0) then Some(m0)
      else if Valid(T, x, y, i, j, m1) then Some(m1)
      else if Valid(T, x, y, i, j, m2) then Some(m2)
      else None
  {
    assert [m0, m1, m2][1..] == [m1, m2];
    assert [m1, m2][1..] == [m2];
    assert [m2][1..] == [];
    assert FirstValid(T, x, y, i, j, [m2]) ==
      if Valid(T, x, y, i, j, m2) then Some(m2) else FirstValid(T, x, y, i, j, []);
    assert FirstValid(T, x, y, i, j, [m1, m2]) ==
      if Valid(T, x, y, i, j, m1) then Some(m1) else FirstValid(T, x, y, i, j, [m2]);
  }

  /** The tie-break rule spelled out: in the outer region the vertical move wins,
      then the horizontal, then the diagonal; elsewhere the diagonal wins, then the
      vertical, then the horizontal. */
  lemma StepOrder(T: seq<seq<int>>, x: seq<char>, y: seq<char>, i: nat, j: nat)
    requires Shaped(T, |x|, |y|) && i <= |x| && j <= |y|
    ensures Outer(|x|, |y|, i, j) ==> (Step(T, x, y, i, j) ==
      if Valid(T, x, y, i, j, Vertical) then Some(Vertical)
      else if Valid(T, x, y, i, j, Horizontal) then Some(Horizontal)
      else if Valid(T, x, y, i, j, Diagonal) then Some(Diagonal)
      else None)
    ensures !Outer(|x|, |y|, i, j) ==> (Step(T, x, y, i, j) ==
      if Valid(T, x, y, i, j, Diagonal) then Some(Diagonal)
      else if Valid(T, x, y, i, j, Vertical) then Some(Vertical)
      else if Valid(T, x, y, i, j, Horizontal) then Some(Horizontal)
      else None)
  {
    var prefs := Preference(|x|, |y|, i, j);
    FirstOfThree(T, x, y, i, j, prefs[0], prefs[1], prefs[2]);
    assert prefs == [prefs[0], prefs[1], prefs[2]];
  }

  /** On a well-formed matrix some move is always valid away from (0, 0), so the
      traceback never finds itself without a transition. */
  lemma StepDefined(T: seq<seq<int>>, x: seq<char>, y: seq<char>, i: nat, j: nat)
    requires WellFormed(T, x, y) && i <= |x| && j <= |y| && (i > 0 || j > 0)
    ensures Step(T, x, y, i, j).Some?
  {
    var prefs := Preference(|x|, |y|, i, j);
    if i == 0 {
      assert Valid(T, x, y, i, j, Horizontal);
      assert Horizontal in prefs;
    } else if j == 0 {
      assert Valid(T, x, y, i, j, Vertical);
      assert Vertical in prefs;
    } else {
      assert Recurs(T, x, y, i, j);
      if Valid(T, x, y, i, j, Diagonal) {
        assert Diagonal in prefs;
      } else if Valid(T, x, y, i, j, Vertical) {
        assert Vertical in prefs;
      } else {
        assert Valid(T, x, y, i, j, Horizontal);
        assert Horizontal in prefs;
      }
    }
  }

  /** The column a move emits at (i, j). */
  function Emit(x: seq<char>, y: seq<char>, i: nat, j: nat, mv: Move): Column
    requires 0 < i <= |x| || mv == Horizontal
    requires 0 < j <= |y| || mv == Vertical
  {
    match mv
    case Vertical => XToGap(x[i - 1])
    case Horizontal => GapToY(y[j - 1])
    case Diagonal => Pair(x[i - 1], y[j - 1])
  }

  /** The columns the traceback emits from (i, j), in the order it emits them
      (right to left in the finished alignment). */
  ghost function Trace(T: seq<seq<int>>, x: seq<char>, y: seq<char>, i: nat, j: nat): seq<Column>
    requires WellFormed(T, x, y) && i <= |x| && j <= |y|
    decreases i + j
  {
    if i == 0 && j == 0 then []
    else
      StepDefined(T, x, y, i, j);
      match Step(T, x, y, i, j).value
      case Vertical => [Emit(x, y, i, j, Vertical)] + Trace(T, x, y, i - 1, j)
      case Horizontal => [Emit(x, y, i, j, Horizontal)] + Trace(T, x, y, i, j - 1)
      case Diagonal => [Emit(x, y, i, j, Diagonal)] + Trace(T, x, y, i - 1, j - 1)
  }

  /** One step of the trace from (i, j): the move taken, the column it emits and the
      cell it leads to. */
  lemma TraceUnfold(T: seq<seq<int>>, x: seq<char>, y: seq<char>, i: nat, j: nat)
      returns (mv: Move, i': nat, j': nat)
    requires WellFormed(T, x, y) && i <= |x| && j <= |y| && (i > 0 || j > 0)
    ensures Step(T, x, y, i, j) == Some(mv) && Valid(T, x, y, i, j, mv)
    ensures i' == (if mv == Horizontal then i else i - 1)
    ensures j' == (if mv == Vertical then j else j - 1)
    ensures Trace(T, x, y, i, j) == [Emit(x, y, i, j, mv)] + Trace(T, x, y, i', j')
    ensures Reversed(Trace(T, x, y, i, j)) == Reversed(Trace(T, x, y, i', j')) + [Emit(x, y, i, j, mv)]
  {
    StepDefined(T, x, y, i, j);
    mv := Step(T, x, y, i, j).value;
    i' := if mv == Horizontal then i else i - 1;
    j' := if mv == Vertical then j else j - 1;
    var t := Trace(T, x, y, i, j);
    assert t[1..] == Trace(T, x, y, i', j');
  }

  lemma PrefixSnoc(s: seq<char>, n: nat)
    requires 0 < n <= |s|
    ensures s[..n] == s[..n - 1] + [s[n - 1]]
  {
  }

  /** The forward alignment accounts for x[..i] exactly, in order. */
  lemma {:induction false} TraceXSymbols(T: seq<seq<int>>, x: seq<char>, y: seq<char>, i: nat, j: nat)
    requires WellFormed(T, x, y) && i <= |x| && j <= |y|
    ensures XSymbols(Reversed(Trace(T, x, y, i, j))) == x[..i]
    decreases i + j
  {
    if i > 0 || j > 0 {
      var mv, i', j' := TraceUnfold(T, x, y, i, j);
      var c := Emit(x, y, i, j, mv);
      Snoc(Reversed(Trace(T, x, y, i', j')), c);
      TraceXSymbols(T, x, y, i', j');
      if mv != Horizontal {
        assert XPart(c) == [x[i - 1]];
        PrefixSnoc(x, i);
      }
    }
  }

  /** The forward alignment accounts for y[..j] exactly, in order. */
  lemma {:induction false} TraceYSymbols(T: seq<seq<int>>, x: seq<char>, y: seq<char>, i: nat, j: nat)
    requires WellFormed(T, x, y) && i <= |x| && j <= |y|
    ensures YSymbols(Reversed(Trace(T, x, y, i, j))) == y[..j]
    decreases i + j
  {
    if i > 0 || j > 0 {
      var mv, i', j' := TraceUnfold(T, x, y, i, j);
      var c := Emit(x, y, i, j, mv);
      Snoc(Reversed(Trace(T, x, y, i', j')), c);
      TraceYSymbols(T, x, y, i', j');
      if mv != Vertical {
        assert YPart(c) == [y[j - 1]];
        PrefixSnoc(y, j);
      }
    }
  }

  /** The score of the traced path reconciles with the matrix: it is T[i][j]. */
  lemma {:induction false} TraceScore(T: seq<seq<int>>, x: seq<char>, y: seq<char>, i: nat, j: nat)
    requires WellFormed(T, x, y) && i <= |x| && j <= |y|
    ensures AlignScore(Reversed(Trace(T, x, y, i, j))) == T[i][j]
    decreases i + j
  {
    if i > 0 || j > 0 {
      var mv, i', j' := TraceUnfold(T, x, y, i, j);
      var c := Emit(x, y, i, j, mv);
      Snoc(Reversed(Trace(T, x, y, i', j')), c);
      TraceScore(T, x, y, i', j');
    }
  }

  /** When neither input contains the gap character, no traced column does either. */
  lemma {:induction false} TraceClean(T: seq<seq<int>>, x: seq<char>, y: seq<char>, i: nat, j: nat)
    requires WellFormed(T, x, y) && i <= |x| && j <= |y|
    requires GAP !in x && GAP !in y
    ensures forall k :: 0 <= k < |Trace(T, x, y, i, j)| ==> Clean(Trace(T, x, y, i, j)[k])
    decreases i + j
  {
    if i > 0 || j > 0 {
      var mv, i', j' := TraceUnfold(T, x, y, i, j);
      TraceClean(T, x, y, i', j');
      if mv != Horizontal { assert x[i - 1] in x; }
      if mv != Vertical { assert y[j - 1] in y; }
      assert Clean(Emit(x, y, i, j, mv));
    }
  }

  /** The alignment of x against y in forward order. */
  ghost function Alignment(x: seq<char>, y: seq<char>): seq<Column> {
    WellFormedIsTable(Table(x, y), x, y);
    Reversed(Trace(Table(x, y), x, y, |x|, |y|))
  }

  /** The alignment is optimal: it accounts for both inputs, it scores
      Score(M, N), and no alignment of the two inputs scores more. */
  lemma AlignmentOptimal(x: seq<char>, y: seq<char>, other: seq<Column>)
    requires XSymbols(other) == x && YSymbols(other) == y
    ensures XSymbols(Alignment(x, y)) == x && YSymbols(Alignment(x, y)) == y
    ensures AlignScore(other) <= AlignScore(Alignment(x, y)) == Score(x, y, |x|, |y|)
  {
    var T := Table(x, y);
    WellFormedIsTable(T, x, y);
    TraceXSymbols(T, x, y, |x|, |y|);
    TraceYSymbols(T, x, y, |x|, |y|);
    TraceScore(T, x, y, |x|, |y|);
    assert x[..|x|] == x && y[..|y|] == y;
    ScoreOptimal(x, y, |x|, |y|, other);
  }

  /** The tests of one pass of the C traceback loop at (i, j), in their position-
      dependent order: the move whose test succeeds first. The case where no test
      succeeds, in which the C loop would spin forever, is unreachable by StepDefined. */
  method NextMove(S: array2<int>, x: seq<char>, y: seq<char>, i: nat, j: nat, ghost T: seq<seq<int>>) returns (mv: Move)
    requires S.Length0 == |x| + 1 && S.Length1 == |y| + 1 && WellFormed(T, x, y)
    requires forall a, b :: 0 <= a <= |x| && 0 <= b <= |y| ==> T[a][b] == S[a, b]
    requires i <= |x| && j <= |y| && (i > 0 || j > 0)
    ensures Step(T, x, y, i, j) == Some(mv)
    ensures mv != Horizontal ==> i > 0
    ensures mv != Vertical ==> j > 0
  {
    StepDefined(T, x, y, i, j);
    StepOrder(T, x, y, i, j);
    assert T[i][j] == S[i, j];
    assert i > 0 ==> T[i - 1][j] == S[i - 1, j];
    assert j > 0 ==> T[i][j - 1] == S[i, j - 1];
    assert i > 0 && j > 0 ==> T[i - 1][j - 1] == S[i - 1, j - 1];
    var M, N := |x|, |y|;
    if i * 4 >= M + N && j * 4 >= M + N {
      if i != 0 && S[i - 1, j] + INDEL == S[i, j] {
        mv := Vertical;
      } else if j != 0 && S[i, j - 1] + INDEL == S[i, j] {
        mv := Horizontal;
      } else if i > 0 && j > 0 && S[i - 1, j - 1] + PairScore(x[i - 1], y[j - 1]) == S[i, j] {
        mv := Diagonal;
      } else {
        assert false;
      }
    } else {
      if i > 0 && j > 0 && S[i - 1, j - 1] + PairScore(x[i - 1], y[j - 1]) == S[i, j] {
        mv := Diagonal;
      } else if i != 0 && S[i - 1, j] + INDEL == S[i, j] {
        mv := Vertical;
      } else if j != 0 && S[i, j - 1] + INDEL == S[i, j] {
        mv := Horizontal;
      } else {
        assert false;
      }
    }
  }

  lemma ConcatAssoc<E>(a: seq<E>, b: seq<E>, c: seq<E>)
    ensures (a + b) + c == a + (b + c)
  {
  }

  /** Taking the move Step chooses at (i, j) to (i', j') extends the part of the trace
      already emitted by one column and leaves the trace from (i', j') to emit. */
  lemma TraceAdvance(T: seq<seq<int>>, x: seq<char>, y: seq<char>, i: nat, j: nat,
                     done: seq<Column>, mv: Move, i': nat, j': nat)
    requires WellFormed(T, x, y) && i <= |x| && j <= |y| && (i > 0 || j > 0)
    requires Step(T, x, y, i, j) == Some(mv)
    requires i' == (if mv == Horizontal then i else i - 1)
    requires j' == (if mv == Vertical then j else j - 1)
    requires done + Trace(T, x, y, i, j) == Trace(T, x, y, |x|, |y|)
    ensures (done + [Emit(x, y, i, j, mv)]) + Trace(T, x, y, i', j') == Trace(T, x, y, |x|, |y|)
  {
    var mv', i0, j0 := TraceUnfold(T, x, y, i, j);
    assert mv' == mv && i0 == i' && j0 == j';
    var c, rest := Emit(x, y, i, j, mv), Trace(T, x, y, i', j');
    assert Trace(T, x, y, i, j) == [c] + rest;
    ConcatAssoc(done, [c], rest);
  }

  /** Writing column c at position k extends the rows written so far by that column. */
  lemma RowsGrow(ax: array<char>, ay: array<char>, k: nat, done: seq<Column>, c: Column)
    requires k < ax.Length && k < ay.Length && |done| == k
    requires forall l :: 0 <= l < k ==> ax[l] == TopChar(done[l]) && ay[l] == BottomChar(done[l])
    requires ax[k] == TopChar(c) && ay[k] == BottomChar(c)
    ensures forall l :: 0 <= l < k + 1 ==>
      ax[l] == TopChar((done + [c])[l]) && ay[l] == BottomChar((done + [c])[l])
  {
    forall l | 0 <= l < k + 1
      ensures ax[l] == TopChar((done + [c])[l]) && ay[l] == BottomChar((done + [c])[l])
    {
      if l < k {
        assert (done + [c])[l] == done[l];
      }
    }
  }

  /** Arrays holding the characters of cols pointwise start with its two rows. */
  lemma RowsWritten(ax: array<char>, ay: array<char>, K: nat, cols: seq<Column>)
    requires K == |cols| && K <= ax.Length && K <= ay.Length
    requires forall l :: 0 <= l < K ==> ax[l] == TopChar(cols[l]) && ay[l] == BottomChar(cols[l])
    ensures ax[..K] == TopRow(cols) && ay[..K] == BottomRow(cols)
  {
  }

  /** The traceback loop of the C program over the filled matrix S. It writes the
      alignment backwards into ax[0..K-1] and ay[0..K-1]: column l of the rows is
      column l of Trace, the path from (M, N) back to (0, 0). */
  method TraceBack(S: array2<int>, x: seq<char>, y: seq<char>, ghost T: seq<seq<int>>) returns (ax: array<char>, ay: array<char>, K: nat)
    requires S.Length0 == |x| + 1 && S.Length1 == |y| + 1 && WellFormed(T, x, y)
    requires forall a, b :: 0 <= a <= |x| && 0 <= b <= |y| ==> T[a][b] == S[a, b]
    ensures fresh(ax) && fresh(ay) && ax != ay
    ensures ax.Length == |x| + |y| + 1 && ay.Length == |x| + |y| + 1
    ensures K <= |x| + |y|
    ensures ax[..K] == TopRow(Trace(T, x, y, |x|, |y|))
    ensures ay[..K] == BottomRow(Trace(T, x, y, |x|, |y|))
  {
    var M, N := |x|, |y|;
    ax := new char[M + N + 1];
    ay := new char[M + N + 1];
    var i: nat, j: nat, k: nat := M, N, 0;
    ghost var done: seq<Column> := [];
    while i > 0 || j > 0
      invariant i <= M && j <= N
      invariant done + Trace(T, x, y, i, j) == Trace(T, x, y, M, N)
      invariant k == |done| && k + i + j <= M + N
      invariant forall l :: 0 <= l < k ==> ax[l] == TopChar(done[l]) && ay[l] == BottomChar(done[l])
      decreases i + j
    {
      var mv := NextMove(S, x, y, i, j, T);
      var c := Emit(x, y, i, j, mv);
      ax[k], ay[k] := TopChar(c), BottomChar(c);
      ghost var i0, j0 := i, j;
      if mv != Horizontal {
        i := i - 1;
      }
      if mv != Vertical {
        j := j - 1;
      }
      TraceAdvance(T, x, y, i0, j0, done, mv, i, j);
      RowsGrow(ax, ay, k, done, c);
      k := k + 1;
      done := done + [c];
    }
    K := k;
    RowsWritten(ax, ay, K, Trace(T, x, y, M, N));
  }

  /** The row after the first k swaps of the reversal of its first K characters:
      swap number k exchanges positions k - 1 and K - k. */
  function SwapEnds(s: seq<char>, K: nat, k: nat): (t: seq<char>)
    requires 2 * k <= K <= |s|
    ensures |t| == |s|
  {
    if k == 0 then s
    else
      var t := SwapEnds(s, K, k - 1);
      t[K - k := t[k - 1]][k - 1 := t[K - k]]
  }

  /** After k swaps the first k and the last k of the first K characters are
      exchanged, and every other character is where it was. */
  lemma {:induction false} SwapEndsAt(s: seq<char>, K: nat, k: nat)
    requires 2 * k <= K <= |s|
    ensures |SwapEnds(s, K, k)| == |s|
    ensures forall l :: 0 <= l < k ==>
      SwapEnds(s, K, k)[l] == s[K - 1 - l] && SwapEnds(s, K, k)[K - 1 - l] == s[l]
    ensures forall l :: k <= l < K - k ==> SwapEnds(s, K, k)[l] == s[l]
    ensures forall l :: K <= l < |s| ==> SwapEnds(s, K, k)[l] == s[l]
  {
    if k > 0 {
      SwapEndsAt(s, K, k - 1);
    }
  }

  /** K / 2 swaps reverse the first K characters and leave the rest alone. */
  lemma SwapEndsReverses(s: seq<char>, K: nat)
    requires K <= |s|
    ensures SwapEnds(s, K, K / 2)[..K] == Reversed(s[..K])
    ensures SwapEnds(s, K, K / 2)[K..] == s[K..]
  {
    var t := SwapEnds(s, K, K / 2);
    SwapEndsAt(s, K, K / 2);
    ReversedAt(s[..K]);
    forall l | 0 <= l < K
      ensures t[..K][l] == Reversed(s[..K])[l]
    {
      if K / 2 <= l {
        if l < K - K / 2 {
          assert t[l] == s[l];
          assert l == K - 1 - l || K - 1 - l == l;
        } else {
          var m := K - 1 - l;
          assert m < K / 2 && t[K - 1 - m] == s[m];
        }
      }
    }
    assert t[K..] == s[K..];
  }

  /** The in-place reversal of the first K characters of both rows, swapping pairs
      from the two ends; characters from K on are left as they were. */
  method ReverseBoth(ax: array<char>, ay: array<char>, K: nat)
    requires ax != ay && K <= ax.Length && K <= ay.Length
    modifies ax, ay
    ensures ax[..] == SwapEnds(old(ax[..]), K, K / 2) && ay[..] == SwapEnds(old(ay[..]), K, K / 2)
    ensures ax[..K] == Reversed(old(ax[..K])) && ay[..K] == Reversed(old(ay[..K]))
    ensures ax[K..] == old(ax[K..]) && ay[K..] == old(ay[K..])
  {
    for k := 0 to K / 2
      invariant ax[..] == SwapEnds(old(ax[..]), K, k) && ay[..] == SwapEnds(old(ay[..]), K, k)
    {
      var tmp := ax[K - k - 1];
      ax[K - k - 1] := ax[k];
      ax[k] := tmp;
      tmp := ay[K - k - 1];
      ay[K - k - 1] := ay[k];
      ay[k] := tmp;
    }
    SwapEndsReverses(old(ax[..]), K);
    SwapEndsReverses(old(ay[..]), K);
    assert old(ax[..])[..K] == old(ax[..K]) && old(ay[..])[..K] == old(ay[..K]);
    assert old(ax[..])[K..] == old(ax[K..]) && old(ay[..])[K..] == old(ay[K..]);
  }

  /** What the printed alignment promises, on values: it has between max(M, N) and
      M + N columns; and when neither input holds the gap symbol, deleting the gaps
      from its rows gives back x and y, no column is a gap over a gap, and scoring
      the rows column by column gives the optimal score Score(x, y, M, N). */
  lemma AlignmentProperties(x: seq<char>, y: seq<char>)
    ensures Max(|x|, |y|) <= |Alignment(x, y)| <= |x| + |y|
    ensures GAP !in x && GAP !in y ==>
      var cols := Alignment(x, y);
      StripGaps(TopRow(cols)) == x && StripGaps(BottomRow(cols)) == y &&
      RowsScore(TopRow(cols), BottomRow(cols)) == Score(x, y, |x|, |y|) &&
      forall l :: 0 <= l < |cols| ==> TopRow(cols)[l] != GAP || BottomRow(cols)[l] != GAP
  {
    var T := Table(x, y);
    WellFormedIsTable(T, x, y);
    var t := Trace(T, x, y, |x|, |y|);
    var cols := Alignment(x, y);
    ReversedAt(t);
    TraceXSymbols(T, x, y, |x|, |y|);
    TraceYSymbols(T, x, y, |x|, |y|);
    assert x[..|x|] == x && y[..|y|] == y;
    AlignmentLength(cols);
    if GAP !in x && GAP !in y {
      TraceClean(T, x, y, |x|, |y|);
      TraceScore(T, x, y, |x|, |y|);
      forall l | 0 <= l < |cols| ensures Clean(cols[l]) {
        assert cols[l] == t[|t| - 1 - l];
      }
      StripRows(cols);
      RowsScoreIsAlignScore(cols);
      forall l | 0 <= l < |cols| ensures TopRow(cols)[l] != GAP || BottomRow(cols)[l] != GAP {
        NoDoubleGap(cols[l]);
      }
    }
  }

  /** One record of nw_align: fill the matrix, trace back, reverse. The printed rows
      ax[0..K-1] and ay[0..K-1] are those of the optimal alignment Alignment(x, y),
      of which AlignmentProperties and AlignmentOptimal state the promises. */
  method Align(x: seq<char>, y: seq<char>) returns (ax: array<char>, ay: array<char>, K: nat)
    ensures ax.Length == |x| + |y| + 1 && ay.Length == |x| + |y| + 1
    ensures K == |Alignment(x, y)| && K <= |x| + |y|
    ensures ax[..K] == TopRow(Alignment(x, y)) && ay[..K] == BottomRow(Alignment(x, y))
  {
    var S := BuildMatrix(x, y);
    WellFormedIsTable(Cells(S), x, y);
    ghost var t := Trace(Table(x, y), x, y, |x|, |y|);
    assert forall a, b :: 0 <= a <= |x| && 0 <= b <= |y| ==> Table(x, y)[a][b] == S[a, b];
    ax, ay, K := TraceBack(S, x, y, Table(x, y));
    ReverseBoth(ax, ay, K);
    assert Alignment(x, y) == Reversed(t);
    RowsReversed(t);
    ReversedAt(t);
  }
}
