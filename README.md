# Bisulfite-tolerant global alignment and paired-read deduplication

This project models two parts of the HammerSeq tools.

**The global aligner `nw_align`.** For each record it aligns a sequence x of length M against a sequence y of length N. It uses the Needleman–Wunsch recursion with a linear gap cost:

- a match scores +3;
- a mismatch scores −3;
- an insertion or deletion scores −5.

The bisulfite conversions T (in x) against C (in y) and G (in x) against A (in y) count as matches. They do so in that direction only.

The program fills an (M+1)×(N+1) integer matrix row by row. It then traces back from cell (M, N) to (0, 0), one column per step. The order in which it tries the three moves depends on the position:

- in the outer region (`4i ≥ M+N` and `4j ≥ M+N`): the vertical move first, then the horizontal, then the diagonal;
- elsewhere: the diagonal first, then the vertical, then the horizontal.

Finally it reverses the two backward-built rows in place.

**The filter `deduplicate-HammerSeq-reads.py`.** It reads mapped read pairs in order. For each pair it forms a key from the two mate sequences: in read order when the flag is `0`, swapped otherwise. A pair whose key was seen before is counted as a duplicate. Every other pair is written out unchanged. The filter also counts all pairs.

The modules follow the program:

- `Scoring` (scoring.dfy): the constants and the pair score.
- `Alignments` (alignments.dfy): alignments as sequences of columns, with their printed rows, the symbols each row consumes, their score and reversal.
- `ScoreMatrix` (matrix.dfy):
  - the defining recursion `Score`, as a ghost function;
  - the method `BuildMatrix`, which fills an `array2<int>` with the C loops;
  - the proof that a cell is the best score of any alignment of the two prefixes.
- `Traceback` (traceback.dfy):
  - the move the traceback takes (`Step`) and the columns it emits (`Trace`);
  - the traceback loop over two `array<char>` buffers (`TraceBack`);
  - the in-place reversal (`ReverseBoth`);
  - one whole record (`Align`).
- `Dedup` (dedup.dfy):
  - the key set and the kept pairs as functions of the input;
  - the filter loop (`Deduplicate`);
  - the properties of its output.

Sequences are 0-based in the model, so the C program's `x[i]` is `x[i - 1]`.

If none of the three tests succeeds, the C loop at `nw_align.c:131-202` has no way out and would spin forever. The model proves this cannot happen on a matrix built by the recursion (`Traceback.StepDefined`), so `NextMove` has no error path. The outer region is the code's test `i*4 >= M+N && j*4 >= M+N`, which `Traceback.Outer` uses unchanged.

## Model

| member | source | states |
|---|---|---|
| Scoring.PairScore | hbs_tools.v1.1/nw_align.c:100-108 | the score of a pair is MATCH or MISMATCH, and equal symbols always score MATCH |
| Scoring.ConversionIsDirectional | hbs_tools.v1.1/nw_align.c:103 | T against C and G against A score MATCH, while C against T and A against G score MISMATCH |
| Scoring.AsymmetryIsConversion | hbs_tools.v1.1/nw_align.c:100-108 | swapping the two symbols changes the score exactly for the four converted pairs |
| ScoreMatrix.WellFormedCell | hbs_tools.v1.1/nw_align.c:92-116 | in a table with the linear-gap boundary and the three-way maximum in every inner cell, each cell equals the recursion Score |
| ScoreMatrix.WellFormedIsTable | hbs_tools.v1.1/nw_align.c:92-116 | boundary plus recurrence hold exactly when the table is the table of Score: the fill is determined, in both directions |
| ScoreMatrix.FillBoundary | hbs_tools.v1.1/nw_align.c:92-94 | afterwards S[0,0] = 0, S[i,0] = i·INDEL and S[0,j] = j·INDEL, and every inner cell is unchanged |
| ScoreMatrix.FillRow | hbs_tools.v1.1/nw_align.c:98-115 | filling row i left to right keeps the boundary, extends the recurrence to every inner cell of rows 1..i (each cell computed from cells already final), and changes no cell outside columns 1..N of row i |
| ScoreMatrix.CellsWellFormed | hbs_tools.v1.1/nw_align.c:97-116 | a fully filled array, read as a table, is well formed |
| ScoreMatrix.BuildMatrix | hbs_tools.v1.1/nw_align.c:82-116 | the filled array has shape (M+1)×(N+1), with the boundary and the recurrence in every inner cell |
| ScoreMatrix.ScoreDominates | hbs_tools.v1.1/nw_align.c:99-114 | every move into a cell, added to its predecessor's score, is at most the cell's score |
| ScoreMatrix.ScoreOptimal | hbs_tools.v1.1/nw_align.c:96-116 | no alignment of x[..i] against y[..j] scores more than Score(i, j) |
| Traceback.FirstValid | hbs_tools.v1.1/nw_align.c:131-199 | no result exactly when no preferred move passes its test; otherwise the result is the first move of the preference list that passes its test |
| Traceback.StepOrder | hbs_tools.v1.1/nw_align.c:132-198 | the move taken is the first valid one in the order vertical, horizontal, diagonal in the outer region and diagonal, vertical, horizontal elsewhere |
| Traceback.StepDefined | hbs_tools.v1.1/nw_align.c:131-202 | on a well-formed matrix some move is valid at every cell other than (0,0), so the loop never lacks a transition |
| Traceback.TraceUnfold | hbs_tools.v1.1/nw_align.c:131-202 | one traceback step: the move taken is valid, it leads to the predecessor cell, and the trace is its column followed by the trace from there |
| Traceback.TraceXSymbols | hbs_tools.v1.1/nw_align.c:131-202 | the forward alignment from (i, j) consumes exactly x[..i], in order |
| Traceback.TraceYSymbols | hbs_tools.v1.1/nw_align.c:131-202 | the forward alignment from (i, j) consumes exactly y[..j], in order |
| Traceback.TraceScore | hbs_tools.v1.1/nw_align.c:131-202 | the score of the traced path equals the matrix cell it starts from, so the path from (M, N) scores S[M][N] |
| Traceback.TraceClean | hbs_tools.v1.1/nw_align.c:137-193 | with no gap symbol in either input, every traced column holds input symbols only |
| Traceback.AlignmentOptimal | hbs_tools.v1.1/nw_align.c:96-212 | the alignment produced consumes x and y, scores Score(M, N), and scores at least as much as any other alignment of x against y |
| Traceback.NextMove | hbs_tools.v1.1/nw_align.c:132-198 | the tests of one pass of the loop, run on the array, pick exactly the move the position-dependent order prescribes, and never a move that crosses the boundary |
| Traceback.TraceAdvance | hbs_tools.v1.1/nw_align.c:131-202 | after taking the chosen move, the emitted columns followed by the trace from the new cell are still the whole trace |
| Traceback.RowsGrow | hbs_tools.v1.1/nw_align.c:137-193 | writing a column's two characters at position k extends the rows recorded so far by that column |
| Traceback.RowsWritten | hbs_tools.v1.1/nw_align.c:203-208 | buffers holding the columns' characters pointwise start with the two rows of those columns |
| Traceback.TraceBack | hbs_tools.v1.1/nw_align.c:124-202 | allocates two distinct buffers of M+N+1 characters; the loop ends with K ≤ M+N and the first K characters of each buffer equal to the rows of the backward trace from (M, N) |
| Traceback.SwapEnds | hbs_tools.v1.1/nw_align.c:209-212 | the state after k swaps of the reversal loop has the length of the original |
| Traceback.SwapEndsAt | hbs_tools.v1.1/nw_align.c:209-212 | after k swaps the first k and the last k of the first K characters are exchanged, and all other characters are unchanged |
| Traceback.SwapEndsReverses | hbs_tools.v1.1/nw_align.c:208-212 | K/2 swaps reverse the first K characters and leave those from K on untouched |
| Traceback.ReverseBoth | hbs_tools.v1.1/nw_align.c:208-212 | the in-place loop reverses exactly the first K characters of both rows and leaves the rest of both buffers unchanged |
| Traceback.AlignmentProperties | hbs_tools.v1.1/nw_align.c:124-212 | max(M, N) ≤ K ≤ M + N; when the gap symbol is absent from the inputs, removing the gaps from the two rows gives back x and y, no column is gap over gap, and scoring the rows column by column gives Score(M, N) |
| Traceback.Align | hbs_tools.v1.1/nw_align.c:75-212 | for one record: the two K-character rows are those of the optimal alignment, and K is its length |
| Alignments.ReversedAt | hbs_tools.v1.1/nw_align.c:208-212 | reversal keeps the length and puts element K−1−k at position k |
| Alignments.ReversedPermutes | hbs_tools.v1.1/nw_align.c:208-212 | reversal keeps the same elements with the same multiplicities |
| Alignments.RowsReversed | hbs_tools.v1.1/nw_align.c:208-212 | reversing the columns of an alignment reverses both of its printed rows |
| Alignments.AlignmentLength | hbs_tools.v1.1/nw_align.c:131-202 | every column consumes at least one symbol and at most one of each sequence, so an alignment of x against y has between max(M, N) and M + N columns |
| Alignments.NoDoubleGap | hbs_tools.v1.1/nw_align.c:137-193 | a column built from input symbols never prints a gap in both rows |
| Alignments.StripRows | hbs_tools.v1.1/nw_align.c:137-193 | deleting the gaps from the printed rows of a clean alignment gives back the symbols it consumes |
| Alignments.RowsScoreIsAlignScore | hbs_tools.v1.1/nw_align.c:99-114 | scoring the printed rows column by column (gap gives INDEL, otherwise the pair score) gives the alignment's score |
| Dedup.Deduplicate | deduplicate-HammerSeq-reads.py:13-31 | the loop emits the lines of the kept pairs in order, leaves set_dup equal to the keys of all pairs and total equal to the number of pairs, and dup + kept = dup + \|set_dup\| = total |
| Dedup.PrefixStep | deduplicate-HammerSeq-reads.py:21-31 | reading pair n adds its key to the key set, and keeps the pair exactly when its key was not yet present |
| Dedup.KeysMembers | deduplicate-HammerSeq-reads.py:23-28 | a key is in set_dup exactly when some pair read so far has it |
| Dedup.KeyOrientation | deduplicate-HammerSeq-reads.py:21 | a reversed pair with its mates swapped has the same key as the forward pair |
| Dedup.KeptFromInput | deduplicate-HammerSeq-reads.py:30-31 | every pair written out is an input pair, unchanged |
| Dedup.KeptKeys | deduplicate-HammerSeq-reads.py:23-31 | the keys of the written pairs are exactly the keys of the input |
| Dedup.KeptKeysDistinct | deduplicate-HammerSeq-reads.py:23-31 | no two written pairs share a key |
| Dedup.KeptCount | deduplicate-HammerSeq-reads.py:16-28 | the number of written pairs is the number of distinct keys |
| Dedup.KeptIsFirstOccurrences | deduplicate-HammerSeq-reads.py:23-31 | the output is the first occurrence of each key, in input order, against an independent position-wise definition |
| Dedup.KeptIdempotent | deduplicate-HammerSeq-reads.py:13-31 | filtering the filter's own output writes all of it out again |
| Dedup.DistinctKept | deduplicate-HammerSeq-reads.py:23-31 | an input whose keys are pairwise distinct passes through unchanged |

## Left out

- **Record and file handling.** The command-line checks, `fgets`/`strtok` record splitting, allocation, freeing and `printf` of `nw_align.c` are not modelled: they are I/O. A record reaches `Align` as its two sequences, and the result's first K characters are what the program prints.
- **C integer width.** The 32-bit `int` of the matrix cells is not modelled: scores are unbounded integers. Overflow would need sequences of hundreds of millions of symbols.
- **The value of `x[0]`.** This slot is left undefined by the C program and never read, so it has no counterpart.
- **Gap symbol in the inputs.** The strip, no-double-gap and row-score properties are stated for inputs in which '-' does not occur, because the C program does not reject such inputs. For inputs that do contain '-', the model produces the same rows, but a printed '-' can no longer be told apart from a gap.
- **Control flow of the traceback tests.** The C program's `continue` chain of tests is modelled as an if/else-if chain in `Traceback.NextMove`. The tests, their order and their boundary guards are the same.
- **Writes of one matrix cell.** The C program writes S[i][j] up to three times while computing it. `ScoreMatrix.FillRow` computes the same maximum, with the same strict comparisons, in a local and writes the cell once.
- **Writes of one traceback step.** Each traceback step writes its two characters in one statement.
- **Input parsing in the filter.** `sys.stdin` reading and the `re.split` field extraction of the Python filter are not modelled. A ReadPair carries the flag (field 1) and the sequence (field 9) already extracted, together with the two lines as read.
- **`dedup.report.txt` and the percentage.** The report file and its floating-point percentage are not modelled. The two counters it prints are modelled. Note that the percentage divides by `total`, which is zero on empty input.
