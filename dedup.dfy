/** Paired-read deduplication of deduplicate-HammerSeq-reads.py: read pairs arrive in
    order; a pair whose orientation-normalised sequence key was seen before is counted
    as a duplicate, every other pair is written out unchanged. */
module Dedup {

  /** One read pair as the filter sees it: the flag field of the first line, the
      sequence fields of both lines, and the two lines as they are printed. */
  datatype ReadPair = ReadPair(flag: string, seq1: string, seq2: string, line1: string, line2: string)

  /** The forward flag; any other flag marks a pair read in the opposite direction. */
  const FORWARD: string := "0"

  /** The orientation-normalised key of a pair: mate sequences in read order for a
      forward pair, swapped otherwise. */
  function Key(p: ReadPair): string {
    if p.flag == FORWARD then p.seq1 + p.seq2 else p.seq2 + p.seq1
  }

  /** The keys of all pairs of ps, the filter's set_dup after reading ps. */
  function Keys(ps: seq<ReadPair>): set<string> {
    if ps == [] then {} else Keys(ps[..|ps| - 1]) + {Key(ps[|ps| - 1])}
  }

  /** The pairs the filter writes out for input ps, in order: a pair is kept when
      no earlier pair has its key. */
  function Kept(ps: seq<ReadPair>): seq<ReadPair> {
    if ps == [] then []
    else
      var init, p := ps[..|ps| - 1], ps[|ps| - 1];
      Kept(init) + (if Key(p) in Keys(init) then [] else [p])
  }

  /** The printed lines of a sequence of pairs: both lines of each pair, in order. */
  function Lines(ps: seq<ReadPair>): seq<string> {
    if ps == [] then [] else Lines(ps[..|ps| - 1]) + [ps[|ps| - 1].line1, ps[|ps| - 1].line2]
  }

  /** Position n of ps holds the first pair with its key. */
  predicate FirstOccurrence(ps: seq<ReadPair>, n: nat)
    requires n < |ps|
  {
    forall m :: 0 <= m < n ==> Key(ps[m]) != Key(ps[n])
  }

  /** Reference definition of the output: the pairs at first-occurrence positions
      among the first n, in input order. */
  function FirstOccurrences(ps: seq<ReadPair>, n: nat): seq<ReadPair>
    requires n <= |ps|
  {
    if n == 0 then []
    else FirstOccurrences(ps, n - 1) + (if FirstOccurrence(ps, n - 1) then [ps[n - 1]] else [])
  }

  /** The filter loop. It returns the printed lines, the final key set and the two
      counters. */
  method Deduplicate(pairs: seq<ReadPair>) returns (out: seq<string>, setDup: set<string>, total: nat, dup: nat)
    ensures out == Lines(Kept(pairs))
    ensures setDup == Keys(pairs)
    ensures total == |pairs|
    ensures dup + |Kept(pairs)| == total
    ensures dup + |setDup| == total
  {
    out, setDup, total, dup := [], {}, 0, 0;
    for n := 0 to |pairs|
      invariant total == n
      invariant setDup == Keys(pairs[..n])
      invariant out == Lines(Kept(pairs[..n]))
      invariant dup + |Kept(pairs[..n])| == total
    {
      var p := pairs[n];
      PrefixStep(pairs, n);
      total := total + 1;
      var combSeq := Key(p);
      if combSeq in setDup {
        dup := dup + 1;
      } else {
        setDup := setDup + {combSeq};
        LinesSnoc(Kept(pairs[..n]), p);
        out := out + [p.line1, p.line2];
      }
    }
    assert pairs[..|pairs|] == pairs;
    KeptCount(pairs);
  }

  lemma KeysSnoc(ps: seq<ReadPair>, p: ReadPair)
    ensures Keys(ps + [p]) == Keys(ps) + {Key(p)}
  {
    assert (ps + [p])[..|ps|] == ps;
  }

  /** A key is in Keys(ps) exactly when some pair of ps has it. */
  lemma {:induction false} KeysMembers(ps: seq<ReadPair>, k: string)
    ensures k in Keys(ps) <==> exists m :: 0 <= m < |ps| && Key(ps[m]) == k
  {
    if ps != [] {
      var init := ps[..|ps| - 1];
      KeysMembers(init, k);
      if exists m :: 0 <= m < |init| && Key(init[m]) == k {
        var m :| 0 <= m < |init| && Key(init[m]) == k;
        assert ps[m] == init[m];
      }
      if exists m :: 0 <= m < |ps| && Key(ps[m]) == k {
        var m :| 0 <= m < |ps| && Key(ps[m]) == k;
        if m < |init| {
          assert init[m] == ps[m];
        }
      }
    }
  }

  lemma KeptSnoc(ps: seq<ReadPair>, p: ReadPair)
    ensures Kept(ps + [p]) == Kept(ps) + (if Key(p) in Keys(ps) then [] else [p])
  {
    assert (ps + [p])[..|ps|] == ps;
  }

  /** How the key set and the output grow when the filter reads pair n. */
  lemma PrefixStep(ps: seq<ReadPair>, n: nat)
    requires n < |ps|
    ensures Keys(ps[..n + 1]) == Keys(ps[..n]) + {Key(ps[n])}
    ensures Key(ps[n]) in Keys(ps[..n]) ==> Kept(ps[..n + 1]) == Kept(ps[..n])
    ensures Key(ps[n]) !in Keys(ps[..n]) ==> Kept(ps[..n + 1]) == Kept(ps[..n]) + [ps[n]]
  {
    assert ps[..n + 1] == ps[..n] + [ps[n]];
    KeysSnoc(ps[..n], ps[n]);
    KeptSnoc(ps[..n], ps[n]);
  }

  lemma LinesSnoc(ps: seq<ReadPair>, p: ReadPair)
    ensures Lines(ps + [p]) == Lines(ps) + [p.line1, p.line2]
  {
    assert (ps + [p])[..|ps|] == ps;
  }

  /** A pair read in the opposite direction, with its mates swapped, has the same key
      as the forward pair. */
  lemma KeyOrientation(p: ReadPair, q: ReadPair)
    requires p.flag == FORWARD && q.flag != FORWARD
    requires q.seq1 == p.seq2 && q.seq2 == p.seq1
    ensures Key(p) == Key(q)
  {
  }

  /** Every pair written out is an input pair. */
  lemma {:induction false} KeptFromInput(ps: seq<ReadPair>)
    ensures forall q :: q in Kept(ps) ==> q in ps
  {
    if ps != [] {
      KeptFromInput(ps[..|ps| - 1]);
    }
  }

  /** The output holds one pair for every key of the input: a key is in the final
      key set exactly when some written pair has it. */
  lemma {:induction false} KeptKeys(ps: seq<ReadPair>)
    ensures Keys(Kept(ps)) == Keys(ps)
  {
    if ps != [] {
      var init, p := ps[..|ps| - 1], ps[|ps| - 1];
      KeptKeys(init);
      if Key(p) in Keys(init) {
        assert Kept(ps) == Kept(init);
      } else {
        assert Kept(ps) == Kept(init) + [p];
        KeysSnoc(Kept(init), p);
      }
    }
  }

  /** No two written pairs share a key. */
  lemma {:induction false} KeptKeysDistinct(ps: seq<ReadPair>)
    ensures forall a, b :: 0 <= a < b < |Kept(ps)| ==> Key(Kept(ps)[a]) != Key(Kept(ps)[b])
  {
    if ps != [] {
      var init, p := ps[..|ps| - 1], ps[|ps| - 1];
      KeptKeysDistinct(init);
      var k := Kept(init);
      if Key(p) !in Keys(init) {
        KeptKeys(init);
        forall a | 0 <= a < |k| ensures Key(k[a]) != Key(p) {
          KeysMembers(k, Key(k[a]));
        }
        assert Kept(ps) == k + [p];
        forall a, b | 0 <= a < b < |k| + 1 ensures Key((k + [p])[a]) != Key((k + [p])[b]) {
          assert (k + [p])[a] == k[a];
          if b < |k| {
            assert (k + [p])[b] == k[b];
          }
        }
      } else {
        assert Kept(ps) == k;
      }
    }
  }

  /** One written pair per distinct key: the number of pairs written is the size of
      the final key set, so the duplicate count is total minus that size. */
  lemma {:induction false} KeptCount(ps: seq<ReadPair>)
    ensures |Kept(ps)| == |Keys(ps)|
  {
    if ps != [] {
      var init, p := ps[..|ps| - 1], ps[|ps| - 1];
      KeptCount(init);
      assert ps == init + [p];
      KeysSnoc(init, p);
      if Key(p) in Keys(init) {
        assert Keys(init) + {Key(p)} == Keys(init);
      } else {
        assert |Keys(init) + {Key(p)}| == |Keys(init)| + 1;
      }
    }
  }

  /** The output is the first occurrence of each key, unchanged and in input order. */
  lemma {:induction false} KeptIsFirstOccurrences(ps: seq<ReadPair>, n: nat)
    requires n <= |ps|
    ensures Kept(ps[..n]) == FirstOccurrences(ps, n)
  {
    if n > 0 {
      KeptIsFirstOccurrences(ps, n - 1);
      var init := ps[..n][..n - 1];
      assert init == ps[..n - 1];
      assert Key(ps[n - 1]) in Keys(init) <==> !FirstOccurrence(ps, n - 1) by {
        KeysMembers(init, Key(ps[n - 1]));
        assert forall m :: 0 <= m < n - 1 ==> init[m] == ps[m];
      }
    }
  }

  /** Running the filter again on its own output writes everything out once more. */
  lemma {:induction false} KeptIdempotent(ps: seq<ReadPair>)
    ensures Kept(Kept(ps)) == Kept(ps)
  {
    var k := Kept(ps);
    KeptKeysDistinct(ps);
    DistinctKept(k);
  }

  lemma {:induction false} DistinctKept(ps: seq<ReadPair>)
    requires forall a, b :: 0 <= a < b < |ps| ==> Key(ps[a]) != Key(ps[b])
    ensures Kept(ps) == ps
  {
    if ps != [] {
      var init, p := ps[..|ps| - 1], ps[|ps| - 1];
      forall a, b | 0 <= a < b < |init| ensures Key(init[a]) != Key(init[b]) {
        assert init[a] == ps[a] && init[b] == ps[b];
      }
      DistinctKept(init);
      forall m | 0 <= m < |init| ensures Key(init[m]) != Key(p) {
        assert init[m] == ps[m];
      }
      KeysMembers(init, Key(p));
      assert ps == init + [p];
    }
  }
}
