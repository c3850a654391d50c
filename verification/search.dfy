/** `find_smallest_unique_k`: try k = 1, 2, ... and return the first k at
    which every k-mer of the aggregate map has exactly one successor, that
    is, the order at which the de Bruijn graph of the input has no branching
    node. */
module Search {
  import opened Whitespace
  import opened KmerGraph
  import opened Aggregate

  /** The stopping test `all(len(v) == 1 for v in all_kmers.values())`. Like
      Python's `all`, it holds of the empty map. */
  predicate AllUnique(g: Graph) {
    forall key :: key in g ==> |g[key]| == 1
  }

  /** Every k-mer is followed by the same k-mer at all of its occurrences in
      all sequence lines. */
  ghost predicate Unbranching(lines: seq<string>, k: nat) {
    forall key, s1, s2 :: LinesFollow(lines, k, key, s1) && LinesFollow(lines, k, key, s2) ==> s1 == s2
  }

  /** The largest k the search can reach: the longest stripped sequence
      line, but at least 1. */
  function SearchBound(lines: seq<string>): (b: nat)
    ensures b >= 1 && b >= LongestSequence(lines)
    ensures b == 1 || b == LongestSequence(lines)
  {
    if LongestSequence(lines) > 1 then LongestSequence(lines) else 1
  }

  lemma {:induction false} SingletonMembers(s: set<string>, a: string, b: string)
    requires |s| == 1 && a in s && b in s
    ensures a == b
  {
    var x :| x in s;
    assert |s - {x}| == 0;
    assert a !in s - {x} && b !in s - {x};
  }

  /** The stopping test passes on the aggregate map exactly when the input is
      unbranching at `k`. */
  lemma {:induction false} AllUniqueIffUnbranching(lines: seq<string>, k: nat)
    ensures AllUnique(AggregateKmers(lines, k)) <==> Unbranching(lines, k)
  {
    var g := AggregateKmers(lines, k);
    if AllUnique(g) {
      forall key, s1, s2 | LinesFollow(lines, k, key, s1) && LinesFollow(lines, k, key, s2)
        ensures s1 == s2
      {
        AggregateFollows(lines, k, key, s1);
        AggregateFollows(lines, k, key, s2);
        SingletonMembers(g[key], s1, s2);
      }
    }
    if Unbranching(lines, k) {
      forall key | key in g
        ensures |g[key]| == 1
      {
        AggregateKeyShape(lines, k, key);
        var s1 :| s1 in g[key];
        forall s2 | s2 in g[key]
          ensures s2 == s1
        {
          AggregateFollows(lines, k, key, s1);
          AggregateFollows(lines, k, key, s2);
        }
        assert g[key] == {s1};
      }
    }
  }

  /** A k-mer seen with two different successors, in one line or in two,
      makes the stopping test fail at that `k`. */
  lemma {:induction false} BranchingFails(lines: seq<string>, k: nat, key: string, s1: string, s2: string)
    requires LinesFollow(lines, k, key, s1) && LinesFollow(lines, k, key, s2) && s1 != s2
    ensures !AllUnique(AggregateKmers(lines, k))
  {
    AllUniqueIffUnbranching(lines, k);
  }

  /** Once `k` reaches the longest stripped sequence line the aggregate map is
      empty, so the stopping test passes: a qualifying `k` always exists, no
      larger than `SearchBound(lines)`. */
  lemma {:induction false} AllUniqueAtBound(lines: seq<string>, k: nat)
    requires SearchBound(lines) <= k
    ensures AggregateKmers(lines, k) == map[] && AllUnique(AggregateKmers(lines, k))
  {
    AggregateEmpty(lines, k);
  }

  /** With no sequence line at all (an empty file, or headers only) the
      aggregate map is empty already at k = 1. */
  lemma {:induction false} OnlyHeadersBoundOne(lines: seq<string>)
    requires forall j :: 0 <= j < |lines| ==> IsHeader(lines[j])
    ensures SearchBound(lines) == 1 && AggregateKmers(lines, 1) == map[]
  {
    LongestSequenceAtMost(lines, 0);
    AggregateEmpty(lines, 1);
  }

  /** A failing stopping test means some line is still longer than `k`, so
      the next `k` stays within `SearchBound(lines)`. */
  lemma {:induction false} BranchingBelowBound(lines: seq<string>, k: nat)
    requires !AllUnique(AggregateKmers(lines, k))
    ensures k < SearchBound(lines)
  {
    if SearchBound(lines) <= k {
      AllUniqueAtBound(lines, k);
    }
  }

  /** find_smallest_unique_k over the lines of the file, re-read for every
      `k`. The result is the least `k >= 1` whose aggregate map passes the
      stopping test. The empty-map test and both `return -1` statements are
      unreachable: an empty map already passes the stopping test. */
  method FindSmallestUniqueK(lines: seq<string>) returns (result: int)
    ensures 1 <= result <= SearchBound(lines)
    ensures AllUnique(AggregateKmers(lines, result))
    ensures forall k: nat :: 1 <= k < result ==> !AllUnique(AggregateKmers(lines, k))
    ensures (forall j :: 0 <= j < |lines| ==> IsHeader(lines[j])) ==> result == 1
  {
    if forall j :: 0 <= j < |lines| ==> IsHeader(lines[j]) {
      OnlyHeadersBoundOne(lines);
    }
    var k := 1;
    while true
      invariant 1 <= k <= SearchBound(lines)
      invariant forall k': nat :: 1 <= k' < k ==> !AllUnique(AggregateKmers(lines, k'))
      decreases SearchBound(lines) - k
    {
      var allKmers := ProcessLines(lines, k);
      if AllUnique(allKmers) {
        return k;
      }
      assert allKmers != map[];
      if |allKmers| == 0 {
        assert false;
        return -1;
      }
      BranchingBelowBound(lines, k);
      forall k': nat | 1 <= k' <= k
        ensures !AllUnique(AggregateKmers(lines, k'))
      {
        if k' == k {
          assert AggregateKmers(lines, k') == allKmers;
        }
      }
      k := k + 1;
    }
    return -1;
  }
}
