/** The aggregation body of `process_file`: every line that is not a header
    is stripped, turned into its successor map, and the per-line successor
    sets are united key by key into one map. The file is given as the list of
    its lines. */
module Aggregate {
  import opened Whitespace
  import opened KmerGraph

  /** `line.startswith(">")`, tested on the raw line before stripping. */
  predicate IsHeader(line: string) {
    |line| > 0 && line[0] == '>'
  }

  /** What one raw line contributes: nothing for a header, otherwise the
      successor map of the stripped line. */
  function LineKmers(line: string, k: nat): Graph {
    if IsHeader(line) then map[] else Kmers(Strip(line), k)
  }

  /** The successor set of `key`, empty when `key` is absent. */
  function SuccessorsOf(g: Graph, key: string): set<string> {
    if key in g then g[key] else {}
  }

  /** Key-by-key union of two successor maps. */
  function Union(a: Graph, b: Graph): Graph {
    map key | key in a.Keys + b.Keys :: SuccessorsOf(a, key) + SuccessorsOf(b, key)
  }

  /** The per-line maps of `lines`, in file order. */
  function LineMaps(lines: seq<string>, k: nat): seq<Graph> {
    seq(|lines|, j requires 0 <= j < |lines| => LineKmers(lines[j], k))
  }

  /** The union of a list of maps, taken from first to last. */
  function UnionAll(gs: seq<Graph>): Graph
    decreases |gs|
  {
    if gs == [] then map[] else Union(UnionAll(gs[..|gs| - 1]), gs[|gs| - 1])
  }

  /** The aggregate map after reading `lines` from top to bottom: the map so
      far united with the map of the next line. */
  function AggregateKmers(lines: seq<string>, k: nat): Graph
    decreases |lines|
  {
    if lines == [] then map[]
    else Union(AggregateKmers(lines[..|lines| - 1], k), LineKmers(lines[|lines| - 1], k))
  }

  /** `key` is followed by `succ` somewhere in a sequence line of the file. */
  ghost predicate LinesFollow(lines: seq<string>, k: nat, key: string, succ: string) {
    exists j :: 0 <= j < |lines| && !IsHeader(lines[j]) && Follows(Strip(lines[j]), k, key, succ)
  }

  /** The length of the longest stripped sequence line, 0 when there is none. */
  function LongestSequence(lines: seq<string>): nat
    decreases |lines|
  {
    if lines == [] then 0
    else
      var rest := LongestSequence(lines[..|lines| - 1]);
      var last := lines[|lines| - 1];
      if !IsHeader(last) && |Strip(last)| > rest then |Strip(last)| else rest
  }

  /** The empty map is a right identity of `Union`. */
  lemma {:induction false} UnionEmpty(a: Graph)
    ensures Union(a, map[]) == a
  {
    forall key | key in a
      ensures Union(a, map[])[key] == a[key]
    {
    }
  }

  /** The empty map is a left identity of `Union`: the first sequence line
      merged into the empty aggregate is taken as it is. */
  lemma {:induction false} UnionEmptyLeft(a: Graph)
    ensures Union(map[], a) == a
  {
    forall key | key in a
      ensures Union(map[], a)[key] == a[key]
    {
    }
  }

  /** Uniting a map with itself changes nothing: duplicates collapse. */
  lemma {:induction false} UnionIdempotent(a: Graph)
    ensures Union(a, a) == a
  {
    forall key | key in a
      ensures Union(a, a)[key] == a[key]
    {
    }
  }

  /** Merging one more entry of a line's map into the aggregate, as the inner
      loop does: the key's set grows by that entry's set, nothing else moves. */
  lemma {:induction false} UnionStep(base: Graph, m: Graph, pending: set<string>, key: string)
    requires key in pending && key in m
    ensures var u := Union(base, m - pending);
      Union(base, m - (pending - {key})) == u[key := SuccessorsOf(u, key) + m[key]]
  {
    var u := Union(base, m - pending);
    var v := Union(base, m - (pending - {key}));
    var w := u[key := SuccessorsOf(u, key) + m[key]];
    assert v.Keys == w.Keys;
    forall x | x in v
      ensures v[x] == w[x]
    {
    }
  }

  /** The inner loop of `process_file`: every entry of one line's map is
      united into the aggregate, `update` when the key is present and plain
      insertion otherwise. */
  method MergeInto(allKmers: Graph, kmers: Graph) returns (merged: Graph)
    ensures merged == Union(allKmers, kmers)
  {
    merged := allKmers;
    var pending := kmers.Keys;
    assert kmers - pending == map[];
    UnionEmpty(allKmers);
    while pending != {}
      invariant pending <= kmers.Keys
      invariant merged == Union(allKmers, kmers - pending)
      decreases pending
    {
      var kmer :| kmer in pending;
      ghost var before := merged;
      if kmer in merged {
        merged := merged[kmer := merged[kmer] + kmers[kmer]];
      } else {
        assert SuccessorsOf(merged, kmer) + kmers[kmer] == kmers[kmer];
        merged := merged[kmer := kmers[kmer]];
      }
      assert merged == before[kmer := SuccessorsOf(before, kmer) + kmers[kmer]];
      UnionStep(allKmers, kmers, pending, kmer);
      pending := pending - {kmer};
    }
    assert kmers - pending == kmers;
  }

  /** The aggregation loop of `process_file` over lines held in memory. Header
      lines are skipped; every other line is stripped, its map is built with
      `FindKmers`, and its entries are united into `allKmers`. */
  method ProcessLines(lines: seq<string>, k: nat) returns (allKmers: Graph)
    ensures allKmers == AggregateKmers(lines, k)
  {
    allKmers := map[];
    for j := 0 to |lines|
      invariant allKmers == AggregateKmers(lines[..j], k)
    {
      var line := lines[j];
      assert lines[..j + 1][..j] == lines[..j] && lines[..j + 1][j] == line;
      if |line| > 0 && line[0] == '>' {
        UnionEmpty(allKmers);
        continue;
      }
      var sequence := Strip(line);
      var kmers := FindKmers(sequence, k);
      allKmers := MergeInto(allKmers, kmers);
    }
    assert lines[..|lines|] == lines;
  }

  /** A key is in the union exactly when it is in one of the maps. */
  lemma {:induction false} UnionAllKeys(gs: seq<Graph>, key: string)
    ensures key in UnionAll(gs) <==> exists j :: 0 <= j < |gs| && key in gs[j]
    decreases |gs|
  {
    if gs != [] {
      var init := gs[..|gs| - 1];
      UnionAllKeys(init, key);
      if exists j :: 0 <= j < |init| && key in init[j] {
        var j :| 0 <= j < |init| && key in init[j];
        assert gs[j] == init[j];
      }
      if exists j :: 0 <= j < |gs| && key in gs[j] {
        var j :| 0 <= j < |gs| && key in gs[j];
        if j < |init| {
          assert init[j] == gs[j];
        }
      }
    }
  }

  /** A successor is in the union's set for a key exactly when one of the
      maps has it in its set for that key: set union, across all maps. */
  lemma {:induction false} UnionAllEntries(gs: seq<Graph>, key: string, succ: string)
    ensures (key in UnionAll(gs) && succ in UnionAll(gs)[key])
        <==> exists j :: 0 <= j < |gs| && key in gs[j] && succ in gs[j][key]
    decreases |gs|
  {
    if gs != [] {
      var init := gs[..|gs| - 1];
      UnionAllEntries(init, key, succ);
      if exists j :: 0 <= j < |init| && key in init[j] && succ in init[j][key] {
        var j :| 0 <= j < |init| && key in init[j] && succ in init[j][key];
        assert gs[j] == init[j];
      }
      if exists j :: 0 <= j < |gs| && key in gs[j] && succ in gs[j][key] {
        var j :| 0 <= j < |gs| && key in gs[j] && succ in gs[j][key];
        if j < |init| {
          assert init[j] == gs[j];
        }
      }
    }
  }

  /** The union is empty exactly when every map is. */
  lemma {:induction false} UnionAllEmpty(gs: seq<Graph>)
    ensures UnionAll(gs) == map[] <==> forall j :: 0 <= j < |gs| ==> gs[j] == map[]
    decreases |gs|
  {
    if gs != [] {
      var init := gs[..|gs| - 1];
      UnionAllEmpty(init);
      var u := UnionAll(gs);
      assert u.Keys == UnionAll(init).Keys + gs[|gs| - 1].Keys;
      if forall j :: 0 <= j < |gs| ==> gs[j] == map[] {
        assert forall j :: 0 <= j < |init| ==> init[j] == gs[j];
        assert u.Keys == {};
      }
    }
  }

  /** The union over a list is the union of its prefix with its last map. */
  lemma {:induction false} UnionAllLast(gs: seq<Graph>, init: seq<Graph>, last: Graph)
    requires gs == init + [last]
    ensures UnionAll(gs) == Union(UnionAll(init), last)
  {
    assert gs[..|gs| - 1] == init;
  }

  /** The aggregate is the union of the per-line maps. */
  lemma {:induction false} AggregateIsUnionAll(lines: seq<string>, k: nat)
    ensures AggregateKmers(lines, k) == UnionAll(LineMaps(lines, k))
    decreases |lines|
  {
    if lines != [] {
      var init := lines[..|lines| - 1];
      AggregateIsUnionAll(init, k);
      assert LineMaps(lines, k) == LineMaps(init, k) + [LineKmers(lines[|lines| - 1], k)];
      UnionAllLast(LineMaps(lines, k), LineMaps(init, k), LineKmers(lines[|lines| - 1], k));
    }
  }

  /** Dropping an empty map from the list leaves the union unchanged. */
  lemma {:induction false} UnionAllDropEmpty(front: seq<Graph>, back: seq<Graph>)
    ensures UnionAll(front + [map[]] + back) == UnionAll(front + back)
    decreases |back|
  {
    if back == [] {
      assert front + back == front;
      UnionAllLast(front + [map[]] + back, front, map[]);
      UnionEmpty(UnionAll(front));
    } else {
      var init, last := back[..|back| - 1], back[|back| - 1];
      assert back == init + [last];
      UnionAllLast(front + [map[]] + back, front + [map[]] + init, last);
      UnionAllLast(front + back, front + init, last);
      calc {
        UnionAll(front + [map[]] + back);
        Union(UnionAll(front + [map[]] + init), last);
        { UnionAllDropEmpty(front, init); }
        Union(UnionAll(front + init), last);
        UnionAll(front + back);
      }
    }
  }

  /** In terms of the text: `succ` is in the aggregate set of `key` exactly when
      `succ` follows `key` at some offset of some stripped non-header line. So
      a k-mer seen with two different successors, in one line or in two, has
      both in its aggregate set. */
  lemma {:induction false} AggregateFollows(lines: seq<string>, k: nat, key: string, succ: string)
    ensures (key in AggregateKmers(lines, k) && succ in AggregateKmers(lines, k)[key])
        <==> LinesFollow(lines, k, key, succ)
  {
    var gs := LineMaps(lines, k);
    AggregateIsUnionAll(lines, k);
    UnionAllEntries(gs, key, succ);
    if key in AggregateKmers(lines, k) && succ in AggregateKmers(lines, k)[key] {
      var j :| 0 <= j < |gs| && key in gs[j] && succ in gs[j][key];
      assert !IsHeader(lines[j]) && gs[j] == Kmers(Strip(lines[j]), k);
      KmersSuccessors(Strip(lines[j]), k, key, succ);
      assert Follows(Strip(lines[j]), k, key, succ);
    }
    if LinesFollow(lines, k, key, succ) {
      var j :| 0 <= j < |lines| && !IsHeader(lines[j]) && Follows(Strip(lines[j]), k, key, succ);
      KmersSuccessors(Strip(lines[j]), k, key, succ);
      assert key in gs[j] && succ in gs[j][key];
    }
  }

  /** Header lines contribute nothing: removing one anywhere leaves the
      aggregate unchanged. */
  lemma {:induction false} HeaderIgnored(before: seq<string>, header: string, after: seq<string>, k: nat)
    requires IsHeader(header)
    ensures AggregateKmers(before + [header] + after, k) == AggregateKmers(before + after, k)
  {
    var front, back := LineMaps(before, k), LineMaps(after, k);
    assert LineMaps(before + [header] + after, k) == front + [map[]] + back;
    assert LineMaps(before + after, k) == front + back;
    UnionAllDropEmpty(front, back);
    AggregateIsUnionAll(before + [header] + after, k);
    AggregateIsUnionAll(before + after, k);
  }

  /** The aggregate keeps the shape of the per-line maps: keys have length
      `k` and a non-empty successor set. */
  lemma {:induction false} AggregateKeyShape(lines: seq<string>, k: nat, key: string)
    requires key in AggregateKmers(lines, k)
    ensures |key| == k && AggregateKmers(lines, k)[key] != {}
  {
    var gs := LineMaps(lines, k);
    AggregateIsUnionAll(lines, k);
    UnionAllKeys(gs, key);
    var j :| 0 <= j < |gs| && key in gs[j];
    KmersKeyShape(Strip(lines[j]), k, key);
    var succ :| succ in gs[j][key];
    UnionAllEntries(gs, key, succ);
  }

  /** Every aggregate successor has length `k` and overlaps its key in
      `k - 1` characters. */
  lemma {:induction false} AggregateSuccessorShape(lines: seq<string>, k: nat, key: string, succ: string)
    requires key in AggregateKmers(lines, k) && succ in AggregateKmers(lines, k)[key]
    ensures |key| == |succ| == k
    ensures k >= 1 ==> succ[..k - 1] == key[1..]
  {
    var gs := LineMaps(lines, k);
    AggregateIsUnionAll(lines, k);
    UnionAllEntries(gs, key, succ);
    var j :| 0 <= j < |gs| && key in gs[j] && succ in gs[j][key];
    KmersSuccessorShape(Strip(lines[j]), k, key, succ);
  }

  /** `LongestSequence` is the least bound on the stripped sequence lines. */
  lemma {:induction false} LongestSequenceAtMost(lines: seq<string>, k: nat)
    ensures LongestSequence(lines) <= k
        <==> forall j :: 0 <= j < |lines| && !IsHeader(lines[j]) ==> |Strip(lines[j])| <= k
    decreases |lines|
  {
    if lines != [] {
      var init := lines[..|lines| - 1];
      LongestSequenceAtMost(init, k);
      assert forall j :: 0 <= j < |init| ==> init[j] == lines[j];
    }
  }

  /** The aggregate is empty exactly when no stripped sequence line is longer
      than `k`. */
  lemma {:induction false} AggregateEmpty(lines: seq<string>, k: nat)
    ensures AggregateKmers(lines, k) == map[] <==> LongestSequence(lines) <= k
  {
    var gs := LineMaps(lines, k);
    AggregateIsUnionAll(lines, k);
    UnionAllEmpty(gs);
    LongestSequenceAtMost(lines, k);
    forall j | 0 <= j < |lines|
      ensures gs[j] == map[] <==> (IsHeader(lines[j]) || |Strip(lines[j])| <= k)
    {
      KmersEmpty(Strip(lines[j]), k);
    }
  }

  /** Once empty, the aggregate stays empty for every larger `k`. */
  lemma {:induction false} EmptyStaysEmpty(lines: seq<string>, k0: nat, k: nat)
    requires k0 <= k && AggregateKmers(lines, k0) == map[]
    ensures AggregateKmers(lines, k) == map[]
  {
    AggregateEmpty(lines, k0);
    AggregateEmpty(lines, k);
  }
}
