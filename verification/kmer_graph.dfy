/** `find_kmers`: the successor map of one sequence, i.e. the adjacency of
    its order-k de Bruijn graph. A k-mer is a window of `k` characters; each
    window that has a window after it is a key, and the following window is
    one of its successors. Characters are opaque symbols. */
module KmerGraph {

  /** A k-mer mapped to the set of k-mers seen right after it. */
  type Graph = map<string, set<string>>

  /** The window of length `k` starting at offset `i`. */
  function Window(s: string, i: nat, k: nat): (w: string)
    requires i + k <= |s|
    ensures |w| == k
  {
    s[i..i + k]
  }

  /** The window right after the one at offset `i`: its successor. */
  function NextWindow(s: string, i: nat, k: nat): (w: string)
    requires i + k < |s|
    ensures |w| == k
  {
    s[i + 1..i + 1 + k]
  }

  /** How many start offsets `i` pass the guard `i + k < len(s)`: each of them
      contributes one (k-mer, successor) pair. */
  function EdgeCount(s: string, k: nat): nat {
    if k < |s| then |s| - k else 0
  }

  /** Recording one pair, as the body of the loop does: insert the successor
      into the key's set, creating the set on first sight. */
  function AddSuccessor(g: Graph, key: string, succ: string): (r: Graph)
    ensures r.Keys == g.Keys + {key}
    ensures r[key] == (if key in g then g[key] else {}) + {succ}
    ensures forall other :: other in g && other != key ==> r[other] == g[other]
  {
    if key in g then g[key := g[key] + {succ}] else g[key := {succ}]
  }

  /** The map after the pairs at the first `n` offsets have been recorded. */
  function KmersBefore(s: string, k: nat, n: nat): Graph
    requires n <= EdgeCount(s, k)
    decreases n
  {
    if n == 0 then map[]
    else AddSuccessor(KmersBefore(s, k, n - 1), Window(s, n - 1, k), NextWindow(s, n - 1, k))
  }

  /** The successor map of `s` for window length `k`: every offset `i` with
      `i + k < |s|` recorded. */
  function Kmers(s: string, k: nat): Graph {
    KmersBefore(s, k, EdgeCount(s, k))
  }

  /** `key` is followed by `succ` at some offset of `s`. */
  ghost predicate Follows(s: string, k: nat, key: string, succ: string) {
    exists i: nat :: i + k < |s| && Window(s, i, k) == key && NextWindow(s, i, k) == succ
  }

  /** After `n` offsets the keys are the windows at those offsets. */
  lemma {:induction false} KmersBeforeKeys(s: string, k: nat, n: nat, key: string)
    requires n <= EdgeCount(s, k)
    ensures key in KmersBefore(s, k, n) <==> exists i: nat :: i < n && Window(s, i, k) == key
    decreases n
  {
    if n > 0 {
      KmersBeforeKeys(s, k, n - 1, key);
    }
  }

  /** After `n` offsets the set of `key` holds the windows that follow `key`
      at those offsets. */
  lemma {:induction false} KmersBeforeEntries(s: string, k: nat, n: nat, key: string, succ: string)
    requires n <= EdgeCount(s, k)
    ensures (key in KmersBefore(s, k, n) && succ in KmersBefore(s, k, n)[key])
        <==> exists i: nat :: i < n && Window(s, i, k) == key && NextWindow(s, i, k) == succ
    decreases n
  {
    if n > 0 {
      KmersBeforeEntries(s, k, n - 1, key, succ);
    }
  }

  /** At most one key per recorded offset. */
  lemma {:induction false} KmersBeforeSize(s: string, k: nat, n: nat)
    requires n <= EdgeCount(s, k)
    ensures |KmersBefore(s, k, n)| <= n
    decreases n
  {
    if n > 0 {
      KmersBeforeSize(s, k, n - 1);
      var g := KmersBefore(s, k, n - 1);
      assert KmersBefore(s, k, n).Keys == g.Keys + {Window(s, n - 1, k)};
    }
  }

  /** find_kmers(sequence, k). The loop visits `i` in `range(len - k + 1)`
      and records a pair only when `i + k < len`, so the last window is never
      a key on its own account. */
  method FindKmers(sequence: string, k: nat) returns (kmers: Graph)
    ensures kmers == Kmers(sequence, k)
  {
    kmers := map[];
    var length := |sequence|;
    ghost var edges := EdgeCount(sequence, k);
    var i := 0;
    while i < length - k + 1
      invariant i <= edges + 1 && (i == edges + 1 ==> k <= length)
      invariant kmers == KmersBefore(sequence, k, if i <= edges then i else edges)
    {
      var kmer := sequence[i..i + k];
      if i + k < length {
        var nextKmer := sequence[i + 1..i + 1 + k];
        ghost var before := kmers;
        if kmer in kmers {
          kmers := kmers[kmer := kmers[kmer] + {nextKmer}];
        } else {
          kmers := kmers[kmer := {nextKmer}];
        }
        assert kmers == AddSuccessor(before, Window(sequence, i, k), NextWindow(sequence, i, k));
      }
      i := i + 1;
    }
  }

  /** The keys are exactly the windows at offsets `i < len(s) - k`. */
  lemma {:induction false} KmersKeys(s: string, k: nat, key: string)
    ensures key in Kmers(s, k) <==> exists i: nat :: i + k < |s| && Window(s, i, k) == key
  {
    KmersBeforeKeys(s, k, EdgeCount(s, k), key);
  }

  /** `succ` is recorded for `key` exactly when it follows `key` somewhere. */
  lemma {:induction false} KmersSuccessors(s: string, k: nat, key: string, succ: string)
    ensures (key in Kmers(s, k) && succ in Kmers(s, k)[key]) <==> Follows(s, k, key, succ)
  {
    KmersBeforeEntries(s, k, EdgeCount(s, k), key, succ);
  }

  /** The final window `s[len-k..]` is a key only when the same k-mer also
      occurs at an earlier offset. */
  lemma {:induction false} LastWindowNeedsEarlierOccurrence(s: string, k: nat)
    requires k <= |s|
    ensures Window(s, |s| - k, k) in Kmers(s, k)
        <==> exists i: nat :: i < |s| - k && Window(s, i, k) == Window(s, |s| - k, k)
  {
    KmersKeys(s, k, Window(s, |s| - k, k));
  }

  /** Every key has length `k` and a non-empty successor set. */
  lemma {:induction false} KmersKeyShape(s: string, k: nat, key: string)
    requires key in Kmers(s, k)
    ensures |key| == k && Kmers(s, k)[key] != {}
  {
    KmersKeys(s, k, key);
    var i: nat :| i + k < |s| && Window(s, i, k) == key;
    KmersSuccessors(s, k, key, NextWindow(s, i, k));
  }

  /** Every successor has length `k` and overlaps its key in `k - 1`
      characters: `succ[..k-1] == key[1..]`. */
  lemma {:induction false} KmersSuccessorShape(s: string, k: nat, key: string, succ: string)
    requires key in Kmers(s, k) && succ in Kmers(s, k)[key]
    ensures |key| == |succ| == k
    ensures k >= 1 ==> succ[..k - 1] == key[1..]
  {
    KmersSuccessors(s, k, key, succ);
    var i: nat :| i + k < |s| && Window(s, i, k) == key && NextWindow(s, i, k) == succ;
    if k >= 1 {
      assert succ[..k - 1] == s[i + 1..i + k] == key[1..];
    }
  }

  /** No window has a successor once `k >= len(s)`, and only then. */
  lemma {:induction false} KmersEmpty(s: string, k: nat)
    ensures Kmers(s, k) == map[] <==> |s| <= k
  {
    if k < |s| {
      KmersKeys(s, k, Window(s, 0, k));
    }
  }

  /** At most one key per offset with a successor: `|keys| <= len(s) - k`. */
  lemma {:induction false} KmersSize(s: string, k: nat)
    ensures |Kmers(s, k)| <= EdgeCount(s, k)
    ensures k < |s| ==> |Kmers(s, k)| <= |s| - k
  {
    KmersBeforeSize(s, k, EdgeCount(s, k));
  }
}
