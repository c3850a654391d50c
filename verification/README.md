# Smallest unbranching k — a Dafny model of `kmers.py`

`kmers.py` finds the smallest window length `k` at which the order-k de
Bruijn graph of a FASTA-like file has no branching node. The model covers its
three functions:

- `find_kmers(sequence, k)`: each k-mer of one sequence is mapped to the set
  of k-mers that follow it. The final window has no successor, so it is
  never a key on its own account.
- `process_file(filename, k)`: the body of its read loop. Lines that start
  with `>` are headers and are skipped. Every other line is stripped of
  surrounding whitespace, and the per-line maps are united key by key.
- `find_smallest_unique_k(filename)`: tries `k = 1, 2, …` and returns the
  first `k` at which every k-mer has exactly one successor.

Each of the three is a method with the loop of the source. Each method is
proved equal to a specification function:

- `FindKmers` equals `Kmers`, built offset by offset.
- `ProcessLines` equals `AggregateKmers`, built line by line with the
  key-wise `Union`.
- `FindSmallestUniqueK` returns the least `k` whose aggregate passes
  `AllUnique`.

Lemmas then say what these functions mean in terms of the text, through the
predicates `Follows` and `LinesFollow`.

Modules, one file each:

| file | module | models |
|---|---|---|
| `whitespace.dfy` | `Whitespace` | `str.strip()` over the characters of Python's `str.isspace` |
| `kmer_graph.dfy` | `KmerGraph` | `find_kmers` |
| `aggregate.dfy` | `Aggregate` | the aggregation loop of `process_file` |
| `search.dfy` | `Search` | `find_smallest_unique_k` |
| `scenarios.dfy` | `Scenarios` | small files worked through the model |

How the model represents the program:

- The file is a `seq<string>` of its lines, read again for every `k` as the
  source reopens the file.
- Characters are opaque symbols. No alphabet is enforced, and none is in the
  source.
- `k` is a `nat`. The search starts at 1, as the source does.

The docstring of `find_smallest_unique_k` (kmers.py:67) promises -1 "if no
such k exists". The code never returns it, and the model follows the code:

- The stopping test runs before the empty-map test. An empty aggregate passes
  the test vacuously, because Python's `all` is true of an empty collection.
  So the search returns the current `k` whenever the map is empty.
  - Both `return -1` statements (`kmers.py:75`, `kmers.py:77`) are
    unreachable. `FindSmallestUniqueK` keeps them as dead branches and proves
    that the result is always at least 1.
  - An empty file, or a file of headers only, yields 1, not -1
    (`OnlyHeadersBoundOne`).
  - A header followed by `ACGT` yields 1 (`SearchHeaderThenACGT`), and the
    one-line file `AATT` yields 2 (`SearchAATT`).
- The code has no cap on `k`. The loop still terminates: once `k`
  reaches the longest stripped sequence line the map is empty, so the search
  stops there at the latest (`SearchBound`, `AllUniqueAtBound`).

## Model

| member | source | states |
|---|---|---|
| KmerGraph.FindKmers | kmers.py:18-28 | the loop over `range(len - k + 1)` with the `i + k < len` guard builds exactly `Kmers(sequence, k)`, one recorded pair per offset that has a following window |
| KmerGraph.KmersKeys | kmers.py:20-27 | a k-mer is a key iff it is the window at some offset `i` with `i + k < len(s)` |
| KmerGraph.KmersSuccessors | kmers.py:21-27 | `succ` is in the set of `key` iff `succ` is the window right after an occurrence of `key` (`Follows`) |
| KmerGraph.LastWindowNeedsEarlierOccurrence | kmers.py:20-22 | the final window `s[len-k..]` is a key iff the same k-mer also occurs at an earlier offset: the last window is never added for itself |
| KmerGraph.KmersKeyShape | kmers.py:21-27 | every key has length `k` and a non-empty successor set |
| KmerGraph.KmersSuccessorShape | kmers.py:21-23 | every successor has length `k` and overlaps its key in `k - 1` characters (`succ[..k-1] == key[1..]`) |
| KmerGraph.KmersEmpty | kmers.py:20-22 | the map is empty iff `len(s) <= k` |
| KmerGraph.KmersSize | kmers.py:20-27 | there are at most `len(s) - k` keys, at most one per offset with a successor |
| KmerGraph.KmersBeforeKeys | kmers.py:20-27 | after the first `n` offsets the keys are exactly the windows at those offsets |
| KmerGraph.KmersBeforeEntries | kmers.py:20-27 | after the first `n` offsets the set of `key` holds exactly the windows that follow `key` at those offsets |
| KmerGraph.KmersBeforeSize | kmers.py:24-27 | each offset adds at most one key |
| KmerGraph.AddSuccessor | kmers.py:24-27 | recording a pair adds the key, inserts the successor into its set (a fresh singleton if the key was absent) and leaves every other key unchanged |
| Whitespace.StripSpec | kmers.py:49 | `line.strip()` keeps one infix of the line; everything removed is whitespace, and the result has no whitespace at either end |
| Whitespace.StripLeftSpec | kmers.py:49 | removing leading whitespace keeps a suffix, drops only whitespace and leaves no whitespace in front |
| Whitespace.StripRightSpec | kmers.py:49 | removing trailing whitespace keeps a prefix, drops only whitespace and leaves no whitespace at the back |
| Whitespace.StripKeepsClean | kmers.py:49 | a line with no whitespace at either end is left as it is |
| Whitespace.StripIdempotent | kmers.py:49 | stripping twice is stripping once |
| Whitespace.StripDropsTrailingSpace | kmers.py:46-49 | a trailing whitespace character, such as the newline a text-mode read leaves on each line, does not change the stripped sequence |
| Whitespace.StripLeftAppend | kmers.py:49 | once a line holds a non-whitespace character, text appended after it survives leading-whitespace removal unchanged |
| Aggregate.MergeInto | kmers.py:51-55 | the inner loop over `kmers.items()` (update when present, insert otherwise) yields the key-wise union of the aggregate and the line's map |
| Aggregate.ProcessLines | kmers.py:44-56 | the read loop (skip headers, strip, `find_kmers`, merge) yields `AggregateKmers(lines, k)` |
| Aggregate.AggregateFollows | kmers.py:46-55 | `succ` is in the aggregate set of `key` iff `key` is followed by `succ` in some non-header stripped line |
| Aggregate.HeaderIgnored | kmers.py:47-48 | removing a header line from anywhere in the file leaves the aggregate unchanged |
| Aggregate.AggregateKeyShape | kmers.py:50-55 | every aggregate key has length `k` and a non-empty successor set |
| Aggregate.AggregateSuccessorShape | kmers.py:50-55 | every aggregate successor has length `k` and overlaps its key in `k - 1` characters |
| Aggregate.AggregateEmpty | kmers.py:46-55 | the aggregate is empty iff no stripped sequence line is longer than `k` |
| Aggregate.EmptyStaysEmpty | kmers.py:46-55 | once the aggregate is empty at some `k0`, it stays empty at every larger `k` |
| Aggregate.LongestSequenceAtMost | kmers.py:47-49 | the longest stripped sequence line is at most `k` iff every non-header stripped line is |
| Aggregate.AggregateIsUnionAll | kmers.py:46-55 | reading the lines one at a time gives the union of all per-line maps |
| Aggregate.UnionAllKeys | kmers.py:51-55 | a key is in the union of the per-line maps iff it is in one of them |
| Aggregate.UnionAllEntries | kmers.py:51-55 | a successor is in the union's set for a key iff it is in that key's set in one of the maps |
| Aggregate.UnionAllEmpty | kmers.py:51-55 | the union is empty iff every per-line map is |
| Aggregate.UnionAllLast | kmers.py:46-55 | the union over the lines is the union of the earlier lines' result with the last line's map |
| Aggregate.UnionAllDropEmpty | kmers.py:47-48 | a line contributing an empty map can be dropped from the union |
| Aggregate.UnionEmpty | kmers.py:51-55 | merging an empty line map leaves the aggregate unchanged |
| Aggregate.UnionEmptyLeft | kmers.py:44-55 | the first sequence line merged into the empty aggregate is taken as it is |
| Aggregate.UnionIdempotent | kmers.py:53 | `update` has set semantics: uniting a map with itself changes nothing |
| Aggregate.UnionStep | kmers.py:52-55 | merging one entry grows that key's set by the entry's set (or inserts it) and changes no other key |
| Search.FindSmallestUniqueK | kmers.py:69-77 | the result is at least 1 and at most the longest stripped line (or 1). The aggregate at the result passes the stopping test, and no smaller `k >= 1` does. A file of headers only gives 1. |
| Search.AllUniqueIffUnbranching | kmers.py:72 | the test `all(len(v) == 1 …)` holds iff every k-mer is followed by one and the same k-mer at all its occurrences in all sequence lines |
| Search.BranchingFails | kmers.py:72 | a k-mer seen with two different successors, in one line or across lines, makes the test fail |
| Search.AllUniqueAtBound | kmers.py:72-74 | from the longest stripped line on, the aggregate is empty and the test passes, so the loop always ends |
| Search.OnlyHeadersBoundOne | kmers.py:69-73 | with no sequence line the aggregate is empty at `k = 1` and the bound is 1 |
| Search.BranchingBelowBound | kmers.py:72-76 | a failing test means `k` is still below the bound, so `k += 1` stays within it |
| Search.SearchBound | kmers.py:69-76 | the bound is at least 1 and at least the longest stripped sequence line, and equals one of the two |
| Search.SingletonMembers | kmers.py:72 | two members of a one-element successor set are equal |
| Scenarios.AATTKmers | kmers.py:18-28 | at `k = 1`, `AATT` gives A → {A, T} and T → {T} |
| Scenarios.AATTBranchesAtOne | kmers.py:69-76 | for the file `AATT` the aggregate at `k = 1` branches at A, so the test fails |
| Scenarios.AATTKmersAtTwo | kmers.py:18-28 | at `k = 2`, `AATT` gives AA → {AT} and AT → {TT} |
| Scenarios.AATTUniqueAtTwo | kmers.py:69-73 | for the file `AATT` the test passes at `k = 2`, which is therefore the result |
| Scenarios.AAAAKmers | kmers.py:18-28 | at `k = 1`, `AAAA` gives A → {A} |
| Scenarios.HomopolymerUniqueAtOne | kmers.py:44-73 | two lines `AAAA` aggregate to A → {A} at `k = 1` and the test passes |
| Scenarios.ACGTKmers | kmers.py:18-28 | at `k = 1`, `ACGT` gives A → {C}, C → {G}, G → {T} |
| Scenarios.HeaderThenACGTUniqueAtOne | kmers.py:44-73 | `>seq1` then `ACGT`: the header is ignored and the test passes at `k = 1` |
| Scenarios.SingleLine | kmers.py:44-55 | a one-line file whose line needs no stripping aggregates to that line's own map |
| Scenarios.TwoSuccessorsBranch | kmers.py:72 | a key with two successors fails the test |
| Scenarios.PathIsUnique | kmers.py:72 | a simple path A → C → G → T passes the test |
| Scenarios.TwoStepPathIsUnique | kmers.py:72 | a simple path AA → AT → TT passes the test |
| Scenarios.SearchAATT | kmers.py:69-76 | the search on the one-line file `AATT` returns 2 |
| Scenarios.SearchHeaderThenACGT | kmers.py:69-73 | the search on `>seq1` then `ACGT` returns 1 |
| Scenarios.SearchHomopolymer | kmers.py:69-73 | the search on two lines `AAAA` returns 1 |

## Left out

- `main` (kmers.py:81-95) is not modelled. It reads `sys.argv`, prints a
  usage message and exits, and prints the result, all of which is I/O.
- Opening and reading the file (kmers.py:45-46) is not modelled. The file is
  a `seq<string>` of its lines, including any newline each line keeps; the
  model does not split raw text into lines.
- The aliasing in `all_kmers[kmer] = next_kmers` (kmers.py:55) is not
  modelled. The aggregate stores the line's own set object, and a later
  `update` also mutates that set. The line's map is dropped right after its
  merge, so the aliasing cannot be observed; the model works on set values.
- The order of dictionary iteration is not modelled. `MergeInto` takes the
  keys in an arbitrary order (`:|`), and the result does not depend on it.
- The functions `kmers_value` and `file_acquisition`, which `test_kmers.py`
  imports, do not exist in `kmers.py`. That file's tests (nucleotide
  validation, a `ValueError` when `k` is too large, key counts) therefore
  describe a different API and are not modelled.
- The -1 that the docstring at kmers.py:67 promises for "no such k" has no
  reachable path in the code. The model keeps the result type `int` and the
  two `return -1` statements as dead branches.
