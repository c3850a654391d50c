/** Small inputs worked through the model: a branching k-mer, a repeated
    homopolymer, and a header followed by a sequence. */
module Scenarios {
  import opened Whitespace
  import opened KmerGraph
  import opened Aggregate
  import opened Search

  /** A one-line file whose line needs no stripping aggregates to that
      line's own map. */
  lemma {:induction false} SingleLine(line: string, k: nat)
    requires !IsHeader(line) && Strip(line) == line
    ensures AggregateKmers([line], k) == Kmers(line, k)
  {
    assert [line][..0] == [];
    UnionEmptyLeft(Kmers(line, k));
  }

  /** At k = 1, "AATT" records A -> A, A -> T and T -> T. */
  lemma AATTKmers()
    ensures Kmers("AATT", 1) == map["A" := {"A", "T"}, "T" := {"T"}]
  {
    var s := "AATT";
    assert Window(s, 0, 1) == "A" && NextWindow(s, 0, 1) == "A";
    assert Window(s, 1, 1) == "A" && NextWindow(s, 1, 1) == "T";
    assert Window(s, 2, 1) == "T" && NextWindow(s, 2, 1) == "T";
    var g1 := KmersBefore(s, 1, 1);
    assert g1 == AddSuccessor(map[], "A", "A");
    assert g1 == map["A" := {"A"}];
    var g2 := KmersBefore(s, 1, 2);
    assert g2 == AddSuccessor(g1, "A", "T");
    assert "A" != "T";
    assert g2["A"] == {"A"} + {"T"} == {"A", "T"};
    assert g2.Keys == {"A"};
    assert g2 == map["A" := {"A", "T"}];
    var g3 := KmersBefore(s, 1, 3);
    assert g3 == AddSuccessor(g2, "T", "T");
  }

  /** In "AATT" at k = 1 the k-mer "A" is followed by both "A" and "T", so the
      stopping test fails and the search goes on to k = 2. */
  lemma AATTBranchesAtOne()
    ensures AggregateKmers(["AATT"], 1) == map["A" := {"A", "T"}, "T" := {"T"}]
    ensures !AllUnique(AggregateKmers(["AATT"], 1))
  {
    var s := "AATT";
    StripKeepsClean(s);
    SingleLine(s, 1);
    AATTKmers();
    TwoSuccessorsBranch();
  }

  /** A k-mer with two successors fails the stopping test. */
  lemma TwoSuccessorsBranch()
    ensures !AllUnique(map["A" := {"A", "T"}, "T" := {"T"}])
  {
    var m := map["A" := {"A", "T"}, "T" := {"T"}];
    assert "A" != "T";
    assert |m["A"]| == 2;
  }

  /** At k = 2, "AATT" records AA -> AT and AT -> TT. */
  lemma AATTKmersAtTwo()
    ensures Kmers("AATT", 2) == map["AA" := {"AT"}, "AT" := {"TT"}]
  {
    var s := "AATT";
    assert Window(s, 0, 2) == "AA" && NextWindow(s, 0, 2) == "AT";
    assert Window(s, 1, 2) == "AT" && NextWindow(s, 1, 2) == "TT";
    assert "AA" != "AT";
    var g1 := KmersBefore(s, 2, 1);
    assert g1 == AddSuccessor(map[], "AA", "AT");
    assert g1 == map["AA" := {"AT"}];
    var g2 := KmersBefore(s, 2, 2);
    assert g2 == AddSuccessor(g1, "AT", "TT");
  }

  /** At k = 2 "AATT" no longer branches, so with `AATTBranchesAtOne` the
      search on this one-line file returns 2. */
  lemma AATTUniqueAtTwo()
    ensures AggregateKmers(["AATT"], 2) == map["AA" := {"AT"}, "AT" := {"TT"}]
    ensures AllUnique(AggregateKmers(["AATT"], 2))
  {
    var s := "AATT";
    StripKeepsClean(s);
    SingleLine(s, 2);
    AATTKmersAtTwo();
    TwoStepPathIsUnique();
  }

  /** A simple path AA -> AT -> TT passes the stopping test. */
  lemma TwoStepPathIsUnique()
    ensures AllUnique(map["AA" := {"AT"}, "AT" := {"TT"}])
  {
    var m := map["AA" := {"AT"}, "AT" := {"TT"}];
    forall key | key in m
      ensures |m[key]| == 1
    {
      assert m[key] == {"AT"} || m[key] == {"TT"};
    }
  }

  /** At k = 1, "AAAA" records only A -> A. */
  lemma AAAAKmers()
    ensures Kmers("AAAA", 1) == map["A" := {"A"}]
  {
    var s := "AAAA";
    assert Window(s, 0, 1) == "A" && NextWindow(s, 0, 1) == "A";
    assert Window(s, 1, 1) == "A" && NextWindow(s, 1, 1) == "A";
    assert Window(s, 2, 1) == "A" && NextWindow(s, 2, 1) == "A";
    var g1 := KmersBefore(s, 1, 1);
    assert g1 == AddSuccessor(map[], "A", "A");
    assert g1 == map["A" := {"A"}];
    var g2 := KmersBefore(s, 1, 2);
    assert g2 == AddSuccessor(g1, "A", "A");
    assert g2 == g1;
    var g3 := KmersBefore(s, 1, 3);
    assert g3 == AddSuccessor(g2, "A", "A");
  }

  /** Two lines "AAAA": "A" is only ever followed by "A", so k = 1 already
      qualifies and the search returns 1. */
  lemma HomopolymerUniqueAtOne()
    ensures AggregateKmers(["AAAA", "AAAA"], 1) == map["A" := {"A"}]
    ensures AllUnique(AggregateKmers(["AAAA", "AAAA"], 1))
  {
    var s := "AAAA";
    StripKeepsClean(s);
    SingleLine(s, 1);
    AAAAKmers();
    var lines := [s, s];
    assert lines[..1] == [s];
    UnionIdempotent(map["A" := {"A"}]);
  }

  /** At k = 1, "ACGT" records A -> C, C -> G and G -> T. */
  lemma ACGTKmers()
    ensures Kmers("ACGT", 1) == map["A" := {"C"}, "C" := {"G"}, "G" := {"T"}]
  {
    var s := "ACGT";
    assert Window(s, 0, 1) == "A" && NextWindow(s, 0, 1) == "C";
    assert Window(s, 1, 1) == "C" && NextWindow(s, 1, 1) == "G";
    assert Window(s, 2, 1) == "G" && NextWindow(s, 2, 1) == "T";
    assert "A" != "C" && "A" != "G" && "C" != "G";
    var g1 := KmersBefore(s, 1, 1);
    assert g1 == AddSuccessor(map[], "A", "C");
    assert g1 == map["A" := {"C"}];
    var g2 := KmersBefore(s, 1, 2);
    assert g2 == AddSuccessor(g1, "C", "G");
    assert g2 == map["A" := {"C"}, "C" := {"G"}];
    var g3 := KmersBefore(s, 1, 3);
    assert g3 == AddSuccessor(g2, "G", "T");
  }

  /** A header line followed by "ACGT": the header is ignored and at k = 1
      each of A, C and G has one successor, so the search returns 1. */
  lemma HeaderThenACGTUniqueAtOne()
    ensures AggregateKmers([">seq1", "ACGT"], 1) == map["A" := {"C"}, "C" := {"G"}, "G" := {"T"}]
    ensures AllUnique(AggregateKmers([">seq1", "ACGT"], 1))
  {
    var s := "ACGT";
    StripKeepsClean(s);
    SingleLine(s, 1);
    ACGTKmers();
    HeaderIgnored([], ">seq1", [s], 1);
    assert [] + [">seq1"] + [s] == [">seq1", s];
    assert [] + [s] == [s];
    PathIsUnique();
  }

  /** A simple path A -> C -> G -> T passes the stopping test. */
  lemma PathIsUnique()
    ensures AllUnique(map["A" := {"C"}, "C" := {"G"}, "G" := {"T"}])
  {
    var m := map["A" := {"C"}, "C" := {"G"}, "G" := {"T"}];
    forall key | key in m
      ensures |m[key]| == 1
    {
      assert m[key] == {"C"} || m[key] == {"G"} || m[key] == {"T"};
    }
  }

  /** The search on the one-line file `AATT`: k = 1 branches at A, k = 2 does
      not, so the result is 2. */
  method SearchAATT() returns (r: int)
    ensures r == 2
  {
    r := FindSmallestUniqueK(["AATT"]);
    AATTBranchesAtOne();
    AATTUniqueAtTwo();
  }

  /** The search on a header followed by `ACGT`: the result is 1. */
  method SearchHeaderThenACGT() returns (r: int)
    ensures r == 1
  {
    r := FindSmallestUniqueK([">seq1", "ACGT"]);
    HeaderThenACGTUniqueAtOne();
  }

  /** The search on two lines `AAAA`: the result is 1. */
  method SearchHomopolymer() returns (r: int)
    ensures r == 1
  {
    r := FindSmallestUniqueK(["AAAA", "AAAA"]);
    HomopolymerUniqueAtOne();
  }
}
