/**
 * SequenceComparator: `calculate_genetic_distance` and `detect_mutations` of
 * dna/app.py. Distance demands equal lengths; mutation detection compares the
 * common prefix only.
 */
module SequenceComparator {

  function Min(a: nat, b: nat): nat
  {
    if a <= b then a else b
  }

  /** Number of positions below `n` where the two sequences differ. */
  function DiffsBelow(a: string, b: string, n: nat): (d: nat)
    requires n <= |a| && n <= |b|
    ensures d <= n
  {
    if n == 0 then 0
    else DiffsBelow(a, b, n - 1) + (if a[n - 1] != b[n - 1] then 1 else 0)
  }

  /** The positions below `n` where the two sequences differ. */
  function DifferingPositions(a: string, b: string, n: nat): set<nat>
    requires n <= |a| && n <= |b|
  {
    set i: nat | i < n && a[i] != b[i]
  }

  lemma {:induction false} DiffsBelowCountsPositions(a: string, b: string, n: nat)
    requires n <= |a| && n <= |b|
    ensures DiffsBelow(a, b, n) == |DifferingPositions(a, b, n)|
  {
    if n > 0 {
      DiffsBelowCountsPositions(a, b, n - 1);
      var before := DifferingPositions(a, b, n - 1);
      if a[n - 1] != b[n - 1] {
        assert DifferingPositions(a, b, n) == before + {n - 1};
      } else {
        assert DifferingPositions(a, b, n) == before;
      }
    }
  }

  /** `sum(1 for a, b in zip(seq1, seq2) if a != b)`: the number of positions
      of the common prefix (`zip` stops at the shorter one) where the two
      characters differ. */
  function Differences(a: string, b: string): (d: nat)
    ensures d <= Min(|a|, |b|)
    ensures d == |DifferingPositions(a, b, Min(|a|, |b|))|
  {
    DiffsBelowCountsPositions(a, b, Min(|a|, |b|));
    DiffsBelow(a, b, Min(|a|, |b|))
  }

  lemma {:induction false} DiffsBelowFacts(a: string, b: string, n: nat)
    requires n <= |a| && n <= |b|
    ensures DiffsBelow(a, b, n) == DiffsBelow(b, a, n)
    ensures DiffsBelow(a, b, n) == 0 <==> a[..n] == b[..n]
    ensures DiffsBelow(a, b, n) == n <==> forall i :: 0 <= i < n ==> a[i] != b[i]
  {
    if n > 0 {
      DiffsBelowFacts(a, b, n - 1);
      assert a[..n] == a[..n - 1] + [a[n - 1]];
      assert b[..n] == b[..n - 1] + [b[n - 1]];
      if a[..n] == b[..n] {
        assert a[..n - 1] == a[..n][..n - 1];
        assert b[..n - 1] == b[..n][..n - 1];
        assert a[n - 1] == a[..n][n - 1];
      }
    }
  }

  /** The outcome of `calculate_genetic_distance`. `NotComparable` is its
      `None` (lengths differ); `DivisionByZero` is the `ZeroDivisionError` that
      two empty sequences raise; `Ratio` is `differences / length`. */
  datatype Distance = NotComparable | DivisionByZero | Ratio(differences: nat, length: nat)
  {
    /** The distance as a number. */
    function Value(): real
      requires Ratio? && length > 0
    {
      differences as real / length as real
    }
  }

  lemma FractionInUnit(d: nat, n: nat)
    requires 0 < n && d <= n
    ensures 0.0 <= d as real / n as real <= 1.0
  {
  }

  /** `calculate_genetic_distance`. */
  function GeneticDistance(seq1: string, seq2: string): (d: Distance)
    ensures d.NotComparable? <==> |seq1| != |seq2|
    ensures d.DivisionByZero? <==> |seq1| == |seq2| == 0
    ensures d.Ratio? ==> d.length == |seq1| == |seq2| > 0 && d.differences <= d.length
    ensures d.Ratio? ==> d.differences == Differences(seq1, seq2)
    ensures d.Ratio? ==> 0.0 <= d.Value() <= 1.0
    ensures d.Ratio? ==> (d.differences == 0 <==> seq1 == seq2)
    ensures d.Ratio? ==> (d.differences == d.length <==> forall i :: 0 <= i < |seq1| ==> seq1[i] != seq2[i])
  {
    if |seq1| != |seq2| then NotComparable
    else if |seq1| == 0 then DivisionByZero
    else
      DiffsBelowFacts(seq1, seq2, |seq1|);
      assert seq1[..|seq1|] == seq1 && seq2[..|seq2|] == seq2;
      FractionInUnit(Differences(seq1, seq2), |seq1|);
      Ratio(Differences(seq1, seq2), |seq1|)
  }

  /** The distance does not depend on the order of its arguments. */
  lemma GeneticDistanceSymmetric(seq1: string, seq2: string)
    ensures GeneticDistance(seq1, seq2) == GeneticDistance(seq2, seq1)
  {
    if |seq1| == |seq2| {
      DiffsBelowFacts(seq1, seq2, |seq1|);
    }
  }

  /** One entry of `mutations`. */
  datatype Mutation = Mutation(position: nat, reference: char, mutated: char, kind: string)

  /** `m` records a real substitution between the two sequences. */
  predicate IsSubstitution(referenceSequence: string, testSequence: string, m: Mutation)
  {
    m.position < |referenceSequence| && m.position < |testSequence|
    && m.reference == referenceSequence[m.position]
    && m.mutated == testSequence[m.position]
    && m.reference != m.mutated
    && m.kind == "substitution"
  }

  /** Positions strictly increase along the list. */
  predicate Increasing(mutations: seq<Mutation>)
  {
    forall k1, k2 :: 0 <= k1 < k2 < |mutations| ==> mutations[k1].position < mutations[k2].position
  }

  /** Some entry of the list is at position `i`. */
  predicate Reported(mutations: seq<Mutation>, i: nat)
  {
    exists k :: 0 <= k < |mutations| && mutations[k].position == i
  }

  /** The substitutions among the first `n` positions, in position order. */
  function SubstitutionsBelow(a: string, b: string, n: nat): seq<Mutation>
    requires n <= |a| && n <= |b|
  {
    if n == 0 then []
    else SubstitutionsBelow(a, b, n - 1)
         + (if a[n - 1] != b[n - 1] then [Mutation(n - 1, a[n - 1], b[n - 1], "substitution")] else [])
  }

  /** Every entry is a real substitution before position `n`. */
  lemma {:induction false} SubstitutionsAreReal(a: string, b: string, n: nat)
    requires n <= |a| && n <= |b|
    ensures forall k :: 0 <= k < |SubstitutionsBelow(a, b, n)| ==>
      IsSubstitution(a, b, SubstitutionsBelow(a, b, n)[k]) && SubstitutionsBelow(a, b, n)[k].position < n
  {
    if n > 0 {
      SubstitutionsAreReal(a, b, n - 1);
    }
  }

  /** Entries come in strictly increasing position order. */
  lemma {:induction false} SubstitutionsIncreasing(a: string, b: string, n: nat)
    requires n <= |a| && n <= |b|
    ensures Increasing(SubstitutionsBelow(a, b, n))
  {
    if n > 0 {
      SubstitutionsIncreasing(a, b, n - 1);
      SubstitutionsAreReal(a, b, n - 1);
    }
  }

  /** Every differing position before `n` is reported. */
  lemma {:induction false} SubstitutionsComplete(a: string, b: string, n: nat)
    requires n <= |a| && n <= |b|
    ensures forall i: nat :: i < n && a[i] != b[i] ==> Reported(SubstitutionsBelow(a, b, n), i)
  {
    if n > 0 {
      SubstitutionsComplete(a, b, n - 1);
      var before := SubstitutionsBelow(a, b, n - 1);
      var ms := SubstitutionsBelow(a, b, n);
      forall i: nat | i < n && a[i] != b[i] ensures Reported(ms, i) {
        if i < n - 1 {
          var k :| 0 <= k < |before| && before[k].position == i;
          assert ms[k] == before[k];
        } else {
          assert ms[|before|].position == i;
        }
      }
    }
  }

  /** There are as many entries as differing positions. */
  lemma {:induction false} SubstitutionsCount(a: string, b: string, n: nat)
    requires n <= |a| && n <= |b|
    ensures |SubstitutionsBelow(a, b, n)| == DiffsBelow(a, b, n)
  {
    if n > 0 {
      SubstitutionsCount(a, b, n - 1);
    }
  }

  /** `detect_mutations`: one substitution per differing position of the common
      prefix, in increasing position order. */
  method DetectMutations(referenceSequence: string, testSequence: string)
    returns (mutations: seq<Mutation>)
    ensures forall k :: 0 <= k < |mutations| ==> IsSubstitution(referenceSequence, testSequence, mutations[k])
    ensures Increasing(mutations)
    ensures forall i: nat :: i < Min(|referenceSequence|, |testSequence|) && referenceSequence[i] != testSequence[i] ==>
      Reported(mutations, i)
    ensures |mutations| == Differences(referenceSequence, testSequence)
  {
    mutations := [];
    var minLength := Min(|referenceSequence|, |testSequence|);
    var i := 0;
    while i < minLength
      invariant 0 <= i <= minLength
      invariant mutations == SubstitutionsBelow(referenceSequence, testSequence, i)
    {
      if referenceSequence[i] != testSequence[i] {
        mutations := mutations + [Mutation(i, referenceSequence[i], testSequence[i], "substitution")];
      }
      i := i + 1;
    }
    SubstitutionsAreReal(referenceSequence, testSequence, minLength);
    SubstitutionsIncreasing(referenceSequence, testSequence, minLength);
    SubstitutionsComplete(referenceSequence, testSequence, minLength);
    SubstitutionsCount(referenceSequence, testSequence, minLength);
  }

  /** `calculate_genetic_distance("AGTC", "AGTT")` is 1/4 = 0.25. */
  lemma ExampleDistance()
    ensures GeneticDistance("AGTC", "AGTT") == Ratio(1, 4)
    ensures GeneticDistance("AGTC", "AGTT").Value() == 0.25
    ensures GeneticDistance("AGTC", "AGT").NotComparable?
  {
    assert DiffsBelow("AGTC", "AGTT", 3) == 0 by {
      DiffsBelowFacts("AGTC", "AGTT", 3);
      assert "AGTC"[..3] == "AGTT"[..3];
    }
  }
}
