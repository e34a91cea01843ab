/**
 * ProfileMatcher: the counting, scoring and ranking part of
 * `analyze_dna_sequence` in dna/app.py. The database query is replaced by the
 * `records` parameter.
 */
module ProfileMatcher {
  import opened RepeatCounter
  import opened Profiles

  // ---------------------------------------------------------------------
  // Profile building

  /** Fills `str_count`: one entry per catalog motif, in catalog order. */
  method BuildProfile(dnaSequence: string) returns (strCount: seq<nat>)
    ensures |strCount| == |Catalog|
    ensures forall k :: 0 <= k < |Catalog| ==> strCount[k] == LongestRun(dnaSequence, Catalog[k])
  {
    CatalogShape();
    strCount := [];
    var k := 0;
    while k < |Catalog|
      invariant 0 <= k <= |Catalog|
      invariant |strCount| == k
      invariant forall j :: 0 <= j < k ==> strCount[j] == LongestRun(dnaSequence, Catalog[j])
    {
      var n := LongestMatch(dnaSequence, Catalog[k]);
      strCount := strCount + [n];
      k := k + 1;
    }
  }

  // ---------------------------------------------------------------------
  // Scoring

  /** The number of positions below `n` where the two count lists agree. */
  function Agreements(query: seq<nat>, counts: seq<int>, n: nat): (a: nat)
    requires n <= |query| && n <= |counts|
    ensures a <= n
  {
    if n == 0 then 0
    else Agreements(query, counts, n - 1) + (if counts[n - 1] == query[n - 1] then 1 else 0)
  }

  /** `match_score`: how many catalog motifs have equal counts. */
  function MatchScore(query: seq<nat>, counts: seq<int>): nat
    requires |query| == TotalStrs && |counts| == TotalStrs
  {
    Agreements(query, counts, TotalStrs)
  }

  /** The positions below `n` where the two count lists agree. */
  function AgreeingPositions(query: seq<nat>, counts: seq<int>, n: nat): set<nat>
    requires n <= |query| && n <= |counts|
  {
    set k: nat | k < n && counts[k] == query[k]
  }

  lemma {:induction false} AgreementsCountPositions(query: seq<nat>, counts: seq<int>, n: nat)
    requires n <= |query| && n <= |counts|
    ensures Agreements(query, counts, n) == |AgreeingPositions(query, counts, n)|
  {
    if n > 0 {
      AgreementsCountPositions(query, counts, n - 1);
      var before := AgreeingPositions(query, counts, n - 1);
      if counts[n - 1] == query[n - 1] {
        assert AgreeingPositions(query, counts, n) == before + {n - 1};
      } else {
        assert AgreeingPositions(query, counts, n) == before;
      }
    }
  }

  lemma {:induction false} AgreementsAllIffEqual(query: seq<nat>, counts: seq<int>, n: nat)
    requires n <= |query| && n <= |counts|
    ensures Agreements(query, counts, n) == n <==> query[..n] == counts[..n]
  {
    if n > 0 {
      AgreementsAllIffEqual(query, counts, n - 1);
      assert query[..n] == query[..n - 1] + [query[n - 1]];
      assert counts[..n] == counts[..n - 1] + [counts[n - 1]];
      if counts[n - 1] != query[n - 1] {
        assert query[..n][n - 1] != counts[..n][n - 1];
      }
    }
  }

  /** `match_score` is the number of catalog motifs whose stored count equals
      the query count; it lies in 0 .. 8 and is 8 exactly when the profiles
      are equal. */
  lemma MatchScoreCountsAgreements(query: seq<nat>, counts: seq<int>)
    requires |query| == TotalStrs && |counts| == TotalStrs
    ensures MatchScore(query, counts) == |set k: nat | k < TotalStrs && counts[k] == query[k]|
    ensures MatchScore(query, counts) <= TotalStrs
    ensures MatchScore(query, counts) == TotalStrs <==> query == counts
  {
    AgreementsCountPositions(query, counts, TotalStrs);
    AgreementsAllIffEqual(query, counts, TotalStrs);
    assert query[..TotalStrs] == query;
    assert counts[..TotalStrs] == counts;
  }

  /** The inner scoring loop of `analyze_dna_sequence`. */
  method ScoreRecord(strCount: seq<nat>, record: Record) returns (matchScore: nat)
    requires |strCount| == TotalStrs && WellFormed(record)
    ensures matchScore == MatchScore(strCount, record.counts)
  {
    matchScore := 0;
    var k := 0;
    while k < TotalStrs
      invariant 0 <= k <= TotalStrs
      invariant matchScore == Agreements(strCount, record.counts, k)
    {
      if record.counts[k] == strCount[k] {
        matchScore := matchScore + 1;
      }
      k := k + 1;
    }
  }

  // ---------------------------------------------------------------------
  // Match results

  /** One entry of `matches`. */
  datatype MatchResult = MatchResult(name: string, confidence: real, matchScore: nat, strCounts: seq<int>)

  /** `(match_score / total_strs) * 100`, as an exact rational. */
  function Confidence(matchScore: nat): (c: real)
    ensures c == matchScore as real * 12.5
    ensures matchScore <= TotalStrs ==> 0.0 <= c <= 100.0
    ensures c == 100.0 <==> matchScore == TotalStrs
  {
    (matchScore as real / TotalStrs as real) * 100.0
  }

  /** Comparing confidences is comparing scores, since the divisor is fixed. */
  lemma ConfidenceOrdersLikeScore(a: nat, b: nat)
    ensures Confidence(a) < Confidence(b) <==> a < b
    ensures Confidence(a) == Confidence(b) <==> a == b
    ensures Confidence(a) == a as real * 12.5
  {
  }

  function MatchOf(query: seq<nat>, r: Record): MatchResult
    requires |query| == TotalStrs && WellFormed(r)
  {
    var score := MatchScore(query, r.counts);
    MatchResult(r.name, Confidence(score), score, r.counts)
  }

  /** `matches` before sorting: the records with a positive score, in record order. */
  function Candidates(query: seq<nat>, records: seq<Record>): seq<MatchResult>
    requires |query| == TotalStrs && AllWellFormed(records)
  {
    if |records| == 0 then []
    else
      var last := records[|records| - 1];
      Candidates(query, records[..|records| - 1])
      + (if MatchScore(query, last.counts) > 0 then [MatchOf(query, last)] else [])
  }

  /** The outer loop of `analyze_dna_sequence`: score each record and keep those
      with a positive score. */
  method CollectMatches(strCount: seq<nat>, records: seq<Record>) returns (matches: seq<MatchResult>)
    requires |strCount| == TotalStrs && AllWellFormed(records)
    ensures matches == Candidates(strCount, records)
  {
    matches := [];
    var i := 0;
    while i < |records|
      invariant 0 <= i <= |records|
      invariant matches == Candidates(strCount, records[..i])
    {
      var record := records[i];
      var matchScore := ScoreRecord(strCount, record);
      var confidence := (matchScore as real / TotalStrs as real) * 100.0;
      if matchScore > 0 {
        matches := matches + [MatchResult(record.name, confidence, matchScore, record.counts)];
      }
      assert records[..i + 1][..i] == records[..i];
      i := i + 1;
    }
    assert records[..i] == records;
  }

  /** Every candidate has a positive score, at most 8, with confidence
      `match_score * 100 / 8`, and is the result of one of the records. */
  lemma {:induction false} CandidatesArePositive(query: seq<nat>, records: seq<Record>)
    requires |query| == TotalStrs && AllWellFormed(records)
    ensures forall m :: m in Candidates(query, records) ==>
      0 < m.matchScore <= TotalStrs && m.confidence == Confidence(m.matchScore)
      && exists i :: 0 <= i < |records| && m == MatchOf(query, records[i])
  {
    if |records| > 0 {
      var front := records[..|records| - 1];
      assert AllWellFormed(front);
      CandidatesArePositive(query, front);
      forall m | m in Candidates(query, records)
        ensures 0 < m.matchScore <= TotalStrs && m.confidence == Confidence(m.matchScore)
        ensures exists i :: 0 <= i < |records| && m == MatchOf(query, records[i])
      {
        if m in Candidates(query, front) {
          var i :| 0 <= i < |front| && m == MatchOf(query, front[i]);
          assert records[i] == front[i];
        } else {
          assert m == MatchOf(query, records[|records| - 1]);
        }
      }
    }
  }

  /** A record with a positive score appears among the candidates as often as
      it occurs among the records (so exactly once for a record that occurs
      once); a record with score 0 never appears. */
  lemma {:induction false} CandidatesCountRecords(query: seq<nat>, records: seq<Record>, r: Record)
    requires |query| == TotalStrs && AllWellFormed(records) && WellFormed(r)
    ensures multiset(Candidates(query, records))[MatchOf(query, r)]
            == if MatchScore(query, r.counts) > 0 then multiset(records)[r] else 0
  {
    if |records| > 0 {
      var front := records[..|records| - 1];
      var last := records[|records| - 1];
      assert records == front + [last];
      assert AllWellFormed(front);
      CandidatesCountRecords(query, front, r);
      assert multiset(records) == multiset(front) + multiset{last};
    }
  }

  // ---------------------------------------------------------------------
  // Stable ranking by descending confidence (`matches.sort(..., reverse=True)`)

  /** Non-increasing confidence along the list. */
  predicate RankedByConfidence(xs: seq<MatchResult>)
  {
    forall i, j :: 0 <= i < j < |xs| ==> xs[i].confidence >= xs[j].confidence
  }

  /** The entries with confidence `c`, in list order. */
  function WithConfidence(xs: seq<MatchResult>, c: real): seq<MatchResult>
  {
    if |xs| == 0 then []
    else (if xs[0].confidence == c then [xs[0]] else []) + WithConfidence(xs[1..], c)
  }

  lemma {:induction false} WithConfidenceAppend(a: seq<MatchResult>, b: seq<MatchResult>, c: real)
    ensures WithConfidence(a + b, c) == WithConfidence(a, c) + WithConfidence(b, c)
  {
    if |a| == 0 {
      assert a + b == b;
    } else {
      var ab := a + b;
      assert ab[0] == a[0];
      assert ab[1..] == a[1..] + b;
      WithConfidenceAppend(a[1..], b, c);
      var head := if a[0].confidence == c then [a[0]] else [];
      assert WithConfidence(ab, c) == head + WithConfidence(a[1..] + b, c);
      assert WithConfidence(a, c) == head + WithConfidence(a[1..], c);
    }
  }

  lemma {:induction false} WithConfidenceNone(xs: seq<MatchResult>, c: real)
    requires forall i :: 0 <= i < |xs| ==> xs[i].confidence < c
    ensures WithConfidence(xs, c) == []
  {
    if |xs| > 0 {
      WithConfidenceNone(xs[1..], c);
    }
  }

  /** Places `x` after every entry whose confidence is at least its own. */
  function InsertByConfidence(x: MatchResult, ys: seq<MatchResult>): seq<MatchResult>
  {
    if |ys| == 0 || ys[0].confidence < x.confidence then [x] + ys
    else [ys[0]] + InsertByConfidence(x, ys[1..])
  }

  lemma {:induction false} InsertKeepsElements(x: MatchResult, ys: seq<MatchResult>)
    ensures multiset(InsertByConfidence(x, ys)) == multiset(ys) + multiset{x}
  {
    if !(|ys| == 0 || ys[0].confidence < x.confidence) {
      InsertKeepsElements(x, ys[1..]);
      assert ys == [ys[0]] + ys[1..];
    }
  }

  /** Inserting below a bound keeps every entry below it. */
  lemma {:induction false} InsertKeepsBound(x: MatchResult, ys: seq<MatchResult>, bound: real)
    requires x.confidence <= bound
    requires forall k :: 0 <= k < |ys| ==> ys[k].confidence <= bound
    ensures forall k :: 0 <= k < |InsertByConfidence(x, ys)| ==> InsertByConfidence(x, ys)[k].confidence <= bound
  {
    if !(|ys| == 0 || ys[0].confidence < x.confidence) {
      InsertKeepsBound(x, ys[1..], bound);
    }
  }

  lemma {:induction false} InsertKeepsRanking(x: MatchResult, ys: seq<MatchResult>)
    requires RankedByConfidence(ys)
    ensures RankedByConfidence(InsertByConfidence(x, ys))
  {
    if !(|ys| == 0 || ys[0].confidence < x.confidence) {
      var tail := InsertByConfidence(x, ys[1..]);
      InsertKeepsRanking(x, ys[1..]);
      InsertKeepsBound(x, ys[1..], ys[0].confidence);
      var r := [ys[0]] + tail;
      forall i, j | 0 <= i < j < |r| ensures r[i].confidence >= r[j].confidence {
        assert r[j] == tail[j - 1];
        if i > 0 {
          assert r[i] == tail[i - 1];
        }
      }
    }
  }

  lemma {:induction false} InsertKeepsOrderOfTies(x: MatchResult, ys: seq<MatchResult>, c: real)
    requires RankedByConfidence(ys)
    ensures WithConfidence(InsertByConfidence(x, ys), c)
            == WithConfidence(ys, c) + (if x.confidence == c then [x] else [])
  {
    if |ys| == 0 || ys[0].confidence < x.confidence {
      WithConfidenceAppend([x], ys, c);
      assert WithConfidence([x], c) == (if x.confidence == c then [x] else []) + WithConfidence([], c);
      if x.confidence == c {
        WithConfidenceNone(ys, c);
      }
    } else {
      InsertKeepsOrderOfTies(x, ys[1..], c);
      assert ys == [ys[0]] + ys[1..];
      WithConfidenceAppend([ys[0]], InsertByConfidence(x, ys[1..]), c);
      WithConfidenceAppend([ys[0]], ys[1..], c);
    }
  }

  /** Inserting the last entry into the sorted front keeps the three
      properties of a stable descending sort. */
  lemma SortStep(xs: seq<MatchResult>, sorted: seq<MatchResult>)
    requires |xs| > 0
    requires RankedByConfidence(sorted)
    requires multiset(sorted) == multiset(xs[..|xs| - 1])
    requires forall c :: WithConfidence(sorted, c) == WithConfidence(xs[..|xs| - 1], c)
    ensures RankedByConfidence(InsertByConfidence(xs[|xs| - 1], sorted))
    ensures multiset(InsertByConfidence(xs[|xs| - 1], sorted)) == multiset(xs)
    ensures forall c :: WithConfidence(InsertByConfidence(xs[|xs| - 1], sorted), c) == WithConfidence(xs, c)
  {
    var front := xs[..|xs| - 1];
    var last := xs[|xs| - 1];
    assert xs == front + [last];
    InsertKeepsElements(last, sorted);
    InsertKeepsRanking(last, sorted);
    forall c ensures WithConfidence(InsertByConfidence(last, sorted), c) == WithConfidence(xs, c) {
      InsertKeepsOrderOfTies(last, sorted, c);
      WithConfidenceAppend(front, [last], c);
      assert WithConfidence([last], c) == (if last.confidence == c then [last] else []) + WithConfidence([], c);
    }
  }

  /** The stable descending sort that `list.sort(key=..., reverse=True)` performs:
      the result is ranked, is a permutation of the input and, for every
      confidence value, lists the entries with that value in input order. */
  function SortByConfidence(xs: seq<MatchResult>): (r: seq<MatchResult>)
    ensures RankedByConfidence(r)
    ensures multiset(r) == multiset(xs)
    ensures forall c :: WithConfidence(r, c) == WithConfidence(xs, c)
  {
    if |xs| == 0 then []
    else
      var sorted := SortByConfidence(xs[..|xs| - 1]);
      SortStep(xs, sorted);
      InsertByConfidence(xs[|xs| - 1], sorted)
  }

  lemma {:induction false} WithConfidenceHas(xs: seq<MatchResult>, c: real)
    ensures WithConfidence(xs, c) != [] <==> exists i :: 0 <= i < |xs| && xs[i].confidence == c
  {
    if |xs| > 0 {
      WithConfidenceHas(xs[1..], c);
      if exists i :: 0 <= i < |xs| && xs[i].confidence == c {
        var i :| 0 <= i < |xs| && xs[i].confidence == c;
        if i > 0 {
          assert xs[1..][i - 1].confidence == c;
        }
      }
      if exists i :: 0 <= i < |xs[1..]| && xs[1..][i].confidence == c {
        var i :| 0 <= i < |xs[1..]| && xs[1..][i].confidence == c;
        assert xs[i + 1].confidence == c;
      }
    }
  }

  /** A ranked list is determined by its entries of each confidence in order:
      every stable descending sort of `xs` is `SortByConfidence(xs)`. */
  lemma {:induction false} StableRankingIsUnique(a: seq<MatchResult>, b: seq<MatchResult>)
    requires RankedByConfidence(a) && RankedByConfidence(b)
    requires forall c :: WithConfidence(a, c) == WithConfidence(b, c)
    ensures a == b
    decreases |a|
  {
    if |a| == 0 || |b| == 0 {
      if |a| > 0 {
        WithConfidenceHas(a, a[0].confidence);
        WithConfidenceHas(b, a[0].confidence);
      }
      if |b| > 0 {
        WithConfidenceHas(a, b[0].confidence);
        WithConfidenceHas(b, b[0].confidence);
      }
    } else {
      WithConfidenceHas(a, b[0].confidence);
      WithConfidenceHas(b, a[0].confidence);
      assert a[0].confidence == b[0].confidence;
      assert a[0] == WithConfidence(a, a[0].confidence)[0];
      assert b[0] == WithConfidence(b, b[0].confidence)[0];
      assert a[0] == b[0];
      forall c ensures WithConfidence(a[1..], c) == WithConfidence(b[1..], c) {
        var wa, wb := WithConfidence(a, c), WithConfidence(b, c);
        assert wa == wb;
        assert wa == (if a[0].confidence == c then [a[0]] else []) + WithConfidence(a[1..], c);
        assert wb == (if b[0].confidence == c then [b[0]] else []) + WithConfidence(b[1..], c);
        if a[0].confidence == c {
          assert WithConfidence(a[1..], c) == wa[1..];
          assert WithConfidence(b[1..], c) == wb[1..];
        } else {
          assert WithConfidence(a[1..], c) == wa;
          assert WithConfidence(b[1..], c) == wb;
        }
      }
      assert RankedByConfidence(a[1..]) && RankedByConfidence(b[1..]);
      StableRankingIsUnique(a[1..], b[1..]);
      assert a == [a[0]] + a[1..] && b == [b[0]] + b[1..];
    }
  }

  // ---------------------------------------------------------------------
  // The whole analysis

  /** `analyze_dna_sequence`: the profile of the sequence and the ranked matches. */
  method AnalyzeDnaSequence(dnaSequence: string, records: seq<Record>)
    returns (strCount: seq<nat>, matches: seq<MatchResult>)
    requires AllWellFormed(records)
    ensures |strCount| == |Catalog|
    ensures forall k :: 0 <= k < |Catalog| ==> strCount[k] == LongestRun(dnaSequence, Catalog[k])
    ensures matches == SortByConfidence(Candidates(strCount, records))
    ensures forall m :: m in matches ==> m.matchScore > 0
    ensures forall i, j :: 0 <= i < j < |matches| ==> matches[i].matchScore >= matches[j].matchScore
  {
    strCount := BuildProfile(dnaSequence);
    var unsorted := CollectMatches(strCount, records);
    matches := SortByConfidence(unsorted);
    CandidatesArePositive(strCount, records);
    assert forall m :: m in matches ==> m in unsorted by {
      forall m | m in matches ensures m in unsorted {
        assert m in multiset(matches);
      }
    }
    forall i, j | 0 <= i < j < |matches|
      ensures matches[i].matchScore >= matches[j].matchScore
    {
      assert matches[i] in unsorted && matches[j] in unsorted;
      ConfidenceOrdersLikeScore(matches[j].matchScore, matches[i].matchScore);
    }
  }
}
