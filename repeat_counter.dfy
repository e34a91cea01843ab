/**
 * RepeatCounter: the longest uninterrupted run of a motif in a sequence
 * (`longest_match` of dna/app.py). The specification functions here are also
 * used by the copy of `longest_match` in dna/dna.py (module DnaCli).
 */
module RepeatCounter {

  /** A tile of `motif` matches at `start` when the whole motif fits there.
      With a non-empty motif this is exactly Python's
      `sequence[start:start+len(motif)] == motif`: a slice running past the end
      is shorter than the motif and so never equal to it. */
  predicate TileAt(s: string, motif: string, start: nat)
  {
    start + |motif| <= |s| && s[start..start + |motif|] == motif
  }

  /** `k` copies of `motif`, back to back. */
  function Repeat(motif: string, k: nat): (r: string)
    ensures |r| == k * |motif|
  {
    if k == 0 then [] else motif + Repeat(motif, k - 1)
  }

  /** `s` holds `k` back-to-back copies of `motif` starting at offset `i`. */
  predicate CopiesAt(s: string, motif: string, i: nat, k: nat)
  {
    i + k * |motif| <= |s| && s[i..i + k * |motif|] == Repeat(motif, k)
  }

  /** The number of consecutive tiles of `motif` found at `i`, `i + m`, `i + 2m`, ... */
  function RunAt(s: string, motif: string, i: nat): nat
    requires |motif| > 0
    decreases |s| - i
  {
    if TileAt(s, motif, i) then 1 + RunAt(s, motif, i + |motif|) else 0
  }

  /** The source's outer loop terminates for every sequence when the motif is
      non-empty; with an empty motif it terminates only on the empty sequence
      (the inner loop then never runs). */
  predicate Terminates(s: string, motif: string)
  {
    |motif| > 0 || |s| == 0
  }

  /** The largest run over the offsets `0 .. n-1`. */
  function MaxRunBelow(s: string, motif: string, n: nat): nat
    requires n <= |s|
    requires |motif| > 0 || n == 0
  {
    if n == 0 then 0
    else
      var best := MaxRunBelow(s, motif, n - 1);
      var here := RunAt(s, motif, n - 1);
      if best < here then here else best
  }

  /** The value `longest_match(s, motif)` computes: the largest run over every
      start offset of `s`. */
  function LongestRun(s: string, motif: string): nat
    requires Terminates(s, motif)
  {
    MaxRunBelow(s, motif, |s|)
  }

  /** A matching tile at `start` extends the run found after it by one. */
  lemma TileStep(s: string, motif: string, start: nat)
    requires |motif| > 0 && TileAt(s, motif, start)
    ensures RunAt(s, motif, start) == 1 + RunAt(s, motif, start + |motif|)
  {
  }

  /** The offset of tile `count + 1` is one motif length past that of tile `count`. */
  lemma NextOffset(i: nat, count: nat, m: nat)
    ensures i + (count + 1) * m == i + count * m + m
  {
  }

  /** A tile that fails ends the run. */
  lemma TileFails(s: string, motif: string, start: nat)
    requires |motif| > 0 && !TileAt(s, motif, start)
    ensures RunAt(s, motif, start) == 0
  {
  }

  /** `longest_match` of dna/app.py: for each offset, tile the motif forward
      until a tile fails and keep the maximum count seen. */
  method LongestMatch(sequence: string, subsequence: string) returns (longestRun: nat)
    requires Terminates(sequence, subsequence)
    ensures longestRun == LongestRun(sequence, subsequence)
  {
    longestRun := 0;
    var subsequenceLength := |subsequence|;
    var sequenceLength := |sequence|;
    for i := 0 to sequenceLength
      invariant longestRun == MaxRunBelow(sequence, subsequence, i)
    {
      var count := 0;
      ghost var next := i;
      while true
        invariant next == i + count * subsequenceLength <= sequenceLength
        invariant RunAt(sequence, subsequence, i) == count + RunAt(sequence, subsequence, next)
        decreases sequenceLength - next
      {
        var start := i + count * subsequenceLength;
        var end := start + subsequenceLength;
        if end <= sequenceLength && sequence[start..end] == subsequence {
          TileStep(sequence, subsequence, start);
          NextOffset(i, count, subsequenceLength);
          count := count + 1;
          next := end;
        } else {
          TileFails(sequence, subsequence, start);
          break;
        }
      }
      longestRun := if longestRun < count then count else longestRun;
    }
  }

  // ---------------------------------------------------------------------
  // Properties of runs

  /** One step of a run: `k > 0` copies at `i` are one tile at `i` followed by
      `k - 1` copies right after it. */
  lemma CopiesStep(s: string, motif: string, i: nat, k: nat)
    requires k > 0
    ensures CopiesAt(s, motif, i, k) <==> TileAt(s, motif, i) && CopiesAt(s, motif, i + |motif|, k - 1)
  {
    var m := |motif|;
    assert k * m == m + (k - 1) * m;
    var e := i + k * m;
    if CopiesAt(s, motif, i, k) {
      var w := s[i..e];
      assert w == motif + Repeat(motif, k - 1);
      assert s[i..i + m] == w[..m];
      assert s[i + m..e] == w[m..];
    }
    if TileAt(s, motif, i) && CopiesAt(s, motif, i + m, k - 1) {
      assert s[i..e] == s[i..i + m] + s[i + m..e];
    }
  }

  /** The run at `i` is at least `k` exactly when `k` copies start at `i`. */
  lemma {:induction false} CopiesIffRun(s: string, motif: string, i: nat, k: nat)
    requires |motif| > 0 && i <= |s|
    ensures CopiesAt(s, motif, i, k) <==> k <= RunAt(s, motif, i)
    decreases k
  {
    if k > 0 {
      CopiesStep(s, motif, i, k);
      if TileAt(s, motif, i) {
        CopiesIffRun(s, motif, i + |motif|, k - 1);
      }
    }
  }

  /** A run starting at `i` fits inside `s`. */
  lemma RunFits(s: string, motif: string, i: nat)
    requires |motif| > 0
    ensures i + RunAt(s, motif, i) * |motif| <= |s| || RunAt(s, motif, i) == 0
  {
    if i <= |s| {
      CopiesIffRun(s, motif, i, RunAt(s, motif, i));
    }
  }

  /** `MaxRunBelow` is the maximum of the runs at the offsets below `n`. */
  lemma {:induction false} MaxRunBelowIsMax(s: string, motif: string, n: nat)
    requires n <= |s| && |motif| > 0
    ensures forall i :: 0 <= i < n ==> RunAt(s, motif, i) <= MaxRunBelow(s, motif, n)
    ensures n > 0 ==> exists i :: 0 <= i < n && RunAt(s, motif, i) == MaxRunBelow(s, motif, n)
    ensures n == 0 ==> MaxRunBelow(s, motif, n) == 0
  {
    if n > 0 {
      MaxRunBelowIsMax(s, motif, n - 1);
    }
  }

  /** `longest_match` is the maximum, over every offset, of the runs found
      there: it bounds the run at every offset (offsets at or past the end run
      0) and, on a non-empty sequence, is reached at some offset. */
  lemma LongestRunIsMaximum(s: string, motif: string)
    requires |motif| > 0
    ensures forall i: nat :: RunAt(s, motif, i) <= LongestRun(s, motif)
    ensures |s| > 0 ==> exists i :: 0 <= i < |s| && RunAt(s, motif, i) == LongestRun(s, motif)
    ensures |s| == 0 ==> LongestRun(s, motif) == 0
  {
    MaxRunBelowIsMax(s, motif, |s|);
    forall i: nat | |s| <= i
      ensures RunAt(s, motif, i) == 0
    {
      assert !TileAt(s, motif, i);
    }
  }

  /** The result never exceeds `len(sequence) / len(motif)` (stated without
      division: `k` copies fit in the sequence); in particular it
      is 0 when the motif is longer than the sequence. */
  lemma LongestRunBound(s: string, motif: string)
    requires |motif| > 0
    ensures LongestRun(s, motif) * |motif| <= |s|
    ensures |motif| > |s| ==> LongestRun(s, motif) == 0
  {
    LongestRunIsMaximum(s, motif);
    var r := LongestRun(s, motif);
    if r > 0 {
      var i :| 0 <= i < |s| && RunAt(s, motif, i) == r;
      RunFits(s, motif, i);
    }
  }

  /** When the result is `k > 0`, some offset holds `k` back-to-back copies of
      the motif, and no offset holds more than `k` (so none holds `k + 1`). */
  lemma LongestRunWitness(s: string, motif: string)
    requires |motif| > 0 && LongestRun(s, motif) > 0
    ensures exists i :: 0 <= i < |s| && CopiesAt(s, motif, i, LongestRun(s, motif))
    ensures forall j: nat, n: nat :: CopiesAt(s, motif, j, n) ==> n <= LongestRun(s, motif)
  {
    var k := LongestRun(s, motif);
    LongestRunIsMaximum(s, motif);
    var i :| 0 <= i < |s| && RunAt(s, motif, i) == k;
    CopiesIffRun(s, motif, i, k);
    forall j: nat, n: nat | CopiesAt(s, motif, j, n)
      ensures n <= k
    {
      CopiesIffRun(s, motif, j, n);
    }
  }

  /** The motif occurs somewhere in the sequence exactly when the result is at least 1. */
  lemma LongestRunPositiveIffOccurs(s: string, motif: string)
    requires |motif| > 0
    ensures LongestRun(s, motif) >= 1 <==> exists i: nat :: TileAt(s, motif, i)
  {
    LongestRunIsMaximum(s, motif);
    if exists i: nat :: TileAt(s, motif, i) {
      var i: nat :| TileAt(s, motif, i);
      assert RunAt(s, motif, i) >= 1;
    }
    if LongestRun(s, motif) >= 1 {
      var i :| 0 <= i < |s| && RunAt(s, motif, i) == LongestRun(s, motif);
      assert TileAt(s, motif, i);
    }
  }

  /** A sequence made of exactly `k` copies of the motif counts `k`. */
  lemma LongestRunOfRepeat(motif: string, k: nat)
    requires |motif| > 0
    ensures LongestRun(Repeat(motif, k), motif) == k
  {
    var s := Repeat(motif, k);
    LongestRunBound(s, motif);
    if k > 0 {
      assert s[0..k * |motif|] == s;
      CopiesIffRun(s, motif, 0, k);
      LongestRunIsMaximum(s, motif);
      assert LongestRun(s, motif) * |motif| <= k * |motif|;
      MulMonotone(LongestRun(s, motif), k, |motif|);
    }
  }

  lemma MulMonotone(a: nat, b: nat, m: nat)
    requires m > 0 && a * m <= b * m
    ensures a <= b
  {
  }

  /** Three copies of AGATC followed by other letters count 3. */
  lemma ExampleThreeRepeats()
    ensures LongestRun("AGATCAGATCAGATCTTT", "AGATC") == 3
  {
    var s := "AGATCAGATCAGATCTTT";
    var m := "AGATC";
    assert s[0..15] == Repeat(m, 3);
    CopiesIffRun(s, m, 0, 3);
    LongestRunIsMaximum(s, m);
    LongestRunBound(s, m);
  }
}
