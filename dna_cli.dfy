/**
 * DnaCli: the STR counting and first-full-match search of `main` in
 * dna/dna.py, and that file's own copy of `longest_match`. The CSV rows are
 * given as people whose counts are already converted with `int`, one per STR
 * column in column order.
 */
module DnaCli {
  import opened Wrappers
  import opened RepeatCounter

  /** A row of the database file: the `name` column and the STR columns. */
  datatype Person = Person(name: string, counts: seq<int>)

  /** What `main` prints when nobody matches (the source writes a leading space). */
  const NoMatch: string := " No match"

  /** `reader.fieldnames[1:]`: every column after the name column. */
  function StrNames(fieldnames: seq<string>): (names: seq<string>)
    ensures |fieldnames| > 0 ==> fieldnames == [fieldnames[0]] + names
    ensures |fieldnames| == 0 ==> names == []
  {
    if |fieldnames| == 0 then [] else fieldnames[1..]
  }

  /** Every STR count of the person equals the count computed from the sequence. */
  predicate FullMatch(person: Person, strCount: seq<nat>)
    requires |person.counts| == |strCount|
  {
    forall k :: 0 <= k < |strCount| ==> person.counts[k] == strCount[k]
  }

  /** `longest_match` of dna/dna.py, the same loop as the copy in dna/app.py. */
  method LongestMatch(sequence: string, subsequence: string) returns (longestRun: nat)
    requires Terminates(sequence, subsequence)
    ensures longestRun == LongestRun(sequence, subsequence)
  {
    longestRun := 0;
    var subsequenceLength := |subsequence|;
    var sequenceLength := |sequence|;
    for i := 0 to sequenceLength
      invariant longestRun == MaxRunBelow(sequence, subsequence, i)
    {
      var count := 0;
      ghost var next := i;
      while true
        invariant next == i + count * subsequenceLength <= sequenceLength
        invariant RunAt(sequence, subsequence, i) == count + RunAt(sequence, subsequence, next)
        decreases sequenceLength - next
      {
        var start := i + count * subsequenceLength;
        var end := start + subsequenceLength;
        if end <= sequenceLength && sequence[start..end] == subsequence {
          TileStep(sequence, subsequence, start);
          NextOffset(i, count, subsequenceLength);
          count := count + 1;
          next := end;
        } else {
          TileFails(sequence, subsequence, start);
          break;
        }
      }
      longestRun := if longestRun < count then count else longestRun;
    }
  }

  /** Fills `str_count`, one entry per STR name, in column order. */
  method CountStrs(dnaSequence: string, strNames: seq<string>) returns (strCount: seq<nat>)
    requires forall k :: 0 <= k < |strNames| ==> Terminates(dnaSequence, strNames[k])
    ensures |strCount| == |strNames|
    ensures forall k :: 0 <= k < |strNames| ==> strCount[k] == LongestRun(dnaSequence, strNames[k])
  {
    strCount := [];
    for k := 0 to |strNames|
      invariant |strCount| == k
      invariant forall j :: 0 <= j < k ==> strCount[j] == LongestRun(dnaSequence, strNames[j])
    {
      var n := LongestMatch(dnaSequence, strNames[k]);
      strCount := strCount + [n];
    }
  }

  /** The scan over `people`: the first person, in row order, who matches on
      every STR, or `None` when nobody does. */
  method FindFirstMatch(people: seq<Person>, strCount: seq<nat>) returns (found: Option<nat>)
    requires forall i :: 0 <= i < |people| ==> |people[i].counts| == |strCount|
    ensures found.Some? ==> found.value < |people| && FullMatch(people[found.value], strCount)
    ensures found.Some? ==> forall j :: 0 <= j < found.value ==> !FullMatch(people[j], strCount)
    ensures found.None? <==> forall j :: 0 <= j < |people| ==> !FullMatch(people[j], strCount)
  {
    for p := 0 to |people|
      invariant forall j :: 0 <= j < p ==> !FullMatch(people[j], strCount)
    {
      var person := people[p];
      var matched := true;
      for k := 0 to |strCount|
        invariant matched <==> forall l :: 0 <= l < k ==> person.counts[l] == strCount[l]
      {
        if person.counts[k] != strCount[k] {
          matched := false;
          break;
        }
      }
      if matched {
        return Some(p);
      }
    }
    return None;
  }

  /** The person's STR counts are those of the sequence, column by column. */
  predicate MatchesSequence(person: Person, strNames: seq<string>, dnaSequence: string)
    requires |person.counts| == |strNames|
    requires forall k :: 0 <= k < |strNames| ==> Terminates(dnaSequence, strNames[k])
  {
    forall k :: 0 <= k < |strNames| ==> person.counts[k] == LongestRun(dnaSequence, strNames[k])
  }

  /** `main` after the files are read: the line it prints for a trimmed
      sequence, the header row `fieldnames` and the data rows `people`. It
      names the first person, in row order, whose every STR count equals the
      sequence's, and prints " No match" when nobody's does. */
  method Identify(fieldnames: seq<string>, dnaSequence: string, people: seq<Person>) returns (output: string)
    requires forall k :: 0 <= k < |StrNames(fieldnames)| ==> Terminates(dnaSequence, StrNames(fieldnames)[k])
    requires forall i :: 0 <= i < |people| ==> |people[i].counts| == |StrNames(fieldnames)|
    ensures forall i :: 0 <= i < |people| && MatchesSequence(people[i], StrNames(fieldnames), dnaSequence)
              && (forall j :: 0 <= j < i ==> !MatchesSequence(people[j], StrNames(fieldnames), dnaSequence))
              ==> output == people[i].name
    ensures (forall j :: 0 <= j < |people| ==> !MatchesSequence(people[j], StrNames(fieldnames), dnaSequence))
              ==> output == NoMatch
  {
    var strNames := StrNames(fieldnames);
    var strCount := CountStrs(dnaSequence, strNames);
    assert forall i :: 0 <= i < |people| ==>
      (FullMatch(people[i], strCount) <==> MatchesSequence(people[i], strNames, dnaSequence));
    var found := FindFirstMatch(people, strCount);
    if found.Some? {
      output := people[found.value].name;
    } else {
      output := NoMatch;
    }
  }
}
