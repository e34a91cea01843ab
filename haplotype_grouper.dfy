/**
 * HaplotypeGrouper: `haplotype_analysis` of dna/app.py. Records are grouped
 * under the signature string `"<agatc>_<ttttttct>_..._<tctg>"`; the
 * insertion-ordered dictionary is a list of (signature, names) pairs in
 * insertion order.
 */
module HaplotypeGrouper {
  import opened Wrappers
  import opened Profiles

  // ---------------------------------------------------------------------
  // Signatures

  /** The character of decimal digit `d`. */
  function DigitChar(d: nat): (c: char)
    requires d < 10
    ensures '0' <= c <= '9'
    ensures c == '0' <==> d == 0
  {
    ('0' as int + d) as char
  }

  /** `str(n)` for a non-negative integer: decimal digits, no leading zero. */
  function Digits(n: nat): (r: string)
    ensures |r| > 0
    ensures forall i :: 0 <= i < |r| ==> '0' <= r[i] <= '9'
    ensures r[0] == '0' <==> n == 0
  {
    if n < 10 then [DigitChar(n)] else Digits(n / 10) + [DigitChar(n % 10)]
  }

  lemma {:induction false} DigitsInjective(a: nat, b: nat)
    requires Digits(a) == Digits(b)
    ensures a == b
  {
    if a < 10 && b < 10 {
      assert DigitChar(a) == Digits(a)[0];
    } else if a >= 10 && b >= 10 {
      var da, db := Digits(a), Digits(b);
      assert da[|da| - 1] == DigitChar(a % 10) && db[|db| - 1] == DigitChar(b % 10);
      assert Digits(a / 10) == da[..|da| - 1];
      assert Digits(b / 10) == db[..|db| - 1];
      DigitsInjective(a / 10, b / 10);
    }
  }

  /** `str(n)` (or `f"{n}"`) for any integer: a `-` sign before the digits of
      a negative number. */
  function Decimal(n: int): (r: string)
    ensures |r| > 0
    ensures forall i :: 0 <= i < |r| ==> r[i] != '_'
    ensures r[0] == '-' <==> n < 0
    ensures n >= 0 ==> r == Digits(n)
  {
    if n < 0 then "-" + Digits(-n) else Digits(n)
  }

  /** Distinct integers print as distinct decimal strings. */
  lemma DecimalInjective(a: int, b: int)
    requires Decimal(a) == Decimal(b)
    ensures a == b
  {
    if a < 0 && b < 0 {
      assert Digits(-a) == Decimal(a)[1..];
      assert Digits(-b) == Decimal(b)[1..];
      DigitsInjective(-a, -b);
    } else if a >= 0 && b >= 0 {
      DigitsInjective(a, b);
    }
  }

  /** The number of `_` characters in `s`. */
  function Separators(s: string): nat
  {
    if |s| == 0 then 0 else (if s[0] == '_' then 1 else 0) + Separators(s[1..])
  }

  lemma {:induction false} SeparatorsAppend(a: string, b: string)
    ensures Separators(a + b) == Separators(a) + Separators(b)
  {
    if |a| == 0 {
      assert a + b == b;
    } else {
      assert (a + b)[0] == a[0];
      assert (a + b)[1..] == a[1..] + b;
      SeparatorsAppend(a[1..], b);
    }
  }

  lemma {:induction false} NoSeparators(s: string)
    requires forall i :: 0 <= i < |s| ==> s[i] != '_'
    ensures Separators(s) == 0
  {
    if |s| > 0 {
      assert s[0] != '_';
      NoSeparators(s[1..]);
    }
  }

  /** The counts joined with `_`, as the f-string of `haplotype_analysis` writes
      them: one `_` between neighbouring counts, the first count in front. */
  function Signature(counts: seq<int>): (r: string)
    ensures r == "" <==> |counts| == 0
    ensures |counts| > 0 ==> Separators(r) == |counts| - 1
    ensures |counts| > 0 ==> Decimal(counts[0]) <= r
  {
    if |counts| == 0 then ""
    else if |counts| == 1 then
      NoSeparators(Decimal(counts[0]));
      Decimal(counts[0])
    else
      var head := Decimal(counts[0]);
      var rest := Signature(counts[1..]);
      NoSeparators(head);
      SeparatorsAppend(head, "_");
      SeparatorsAppend(head + "_", rest);
      assert (head + "_" + rest)[..|head|] == head;
      head + "_" + rest
  }

  /** A separator that occurs in neither left part splits both sides alike. */
  lemma SplitAtSeparator(u: string, v: string, u': string, v': string)
    requires forall i :: 0 <= i < |u| ==> u[i] != '_'
    requires forall i :: 0 <= i < |u'| ==> u'[i] != '_'
    requires u + "_" + v == u' + "_" + v'
    ensures u == u' && v == v'
  {
    var w := u + "_" + v;
    assert w[|u|] == '_';
    assert w[|u'|] == '_';
    assert forall k :: 0 <= k < |u| ==> w[k] == u[k];
    assert forall k :: 0 <= k < |u'| ==> w[k] == u'[k];
    assert |u| == |u'|;
    assert u == w[..|u|] && u' == w[..|u'|];
    assert v == w[|u| + 1..] && v' == w[|u'| + 1..];
  }

  /** Where the separators of a signature are. */
  lemma SignatureShape(p: seq<int>)
    ensures Signature(p) == "" <==> |p| == 0
    ensures |p| == 1 ==> forall i :: 0 <= i < |Signature(p)| ==> Signature(p)[i] != '_'
    ensures |p| >= 2 ==> |Decimal(p[0])| < |Signature(p)| && Signature(p)[|Decimal(p[0])|] == '_'
  {
    if |p| > 0 {
      assert |Decimal(p[0])| > 0;
    }
  }

  /** Two signatures are equal exactly when the count lists are: the
      serialization loses nothing. */
  lemma {:induction false} SignatureInjective(p: seq<int>, q: seq<int>)
    ensures Signature(p) == Signature(q) <==> p == q
  {
    if Signature(p) == Signature(q) {
      SignatureShape(p);
      SignatureShape(q);
      if |p| == 1 && |q| == 1 {
        DecimalInjective(p[0], q[0]);
      } else if |p| >= 2 && |q| >= 2 {
        SplitAtSeparator(Decimal(p[0]), Signature(p[1..]), Decimal(q[0]), Signature(q[1..]));
        DecimalInjective(p[0], q[0]);
        SignatureInjective(p[1..], q[1..]);
        assert p == [p[0]] + p[1..] && q == [q[0]] + q[1..];
      }
    }
  }

  function SignatureOf(r: Record): string
  {
    Signature(r.counts)
  }

  // ---------------------------------------------------------------------
  // What a grouping must be

  /** One dictionary entry: a signature and the names filed under it. */
  datatype Haplotype = Haplotype(signature: string, names: seq<string>)

  /** The names of the records with signature `sig`, in record order. */
  function NamesWith(records: seq<Record>, sig: string): seq<string>
  {
    if |records| == 0 then []
    else
      var last := records[|records| - 1];
      NamesWith(records[..|records| - 1], sig) + (if SignatureOf(last) == sig then [last.name] else [])
  }

  /** The position of the first record with signature `sig` (`|records|` if none). */
  function FirstSeen(records: seq<Record>, sig: string): (f: nat)
    ensures f <= |records|
  {
    if |records| == 0 then 0
    else if SignatureOf(records[0]) == sig then 0
    else 1 + FirstSeen(records[1..], sig)
  }

  /** `FirstSeen` is the first position holding `sig`, if there is one. */
  lemma {:induction false} FirstSeenIsFirst(records: seq<Record>, sig: string)
    ensures FirstSeen(records, sig) < |records| ==> SignatureOf(records[FirstSeen(records, sig)]) == sig
    ensures forall j :: 0 <= j < FirstSeen(records, sig) ==> SignatureOf(records[j]) != sig
  {
    if |records| > 0 && SignatureOf(records[0]) != sig {
      FirstSeenIsFirst(records[1..], sig);
      forall j | 0 < j < FirstSeen(records, sig) ensures SignatureOf(records[j]) != sig {
        assert records[j] == records[1..][j - 1];
      }
    }
  }

  /** No two groups share a signature (dictionary keys are unique). */
  predicate DistinctSignatures(groups: seq<Haplotype>)
  {
    forall g1, g2 :: 0 <= g1 < g2 < |groups| ==> groups[g1].signature != groups[g2].signature
  }

  /** Each group lists exactly the names of the records with its signature, in
      record order, and its signature is that of some record. */
  predicate GroupsHoldNames(records: seq<Record>, groups: seq<Haplotype>)
  {
    forall g :: 0 <= g < |groups| ==>
      groups[g].names == NamesWith(records, groups[g].signature)
      && FirstSeen(records, groups[g].signature) < |records|
  }

  /** Some group has signature `sig`. */
  predicate Filed(groups: seq<Haplotype>, sig: string)
  {
    exists g :: 0 <= g < |groups| && groups[g].signature == sig
  }

  /** Every record's signature has a group. */
  predicate AllFiled(records: seq<Record>, groups: seq<Haplotype>)
  {
    forall i :: 0 <= i < |records| ==> Filed(groups, SignatureOf(records[i]))
  }

  /** Groups appear in the order their signatures are first seen. */
  predicate FirstSeenOrder(records: seq<Record>, groups: seq<Haplotype>)
  {
    forall g1, g2 :: 0 <= g1 < g2 < |groups| ==>
      FirstSeen(records, groups[g1].signature) < FirstSeen(records, groups[g2].signature)
  }

  /** `groups` is the dictionary `haplotype_analysis` builds from `records`. */
  predicate IsGrouping(records: seq<Record>, groups: seq<Haplotype>)
  {
    DistinctSignatures(groups) && GroupsHoldNames(records, groups)
    && AllFiled(records, groups) && FirstSeenOrder(records, groups)
  }

  // ---------------------------------------------------------------------
  // The grouping loop

  /** `haplotype in haplotypes`: the position of the entry with that signature. */
  function Lookup(groups: seq<Haplotype>, sig: string): (r: Option<nat>)
    ensures r.Some? ==> r.value < |groups| && groups[r.value].signature == sig
    ensures r.None? ==> forall g :: 0 <= g < |groups| ==> groups[g].signature != sig
  {
    if |groups| == 0 then None
    else if groups[0].signature == sig then Some(0)
    else match Lookup(groups[1..], sig)
      case None => None
      case Some(g) => Some(g + 1)
  }

  lemma NamesWithAppend(records: seq<Record>, r: Record, sig: string)
    ensures NamesWith(records + [r], sig)
            == NamesWith(records, sig) + (if SignatureOf(r) == sig then [r.name] else [])
  {
    assert (records + [r])[..|records|] == records;
  }

  lemma {:induction false} NamesWithAbsent(records: seq<Record>, sig: string)
    requires forall j :: 0 <= j < |records| ==> SignatureOf(records[j]) != sig
    ensures NamesWith(records, sig) == []
  {
    if |records| > 0 {
      NamesWithAbsent(records[..|records| - 1], sig);
    }
  }

  lemma FirstSeenAppend(records: seq<Record>, r: Record, sig: string)
    ensures FirstSeen(records + [r], sig)
            == if FirstSeen(records, sig) < |records| then FirstSeen(records, sig)
               else if SignatureOf(r) == sig then |records| else |records| + 1
  {
    var rs := records + [r];
    FirstSeenIsFirst(records, sig);
    FirstSeenIsFirst(rs, sig);
    assert forall j :: 0 <= j < |records| ==> rs[j] == records[j];
    assert rs[|records|] == r;
  }

  /** What appending one record does to the names and first positions. */
  lemma AppendEffects(records: seq<Record>, r: Record)
    ensures forall t: string :: NamesWith(records + [r], t)
              == NamesWith(records, t) + (if SignatureOf(r) == t then [r.name] else [])
    ensures forall t: string :: FirstSeen(records + [r], t)
              == if FirstSeen(records, t) < |records| then FirstSeen(records, t)
                 else if SignatureOf(r) == t then |records| else |records| + 1
  {
    forall t: string
      ensures NamesWith(records + [r], t) == NamesWith(records, t) + (if SignatureOf(r) == t then [r.name] else [])
      ensures FirstSeen(records + [r], t) == if FirstSeen(records, t) < |records| then FirstSeen(records, t)
                                            else if SignatureOf(r) == t then |records| else |records| + 1
    {
      NamesWithAppend(records, r, t);
      FirstSeenAppend(records, r, t);
    }
  }

  /** Filing a record under a signature that already has a group. */
  lemma GroupingStepExisting(records: seq<Record>, r: Record, groups: seq<Haplotype>, g: nat)
    requires IsGrouping(records, groups)
    requires g < |groups| && groups[g].signature == SignatureOf(r)
    ensures IsGrouping(records + [r], groups[g := groups[g].(names := groups[g].names + [r.name])])
  {
    var rs := records + [r];
    var gs := groups[g := groups[g].(names := groups[g].names + [r.name])];
    AppendEffects(records, r);
    assert forall h :: 0 <= h < |gs| ==> gs[h].signature == groups[h].signature;
    assert DistinctSignatures(gs);
    assert GroupsHoldNames(rs, gs);
    assert FirstSeenOrder(rs, gs);
    forall i | 0 <= i < |rs|
      ensures Filed(gs, SignatureOf(rs[i]))
    {
      if i < |records| {
        assert rs[i] == records[i];
        assert Filed(groups, SignatureOf(records[i]));
        var h :| 0 <= h < |groups| && groups[h].signature == SignatureOf(records[i]);
        assert gs[h].signature == SignatureOf(rs[i]);
      } else {
        assert gs[g].signature == SignatureOf(rs[i]);
      }
    }
  }

  /** No record before the new one has its signature when no group does. */
  lemma UnseenSignature(records: seq<Record>, groups: seq<Haplotype>, s: string)
    requires AllFiled(records, groups)
    requires forall h :: 0 <= h < |groups| ==> groups[h].signature != s
    ensures forall j :: 0 <= j < |records| ==> SignatureOf(records[j]) != s
    ensures NamesWith(records, s) == []
    ensures FirstSeen(records, s) == |records|
  {
    forall j | 0 <= j < |records| ensures SignatureOf(records[j]) != s {
      assert Filed(groups, SignatureOf(records[j]));
    }
    NamesWithAbsent(records, s);
    FirstSeenIsFirst(records, s);
  }

  lemma NewGroupHoldsNames(records: seq<Record>, r: Record, groups: seq<Haplotype>)
    requires GroupsHoldNames(records, groups)
    requires forall h :: 0 <= h < |groups| ==> groups[h].signature != SignatureOf(r)
    requires NamesWith(records, SignatureOf(r)) == []
    ensures GroupsHoldNames(records + [r], groups + [Haplotype(SignatureOf(r), [r.name])])
  {
    var rs := records + [r];
    var s := SignatureOf(r);
    var gs := groups + [Haplotype(s, [r.name])];
    AppendEffects(records, r);
    forall h | 0 <= h < |gs|
      ensures gs[h].names == NamesWith(rs, gs[h].signature) && FirstSeen(rs, gs[h].signature) < |rs|
    {
      if h < |groups| {
        assert gs[h] == groups[h];
      }
    }
  }

  lemma NewGroupKeepsOrder(records: seq<Record>, r: Record, groups: seq<Haplotype>)
    requires GroupsHoldNames(records, groups) && FirstSeenOrder(records, groups)
    requires FirstSeen(records, SignatureOf(r)) == |records|
    ensures FirstSeenOrder(records + [r], groups + [Haplotype(SignatureOf(r), [r.name])])
  {
    var rs := records + [r];
    var gs := groups + [Haplotype(SignatureOf(r), [r.name])];
    AppendEffects(records, r);
    forall g1, g2 | 0 <= g1 < g2 < |gs|
      ensures FirstSeen(rs, gs[g1].signature) < FirstSeen(rs, gs[g2].signature)
    {
      assert gs[g1] == groups[g1];
      if g2 < |groups| {
        assert gs[g2] == groups[g2];
      }
    }
  }

  lemma NewGroupFilesAll(records: seq<Record>, r: Record, groups: seq<Haplotype>)
    requires AllFiled(records, groups)
    ensures AllFiled(records + [r], groups + [Haplotype(SignatureOf(r), [r.name])])
  {
    var rs := records + [r];
    var gs := groups + [Haplotype(SignatureOf(r), [r.name])];
    forall i | 0 <= i < |rs|
      ensures Filed(gs, SignatureOf(rs[i]))
    {
      if i < |records| {
        assert rs[i] == records[i];
        assert Filed(groups, SignatureOf(records[i]));
        var h :| 0 <= h < |groups| && groups[h].signature == SignatureOf(records[i]);
        assert gs[h].signature == SignatureOf(rs[i]);
      } else {
        assert gs[|groups|].signature == SignatureOf(rs[i]);
      }
    }
  }

  /** Opening a new, empty group for a signature not seen before and filing
      the record there. */
  lemma GroupingStepNew(records: seq<Record>, r: Record, groups: seq<Haplotype>)
    requires IsGrouping(records, groups)
    requires forall h :: 0 <= h < |groups| ==> groups[h].signature != SignatureOf(r)
    ensures IsGrouping(records + [r], groups + [Haplotype(SignatureOf(r), [r.name])])
  {
    var gs := groups + [Haplotype(SignatureOf(r), [r.name])];
    UnseenSignature(records, groups, SignatureOf(r));
    NewGroupHoldsNames(records, r, groups);
    NewGroupKeepsOrder(records, r, groups);
    NewGroupFilesAll(records, r, groups);
    assert forall h :: 0 <= h < |groups| ==> gs[h] == groups[h];
    assert DistinctSignatures(gs);
  }

  /** Opening an empty group and then appending a name to it gives a group
      holding just that name. */
  lemma OpenThenFile(groups: seq<Haplotype>, signature: string, name: string)
    ensures var withGroup := groups + [Haplotype(signature, [])];
            withGroup[|groups| := withGroup[|groups|].(names := withGroup[|groups|].names + [name])]
            == groups + [Haplotype(signature, [name])]
  {
    var withGroup := groups + [Haplotype(signature, [])];
    assert withGroup[|groups|].names + [name] == [name];
  }

  /** One pass of the loop body: file `r` under its signature, opening a new
      group at the end when the signature has not been seen. */
  function FileRecord(groups: seq<Haplotype>, r: Record): seq<Haplotype>
  {
    match Lookup(groups, SignatureOf(r))
    case None => groups + [Haplotype(SignatureOf(r), [r.name])]
    case Some(g) => groups[g := groups[g].(names := groups[g].names + [r.name])]
  }

  /** The groups the loop has built after filing `records`, one by one. */
  function Grouped(records: seq<Record>): seq<Haplotype>
    decreases |records|
  {
    if |records| == 0 then []
    else FileRecord(Grouped(records[..|records| - 1]), records[|records| - 1])
  }

  /** Filing the records one by one produces a grouping of them. */
  lemma {:induction false} GroupedIsGrouping(records: seq<Record>)
    ensures IsGrouping(records, Grouped(records))
  {
    if |records| > 0 {
      var init := records[..|records| - 1];
      var r := records[|records| - 1];
      assert records == init + [r];
      GroupedIsGrouping(init);
      var groups := Grouped(init);
      match Lookup(groups, SignatureOf(r))
      case None =>
        GroupingStepNew(init, r, groups);
      case Some(g) =>
        GroupingStepExisting(init, r, groups, g);
    }
  }

  /** `haplotype_analysis`: one group per distinct signature, in first-seen
      order, each listing the names of its records in record order. */
  method HaplotypeAnalysis(dnaRecords: seq<Record>) returns (haplotypes: seq<Haplotype>)
    ensures DistinctSignatures(haplotypes)
    ensures GroupsHoldNames(dnaRecords, haplotypes)
    ensures AllFiled(dnaRecords, haplotypes)
    ensures FirstSeenOrder(dnaRecords, haplotypes)
  {
    haplotypes := [];
    var i := 0;
    while i < |dnaRecords|
      invariant 0 <= i <= |dnaRecords|
      invariant haplotypes == Grouped(dnaRecords[..i])
    {
      var record := dnaRecords[i];
      var haplotype := Signature(record.counts);
      ghost var before := haplotypes;
      var found := Lookup(haplotypes, haplotype);
      if found.None? {
        OpenThenFile(haplotypes, haplotype, record.name);
        haplotypes := haplotypes + [Haplotype(haplotype, [])];
        found := Some(|haplotypes| - 1);
      }
      var g := found.value;
      haplotypes := haplotypes[g := haplotypes[g].(names := haplotypes[g].names + [record.name])];
      assert haplotypes == FileRecord(before, record);
      assert dnaRecords[..i + 1][..i] == dnaRecords[..i];
      i := i + 1;
    }
    assert dnaRecords[..i] == dnaRecords;
    GroupedIsGrouping(dnaRecords);
  }

  // ---------------------------------------------------------------------
  // Consequences of a grouping

  /** Every record falls into exactly one group, and its name is listed there. */
  lemma EachRecordInOneGroup(records: seq<Record>, groups: seq<Haplotype>, i: nat)
    requires IsGrouping(records, groups) && i < |records|
    ensures exists g :: 0 <= g < |groups| && groups[g].signature == SignatureOf(records[i])
    ensures forall g1, g2 ::
              (0 <= g1 < |groups| && 0 <= g2 < |groups|
               && groups[g1].signature == SignatureOf(records[i])
               && groups[g2].signature == SignatureOf(records[i])) ==> g1 == g2
    ensures forall g :: 0 <= g < |groups| && groups[g].signature == SignatureOf(records[i]) ==>
              records[i].name in groups[g].names
  {
    assert Filed(groups, SignatureOf(records[i]));
    forall g | 0 <= g < |groups| && groups[g].signature == SignatureOf(records[i])
      ensures records[i].name in groups[g].names
    {
      NameListed(records, i, SignatureOf(records[i]));
    }
  }

  lemma {:induction false} NameListed(records: seq<Record>, i: nat, sig: string)
    requires i < |records| && SignatureOf(records[i]) == sig
    ensures records[i].name in NamesWith(records, sig)
  {
    var front := records[..|records| - 1];
    if i < |records| - 1 {
      assert front[i] == records[i];
      NameListed(front, i, sig);
    }
  }

  /** Two records share a group exactly when all their counts are equal. */
  lemma SameGroupIffSameCounts(records: seq<Record>, groups: seq<Haplotype>, i: nat, j: nat, g: nat)
    requires IsGrouping(records, groups) && i < |records| && j < |records| && g < |groups|
    requires groups[g].signature == SignatureOf(records[i])
    ensures groups[g].signature == SignatureOf(records[j]) <==> records[i].counts == records[j].counts
  {
    SignatureInjective(records[i].counts, records[j].counts);
  }
}
