/**
 * The fixed STR catalog and the reference records of dna/app.py.
 * A `DNARecord` row is a name with one count per catalog motif; its columns
 * are read by catalog position rather than by attribute name.
 */
module Profiles {

  /** `str_names` of `analyze_dna_sequence`, in catalog order. */
  const Catalog: seq<string> := ["AGATC", "TTTTTTCT", "AATG", "TCTAG", "GATA", "TATC", "GAAA", "TCTG"]

  /** `total_strs = len(str_names)`, the number of catalog motifs. */
  const TotalStrs: nat := |Catalog|

  lemma CatalogShape()
    ensures TotalStrs == 8
    ensures forall k :: 0 <= k < |Catalog| ==> |Catalog[k]| > 0
  {
  }

  /** A reference record: a name and its count for each catalog motif, in
      catalog order (the columns agatc ... tctg). The counts are whatever was
      stored, so they may be negative. */
  datatype Record = Record(name: string, counts: seq<int>)

  /** The record has exactly one count per catalog motif. */
  predicate WellFormed(r: Record)
  {
    |r.counts| == TotalStrs
  }

  predicate AllWellFormed(records: seq<Record>)
  {
    forall i :: 0 <= i < |records| ==> WellFormed(records[i])
  }
}
