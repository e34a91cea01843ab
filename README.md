# STR profiling and matching, modelled in Dafny

This project models the short tandem repeat (STR) engine of a small DNA
identification tool, and proves properties of the model. The tool reads a DNA
sequence and counts, for each STR motif, the longest run of back-to-back
copies of that motif. It then compares the resulting profile with reference
records. Two Python files hold the logic:

- `dna/app.py` (the web application's analysis functions):
  - `longest_match`, the repeat counter;
  - `analyze_dna_sequence`, which builds the profile over the fixed catalog of
    eight motifs, scores each reference record and ranks the matches;
  - `calculate_genetic_distance` and `detect_mutations`;
  - `haplotype_analysis`, which groups records with identical profiles.
- `dna/dna.py` (the command-line tool): its own copy of `longest_match`, and
  the part of `main` that counts the STRs of the CSV header and reports the
  first person who matches on every STR.

Modules, one per component:

| file | module | models |
|---|---|---|
| `wrappers.dfy` | `Wrappers` | the `Option` datatype |
| `repeat_counter.dfy` | `RepeatCounter` | the specification of the longest run, and `longest_match` of dna/app.py |
| `profiles.dfy` | `Profiles` | the motif catalog and the reference record (`DNARecord`) |
| `profile_matcher.dfy` | `ProfileMatcher` | `analyze_dna_sequence` |
| `sequence_comparator.dfy` | `SequenceComparator` | `calculate_genetic_distance`, `detect_mutations` |
| `haplotype_grouper.dfy` | `HaplotypeGrouper` | `haplotype_analysis` |
| `dna_cli.dfy` | `DnaCli` | `longest_match` of dna/dna.py and lines 56-77 of `main` |

Both copies of `longest_match` are written as loops, in the source's shape.
Each is proved equal to the function `RepeatCounter.LongestRun`, which
takes the maximum over all offsets of the number of tiles that match there.
So the two copies agree on every input on which they terminate.
The state the source mutates is kept in local variables of the methods:
the `str_count` dictionary, the `matches` list, the `mutations` list and the
`haplotypes` dictionary.
A dictionary keyed by catalog motif becomes a sequence indexed by catalog
position. The insertion-ordered `haplotypes` dictionary becomes a sequence of
(signature, names) pairs in insertion order.

Where the code and the design description differ, the model follows the code:

- An empty sequence is not rejected: every count is then 0.
- Reference records are not checked at run time. Their shape (one count per
  catalog motif) is the database schema's guarantee, so it is a precondition
  (`Profiles.WellFormed`).
- Stored counts are arbitrary integers. `add_person` (dna/app.py:185-192) and
  dna/populate_db.py store whatever `int()` reads, without a range check, so a
  negative count can reach the analysis. It never equals a profile count, and
  `haplotype_analysis` writes it with its `-` sign into the signature.
- Two empty sequences make `calculate_genetic_distance` divide 0 by 0 and raise.
  The model has an explicit `DivisionByZero` outcome for this.
- The inner loop of `longest_match` never ends when the motif is empty and the
  sequence is not. The precondition `Terminates` admits exactly the other
  inputs, so an empty motif on an empty sequence still gives 0.

## Model

| member | source | states |
|---|---|---|
| `RepeatCounter.LongestMatch` | dna/app.py:34-50 | the nested loop returns the largest run of tiles over all start offsets (`LongestRun`) |
| `RepeatCounter.CopiesIffRun` | dna/app.py:42-48 | the inner loop's count at offset `i` is at least `k` exactly when `k` back-to-back copies of the motif start at `i` |
| `RepeatCounter.MaxRunBelowIsMax` | dna/app.py:40-49 | the running `longest_run` after the offsets below `n` bounds each of their counts and equals one of them |
| `RepeatCounter.LongestRunIsMaximum` | dna/app.py:40-49 | the result bounds the run at every offset, is reached at some offset of a non-empty sequence, and is 0 for an empty sequence |
| `RepeatCounter.LongestRunBound` | dna/app.py:36-50 | result × motif length ≤ sequence length, so the result is 0 when the motif is longer than the sequence |
| `RepeatCounter.LongestRunWitness` | dna/app.py:40-49 | a result `k > 0` has `k` back-to-back copies at some offset, and no offset has more than `k` |
| `RepeatCounter.LongestRunPositiveIffOccurs` | dna/dna.py:97-109 | the result is at least 1 exactly when the motif occurs somewhere in the sequence |
| `RepeatCounter.LongestRunOfRepeat` | dna/app.py:40-49 | a sequence made of exactly `k` copies of the motif counts `k` |
| `RepeatCounter.ExampleThreeRepeats` | dna/app.py:34-50 | `AGATCAGATCAGATCTTT` with motif `AGATC` counts 3 |
| `Profiles.CatalogShape` | dna/app.py:54 | the catalog has 8 motifs, all non-empty |
| `ProfileMatcher.BuildProfile` | dna/app.py:54-58 | `str_count` has one entry per catalog motif, each the longest run of that motif |
| `ProfileMatcher.ScoreRecord` | dna/app.py:65-70 | the scoring loop computes `MatchScore` |
| `ProfileMatcher.MatchScoreCountsAgreements` | dna/app.py:65-70 | the score is the size of the set of motifs whose counts agree, lies in 0..8, and is 8 exactly when the profiles are equal |
| `ProfileMatcher.Confidence` | dna/app.py:66-72 | `match_score / total_strs * 100` with `total_strs` the catalog size: 12.5 per agreeing motif, within 0..100 and 100 exactly when all 8 motifs agree |
| `ProfileMatcher.ConfidenceOrdersLikeScore` | dna/app.py:72 | confidence is 12.5 × score, so ordering or equating confidences is the same as doing that to scores |
| `ProfileMatcher.CollectMatches` | dna/app.py:62-89 | the record loop appends exactly the records with a positive score, in record order |
| `ProfileMatcher.CandidatesArePositive` | dna/app.py:72-89 | every collected match has score in 1..8, confidence `score × 100 / 8`, and comes from some record |
| `ProfileMatcher.CandidatesCountRecords` | dna/app.py:64-89 | a record with positive score is collected as many times as it occurs among the records, a record with score 0 never |
| `ProfileMatcher.SortByConfidence` | dna/app.py:92 | the stable descending sort: non-increasing confidence, a permutation, and entries of equal confidence in their input order |
| `ProfileMatcher.StableRankingIsUnique` | dna/app.py:92 | two ranked lists with the same entries, in the same order within each confidence, are equal: the sort result is fully determined |
| `ProfileMatcher.AnalyzeDnaSequence` | dna/app.py:52-94 | returns the profile and the sorted positive-score matches; every match has a positive score and scores do not increase along the list |
| `SequenceComparator.Differences` | dna/app.py:101 | the number of positions of the common prefix (where `zip` stops) at which the characters differ, as the size of that set of positions |
| `SequenceComparator.DiffsBelowFacts` | dna/app.py:101 | the difference count over a prefix is symmetric, is 0 exactly when the prefixes are equal, and is the full length exactly when every position differs |
| `SequenceComparator.GeneticDistance` | dna/app.py:96-102 | `None` exactly when the lengths differ; a division by zero exactly when both are empty; otherwise `Differences`/length in [0, 1], 0 exactly when equal, 1 exactly when every position differs |
| `SequenceComparator.GeneticDistanceSymmetric` | dna/app.py:98-102 | the distance does not depend on the order of the arguments |
| `SequenceComparator.ExampleDistance` | dna/app.py:96-102 | `AGTC` against `AGTT` gives 1/4 = 0.25; `AGTC` against `AGT` gives `None` |
| `SequenceComparator.SubstitutionsAreReal` | dna/app.py:110-116 | every entry of the substitution list reports a position below the bound whose two characters differ, with those characters and the kind `substitution` |
| `SequenceComparator.SubstitutionsIncreasing` | dna/app.py:109-116 | the entries are in strictly increasing position order |
| `SequenceComparator.SubstitutionsComplete` | dna/app.py:109-116 | every position below the bound where the sequences differ is reported |
| `SequenceComparator.SubstitutionsCount` | dna/app.py:109-116 | there are exactly as many entries as differing positions |
| `SequenceComparator.DetectMutations` | dna/app.py:104-118 | exactly the differing positions of the common prefix are reported, in strictly increasing order, each a substitution with its two differing characters; their number is the difference count |
| `HaplotypeGrouper.Decimal` | dna/app.py:126 | `f"{n}"` of one count: a non-empty string without `_`, starting with `-` exactly when the count is negative, and the plain digits otherwise |
| `HaplotypeGrouper.DecimalInjective` | dna/app.py:126 | distinct counts, negative ones included, print as distinct decimal strings |
| `HaplotypeGrouper.Signature` | dna/app.py:126 | the counts in catalog order, each in decimal, joined with `_`: empty only for no counts, one `_` fewer than there are counts, and starting with the first count |
| `HaplotypeGrouper.SignatureInjective` | dna/app.py:126 | two `_`-joined signatures are equal exactly when the count lists are |
| `HaplotypeGrouper.Lookup` | dna/app.py:128-131 | finds the entry with the given signature, or reports that none has it |
| `HaplotypeGrouper.GroupedIsGrouping` | dna/app.py:124-131 | filing the records one at a time, opening a group for each new signature, yields distinct signatures in first-seen order with every record filed and each group listing exactly its records' names in order |
| `HaplotypeGrouper.HaplotypeAnalysis` | dna/app.py:120-133 | distinct signatures, in first-seen order; every record's signature has a group; each group lists exactly the names of its records, in record order |
| `HaplotypeGrouper.EachRecordInOneGroup` | dna/app.py:124-131 | each record's signature has exactly one group, and that group lists its name |
| `HaplotypeGrouper.SameGroupIffSameCounts` | dna/app.py:126-131 | two records share a group exactly when all their counts are equal |
| `DnaCli.StrNames` | dna/dna.py:30 | the STR names are the header columns after the first |
| `DnaCli.LongestMatch` | dna/dna.py:80-115 | the CLI copy computes `LongestRun` too, so it agrees with the dna/app.py copy |
| `DnaCli.CountStrs` | dna/dna.py:56-59 | `str_count` has one entry per STR name, each the longest run of that name |
| `DnaCli.FindFirstMatch` | dna/dna.py:66-76 | returns the first person whose every STR count matches, with no earlier full match; returns none exactly when nobody matches |
| `DnaCli.Identify` | dna/dna.py:56-77 | prints the name of the first fully matching person, or " No match" when nobody matches on all STRs |

## Left out

- Flask routes, templates, flash messages, JSON endpoints and upload decoding (dna/app.py:136-250): web plumbing.
- The SQLAlchemy `DNARecord` model and `DNARecord.query.all()`: a foreign database call. The records are a parameter instead. The `id` and `created_at` columns play no part in the analysis.
- Reading `sys.argv`, opening files, CSV `DictReader` parsing, `.strip()` of the sequence and `int()` of the CSV fields in dna/dna.py `main` (lines 14-50, 71). These are I/O. The model takes a trimmed sequence and integer rows aligned with the STR columns.
- Duplicate column names in the CSV header are not modelled. DictReader would then read the last column of that name, but the model reads by column position.
- dna/populate_db.py and dna/run.py: CSV import into the database and process bootstrapping, both I/O.
- Floating point: confidence and distance are exact rationals (Dafny `real`). Python's float rounding is not modelled, and `0.25` in `ExampleDistance` is the exact value.
- `print` in dna/dna.py is modelled as the returned output line, without the newline.
- The unused numpy, sklearn and pandas imports.
