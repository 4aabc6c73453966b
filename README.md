# recode_multi: a verified model of the multiallelic-site filter

`scripts/recode_multi.py` filters a variant table. GATK VariantsToTable writes such a table with one row per locus and ALT allele. The script has these columns: `CHROM`, `POS`, `REF`, `ALT`, `AF` and one `*.GT` genotype column per sample. The script keys every row by its locus `CHROM-POS`. It then builds two sets of rows:

- **Clean rows.** These are the loci with a single row whose REF is not `N` (`keep_goodloci`, `rm_multiallelic`).
- **No-reference rows.** These come from loci with exactly two rows (two ALT alleles) where the first row's REF is not a substring of either row's cleaned genotype string and neither ALT is `*` (see below). Each such pair collapses into one row with ALT `alt1+alt2` and the second row's AF (`get_noref_snps`, `adjust_freqs`).

The output is the no-reference rows followed by the clean rows (`recombine`).

The model has these modules:

- `Text` (`text.dfy`): the Python string operations used:
  - `str.replace` of one character by nothing;
  - `''.join`;
  - substring `in`;
  - `"%s" % int`, with its inverse.
- `Sequences` (`sequences.dfy`): boolean-mask selection `df[mask]` and `pd.concat`, with their algebra.
- `Counting` (`counting.dfy`): `table`, the `collections.Counter` filled in a loop.
  - A Counter is its keys in insertion order plus a count map.
  - The `Table` method is proved to compute the occurrence counts `Occurrences` and the first-appearance key order `Distinct`.
- `Variants` (`variants.dfy`):
  - the row datatype; the allele frequency is a type parameter, since it is only copied;
  - the locus key and its parser;
  - the locus column and per-locus row selection.
- `RecodeMulti` (`recode.dfy`): the filter itself.
  - `adjust_freqs` overwrites a two-element array in place.
  - `get_noref_snps` is a loop over the two-row loci, with an inner loop over the pair that has a `keep` flag and a `break`.
  - `recombine` extends the caller's list object, `FrameList`.
  - `main` between reading and writing is `Recode`.
  - `RescuePair`, `LociWithTwoRows`, `GetNorefSnps` and `Recode` are proved equal to pure specifications: `Rescuable` with `Merge`, `LociWithCount`, `NorefSnps` and `Recoded`.
  - `AdjustFreqs` and `Recombine` state the new array contents, the result and the new contents of the caller's list.
  - `keep_goodloci` has no loop of its own. It is the function `KeepGoodLoci`, which reads the Counter's keys and counts as `Distinct` and `Occurrences`; `Table` is proved to compute exactly these.
- `RecodeProperties` (`properties.dfy`): what the written table satisfies.
  - The fate of every locus.
  - No locus twice.
  - The rescue rule spelled out.
  - The order of the rescued rows.
  - What happens when the filter is run again on its own output.

In three places the code's behaviour is easy to misread. The model follows the code:

- **Genotype cleaning (line 124).** The comment on line 123 calls the result "a string of alleles", but the code does not delete every `|`. `.str.replace("/", "")` removes `/` inside each genotype. The following `.replace("|", "")` is `Series.replace`, which only blanks a genotype that is exactly `|`, so a phased genotype `A|T` keeps its bar (`BarSurvivesCleaning`).
- **REF test (line 126).** The docstrings on lines 2 and 93 speak of a REF that is not present in the samples. The test is substring containment over the genotypes of all samples joined together, not allele membership. A multi-base REF can therefore be found across two samples (`RefFoundAcrossSamples`).
- **Star test (line 130).** The comment on line 129 asks that one of the ALTs is not `*`. The code asks that neither ALT is `*` (`RefNPairRescued`, `TwoRowLocus`). It compares whole list elements, so an ALT such as `A*` does not block the rescue (`StarInsideAltRescued`).

The REF test runs after `N` is removed from the genotypes, so a two-row locus whose REF is `N` always passes it. As a result, running the filter again on its own output is the identity only when no rescued row has REF `N`. When one does, the second run drops it (`RerunDropsOnlyRefN`, `RecodeIdempotent`).

## Model

| member | source | states |
|---|---|---|
| Counting.Table | scripts/recode_multi.py:29-39 | the keys are the distinct items in order of first appearance; an item is a key iff it is in the input; every item's count (0 when absent) is its number of occurrences; the counts sum to the input length |
| Counting.Distinct | scripts/recode_multi.py:36-38 | the Counter's key sequence holds exactly the items of the input, each once |
| Counting.DistinctInFirstAppearanceOrder | scripts/recode_multi.py:36-38 | the Counter's keys are ordered by the index of their first occurrence in the input |
| Counting.FirstIndex | scripts/recode_multi.py:37-38 | the index of the first occurrence of an item, or the length when it is absent |
| Counting.CountOne | scripts/recode_multi.py:36-38 | counting one more item keeps the Counter exact: the keys stay the distinct items in first-appearance order, a new item is appended as a key, its count goes up by one and the counts still sum to the number of items seen |
| Counting.TallySnoc | scripts/recode_multi.py:38 | raising one item's count by one raises the sum of the counts by one |
| Counting.CountSnoc | scripts/recode_multi.py:38 | after `c[x] += 1` every count is again the item's number of occurrences in the longer input |
| Variants.LocusKeyRoundTrip | scripts/recode_multi.py:162 | for a non-negative position, parsing the key `CHROM-POS` at its last `-` gives back the chromosome and position |
| Variants.LocusKeyInjective | scripts/recode_multi.py:162 | two loci with non-negative positions and the same key have the same chromosome and position |
| Variants.NegativePositionKeyCollides | scripts/recode_multi.py:162 | with a negative position two different loci can share a key (`a`,-1 and `a-`,1) |
| Variants.AssignLociKeys | scripts/recode_multi.py:162 | the keyed table has the same length and, apart from the locus column, the same rows; every row carries its own key; keying an already keyed table changes nothing |
| Variants.LocusCount | scripts/recode_multi.py:62-66 | the count of a locus in the locus column equals the number of rows `df[df['locus'] == locus]` selects |
| Variants.LocusInLoci | scripts/recode_multi.py:66 | a locus is in the locus column iff some row has it |
| Variants.LastDash | scripts/recode_multi.py:162 | the index of the last `-` of a key, or -1 when there is none |
| Text.ContainsChar | scripts/recode_multi.py:126 | for a one-character pattern, substring containment is character membership |
| Text.DeleteAll | scripts/recode_multi.py:124 | `s.replace(ch, "")` leaves no `ch` and keeps every other character of `s`; it is defined as the order-preserving selection of the characters other than `ch` |
| Text.DeleteAllAbsent | scripts/recode_multi.py:124 | deleting a character that does not occur returns the string unchanged |
| Text.Join | scripts/recode_multi.py:124 | `''.join(parts)` contains exactly the characters of the parts |
| Text.DeleteAllConcat | scripts/recode_multi.py:124 | deleting a character from two strings laid end to end deletes it from each, keeping their order |
| Text.JoinAppend | scripts/recode_multi.py:124 | `''.join` with one more part is the old join followed by that part's characters, in order |
| Text.Digits | scripts/recode_multi.py:162 | the decimal rendering of a natural number is a non-empty string of digits |
| Text.DigitsRoundTrip | scripts/recode_multi.py:162 | reading the decimal rendering of a natural number gives it back |
| Sequences.Filter | scripts/recode_multi.py:66-67 | a boolean-mask selection keeps exactly the elements the mask accepts and is no longer than its input |
| Sequences.FilterCount | scripts/recode_multi.py:66-67 | a selected element is kept as often as it occurs; every other element is gone |
| Sequences.FilterConcat | scripts/recode_multi.py:149 | selecting from two tables laid end to end is selecting from each in turn |
| Sequences.FilterBoth | scripts/recode_multi.py:66-67 | two masks applied one after the other select what both accept |
| Sequences.FilterNarrow | scripts/recode_multi.py:110-115 | a narrower second selection sees through the first |
| Sequences.FilterCommute | scripts/recode_multi.py:66-67 | two selections commute |
| Sequences.FilterCongruent | scripts/recode_multi.py:107 | masks that agree on every element select the same elements |
| Sequences.FilterIncreasing | scripts/recode_multi.py:107 | selection keeps a sequence ordered by a rank ordered |
| Sequences.IncreasingConcat | scripts/recode_multi.py:114 | two rank-ordered sequences laid end to end stay ordered when all of the first ranks below all of the second |
| RecodeMulti.InLociWithCount | scripts/recode_multi.py:107 | for n > 0, a locus is among the Counter keys with count n iff it occurs exactly n times |
| RecodeMulti.KeepGoodLoci | scripts/recode_multi.py:59-68 | a row is kept iff it is in the table, its locus occurs exactly once and its REF is not `N` |
| RecodeMulti.CleanedGenotypes | scripts/recode_multi.py:124 | the cleaned genotype string of a row has no `N` and no `/` |
| RecodeMulti.CleanedGenotypesAppend | scripts/recode_multi.py:124 | the cleaned genotype string is built sample by sample in column order: one more sample appends its cleaned genotype, without `N`, after the others |
| RecodeProperties.CleanedGenotypesPair | scripts/recode_multi.py:124 | for two samples, the cleaned genotype string is the first sample's cleaned genotype without `N`, then the second's |
| RecodeMulti.CleanGenotypeChars | scripts/recode_multi.py:124 | a character other than `/` stays in a cleaned genotype iff it was in the genotype and the genotype without its `/` is not a lone bar |
| RecodeMulti.CleanedGenotypesChars | scripts/recode_multi.py:124 | a character other than `N` and `/` is in the joined cleaned genotypes iff it is in the cleaned genotype of some sample |
| RecodeMulti.AdjustFreqs | scripts/recode_multi.py:42-56 | row 0 takes row 1's AF and ALT `alt1+alt2`, every other field of row 0 and all of row 1 unchanged |
| RecodeMulti.RescuePair | scripts/recode_multi.py:118-132 | for a two-row locus, one one-row frame holding the adjusted row 0 when the rescue rule holds, nothing otherwise |
| RecodeMulti.LociWithTwoRows | scripts/recode_multi.py:104-107 | `nloci` is the loci occurring exactly twice, each once, in Counter order |
| RecodeMulti.CounterSelect | scripts/recode_multi.py:107 | selecting the keys of an exact Counter by their count is selecting the distinct items with that many occurrences |
| RecodeMulti.RescueFramesRows | scripts/recode_multi.py:113-132 | the frames found are one row each and laid end to end are the rows rescued over the loci visited |
| RecodeMulti.GetNorefSnps | scripts/recode_multi.py:91-135 | the frames found are each one row and laid end to end are the rescued rows of the two-row loci in Counter order; the guard on line 116 always holds |
| RecodeMulti.SameRowsAt | scripts/recode_multi.py:110-116 | a two-row locus has the same rows in the reduced table as in the whole one, and there are two |
| RecodeMulti.Recombine | scripts/recode_multi.py:138-155 | the result is the rescued rows followed by the clean rows (the clean rows alone when nothing was rescued); the caller's list gets the clean frame appended exactly when both are non-empty |
| RecodeMulti.Recode | scripts/recode_multi.py:160-171 | the written table is the rescued rows of the keyed table followed by its clean rows |
| RecodeProperties.LociWithCountOrder | scripts/recode_multi.py:104-107 | the loci with a given count come each once, in order of first appearance |
| RecodeProperties.LociWithCountIncreasing | scripts/recode_multi.py:107 | the loci with a given count come in strictly increasing order of first appearance |
| RecodeProperties.KeptAtLocus | scripts/recode_multi.py:62-67 | at each locus, `keep_goodloci` keeps the one row of a single-row locus with known REF and drops every other locus's rows |
| RecodeProperties.KeepGoodLociInOrder | scripts/recode_multi.py:62-68 | `keep_goodloci` is one order-preserving selection of the rows whose locus occurs once and whose REF is known |
| RecodeProperties.KeptLociUnique | scripts/recode_multi.py:62-68 | no locus appears twice among the kept rows |
| RecodeProperties.RescueLocusAt | scripts/recode_multi.py:131-132 | the row rescued at a locus has that locus |
| RecodeProperties.RescueAllAt | scripts/recode_multi.py:114-132 | over distinct loci, the rows rescued at a locus are that locus's own rescue |
| RecodeProperties.RescuedAtLocus | scripts/recode_multi.py:104-132 | at each locus, `get_noref_snps` yields that locus's rescue when it has two rows and nothing otherwise |
| RecodeProperties.RescuedRowsFromPairs | scripts/recode_multi.py:104-132 | every rescued row comes from a locus with exactly two rows that passes the rescue rule and is the merge of that pair, built from its first row; no locus is rescued twice |
| RecodeProperties.RescueAllLoci | scripts/recode_multi.py:114 | every rescued row's locus is one of the loci visited |
| RecodeProperties.RescueAllOrder | scripts/recode_multi.py:114 | rows rescued over loci in increasing rank come in increasing rank |
| RecodeProperties.RescuedBefore | scripts/recode_multi.py:114 | the rows rescued over earlier-ranked loci rank below the row rescued at a later locus |
| RecodeProperties.RescuedInFirstAppearanceOrder | scripts/recode_multi.py:104-114 | the rescued rows come in the order in which their loci first appear in the table |
| RecodeProperties.OutputAtLocus | scripts/recode_multi.py:160-171 | in the written table, a locus with one row keeps it when its REF is known; a locus with two rows becomes one merged row when it passes the rescue rule; every other locus is gone |
| RecodeProperties.OutputLociUnique | scripts/recode_multi.py:160-171 | no locus appears twice in the written table |
| RecodeProperties.TwoRowLocus | scripts/recode_multi.py:118-132 | a two-row locus is in the output iff row 0's REF is a substring of neither row's cleaned genotypes and neither ALT is `*`; it is then row 0 with row 1's AF and ALT `alt1+alt2` |
| RecodeProperties.BaseAbsentNotFound | scripts/recode_multi.py:124-126 | a one-base REF other than `N` and `/` that no sample's genotype contains is not found by the REF test |
| RecodeProperties.RefNNeverFound | scripts/recode_multi.py:124-126 | REF `N` is never found in a cleaned genotype string |
| RecodeProperties.RefNPairRescued | scripts/recode_multi.py:124-130 | a two-row locus with REF `N` is rescued iff neither ALT is `*` |
| RecodeProperties.RecodedKeyed | scripts/recode_multi.py:162-171 | every row of the written table carries its own locus key |
| RecodeProperties.RescuedKeyed | scripts/recode_multi.py:131-132 | the merged row of a keyed table carries its own key, since it keeps row 0's chromosome, position and locus |
| RecodeProperties.RerunDropsOnlyRefN | scripts/recode_multi.py:160-171 | running the filter on its own output drops exactly the rows whose REF is `N` and keeps the rest in order |
| RecodeProperties.RescuedRefNLostOnRerun | scripts/recode_multi.py:124-130 | a rescued row with REF `N` is in the output but not in the output of a second run |
| RecodeProperties.BarSurvivesCleaning | scripts/recode_multi.py:124 | a bar is in the cleaned genotype string iff some sample's genotype contains one and is not a lone bar once its `/` are gone |
| RecodeProperties.RecodeIdempotent | scripts/recode_multi.py:160-171 | when no rescued row has REF `N`, a second run returns the output unchanged |
| RecodeProperties.RefFoundAcrossSamples | scripts/recode_multi.py:124-126 | a two-base REF `ab` is found when one sample is `a/a` and the next `b/b`, though no sample carries `ab` |
| RecodeProperties.StarInsideAltRescued | scripts/recode_multi.py:130 | a pair with ALTs `A*` and `C` and REF `G` is rescued whenever no sample's genotype holds a `G` |

## Left out

- Reading and writing the tables (`pd.read_csv`, `to_csv`, lines 160 and 175), the command line (line 179) and every progress message with its `op.basename` (lines 82-87, 101, 133-134, 143, 174). The model starts from the rows read and ends with the rows written. `rm_multiallelic` is therefore `KeepGoodLoci`.
- The imports of `numpy`, `math` and `coadaptree.uni` (lines 23-26): nothing in the filter uses them.
- Pandas column handling and dtype inference. The table is a sequence of rows; the `*.GT` columns are the `gts` field, and `gtcols` (line 121) is implicit. Row index labels, `.copy()` and the reindexing on line 117 are not modelled. The one-row frame built by transposition on line 132, with its column types, is modelled as a one-row sequence.
- Missing cells. Every cell here holds a value: genotypes and REF are strings. A genotype read as NaN would make the join on line 124 raise. A missing REF would make `ref in gts` on line 126 raise a TypeError, although the same cell passes the `!= 'N'` test on line 67.
- Extra columns. The code carries along any column besides `CHROM`, `POS`, `REF`, `ALT`, `AF` and the `*.GT` columns, and a merged row takes row 0's values for them (line 132). The row datatype has no place for such columns.
- The allele frequency is a type parameter: the filter only copies it (line 54), so its floating-point nature plays no part.
- Chunked reading, mentioned in the module docstring (line 4): the code reads the whole table at once.
- Variants.LocusKeyInjective: holds only for non-negative positions. With a negative position, keys of two different loci can coincide (`NegativePositionKeyCollides`).
