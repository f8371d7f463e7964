# Variant identity in eva-accession, modelled in Dafny

This project models the parts of eva-accession that decide when two variant records are the same
variant, which accession a variant gets, and how a batch write is reconciled with the store:

- **Strand canonicalisation** of dbSNP submitted SNPs (`subsnp.dfy`, module `SubSnp`). This covers the
  case-keeping reverse complement, Java's `split("/")`, the alleles orientation as the product of three
  orientations, and the choice of the forward-strand alternate.
- **Variant-type classification and context-nucleotide addition** during remapping
  (`context_nucleotide.dfy`, module `ContextNucleotide`). The FASTA reader is a pair of functions
  passed in.
- **Clustered-accession allocation** (`clustering.dfy`, module `Clustering`). A processor object holds
  a pool 1..10, a forward-only cursor and a hash-to-accession map. It is proved against a value-level
  allocator whose invariants are proved as lemmas. The variant classifier may refuse a pair of alleles
  and the pool may run out; either failure stops the list where it happened.
- **Bulk-insert reconciliation** of submitted variants (`repository.dfy`, module `Repository`). It
  covers:
  - the hash-uniqueness pre-check and the single creation date;
  - the duplicate-key pattern, searched with Java's `find` semantics;
  - the saved/failed partition and the accession range query;
  - a store with a unique index on the hash, against which reconciliation is proved.
- **Chunk count reconciliation** of the accessioning writer (`accession_writer.dfy`, module
  `AccessionWriter`).
- **Allele filters** of the release and accessioning pipelines (`allele_filters.dfy`, module
  `AlleleFilters`).

Shared modules:
- `Wrappers` holds `Option` and `Result`.
- `Variants` holds the `SubmittedVariantEntity` class. Its mutable fields are the ones the source sets
  after construction. `Variants` also holds the value snapshot `SubmittedVariant` and `VariantType`.

Code that changes state is modelled as classes and methods with `modifies` frames, and each method's
`ensures` ties it to a value-level function. Pure code is modelled as functions and lemmas.

## Model

| member | source | states |
|---|---|---|
| SubSnp.GetOrientation | eva-accession-import/src/main/java/uk/ac/ebi/eva/accession/dbsnp/model/SubSnpNoHgvs.java:262-265 | an orientation exists exactly for the values +1 and -1, and its value is the one asked for |
| SubSnp.CreateRegion | eva-accession-import/src/main/java/uk/ac/ebi/eva/accession/dbsnp/model/SubSnpNoHgvs.java:83-92 | no region without a sequence name; a region is on that sequence and has a start exactly when one is given |
| SubSnp.Complement | eva-accession-import/src/main/java/uk/ac/ebi/eva/accession/dbsnp/model/SubSnpNoHgvs.java:278-305 | A/T and C/G swap within each case, so upper stays upper and lower stays lower; every other character is kept |
| SubSnp.ReverseComplementLength | eva-accession-import/src/main/java/uk/ac/ebi/eva/accession/dbsnp/model/SubSnpNoHgvs.java:276 | the reverse complement is as long as the allele |
| SubSnp.ReverseComplementAt | eva-accession-import/src/main/java/uk/ac/ebi/eva/accession/dbsnp/model/SubSnpNoHgvs.java:276-305 | position k of the reverse complement is the complement of position |s|-1-k |
| SubSnp.ComplementInvolution | eva-accession-import/src/main/java/uk/ac/ebi/eva/accession/dbsnp/model/SubSnpNoHgvs.java:278-305 | complementing a character twice gives it back |
| SubSnp.ReverseComplement | eva-accession-import/src/main/java/uk/ac/ebi/eva/accession/dbsnp/model/SubSnpNoHgvs.java:275-307 | the reverse complement is as long as the allele |
| SubSnp.ReverseComplementInvolution | eva-accession-import/src/main/java/uk/ac/ebi/eva/accession/dbsnp/model/SubSnpNoHgvs.java:275-307 | the reverse complement keeps the length and applied twice gives the allele back |
| SubSnp.ReverseComplementKeepsShape | eva-accession-import/src/main/java/uk/ac/ebi/eva/accession/dbsnp/model/SubSnpNoHgvs.java:275-307 | no slash appears in the reverse complement of a slash-free allele, and only the empty allele gives the empty result |
| SubSnp.CalculateReverseComplement | eva-accession-import/src/main/java/uk/ac/ebi/eva/accession/dbsnp/model/SubSnpNoHgvs.java:275-308 | the loop over the reversed buffer computes exactly the reverse complement |
| SubSnp.SplitThenJoin | eva-accession-import/src/main/java/uk/ac/ebi/eva/accession/dbsnp/model/SubSnpNoHgvs.java:253 | splitting on `/` gives slash-free fields that join back to the allele string |
| SubSnp.JoinThenSplit | eva-accession-import/src/main/java/uk/ac/ebi/eva/accession/dbsnp/model/SubSnpNoHgvs.java:253 | joining slash-free fields with `/` and splitting gives the same fields back |
| SubSnp.SingleFieldIffNoSlash | eva-accession-import/src/main/java/uk/ac/ebi/eva/accession/dbsnp/model/SubSnpNoHgvs.java:253 | the split has one field exactly when the string has no slash, and then that field is the whole string |
| SubSnp.LastFieldEmpty | eva-accession-import/src/main/java/uk/ac/ebi/eva/accession/dbsnp/model/SubSnpNoHgvs.java:253 | the last field is empty exactly when the string is empty or ends with a slash |
| SubSnp.DropTrailingEmpty | eva-accession-import/src/main/java/uk/ac/ebi/eva/accession/dbsnp/model/SubSnpNoHgvs.java:253 | the kept fields are a prefix that ends in a non-empty field, and every dropped field is empty |
| SubSnp.SplitAlleleStringShape | eva-accession-import/src/main/java/uk/ac/ebi/eva/accession/dbsnp/model/SubSnpNoHgvs.java:253 | `split("/")` returns the whole string when there is no slash, otherwise the full split without its trailing empty fields; no field holds a slash |
| SubSnp.SplitWithoutTrailingSlash | eva-accession-import/src/main/java/uk/ac/ebi/eva/accession/dbsnp/model/SubSnpNoHgvs.java:253 | a non-empty string that does not end in a slash keeps every field |
| SubSnp.TwoAllelesSplit | eva-accession-import/src/main/java/uk/ac/ebi/eva/accession/dbsnp/model/SubSnpNoHgvs.java:253 | two non-empty slash-free alleles written as "a/b" split into exactly those two |
| SubSnp.SplitAlleleString | eva-accession-import/src/main/java/uk/ac/ebi/eva/accession/dbsnp/model/SubSnpNoHgvs.java:253 | a string without a slash splits into itself alone |
| SubSnp.ReferenceInForwardStrand | eva-accession-import/src/main/java/uk/ac/ebi/eva/accession/dbsnp/model/SubSnpNoHgvs.java:222-228 | the forward reference keeps the length; it is the reverse complement of the reference when the contig is reversed, the reference otherwise |
| SubSnp.AllelesOrientation | eva-accession-import/src/main/java/uk/ac/ebi/eva/accession/dbsnp/model/SubSnpNoHgvs.java:262-265 | the product of the three orientations is always known, and it is reverse exactly when an odd number of them are reverse |
| SubSnp.ReverseComplementAll | eva-accession-import/src/main/java/uk/ac/ebi/eva/accession/dbsnp/model/SubSnpNoHgvs.java:267-273 | every allele is reverse-complemented, in the same order and with the same count |
| SubSnp.FirstDifferent | eva-accession-import/src/main/java/uk/ac/ebi/eva/accession/dbsnp/model/SubSnpNoHgvs.java:234-241 | the chosen allele differs from the reference and is one of the alleles; there is none exactly when every allele equals the reference |
| SubSnp.FirstDifferentAt | eva-accession-import/src/main/java/uk/ac/ebi/eva/accession/dbsnp/model/SubSnpNoHgvs.java:234-238 | an allele preceded only by copies of the reference, and itself different, is the one returned |
| SubSnp.ForwardAlternateMeaning | eva-accession-import/src/main/java/uk/ac/ebi/eva/accession/dbsnp/model/SubSnpNoHgvs.java:230-241 | the forward alternate is never the forward reference and is one of the forward alleles; it is absent exactly when every forward allele equals the forward reference |
| SubSnp.ReversedComplementedAlleles | eva-accession-import/src/main/java/uk/ac/ebi/eva/accession/dbsnp/model/SubSnpNoHgvs.java:267-273 | the in-place loop over the split array yields the split with each element reverse-complemented |
| SubSnp.ReverseComplementEach | eva-accession-import/src/main/java/uk/ac/ebi/eva/accession/dbsnp/model/SubSnpNoHgvs.java:267-273 | the loop that reverse-complements each array element in place leaves exactly the reverse complement of every field, in order |
| SubSnp.ForwardAlleles | eva-accession-import/src/main/java/uk/ac/ebi/eva/accession/dbsnp/model/SubSnpNoHgvs.java:244-260 | the forward alleles never fail and are as many as the fields of the allele string |
| SubSnp.ForwardAlternate | eva-accession-import/src/main/java/uk/ac/ebi/eva/accession/dbsnp/model/SubSnpNoHgvs.java:230-242 | the forward alternate never fails, and when present it differs from the forward reference |
| SubSnp.SplitAlleles | eva-accession-import/src/main/java/uk/ac/ebi/eva/accession/dbsnp/model/SubSnpNoHgvs.java:244-260 | the alleles are the plain split for a forward product orientation and the reverse-complemented split for a reverse one |
| SubSnp.AlternateInForwardStrand | eva-accession-import/src/main/java/uk/ac/ebi/eva/accession/dbsnp/model/SubSnpNoHgvs.java:230-242 | the scan with early return yields the first forward allele that differs from the forward reference |
| SubSnp.DropTrailingEmptyReverseComplement | eva-accession-import/src/main/java/uk/ac/ebi/eva/accession/dbsnp/model/SubSnpNoHgvs.java:244-273 | reverse-complementing every field commutes with dropping the empty trailing fields |
| SubSnp.SplitOfReverseComplemented | eva-accession-import/src/main/java/uk/ac/ebi/eva/accession/dbsnp/model/SubSnpNoHgvs.java:244-273 | splitting the joined reverse-complemented fields gives the reverse-complemented split |
| SubSnp.ReverseComplementAllInvolution | eva-accession-import/src/main/java/uk/ac/ebi/eva/accession/dbsnp/model/SubSnpNoHgvs.java:267-273 | reverse-complementing every allele twice gives the list back |
| SubSnp.OrientationSymmetry | eva-accession-import/src/main/java/uk/ac/ebi/eva/accession/dbsnp/model/SubSnpNoHgvs.java:222-265 | a submission and its description against the other contig strand have the same forward reference, forward alleles and forward alternate |
| SubSnp.ReverseContigExample | eva-accession-import/src/main/java/uk/ac/ebi/eva/accession/dbsnp/model/SubSnpNoHgvs.java:222-241 | reference "A" and alleles "A/G" on a reversed contig give the forward reference "T" and the alternate "C" |
| SubSnp.ReverseSubmissionExample | eva-accession-import/src/main/java/uk/ac/ebi/eva/accession/dbsnp/model/SubSnpNoHgvs.java:222-265 | on a forward contig the reference is kept while a reverse submission turns the alleles: "T/C" against "A" gives the alternate "G" |
| SubSnp.ReversedTwoAlleles | eva-accession-import/src/main/java/uk/ac/ebi/eva/accession/dbsnp/model/SubSnpNoHgvs.java:244-273 | under a reverse product orientation the alleles "a/b" become the reverse complements of a and b, in that order |
| SubSnp.BaseReverseComplements | eva-accession-import/src/main/java/uk/ac/ebi/eva/accession/dbsnp/model/SubSnpNoHgvs.java:275-307 | A and T, C and G are each other's reverse complements as one-letter alleles |
| ContextNucleotide.TrimStart | eva-accession-remapping/src/main/java/uk/ac/ebi/eva/accession/remapping/batch/processors/ContextNucleotideAdditionProcessor.java:91-92 | the leading trim is never longer than the allele |
| ContextNucleotide.TrimStartMeaning | eva-accession-remapping/src/main/java/uk/ac/ebi/eva/accession/remapping/batch/processors/ContextNucleotideAdditionProcessor.java:91-92 | the result is a suffix of the input; only trimmable characters are removed, and the result does not start with one |
| ContextNucleotide.TrimEnd | eva-accession-remapping/src/main/java/uk/ac/ebi/eva/accession/remapping/batch/processors/ContextNucleotideAdditionProcessor.java:91-92 | the trailing trim is never longer than the allele |
| ContextNucleotide.TrimEndMeaning | eva-accession-remapping/src/main/java/uk/ac/ebi/eva/accession/remapping/batch/processors/ContextNucleotideAdditionProcessor.java:91-92 | the result is a prefix of the input; only trimmable characters are removed, and the result does not end with one |
| ContextNucleotide.Trim | eva-accession-remapping/src/main/java/uk/ac/ebi/eva/accession/remapping/batch/processors/ContextNucleotideAdditionProcessor.java:91-92 | the trimmed allele is no longer than the allele |
| ContextNucleotide.TrimMeaning | eva-accession-remapping/src/main/java/uk/ac/ebi/eva/accession/remapping/batch/processors/ContextNucleotideAdditionProcessor.java:91-92 | the trimmed allele is a contiguous part of the allele, everything cut off at either end is at or below the space, and it neither starts nor ends with such a character |
| ContextNucleotide.UpperCase | eva-accession-remapping/src/main/java/uk/ac/ebi/eva/accession/remapping/batch/processors/ContextNucleotideAdditionProcessor.java:91-92 | the result has the same length, and each character is the upper case of the one at the same position |
| ContextNucleotide.VariantTypeTable | eva-accession-remapping/src/main/java/uk/ac/ebi/eva/accession/remapping/batch/processors/ContextNucleotideAdditionProcessor.java:90-117 | the full classification table: non-letters after normalisation are refused; equal lengths give SNV (1), MNV (>1) or the both-empty error (0); otherwise an empty reference gives INS, an empty alternate DEL, and anything else INDEL |
| ContextNucleotide.GetVariantType | eva-accession-remapping/src/main/java/uk/ac/ebi/eva/accession/remapping/batch/processors/ContextNucleotideAdditionProcessor.java:90-117 | a successful classification is never SEQUENCE_ALTERATION |
| ContextNucleotide.TypeOfLengths | eva-accession-remapping/src/main/java/uk/ac/ebi/eva/accession/remapping/batch/processors/ContextNucleotideAdditionProcessor.java:95-117 | the length table never yields SEQUENCE_ALTERATION |
| ContextNucleotide.NeverSequenceAlteration | eva-accession-remapping/src/main/java/uk/ac/ebi/eva/accession/remapping/batch/processors/ContextNucleotideAdditionProcessor.java:80-117 | the classification never yields SEQUENCE_ALTERATION |
| ContextNucleotide.SameNormalFormSameType | eva-accession-remapping/src/main/java/uk/ac/ebi/eva/accession/remapping/batch/processors/ContextNucleotideAdditionProcessor.java:91-94 | alleles with the same trimmed upper-case letters classify alike |
| ContextNucleotide.ClassificationIgnoresBlanksAndCase | eva-accession-remapping/src/main/java/uk/ac/ebi/eva/accession/remapping/batch/processors/ContextNucleotideAdditionProcessor.java:90-117 | a successful classification is unchanged when the alleles are first trimmed and upper-cased |
| ContextNucleotide.TrimStartOfTrimmed | eva-accession-remapping/src/main/java/uk/ac/ebi/eva/accession/remapping/batch/processors/ContextNucleotideAdditionProcessor.java:91-92 | an allele that does not start with a blank is left alone by the leading trim |
| ContextNucleotide.TrimEndOfTrimmed | eva-accession-remapping/src/main/java/uk/ac/ebi/eva/accession/remapping/batch/processors/ContextNucleotideAdditionProcessor.java:91-92 | an allele that does not end with a blank is left alone by the trailing trim |
| ContextNucleotide.TrimOfUpperLetters | eva-accession-remapping/src/main/java/uk/ac/ebi/eva/accession/remapping/batch/processors/ContextNucleotideAdditionProcessor.java:91-92 | trimming leaves upper-case letters alone |
| ContextNucleotide.UpperCaseOfUpperLetters | eva-accession-remapping/src/main/java/uk/ac/ebi/eva/accession/remapping/batch/processors/ContextNucleotideAdditionProcessor.java:91-92 | upper-casing leaves upper-case letters alone |
| ContextNucleotide.Normalized | eva-accession-remapping/src/main/java/uk/ac/ebi/eva/accession/remapping/batch/processors/ContextNucleotideAdditionProcessor.java:91-92 | the normal form is no longer than the allele |
| ContextNucleotide.NormalizedOfUpperLetters | eva-accession-remapping/src/main/java/uk/ac/ebi/eva/accession/remapping/batch/processors/ContextNucleotideAdditionProcessor.java:91-92 | an allele of upper-case letters is its own normal form |
| ContextNucleotide.NormalizedIdempotent | eva-accession-remapping/src/main/java/uk/ac/ebi/eva/accession/remapping/batch/processors/ContextNucleotideAdditionProcessor.java:91-92 | normalising an allele whose normal form is letters gives the same normal form again |
| ContextNucleotide.UnknownContigRefusedFirst | eva-accession-remapping/src/main/java/uk/ac/ebi/eva/accession/remapping/batch/processors/ContextNucleotideAdditionProcessor.java:57-61 | a contig missing from the FASTA file is refused whatever the alleles are |
| ContextNucleotide.UnclassifiableRefused | eva-accession-remapping/src/main/java/uk/ac/ebi/eva/accession/remapping/batch/processors/ContextNucleotideAdditionProcessor.java:74-79 | alleles that do not classify are refused, carrying the classification error as the cause |
| ContextNucleotide.SnvAndMnvUnchanged | eva-accession-remapping/src/main/java/uk/ac/ebi/eva/accession/remapping/batch/processors/ContextNucleotideAdditionProcessor.java:84-87 | SNVs and MNVs are returned unchanged |
| ContextNucleotide.IndelsTakeReaderCoordinates | eva-accession-remapping/src/main/java/uk/ac/ebi/eva/accession/remapping/batch/processors/ContextNucleotideAdditionProcessor.java:119-134 | insertions, deletions and indels take the reader's start and alleles and keep every other field; a position outside the contig is refused |
| ContextNucleotide.NamedVariantBranchUnreachable | eva-accession-remapping/src/main/java/uk/ac/ebi/eva/accession/remapping/batch/processors/ContextNucleotideAdditionProcessor.java:80-82 | the named-variant refusal never happens, since the classification never yields that type |
| ContextNucleotide.RenormalizeIndel | eva-accession-remapping/src/main/java/uk/ac/ebi/eva/accession/remapping/batch/processors/ContextNucleotideAdditionProcessor.java:119-134 | the variant is updated in place to the reader's start and alleles, and nothing else in it changes |
| ContextNucleotide.WithContextNucleotide | eva-accession-remapping/src/main/java/uk/ac/ebi/eva/accession/remapping/batch/processors/ContextNucleotideAdditionProcessor.java:52-134 | a result is produced only for a contig the FASTA file has, and it keeps the variant's accession and contig |
| ContextNucleotide.Process | eva-accession-remapping/src/main/java/uk/ac/ebi/eva/accession/remapping/batch/processors/ContextNucleotideAdditionProcessor.java:52-88 | the processor's result and the variant's new state are exactly what the value-level specification gives for the old state; on an error the variant is unchanged |
| Clustering.ClusteredVariantIgnoresAlleleText | eva-accession-clustering/src/main/java/uk/ac/ebi/eva/accession/clustering/batch/processors/ClusteringVariantProcessor.java:64-73 | two submitted variants with the same identity fields and the same allele type give the same clustered variant, whatever the allele text |
| Clustering.HashKeys | eva-accession-clustering/src/main/java/uk/ac/ebi/eva/accession/clustering/batch/processors/ClusteringVariantProcessor.java:64-89 | one hash per submitted variant, in order, taken from its clustered variant, up to the first variant whose alleles the classifier refuses, which gets none |
| Clustering.InitializeAccessions | eva-accession-clustering/src/main/java/uk/ac/ebi/eva/accession/clustering/batch/processors/ClusteringVariantProcessor.java:52-59 | the loop fills the pool with first, first+1, ..., last, and with nothing when first > last |
| Clustering.ConsecutivePoolDistinct | eva-accession-clustering/src/main/java/uk/ac/ebi/eva/accession/clustering/batch/processors/ClusteringVariantProcessor.java:52-59 | a pool of consecutive values has no repeated accession |
| Clustering.AllocateAll | eva-accession-clustering/src/main/java/uk/ac/ebi/eva/accession/clustering/batch/processors/ClusteringVariantProcessor.java:63-82 | the number of variants handled is at most the number of hashes, and when it stops short the hash it stopped at is unrecorded and the pool is used up |
| Clustering.AllocateAllStep | eva-accession-clustering/src/main/java/uk/ac/ebi/eva/accession/clustering/batch/processors/ClusteringVariantProcessor.java:63-82 | handling a list is handling its first hash and then the rest; a failed first hash stops everything |
| Clustering.Allocate | eva-accession-clustering/src/main/java/uk/ac/ebi/eva/accession/clustering/batch/processors/ClusteringVariantProcessor.java:74-80 | allocation fails exactly when the hash is unrecorded and the pool is used up; on success the hash is recorded with the accession returned |
| Clustering.KnownHashResolvesToRecordedAccession | eva-accession-clustering/src/main/java/uk/ac/ebi/eva/accession/clustering/batch/processors/ClusteringVariantProcessor.java:74-76 | a hash already recorded gets its recorded accession again and the allocator is unchanged |
| Clustering.NewHashTakesNextPoolValue | eva-accession-clustering/src/main/java/uk/ac/ebi/eva/accession/clustering/batch/processors/ClusteringVariantProcessor.java:77-80 | a new hash fails exactly when the pool is used up; otherwise it takes the next pool value, distinct from every recorded accession, and the cursor moves by one |
| Clustering.AllocatePreservesInv | eva-accession-clustering/src/main/java/uk/ac/ebi/eva/accession/clustering/batch/processors/ClusteringVariantProcessor.java:77-80 | allocation keeps the pool invariant, records the hash with its accession, and never overwrites or drops an entry |
| Clustering.AllocateAllPreservesInv | eva-accession-clustering/src/main/java/uk/ac/ebi/eva/accession/clustering/batch/processors/ClusteringVariantProcessor.java:63-82 | handling a list keeps the invariant and the map only grows; every handled hash ends up recorded |
| Clustering.SameAccessionIffSameHash | eva-accession-clustering/src/main/java/uk/ac/ebi/eva/accession/clustering/batch/processors/ClusteringVariantProcessor.java:74-80 | after handling a list, two handled variants have the same accession exactly when they have the same hash |
| Clustering.DistinctNewHashesExhaustPool | eva-accession-clustering/src/main/java/uk/ac/ebi/eva/accession/clustering/batch/processors/ClusteringVariantProcessor.java:52-80 | distinct unseen hashes are handled until the pool is used up: the count handled is the smaller of their number and the pool values left |
| Clustering.EleventhHashExhaustsPool | eva-accession-clustering/src/main/java/uk/ac/ebi/eva/accession/clustering/batch/processors/ClusteringVariantProcessor.java:52-80 | from a fresh processor, eleven distinct hashes get ten accessions and the eleventh fails |
| Clustering.ClusteringVariantProcessor.constructor | eva-accession-clustering/src/main/java/uk/ac/ebi/eva/accession/clustering/batch/processors/ClusteringVariantProcessor.java:45-50 | the pool is exactly 1..10 in increasing order, the cursor is at its start and the map is empty |
| Clustering.ClusteringVariantProcessor.ResolveAccession | eva-accession-clustering/src/main/java/uk/ac/ebi/eva/accession/clustering/batch/processors/ClusteringVariantProcessor.java:74-80 | the cursor and map move exactly as the value-level allocation says, and the accession returned is the one it gives |
| Clustering.ClusteringVariantProcessor.AssignAccession | eva-accession-clustering/src/main/java/uk/ac/ebi/eva/accession/clustering/batch/processors/ClusteringVariantProcessor.java:74-81 | the entity takes its hash's accession and the loop invariant advances by one, or the pool is used up and the state is where the value-level allocation stops |
| Clustering.ClusteringVariantProcessor.ClusterEntity | eva-accession-clustering/src/main/java/uk/ac/ebi/eva/accession/clustering/batch/processors/ClusteringVariantProcessor.java:63-89 | one loop iteration: the entity gets its accession and the state advances by one allocation; or nothing changes and the iteration fails, with the classifier refusal exactly when the entity has no hash and with pool exhaustion otherwise |
| Clustering.ClusteringVariantProcessor.ClusterAll | eva-accession-clustering/src/main/java/uk/ac/ebi/eva/accession/clustering/batch/processors/ClusteringVariantProcessor.java:62-83 | the loop handles entities until one fails; it ends at the list's end without failure, at the first unclassifiable entity with the classifier refusal, or earlier with pool exhaustion where the value-level allocation stops |
| Clustering.ClusteringVariantProcessor.Process | eva-accession-clustering/src/main/java/uk/ac/ebi/eva/accession/clustering/batch/processors/ClusteringVariantProcessor.java:61-89 | the new cursor and map are the value-level allocation over the list's hashes; every handled entity has the accession recorded for its hash; success returns the same list exactly when every entity was handled, and untouched entities keep their old accession; the failure is the classifier refusal exactly when handling stopped at the first unclassifiable entity, and pool exhaustion exactly when it stopped earlier |
| Clustering.ClusteringVariantProcessor.HashOfAgreesWithHashKeys | eva-accession-clustering/src/main/java/uk/ac/ebi/eva/accession/clustering/batch/processors/ClusteringVariantProcessor.java:64-89 | the hash the processor computes for each entity is the value-level hash list, and the first entity past it has no hash |
| Clustering.StepKeepsProgress | eva-accession-clustering/src/main/java/uk/ac/ebi/eva/accession/clustering/batch/processors/ClusteringVariantProcessor.java:63-81 | one handled entity extends the loop invariant by one position |
| Clustering.ProgressEnds | eva-accession-clustering/src/main/java/uk/ac/ebi/eva/accession/clustering/batch/processors/ClusteringVariantProcessor.java:63-84 | when the loop ends or stops, its invariant gives the final accessions of the handled and the untouched entities |
| Repository.LastTailMeaning | eva-accession-core/src/main/java/uk/ac/ebi/eva/accession/core/persistence/SubmittedVariantAccessioningRepositoryImpl.java:115-118 | the group of the pattern ends at the last position that still lets the rest of the pattern match (greedy `(.*)`), or no end matches |
| Repository.LastTail | eva-accession-core/src/main/java/uk/ac/ebi/eva/accession/core/persistence/SubmittedVariantAccessioningRepositoryImpl.java:115-118 | the greedy end of the group lies between its start and the given bound |
| Repository.FindFromMeaning | eva-accession-core/src/main/java/uk/ac/ebi/eva/accession/core/persistence/SubmittedVariantAccessioningRepositoryImpl.java:115-118 | `find` reports the leftmost start where the pattern matches, with the greedy end of the group; it reports nothing only when no start matches |
| Repository.FindFrom | eva-accession-core/src/main/java/uk/ac/ebi/eva/accession/core/persistence/SubmittedVariantAccessioningRepositoryImpl.java:115-118 | a match starts at or after the search position, and its group ends inside the message, leaving room for the literal before it |
| Repository.ReportBulkOperationExceptionMeaning | eva-accession-core/src/main/java/uk/ac/ebi/eva/accession/core/persistence/SubmittedVariantAccessioningRepositoryImpl.java:112-128 | a key is returned exactly for code 11000 with a message matching the duplicate-key pattern, and it is the group of the leftmost, greedy match; anything else gives nothing |
| Repository.ReportBulkOperationException | eva-accession-core/src/main/java/uk/ac/ebi/eva/accession/core/persistence/SubmittedVariantAccessioningRepositoryImpl.java:112-128 | a key is returned only for the duplicate-key code 11000 |
| Repository.DupKeyRoundTrip | eva-accession-core/src/main/java/uk/ac/ebi/eva/accession/core/persistence/SubmittedVariantAccessioningRepositoryImpl.java:112-128 | the key inside a duplicate-key message is parsed back exactly, whatever it contains, when it spans one line and the text before the opening brace has no double quote |
| Repository.FindSkipsQuoteless | eva-accession-core/src/main/java/uk/ac/ebi/eva/accession/core/persistence/SubmittedVariantAccessioningRepositoryImpl.java:115-118 | a search moves past every start whose quote position holds no double quote |
| Repository.QuotelessMessageNotParsed | eva-accession-core/src/main/java/uk/ac/ebi/eva/accession/core/persistence/SubmittedVariantAccessioningRepositoryImpl.java:112-128 | a message without a double quote (a numeric key, say) never yields a key |
| Repository.RejectedKeysMeaning | eva-accession-core/src/main/java/uk/ac/ebi/eva/accession/core/persistence/SubmittedVariantAccessioningRepositoryImpl.java:78-82 | the keys are known only when every error parses, and they are then exactly the keys the errors name |
| Repository.RejectedKeys | eva-accession-core/src/main/java/uk/ac/ebi/eva/accession/core/persistence/SubmittedVariantAccessioningRepositoryImpl.java:78-82 | keys are known only when every error carries the duplicate-key code |
| Repository.CollectRejectedKeys | eva-accession-core/src/main/java/uk/ac/ebi/eva/accession/core/persistence/SubmittedVariantAccessioningRepositoryImpl.java:78-82 | the loop over the errors collects exactly those keys, or stops at the first error that does not parse |
| Repository.PartitionCoversBatch | eva-accession-core/src/main/java/uk/ac/ebi/eva/accession/core/persistence/SubmittedVariantAccessioningRepositoryImpl.java:130-143 | saved and failed together are exactly the accessions of the batch |
| Repository.PartitionPlacesEachDocument | eva-accession-core/src/main/java/uk/ac/ebi/eva/accession/core/persistence/SubmittedVariantAccessioningRepositoryImpl.java:130-143 | a document's accession is saved when its hash was not refused and failed when it was; with distinct accessions, in that set only |
| Repository.PartitionDisjoint | eva-accession-core/src/main/java/uk/ac/ebi/eva/accession/core/persistence/SubmittedVariantAccessioningRepositoryImpl.java:130-143 | with distinct accessions no accession is both saved and failed |
| Repository.NothingRefusedAllSaved | eva-accession-core/src/main/java/uk/ac/ebi/eva/accession/core/persistence/SubmittedVariantAccessioningRepositoryImpl.java:134-137 | with no refused hash every accession is saved and none failed |
| Repository.Partition | eva-accession-core/src/main/java/uk/ac/ebi/eva/accession/core/persistence/SubmittedVariantAccessioningRepositoryImpl.java:130-143 | saved and failed accessions are accessions of the batch, and nothing fails when no hash was refused |
| Repository.CheckHashUniqueness | eva-accession-core/src/main/java/uk/ac/ebi/eva/accession/core/persistence/SubmittedVariantAccessioningRepositoryImpl.java:90-98 | the scan with a seen-set succeeds exactly when no two documents share a hash |
| Repository.SetAuditCreatedDate | eva-accession-core/src/main/java/uk/ac/ebi/eva/accession/core/persistence/SubmittedVariantAccessioningRepositoryImpl.java:105-110 | every document gets the same creation date and nothing else in it changes |
| Repository.GenerateSaveResponse | eva-accession-core/src/main/java/uk/ac/ebi/eva/accession/core/persistence/SubmittedVariantAccessioningRepositoryImpl.java:130-143 | the loop builds exactly the partition of the batch by membership of each hash in the refused set |
| Repository.FailuresPropagate | eva-accession-core/src/main/java/uk/ac/ebi/eva/accession/core/persistence/SubmittedVariantAccessioningRepositoryImpl.java:76-86 | another runtime failure is rethrown as it is; a bulk failure is rethrown exactly when one of its errors does not parse; any response covers the whole batch |
| Repository.SubmittedVariantAccessioningRepository.Insert | eva-accession-core/src/main/java/uk/ac/ebi/eva/accession/core/persistence/SubmittedVariantAccessioningRepositoryImpl.java:69-88 | a batch repeating a hash is refused with nothing changed; otherwise every document gets the date, the store moves as its bulk write says, and the result is the reconciliation of the write's outcome |
| Repository.SubmittedVariantAccessioningRepository.constructor | eva-accession-core/src/main/java/uk/ac/ebi/eva/accession/core/persistence/SubmittedVariantAccessioningRepositoryImpl.java:54-58 | the repository starts on the given collection with the given bulk write |
| Repository.Reconcile | eva-accession-core/src/main/java/uk/ac/ebi/eva/accession/core/persistence/SubmittedVariantAccessioningRepositoryImpl.java:76-87 | the response or exception follows from the outcome of the bulk write as `InsertOutcome` states |
| Repository.InsertOutcome | eva-accession-core/src/main/java/uk/ac/ebi/eva/accession/core/persistence/SubmittedVariantAccessioningRepositoryImpl.java:76-87 | an acknowledged write fails nothing; another runtime exception is rethrown as it is; no outcome raises the duplicated-hash error here |
| Repository.DuplicateKeyErrorParses | eva-accession-core/src/main/java/uk/ac/ebi/eva/accession/core/persistence/SubmittedVariantAccessioningRepositoryImpl.java:112-128 | a refusal of the unique-hash store names the hash in a form the pattern parses back |
| Repository.RejectedKeysCons | eva-accession-core/src/main/java/uk/ac/ebi/eva/accession/core/persistence/SubmittedVariantAccessioningRepositoryImpl.java:78-82 | the keys of a list with one more error in front |
| Repository.InsertEach | eva-accession-core/src/main/java/uk/ac/ebi/eva/accession/core/persistence/SubmittedVariantAccessioningRepositoryImpl.java:73-82 | every document of the batch is either written or refused, and every refusal carries the duplicate-key code |
| Repository.InsertEachRefusesHeldHashes | eva-accession-core/src/main/java/uk/ac/ebi/eva/accession/core/persistence/SubmittedVariantAccessioningRepositoryImpl.java:73-82 | with distinct single-line hashes, the store refuses exactly the documents whose hash it holds, and their keys parse back to those hashes |
| Repository.InsertEachWritesNewHashes | eva-accession-core/src/main/java/uk/ac/ebi/eva/accession/core/persistence/SubmittedVariantAccessioningRepositoryImpl.java:73 | with distinct hashes, the store writes exactly the documents whose hash it does not hold |
| Repository.UnorderedBulkInsert | eva-accession-core/src/main/java/uk/ac/ebi/eva/accession/core/persistence/SubmittedVariantAccessioningRepositoryImpl.java:73-77 | the old collection is kept as a prefix and grows by at most the batch; the store raises no other runtime exception, and a bulk exception carries at least one error |
| Repository.InsertReconcilesWithStore | eva-accession-core/src/main/java/uk/ac/ebi/eva/accession/core/persistence/SubmittedVariantAccessioningRepositoryImpl.java:69-88 | against a store unique on the hash, insert succeeds and reports a document saved exactly when its hash was not already stored; the new store holds the old one plus exactly those documents |
| Repository.SecondInsertFailsAll | eva-accession-core/src/main/java/uk/ac/ebi/eva/accession/core/persistence/SubmittedVariantAccessioningRepositoryImpl.java:69-143 | inserting the same batch a second time reports every accession failed and none saved |
| Repository.FindByAccessionRange | eva-accession-core/src/main/java/uk/ac/ebi/eva/accession/core/persistence/SubmittedVariantAccessioningRepositoryImpl.java:60-67 | an accession is returned exactly when a stored document has it and start <= accession <= end |
| AccessionWriter.DistinctCount | eva-accession-pipeline/src/main/java/uk/ac/ebi/eva/accession/pipeline/batch/io/AccessionWriter.java:67-68 | a chunk has at most as many distinct inputs as inputs, and as many exactly when none repeats |
| AccessionWriter.DuplicateCount | eva-accession-pipeline/src/main/java/uk/ac/ebi/eva/accession/pipeline/batch/io/AccessionWriter.java:67-69 | the repeat count is zero exactly when no input repeats |
| AccessionWriter.CheckCountsMatchMeaning | eva-accession-pipeline/src/main/java/uk/ac/ebi/eva/accession/pipeline/batch/io/AccessionWriter.java:61-89 | equal sizes return at once; otherwise the check throws exactly when some input has no accessioned counterpart, naming exactly those inputs, and else reports the repeat count |
| AccessionWriter.CheckCountsMatch | eva-accession-pipeline/src/main/java/uk/ac/ebi/eva/accession/pipeline/batch/io/AccessionWriter.java:61-89 | equal sizes pass; an error names a non-empty set of inputs, all of them inputs of the chunk and none of them accessioned |
| AccessionWriter.RepeatsOnlyWarn | eva-accession-pipeline/src/main/java/uk/ac/ebi/eva/accession/pipeline/batch/io/AccessionWriter.java:67-78 | when every input is accessioned the check never throws, however many inputs repeat; the repeat count is non-zero exactly when some input repeats |
| AccessionWriter.RepeatedInputExample | eva-accession-pipeline/src/main/java/uk/ac/ebi/eva/accession/pipeline/batch/io/AccessionWriter.java:61-89 | five inputs with the third repeating the first, accessioned as four variants: one repeat and no error |
| AccessionWriter.LostInputExample | eva-accession-pipeline/src/main/java/uk/ac/ebi/eva/accession/pipeline/batch/io/AccessionWriter.java:74-87 | an input without an accession makes the check throw, naming that input |
| AccessionWriter.WriteReportsBeforeChecking | eva-accession-pipeline/src/main/java/uk/ac/ebi/eva/accession/pipeline/batch/io/AccessionWriter.java:53-59 | the service sees every converted input in order, the report holds the inputs with the service's answer and is written before the check, and the check throws exactly when the sizes differ and a converted input has no accession |
| AccessionWriter.Write | eva-accession-pipeline/src/main/java/uk/ac/ebi/eva/accession/pipeline/batch/io/AccessionWriter.java:53-59 | the service is called and then the report is written for the original inputs, and the check runs on exactly what the service was given and what it answered |
| AlleleFilters.ExcludeInvalidVariants | eva-accession-release/src/main/java/uk/ac/ebi/eva/accession/release/steps/processors/ExcludeInvalidVariantsProcessor.java:25-36 | an empty allele is an error; otherwise the variant comes back unchanged exactly when both alleles are made of `acgtnACGTN` only, and is dropped otherwise |
| AlleleFilters.ConcatenationMatchesBases | eva-accession-release/src/main/java/uk/ac/ebi/eva/accession/release/steps/processors/ExcludeInvalidVariantsProcessor.java:31-32 | reference followed by alternate matches the pattern exactly when each allele does |
| AlleleFilters.InvalidCharacterDropsVariant | eva-accession-release/src/main/java/uk/ac/ebi/eva/accession/release/steps/processors/ExcludeInvalidVariantsProcessor.java:31-35 | any other character in either allele drops the variant |
| AlleleFilters.ExcludeInvalidVariantsIdempotent | eva-accession-release/src/main/java/uk/ac/ebi/eva/accession/release/steps/processors/ExcludeInvalidVariantsProcessor.java:31-34 | a variant the release filter passes is passed again |
| AlleleFilters.ExcludeStructuralVariants | eva-accession-pipeline/src/main/java/uk/ac/ebi/eva/accession/pipeline/steps/processors/ExcludeStructuralVariantsProcessor.java:19-30 | the variant comes back unchanged exactly when its alternate is non-empty and made of `acgtnACGTN,` only, and is dropped otherwise |
| AlleleFilters.StructuralFilterIgnoresReference | eva-accession-pipeline/src/main/java/uk/ac/ebi/eva/accession/pipeline/steps/processors/ExcludeStructuralVariantsProcessor.java:25 | the reference allele never changes whether the variant passes |
| AlleleFilters.ExcludeStructuralVariantsIdempotent | eva-accession-pipeline/src/main/java/uk/ac/ebi/eva/accession/pipeline/steps/processors/ExcludeStructuralVariantsProcessor.java:24-30 | a variant the structural filter passes is passed again |
| AlleleFilters.ReleaseFilterIsStricter | eva-accession-release/src/main/java/uk/ac/ebi/eva/accession/release/steps/processors/ExcludeInvalidVariantsProcessor.java:18-34 | a variant the release filter passes also passes the structural-variant filter |
| AlleleFilters.StructuralFilterExamples | eva-accession-pipeline/src/test/java/uk/ac/ebi/eva/accession/pipeline/steps/processors/ExcludeStructuralVariantsProcessorTest.java:27-47 | alternate "A" passes; "<ID>" and "G]2 : 421681]" are dropped |
| AlleleFilters.CommaSeparatedAlternatesExample | eva-accession-pipeline/src/main/java/uk/ac/ebi/eva/accession/pipeline/steps/processors/ExcludeStructuralVariantsProcessor.java:19 | "C,T" passes the structural-variant filter but the release filter drops it |

## Left out

- Logging (every `logger` call) is dropped, and so is the text of exception messages. Errors are datatype values that carry the data the message would show.
- `LocalDateTime.now()` is a parameter of `Insert` and `SetAuditCreatedDate`.
- External collaborators are parameters: the FASTA reader, the variant classifier used by clustering, the hashing function (summary then SHA1), the accessioning service and the converter. The classifier returns an `Option`: `None` stands for its `IllegalArgumentException`, which stops the clustering loop. No other property of theirs is assumed. The report writer is not a parameter: `Write` records its `write` call, with the arguments, in order among the calls.
- The Mongo bulk write is a function parameter of the repository class. `UnorderedBulkInsert` is one concrete store, with a unique index on the hash, and the reconciliation lemmas are proved against it.
- The entity class of the source declares `accession` as the document id, while the repository reads the `_id_` key of a duplicate-key error and compares it with `hashedMessage`. The model keys the store on the hash, as the reconciliation expects. `QuotelessMessageNotParsed` shows what a numeric key would give: no key, so the bulk exception would be rethrown.
- `ContextNucleotide.UpperCase` models `toUpperCase` on ASCII letters only. Locale rules and the other Unicode case mappings are not modelled.
- `IsLineTerminator` models Java's default line terminators. Surrogate pairs are not distinguished from other characters.
- The classification in the remapping processor accepts any upper-case letters (`[A-Z]*`), not only the ACGTN bases. The model follows the code.
- `SubSnp.SubSnpNoHgvs` keeps only the fields that canonicalisation reads. The other dbSNP fields, and their getters and setters, are not modelled.
- `SubSnp.AllelesOrientation` has no error branch. The product of three orientations is always +1 or -1, so the source's "unknown orientation" exception cannot be raised, and `SubSnp.GetOrientation` still refuses every other value.
- `Clustering.ClusteringVariantProcessor.Process` does not state outright that the other fields of each entity are unchanged. Its `modifies` clause names only the clustered accession of the entities, so the frame is what guarantees it.
- Concurrency between writers sharing the store, and the retries around the bulk write, are not modelled.
- The `open`, `update` and `close` methods of the writer only delegate to the report writer, and are not modelled.
- Integer widths (Java `long` and `int`) are modelled as unbounded integers. Accessions, starts and counts in this code never approach the limits.
