/**
 * The submitted-variant record shared by the remapping, clustering and persistence steps.
 *
 * The source has one `SubmittedVariantEntity` per module (persistence and model packages); both
 * carry the same identity fields. The fields the source sets after construction are mutable here
 * (`start`, the two alleles, `createdDate` and the clustered accession); the others are constants.
 */
module Variants {
  import opened Wrappers

  /** A creation instant; the source reads it from the clock, the model receives it as a value. */
  type DateTime = int

  /** The variant types the classification of alleles can produce. */
  datatype VariantType = Snv | Mnv | Ins | Del | Indel | SequenceAlteration

  /** The value of every field of a submitted variant at one moment. */
  datatype SubmittedVariant = SubmittedVariant(
    accession: int,
    hashedMessage: string,
    assemblyAccession: string,
    taxonomyAccession: int,
    projectAccession: string,
    contig: string,
    start: int,
    referenceAllele: string,
    alternateAllele: string,
    validated: bool,
    createdDate: Option<DateTime>,
    clusteredVariantAccession: Option<int>)

  class SubmittedVariantEntity {
    const accession: int
    const hashedMessage: string
    const assemblyAccession: string
    const taxonomyAccession: int
    const projectAccession: string
    const contig: string
    var start: int
    var referenceAllele: string
    var alternateAllele: string
    const validated: bool
    var createdDate: Option<DateTime>
    var clusteredVariantAccession: Option<int>

    /** A new entity has no creation date (it is set on persistence) and no clustered accession. */
    constructor (accession: int, hashedMessage: string, assemblyAccession: string, taxonomyAccession: int,
                 projectAccession: string, contig: string, start: int, referenceAllele: string,
                 alternateAllele: string, validated: bool)
      ensures Value() == SubmittedVariant(accession, hashedMessage, assemblyAccession, taxonomyAccession,
                                          projectAccession, contig, start, referenceAllele, alternateAllele,
                                          validated, None, None)
    {
      this.accession := accession;
      this.hashedMessage := hashedMessage;
      this.assemblyAccession := assemblyAccession;
      this.taxonomyAccession := taxonomyAccession;
      this.projectAccession := projectAccession;
      this.contig := contig;
      this.start := start;
      this.referenceAllele := referenceAllele;
      this.alternateAllele := alternateAllele;
      this.validated := validated;
      this.createdDate := None;
      this.clusteredVariantAccession := None;
    }

    /** The current value of all fields. */
    function Value(): SubmittedVariant
      reads this
    {
      SubmittedVariant(accession, hashedMessage, assemblyAccession, taxonomyAccession, projectAccession, contig,
                       start, referenceAllele, alternateAllele, validated, createdDate, clusteredVariantAccession)
    }
  }

  /** The current values of a list of entities, in list order. */
  function Values(entities: seq<SubmittedVariantEntity>): (r: seq<SubmittedVariant>)
    reads entities
    ensures |r| == |entities|
    ensures forall i :: 0 <= i < |entities| ==> r[i] == entities[i].Value()
  {
    seq(|entities|, i reads entities requires 0 <= i < |entities| => entities[i].Value())
  }

  /** The hashes of a list of documents, in list order. */
  function Hashes(batch: seq<SubmittedVariant>): (r: seq<string>)
    ensures |r| == |batch|
    ensures forall i :: 0 <= i < |batch| ==> r[i] == batch[i].hashedMessage
  {
    seq(|batch|, i requires 0 <= i < |batch| => batch[i].hashedMessage)
  }

  /** No element occurs twice. */
  predicate Distinct<T(==)>(s: seq<T>) {
    forall i, j :: 0 <= i < j < |s| ==> s[i] != s[j]
  }
}
