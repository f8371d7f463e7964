/**
 * The allele filters of the release and accessioning pipelines (`ExcludeInvalidVariantsProcessor`,
 * `ExcludeStructuralVariantsProcessor`): a variant whose alleles are plain bases, as the REF and ALT
 * fields of section 1.6.1 of the VCF 4.3 specification write them, is passed on unchanged; any other
 * is dropped (the processor returns null).
 */
module AlleleFilters {
  import opened Wrappers

  /** The fields of a variant that the filters see. */
  datatype Variant = Variant(contig: string, start: int, end: int, reference: string, alternate: string)

  /** `[acgtnACGTN]`: a base or an unknown base, in either case. */
  predicate IsBase(c: char) {
    c in "acgtnACGTN"
  }

  /** `[acgtnACGTN,]`: a base, or the comma between alternates. */
  predicate IsBaseOrComma(c: char) {
    IsBase(c) || c == ','
  }

  /** `^[acgtnACGTN]+$` matching the whole string. */
  predicate MatchesBases(s: string) {
    |s| > 0 && forall i :: 0 <= i < |s| ==> IsBase(s[i])
  }

  /** `^[acgtnACGTN,]+$` matching the whole string. */
  predicate MatchesBasesOrCommas(s: string) {
    |s| > 0 && forall i :: 0 <= i < |s| ==> IsBaseOrComma(s[i])
  }

  /** The IllegalArgumentException for an empty allele. */
  datatype FilterError = ReferenceAndAlternateAllelesCannotBeEmpty

  /**
   * The release filter: an empty allele is an error; otherwise the variant passes iff the reference
   * and the alternate written one after the other are bases only.
   */
  function ExcludeInvalidVariants(variant: Variant): (r: Result<Option<Variant>, FilterError>)
    ensures r.Err? <==> variant.reference == [] || variant.alternate == []
    ensures r.Ok? && r.value.Some? ==> r.value.value == variant
    ensures r == Ok(Some(variant)) <==>
      MatchesBases(variant.reference) && MatchesBases(variant.alternate)
  {
    if variant.reference == [] || variant.alternate == [] then
      Err(ReferenceAndAlternateAllelesCannotBeEmpty)
    else
      ConcatenationMatchesBases(variant.reference, variant.alternate);
      if MatchesBases(variant.reference + variant.alternate) then Ok(Some(variant)) else Ok(None)
  }

  /** Two non-empty strings written one after the other are bases only iff each of them is. */
  lemma ConcatenationMatchesBases(first: string, second: string)
    requires first != [] && second != []
    ensures MatchesBases(first + second) <==> MatchesBases(first) && MatchesBases(second)
  {
    var both := first + second;
    assert forall i :: 0 <= i < |second| ==> second[i] == both[|first| + i];
    assert forall i :: 0 <= i < |both| ==> both[i] == if i < |first| then first[i] else second[i - |first|];
  }

  /**
   * Some allele with a character other than a base drops the variant; an error is only ever for an
   * empty allele.
   */
  lemma InvalidCharacterDropsVariant(variant: Variant, i: nat)
    requires variant.reference != [] && variant.alternate != []
    requires (i < |variant.reference| && !IsBase(variant.reference[i])) ||
             (i < |variant.alternate| && !IsBase(variant.alternate[i]))
    ensures ExcludeInvalidVariants(variant) == Ok(None)
  {
  }

  /** The release filter is idempotent: what it passes, it passes again. */
  lemma ExcludeInvalidVariantsIdempotent(variant: Variant)
    requires ExcludeInvalidVariants(variant).Ok? && ExcludeInvalidVariants(variant).value.Some?
    ensures ExcludeInvalidVariants(ExcludeInvalidVariants(variant).value.value) == ExcludeInvalidVariants(variant)
  {
  }

  /**
   * The structural-variant filter: only the alternate is looked at, and the variant passes iff it is
   * non-empty and made of bases and commas.
   */
  function ExcludeStructuralVariants(variant: Variant): (r: Option<Variant>)
    ensures r.Some? ==> r.value == variant
    ensures r.Some? <==>
      && variant.alternate != []
      && forall i :: 0 <= i < |variant.alternate| ==> IsBaseOrComma(variant.alternate[i])
  {
    if MatchesBasesOrCommas(variant.alternate) then Some(variant) else None
  }

  /** The reference allele never changes whether a variant passes the structural-variant filter. */
  lemma StructuralFilterIgnoresReference(variant: Variant, reference: string)
    ensures ExcludeStructuralVariants(variant.(reference := reference)).Some? == ExcludeStructuralVariants(variant).Some?
  {
  }

  /** The structural-variant filter is idempotent. */
  lemma ExcludeStructuralVariantsIdempotent(variant: Variant)
    requires ExcludeStructuralVariants(variant).Some?
    ensures ExcludeStructuralVariants(ExcludeStructuralVariants(variant).value) == Some(variant)
  {
  }

  /** A variant the release filter passes also passes the structural-variant filter. */
  lemma ReleaseFilterIsStricter(variant: Variant)
    requires ExcludeInvalidVariants(variant) == Ok(Some(variant))
    ensures ExcludeStructuralVariants(variant) == Some(variant)
  {
  }

  /** A single base passes; a symbolic allele and a breakend are dropped. */
  lemma StructuralFilterExamples()
    ensures ExcludeStructuralVariants(Variant("contig", 1000, 1001, "A", "A")).Some?
    ensures ExcludeStructuralVariants(Variant("contig", 1000, 1001, "A", "<ID>")) == None
    ensures ExcludeStructuralVariants(Variant("contig", 1000, 1001, "A", "G]2 : 421681]")) == None
  {
    assert !IsBaseOrComma("<ID>"[0]);
    assert !IsBaseOrComma("G]2 : 421681]"[1]);
  }

  /** Two alternates written with a comma pass the structural-variant filter but not the release filter. */
  lemma CommaSeparatedAlternatesExample()
    ensures ExcludeStructuralVariants(Variant("contig", 1000, 1001, "A", "C,T")).Some?
    ensures ExcludeInvalidVariants(Variant("contig", 1000, 1001, "A", "C,T")) == Ok(None)
  {
    assert !IsBase("C,T"[1]);
  }
}
