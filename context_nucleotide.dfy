/**
 * Adding the context nucleotide during remapping (`ContextNucleotideAdditionProcessor`).
 *
 * A submitted variant is classified from its two alleles. Insertions, deletions and indels are
 * rewritten with the leading context base that VCF requires; the new start and alleles come from the
 * FASTA reader, which this model keeps abstract. SNVs and MNVs pass unchanged.
 */
module ContextNucleotide {
  import opened Wrappers
  import opened Variants

  // ---------------------------------------------------------------------------------------------
  // Classification of the alleles

  /** Java's `String.trim`: the characters at or below the space are removed from both ends. */
  predicate IsTrimmed(c: char) {
    c <= ' '
  }

  function TrimStart(s: string): (r: string)
    ensures |r| <= |s|
  {
    if s != [] && IsTrimmed(s[0]) then TrimStart(s[1..]) else s
  }

  /** The leading trim keeps a suffix, removes only trimmable characters, and stops at the first other one. */
  lemma {:induction false} TrimStartMeaning(s: string)
    ensures var r := TrimStart(s);
      && r == s[|s| - |r|..]
      && (forall i :: 0 <= i < |s| - |r| ==> IsTrimmed(s[i]))
      && (r == [] || !IsTrimmed(r[0]))
    decreases |s|
  {
    if s != [] && IsTrimmed(s[0]) {
      var r := TrimStart(s[1..]);
      TrimStartMeaning(s[1..]);
      assert s[1..][|s| - 1 - |r|..] == s[|s| - |r|..];
      assert forall i :: 1 <= i < |s| - |r| ==> s[1..][i - 1] == s[i];
    }
  }

  function TrimEnd(s: string): (r: string)
    ensures |r| <= |s|
  {
    if s != [] && IsTrimmed(s[|s| - 1]) then TrimEnd(s[..|s| - 1]) else s
  }

  /** The trailing trim keeps a prefix, removes only trimmable characters, and stops at the last other one. */
  lemma {:induction false} TrimEndMeaning(s: string)
    ensures var r := TrimEnd(s);
      && r == s[..|r|]
      && (forall i :: |r| <= i < |s| ==> IsTrimmed(s[i]))
      && (r == [] || !IsTrimmed(r[|r| - 1]))
    decreases |s|
  {
    if s != [] && IsTrimmed(s[|s| - 1]) {
      var r := TrimEnd(s[..|s| - 1]);
      TrimEndMeaning(s[..|s| - 1]);
      assert s[..|s| - 1][..|r|] == s[..|r|];
      assert forall i :: |r| <= i < |s| - 1 ==> s[..|s| - 1][i] == s[i];
    }
  }

  /** The allele without its leading and trailing trimmable characters. */
  function Trim(s: string): (r: string)
    ensures |r| <= |s|
  {
    TrimEnd(TrimStart(s))
  }

  /** Cutting a suffix and then a prefix of it leaves a middle slice. */
  lemma PrefixOfSuffix(s: string, k: nat, n: nat)
    requires k + n <= |s|
    ensures s[k..][..n] == s[k..k + n]
  {
  }

  /**
   * What trimming keeps: a middle part of the allele, with only trimmable characters cut off on
   * either side of it.
   */
  lemma TrimMeaning(s: string)
    ensures var r, k := Trim(s), |s| - |TrimStart(s)|;
      && k + |r| <= |s| && r == s[k..k + |r|]
      && (forall i :: 0 <= i < k ==> IsTrimmed(s[i]))
      && (forall i :: k + |r| <= i < |s| ==> IsTrimmed(s[i]))
      && (r == [] || (!IsTrimmed(r[0]) && !IsTrimmed(r[|r| - 1])))
  {
    var t := TrimStart(s);
    var r := TrimEnd(t);
    var k := |s| - |t|;
    TrimStartMeaning(s);
    TrimEndMeaning(t);
    assert r == Trim(s);
    assert r != [] ==> r[0] == t[0];
    PrefixOfSuffix(s, k, |r|);
    forall i | k + |r| <= i < |s|
      ensures IsTrimmed(s[i])
    {
      assert s[i] == t[i - k];
    }
  }

  /** ASCII upper-casing of one character. */
  function UpperChar(c: char): char {
    if 'a' <= c <= 'z' then (c as int - 'a' as int + 'A' as int) as char else c
  }

  /** Upper-casing, letter by letter. */
  function UpperCase(s: string): (r: string)
    ensures |r| == |s|
    ensures forall i :: 0 <= i < |s| ==> r[i] == UpperChar(s[i])
  {
    seq(|s|, i requires 0 <= i < |s| => UpperChar(s[i]))
  }

  /** The regular expression `[A-Z]*`, matched against the whole text. */
  predicate IsUpperLetters(s: string) {
    forall i :: 0 <= i < |s| ==> 'A' <= s[i] <= 'Z'
  }

  /** The allele as the classification sees it: trimmed, then upper-cased. */
  function Normalized(allele: string): (r: string)
    ensures |r| <= |allele|
  {
    UpperCase(Trim(allele))
  }

  /** An allele of upper-case letters is its own normal form. */
  lemma NormalizedOfUpperLetters(allele: string)
    requires IsUpperLetters(allele)
    ensures Normalized(allele) == allele
  {
    TrimOfUpperLetters(allele);
    UpperCaseOfUpperLetters(allele);
  }

  datatype ClassificationError =
    | BothAllelesEmpty
    | CannotDetermineType(reference: string, alternate: string)

  /** The type of a variant from its alleles, as the processor computes it. */
  function GetVariantType(reference: string, alternate: string): (r: Result<VariantType, ClassificationError>)
    ensures r.Ok? ==> r.value != SequenceAlteration
  {
    var ref := Normalized(reference);
    var alt := Normalized(alternate);
    if IsUpperLetters(ref) && IsUpperLetters(alt) then
      TypeOfLengths(|ref|, |alt|)
    else
      Err(CannotDetermineType(reference, alternate))
  }

  /** The type of two valid normal forms, from their lengths alone. */
  function TypeOfLengths(refLength: nat, altLength: nat): (r: Result<VariantType, ClassificationError>)
    ensures r.Ok? ==> r.value != SequenceAlteration
  {
    if refLength == altLength then
      if refLength == 1 then Ok(Snv)
      else if refLength == 0 then Err(BothAllelesEmpty)
      else Ok(Mnv)
    else
      if refLength == 0 then Ok(Ins)
      else if altLength == 0 then Ok(Del)
      else Ok(Indel)
  }

  /**
   * The classification table: alleles of equal length give an SNV (one letter) or an MNV (more) and
   * are never both empty; alleles of different lengths give an insertion (empty reference), a
   * deletion (empty alternate) or an indel; anything but upper-case letters after trimming and
   * upper-casing is rejected.
   */
  lemma VariantTypeTable(reference: string, alternate: string)
    ensures var r := GetVariantType(reference, alternate);
      var ref, alt := Normalized(reference), Normalized(alternate);
      var valid := IsUpperLetters(ref) && IsUpperLetters(alt);
      && (r == Ok(Snv) <==> valid && |ref| == 1 && |alt| == 1)
      && (r == Ok(Mnv) <==> valid && |ref| == |alt| && |ref| > 1)
      && (r == Ok(Ins) <==> valid && |ref| == 0 && |alt| > 0)
      && (r == Ok(Del) <==> valid && |alt| == 0 && |ref| > 0)
      && (r == Ok(Indel) <==> valid && |ref| > 0 && |alt| > 0 && |ref| != |alt|)
      && (r == Err(BothAllelesEmpty) <==> valid && |ref| == 0 && |alt| == 0)
      && (r == Err(CannotDetermineType(reference, alternate)) <==> !valid)
  {
  }

  /** The classification never reports a named (symbolic) variant. */
  lemma NeverSequenceAlteration(reference: string, alternate: string)
    ensures GetVariantType(reference, alternate) != Ok(SequenceAlteration)
  {
  }

  /** Alleles with the same normal forms of upper-case letters are classified alike. */
  lemma SameNormalFormSameType(reference: string, alternate: string, reference': string, alternate': string)
    requires Normalized(reference) == Normalized(reference') && Normalized(alternate) == Normalized(alternate')
    requires IsUpperLetters(Normalized(reference)) && IsUpperLetters(Normalized(alternate))
    ensures GetVariantType(reference, alternate) == GetVariantType(reference', alternate')
  {
    var ref, alt := Normalized(reference), Normalized(alternate);
    assert GetVariantType(reference, alternate) == TypeOfLengths(|ref|, |alt|);
    assert GetVariantType(reference', alternate') == TypeOfLengths(|ref|, |alt|);
  }

  /** Surrounding blanks and letter case do not change the type. */
  lemma {:induction false} ClassificationIgnoresBlanksAndCase(reference: string, alternate: string)
    ensures GetVariantType(reference, alternate).Ok? ==>
      GetVariantType(Normalized(reference), Normalized(alternate)) == GetVariantType(reference, alternate)
  {
    var ref, alt := Normalized(reference), Normalized(alternate);
    if IsUpperLetters(ref) && IsUpperLetters(alt) {
      NormalizedIdempotent(reference);
      NormalizedIdempotent(alternate);
      SameNormalFormSameType(ref, alt, reference, alternate);
    }
  }

  lemma {:induction false} TrimStartOfTrimmed(s: string)
    requires s == [] || !IsTrimmed(s[0])
    ensures TrimStart(s) == s
  {
  }

  lemma {:induction false} TrimEndOfTrimmed(s: string)
    requires s == [] || !IsTrimmed(s[|s| - 1])
    ensures TrimEnd(s) == s
  {
  }

  lemma TrimOfUpperLetters(s: string)
    requires IsUpperLetters(s)
    ensures Trim(s) == s
  {
    TrimStartOfTrimmed(s);
    TrimEndOfTrimmed(s);
  }

  lemma UpperCaseOfUpperLetters(s: string)
    requires IsUpperLetters(s)
    ensures UpperCase(s) == s
  {
    var u := UpperCase(s);
    assert |u| == |s|;
    forall i | 0 <= i < |s|
      ensures u[i] == s[i]
    {
      assert 'A' <= s[i] <= 'Z';
    }
  }

  /** Normalising a normalised allele of upper-case letters changes nothing. */
  lemma {:induction false} NormalizedIdempotent(allele: string)
    ensures IsUpperLetters(Normalized(allele)) ==> Normalized(Normalized(allele)) == Normalized(allele)
  {
    var n := Normalized(allele);
    if IsUpperLetters(n) {
      TrimOfUpperLetters(n);
      UpperCaseOfUpperLetters(n);
    }
  }

  // ---------------------------------------------------------------------------------------------
  // Renormalisation

  /** New coordinates of a variant, as the FASTA reader returns them. */
  datatype ContextTriple = ContextTriple(newStart: int, newReference: string, newAlternate: string)

  /**
   * The FASTA reader, known only through its answers: whether a contig is present, and the new start
   * and alleles with the context nucleotide (None when the position lies outside the contig).
   */
  datatype FastaReader = FastaReader(
    doesContigExist: string -> bool,
    contextNucleotideAndNewStart: (string, int, string, string) -> Option<ContextTriple>)

  datatype RemappingError =
    | ContigNotInFasta(contig: string)
    | CannotComputeVariantType(cause: ClassificationError)
    | NamedVariantsUnsupported
    | PositionOutsideOfContig

  /** Insertions, deletions and indels are the types that need a context nucleotide. */
  predicate NeedsContextNucleotide(t: VariantType) {
    t in {Ins, Del, Indel}
  }

  /** The variant the processor returns for v, or the error it raises, as a value. */
  function WithContextNucleotide(v: SubmittedVariant, fasta: FastaReader): (r: Result<SubmittedVariant, RemappingError>)
    ensures r.Ok? ==> fasta.doesContigExist(v.contig)
    ensures r.Ok? ==> r.value.accession == v.accession && r.value.contig == v.contig
  {
    if !fasta.doesContigExist(v.contig) then Err(ContigNotInFasta(v.contig))
    else
      match GetVariantType(v.referenceAllele, v.alternateAllele)
      case Err(e) => Err(CannotComputeVariantType(e))
      case Ok(t) =>
        if t == SequenceAlteration then Err(NamedVariantsUnsupported)
        else if NeedsContextNucleotide(t) then
          match fasta.contextNucleotideAndNewStart(v.contig, v.start, v.referenceAllele, v.alternateAllele)
          case None => Err(PositionOutsideOfContig)
          case Some(c) => Ok(v.(start := c.newStart, referenceAllele := c.newReference, alternateAllele := c.newAlternate))
        else Ok(v)
  }

  /** A contig missing from the FASTA file is refused before the alleles are looked at. */
  lemma UnknownContigRefusedFirst(v: SubmittedVariant, fasta: FastaReader)
    requires !fasta.doesContigExist(v.contig)
    ensures WithContextNucleotide(v, fasta) == Err(ContigNotInFasta(v.contig))
  {
  }

  /** Alleles that do not classify are refused, with the classification's error as the cause. */
  lemma UnclassifiableRefused(v: SubmittedVariant, fasta: FastaReader)
    requires fasta.doesContigExist(v.contig)
    requires GetVariantType(v.referenceAllele, v.alternateAllele).Err?
    ensures WithContextNucleotide(v, fasta) ==
      Err(CannotComputeVariantType(GetVariantType(v.referenceAllele, v.alternateAllele).error))
  {
  }

  /** SNVs and MNVs come back unchanged. */
  lemma SnvAndMnvUnchanged(v: SubmittedVariant, fasta: FastaReader)
    requires fasta.doesContigExist(v.contig)
    requires GetVariantType(v.referenceAllele, v.alternateAllele) == Ok(Snv) ||
             GetVariantType(v.referenceAllele, v.alternateAllele) == Ok(Mnv)
    ensures WithContextNucleotide(v, fasta) == Ok(v)
  {
    var t := GetVariantType(v.referenceAllele, v.alternateAllele).value;
    assert t != SequenceAlteration && !NeedsContextNucleotide(t);
  }

  /**
   * Insertions, deletions and indels take the reader's start and alleles and keep every other field;
   * a position outside the contig is refused.
   */
  lemma IndelsTakeReaderCoordinates(v: SubmittedVariant, fasta: FastaReader)
    requires fasta.doesContigExist(v.contig)
    requires GetVariantType(v.referenceAllele, v.alternateAllele).Ok?
    requires NeedsContextNucleotide(GetVariantType(v.referenceAllele, v.alternateAllele).value)
    ensures var context := fasta.contextNucleotideAndNewStart(v.contig, v.start, v.referenceAllele, v.alternateAllele);
      && (context.None? ==> WithContextNucleotide(v, fasta) == Err(PositionOutsideOfContig))
      && (context.Some? ==>
            && WithContextNucleotide(v, fasta).Ok?
            && var w := WithContextNucleotide(v, fasta).value;
               && w.start == context.value.newStart
               && w.referenceAllele == context.value.newReference
               && w.alternateAllele == context.value.newAlternate
               && w.(start := v.start, referenceAllele := v.referenceAllele, alternateAllele := v.alternateAllele) == v)
  {
  }

  /** The branch for named variants is never taken. */
  lemma NamedVariantBranchUnreachable(v: SubmittedVariant, fasta: FastaReader)
    ensures WithContextNucleotide(v, fasta) != Err(NamedVariantsUnsupported)
  {
    var t := GetVariantType(v.referenceAllele, v.alternateAllele);
    if fasta.doesContigExist(v.contig) && t.Ok? {
      assert t.value != SequenceAlteration;
    }
  }

  /** The entity's start and alleles replaced by the reader's, nothing else touched. */
  method RenormalizeIndel(variant: SubmittedVariantEntity, fasta: FastaReader)
    returns (r: Result<SubmittedVariantEntity, RemappingError>)
    modifies variant`start, variant`referenceAllele, variant`alternateAllele
    ensures var context := fasta.contextNucleotideAndNewStart(variant.contig, old(variant.start),
                                                              old(variant.referenceAllele), old(variant.alternateAllele));
      && (context.None? ==> r == Err(PositionOutsideOfContig) && variant.Value() == old(variant.Value()))
      && (context.Some? ==>
            && r == Ok(variant)
            && variant.Value() == old(variant.Value()).(start := context.value.newStart,
                                                        referenceAllele := context.value.newReference,
                                                        alternateAllele := context.value.newAlternate))
  {
    var context := fasta.contextNucleotideAndNewStart(variant.contig, variant.start, variant.referenceAllele,
                                                      variant.alternateAllele);
    match context {
      case None =>
        r := Err(PositionOutsideOfContig);
      case Some(c) =>
        variant.start := c.newStart;
        variant.referenceAllele := c.newReference;
        variant.alternateAllele := c.newAlternate;
        r := Ok(variant);
    }
  }

  /**
   * The processor: the contig must be in the FASTA file, the alleles must classify, and indels are
   * renormalised in place. On failure the entity is left as it was.
   */
  method Process(variant: SubmittedVariantEntity, fasta: FastaReader)
    returns (r: Result<SubmittedVariantEntity, RemappingError>)
    modifies variant`start, variant`referenceAllele, variant`alternateAllele
    ensures r.Ok? ==> r.value == variant && WithContextNucleotide(old(variant.Value()), fasta) == Ok(variant.Value())
    ensures r.Err? ==> WithContextNucleotide(old(variant.Value()), fasta) == Err(r.error) &&
                       variant.Value() == old(variant.Value())
  {
    if !fasta.doesContigExist(variant.contig) {
      return Err(ContigNotInFasta(variant.contig));
    }
    var variantType := GetVariantType(variant.referenceAllele, variant.alternateAllele);
    match variantType {
      case Err(e) =>
        r := Err(CannotComputeVariantType(e));
      case Ok(t) =>
        if t == SequenceAlteration {
          r := Err(NamedVariantsUnsupported);
        } else if t in {Ins, Del, Indel} {
          r := RenormalizeIndel(variant, fasta);
        } else {
          r := Ok(variant);
        }
    }
  }
}
