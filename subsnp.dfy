/**
 * Strand canonicalisation of dbSNP submitted SNPs (`SubSnpNoHgvs`).
 *
 * dbSNP reports a submitted SNP with a reference allele on the contig's strand and a slash-separated
 * allele string on the strand of the submission. Three orientations (submission relative to refSNP,
 * refSNP relative to contig, contig relative to assembly) say which strand each was written on. This
 * module brings the reference and the alternate allele to the forward strand of the assembly.
 */
module SubSnp {
  import opened Wrappers

  /** A strand orientation, with numeric value +1 (forward) or -1 (reverse). */
  datatype Orientation = Forward | Reverse {
    function Value(): int {
      if Forward? then 1 else -1
    }
  }

  datatype SubSnpError = UnknownAllelesOrientation(value: int)

  /** The orientation with the given numeric value; any value other than +1 and -1 is rejected. */
  function GetOrientation(value: int): (r: Result<Orientation, SubSnpError>)
    ensures r.Ok? <==> value == 1 || value == -1
    ensures r.Ok? ==> r.value.Value() == value
  {
    if value == 1 then Ok(Forward)
    else if value == -1 then Ok(Reverse)
    else Err(UnknownAllelesOrientation(value))
  }

  /** A location on a named sequence; the start may be absent. */
  datatype Region = Region(sequenceName: string, start: Option<int>)

  /** A dbSNP submitted SNP without HGVS annotation, reduced to the fields canonicalisation uses. */
  datatype SubSnpNoHgvs = SubSnpNoHgvs(
    ssId: int,
    rsId: int,
    alleles: string,
    assembly: string,
    chromosomeRegion: Option<Region>,
    contigRegion: Option<Region>,
    subsnpOrientation: Orientation,
    snpOrientation: Orientation,
    contigOrientation: Orientation,
    reference: string,
    taxonomyId: int)

  /** A region exists only for a named sequence, and it carries the start exactly when one is given. */
  function CreateRegion(sequenceName: Option<string>, start: Option<int>): (r: Option<Region>)
    ensures r.None? <==> sequenceName.None?
    ensures r.Some? ==> r.value.sequenceName == sequenceName.value
    ensures r.Some? ==> (r.value.start.Some? <==> start.Some?) && r.value.start == start
  {
    match sequenceName
    case Some(name) => if start.Some? then Some(Region(name, start)) else Some(Region(name, None))
    case None => None
  }

  // ---------------------------------------------------------------------------------------------
  // Reverse complement

  /** The complementary base, keeping the letter's case; anything else is left as it is. */
  function Complement(c: char): (r: char)
    ensures r in "ACGT" <==> c in "ACGT"
    ensures r in "acgt" <==> c in "acgt"
    ensures c !in "ACGTacgt" ==> r == c
    ensures c in "ACGTacgt" ==> r != c
  {
    match c
    case 'A' => 'T'
    case 'a' => 't'
    case 'C' => 'G'
    case 'c' => 'g'
    case 'G' => 'C'
    case 'g' => 'c'
    case 'T' => 'A'
    case 't' => 'a'
    case _ => c
  }

  /** The reverse complement of an allele: the complement of its last letter first. */
  function ReverseComplement(s: string): (r: string)
    ensures |r| == |s|
  {
    if s == [] then [] else [Complement(s[|s| - 1])] + ReverseComplement(s[..|s| - 1])
  }

  lemma {:induction false} ReverseComplementLength(s: string)
    ensures |ReverseComplement(s)| == |s|
  {
    if s != [] {
      ReverseComplementLength(s[..|s| - 1]);
    }
  }

  /** Position k of the reverse complement holds the complement of position |s|-1-k. */
  lemma {:induction false} ReverseComplementAt(s: string, k: int)
    requires 0 <= k < |s|
    ensures |ReverseComplement(s)| == |s|
    ensures ReverseComplement(s)[k] == Complement(s[|s| - 1 - k])
  {
    ReverseComplementLength(s);
    if k > 0 {
      ReverseComplementAt(s[..|s| - 1], k - 1);
    }
  }

  /** Complementing twice gives the base back. */
  lemma ComplementInvolution(c: char)
    ensures Complement(Complement(c)) == c
  {
  }

  /** The reverse complement preserves length and undoes itself. */
  lemma ReverseComplementInvolution(s: string)
    ensures |ReverseComplement(s)| == |s|
    ensures ReverseComplement(ReverseComplement(s)) == s
  {
    var r := ReverseComplement(s);
    ReverseComplementLength(s);
    ReverseComplementLength(r);
    forall k | 0 <= k < |s|
      ensures ReverseComplement(r)[k] == s[k]
    {
      ReverseComplementTwiceAt(s, k);
    }
  }

  lemma ReverseComplementTwiceAt(s: string, k: int)
    requires 0 <= k < |s|
    ensures |ReverseComplement(ReverseComplement(s))| == |s|
    ensures ReverseComplement(ReverseComplement(s))[k] == s[k]
  {
    var r := ReverseComplement(s);
    ReverseComplementAt(r, k);
    ReverseComplementAt(s, |s| - 1 - k);
    ComplementInvolution(s[k]);
  }

  /** The reverse complement of a slash-free allele is slash-free, and only "" complements to "". */
  lemma ReverseComplementKeepsShape(s: string)
    ensures '/' !in s ==> '/' !in ReverseComplement(s)
    ensures ReverseComplement(s) == "" <==> s == ""
  {
    ReverseComplementLength(s);
    if '/' in s {
      return;
    }
    forall k | 0 <= k < |s|
      ensures ReverseComplement(s)[k] != '/'
    {
      ReverseComplementAt(s, k);
    }
  }

  /**
   * The allele text turned around in a buffer and complemented letter by letter, case kept.
   */
  method CalculateReverseComplement(alleleInReverseStrand: string) returns (alleleInForwardStrand: string)
    ensures alleleInForwardStrand == ReverseComplement(alleleInReverseStrand)
  {
    var s := alleleInReverseStrand;
    var n := |s|;
    var builder := new char[n](i requires 0 <= i < n => s[n - 1 - i]);
    for i := 0 to n
      invariant forall j :: 0 <= j < i ==> builder[j] == Complement(s[n - 1 - j])
      invariant forall j :: i <= j < n ==> builder[j] == s[n - 1 - j]
    {
      match builder[i] {
        case 'A' => builder[i] := 'T';
        case 'a' => builder[i] := 't';
        case 'C' => builder[i] := 'G';
        case 'c' => builder[i] := 'g';
        case 'G' => builder[i] := 'C';
        case 'g' => builder[i] := 'c';
        case 'T' => builder[i] := 'A';
        case 't' => builder[i] := 'a';
        case _ =>
      }
    }
    alleleInForwardStrand := builder[..];
    ReverseComplementLength(s);
    forall k | 0 <= k < n
      ensures alleleInForwardStrand[k] == ReverseComplement(s)[k]
    {
      ReverseComplementAt(s, k);
    }
  }

  // ---------------------------------------------------------------------------------------------
  // Splitting the allele string

  /** Every `/`-separated field of s, empty fields included. */
  function SplitFields(s: string): (r: seq<string>)
    ensures |r| >= 1
  {
    if s == [] then [""]
    else
      var rest := SplitFields(s[1..]);
      if s[0] == '/' then [""] + rest else [[s[0]] + rest[0]] + rest[1..]
  }

  /** The fields written back with `/` between them. */
  function Join(fields: seq<string>): string
    requires |fields| >= 1
  {
    if |fields| == 1 then fields[0] else fields[0] + "/" + Join(fields[1..])
  }

  /** Splitting yields slash-free fields that join back to the string. */
  lemma {:induction false} SplitThenJoin(s: string)
    ensures Join(SplitFields(s)) == s
    ensures forall i :: 0 <= i < |SplitFields(s)| ==> '/' !in SplitFields(s)[i]
  {
    SplitJoinsBack(s);
    SplitFieldsSlashFree(s);
  }

  lemma {:induction false} SplitFieldsSlashFree(s: string)
    ensures forall i :: 0 <= i < |SplitFields(s)| ==> '/' !in SplitFields(s)[i]
  {
    if s != [] {
      SplitFieldsSlashFree(s[1..]);
      var rest := SplitFields(s[1..]);
      var r := SplitFields(s);
      if s[0] == '/' {
        assert r == [""] + rest;
        forall i | 0 < i < |r|
          ensures '/' !in r[i]
        {
          assert r[i] == rest[i - 1];
        }
      } else {
        assert r == [[s[0]] + rest[0]] + rest[1..];
        assert '/' !in [s[0]] + rest[0];
        forall i | 0 < i < |r|
          ensures '/' !in r[i]
        {
          assert r[i] == rest[i];
        }
      }
    }
  }

  lemma {:induction false} SplitJoinsBack(s: string)
    ensures Join(SplitFields(s)) == s
  {
    if s != [] {
      SplitJoinsBack(s[1..]);
      var rest := SplitFields(s[1..]);
      if s[0] == '/' {
        assert SplitFields(s) == [""] + rest;
        assert s == "" + "/" + s[1..];
      } else {
        var r := SplitFields(s);
        assert r[0] == [s[0]] + rest[0];
        assert r[1..] == rest[1..];
        if |rest| == 1 {
          assert s == [s[0]] + s[1..];
        } else {
          assert Join(rest) == rest[0] + "/" + Join(rest[1..]);
          assert s == [s[0]] + s[1..];
        }
      }
    }
  }

  /** Prepending a slash-free text extends the first field. */
  lemma {:induction false} SplitFieldsAfterText(f: string, t: string)
    requires '/' !in f
    ensures SplitFields(f + t) == [f + SplitFields(t)[0]] + SplitFields(t)[1..]
  {
    if f != [] {
      assert f[0] in f;
      SplitFieldsAfterText(f[1..], t);
      var rest := SplitFields(f[1..] + t);
      assert (f + t)[1..] == f[1..] + t;
      assert (f + t)[0] == f[0];
      assert rest[1..] == SplitFields(t)[1..];
      assert [f[0]] + (f[1..] + SplitFields(t)[0]) == f + SplitFields(t)[0];
    } else {
      assert f + t == t;
      assert SplitFields(t) == [SplitFields(t)[0]] + SplitFields(t)[1..];
      assert f + SplitFields(t)[0] == SplitFields(t)[0];
    }
  }

  /** Joining slash-free fields and splitting again gives the same fields. */
  lemma {:induction false} JoinThenSplit(fields: seq<string>)
    requires |fields| >= 1
    requires forall i :: 0 <= i < |fields| ==> '/' !in fields[i]
    ensures SplitFields(Join(fields)) == fields
  {
    if |fields| == 1 {
      SplitFieldsAfterText(fields[0], "");
      assert fields[0] + "" == fields[0];
    } else {
      var tail := Join(fields[1..]);
      JoinThenSplit(fields[1..]);
      SplitFieldsAfterText(fields[0], "/" + tail);
      assert SplitFields("/" + tail) == [""] + SplitFields(tail) by {
        assert ("/" + tail)[1..] == tail;
      }
      assert fields[0] + "/" + tail == fields[0] + ("/" + tail);
      assert fields[0] + "" == fields[0];
      assert ([""] + SplitFields(tail))[1..] == SplitFields(tail);
      assert fields == [fields[0]] + fields[1..];
    }
  }

  /** A string splits into a single field exactly when it holds no slash. */
  lemma {:induction false} SingleFieldIffNoSlash(s: string)
    ensures |SplitFields(s)| == 1 <==> '/' !in s
    ensures '/' !in s ==> SplitFields(s) == [s]
  {
    if s != [] {
      SingleFieldIffNoSlash(s[1..]);
      assert '/' in s <==> s[0] == '/' || '/' in s[1..] by {
        assert s == [s[0]] + s[1..];
      }
      if '/' !in s {
        assert s == [s[0]] + s[1..];
      }
    }
  }

  /** The last field is empty exactly when the string is empty or ends with a slash. */
  lemma {:induction false} LastFieldEmpty(s: string)
    ensures var f := SplitFields(s); f[|f| - 1] == "" <==> s == [] || s[|s| - 1] == '/'
  {
    if s != [] {
      LastFieldEmpty(s[1..]);
      var rest := SplitFields(s[1..]);
      if s[0] != '/' && |rest| == 1 {
        SingleFieldIffNoSlash(s[1..]);
        if s[1..] != [] {
          assert s[|s| - 1] == s[1..][|s[1..]| - 1];
          assert s[|s| - 1] in s[1..];
        }
      } else if s[1..] != [] {
        assert s[|s| - 1] == s[1..][|s[1..]| - 1];
      }
    }
  }

  /** The fields without the empty ones at the end. */
  function DropTrailingEmpty(fields: seq<string>): (r: seq<string>)
    ensures |r| <= |fields| && r == fields[..|r|]
    ensures r == [] || r[|r| - 1] != ""
    ensures forall i :: |r| <= i < |fields| ==> fields[i] == ""
  {
    if |fields| > 0 && fields[|fields| - 1] == "" then DropTrailingEmpty(fields[..|fields| - 1]) else fields
  }

  /**
   * Java's `alleles.split("/")`: a string without a slash is its own single field; otherwise the
   * fields, with the trailing empty ones removed.
   */
  function SplitAlleleString(s: string): (r: seq<string>)
    ensures '/' !in s ==> r == [s]
  {
    SingleFieldIffNoSlash(s);
    var fields := SplitFields(s);
    if |fields| == 1 then fields else DropTrailingEmpty(fields)
  }

  /**
   * What the split returns: the string itself when it has no slash, otherwise a prefix of its
   * fields that leaves out only empty trailing fields and does not end with one; no element holds a slash.
   */
  lemma SplitAlleleStringShape(s: string)
    ensures '/' !in s ==> SplitAlleleString(s) == [s]
    ensures '/' in s ==> var r := SplitAlleleString(s); var f := SplitFields(s);
      r == f[..|r|] && (r == [] || r[|r| - 1] != "") && forall i :: |r| <= i < |f| ==> f[i] == ""
    ensures forall i :: 0 <= i < |SplitAlleleString(s)| ==> '/' !in SplitAlleleString(s)[i]
  {
    SingleFieldIffNoSlash(s);
    SplitThenJoin(s);
  }

  /** When the string does not end with a slash, the split keeps every field. */
  lemma SplitWithoutTrailingSlash(s: string)
    requires s != [] && s[|s| - 1] != '/'
    ensures SplitAlleleString(s) == SplitFields(s)
  {
    LastFieldEmpty(s);
  }

  // ---------------------------------------------------------------------------------------------
  // Forward strand

  /** The reference is written on the contig's strand: it is turned only when the contig is reversed. */
  function ReferenceInForwardStrand(v: SubSnpNoHgvs): (r: string)
    ensures |r| == |v.reference|
    ensures v.contigOrientation == Reverse ==> ReverseComplement(r) == v.reference
    ensures v.contigOrientation == Forward ==> r == v.reference
  {
    ReverseComplementInvolution(v.reference);
    if v.contigOrientation == Reverse then ReverseComplement(v.reference) else v.reference
  }

  /**
   * The strand of the alleles is the product of the three orientations: reverse exactly when an odd
   * number of them is reverse. It is never unknown.
   */
  function AllelesOrientation(v: SubSnpNoHgvs): (r: Result<Orientation, SubSnpError>)
    ensures r.Ok?
    ensures r.value == Reverse <==>
      ((v.subsnpOrientation == Reverse) != (v.snpOrientation == Reverse)) != (v.contigOrientation == Reverse)
  {
    GetOrientation(v.subsnpOrientation.Value() * v.snpOrientation.Value() * v.contigOrientation.Value())
  }

  /** Every allele reverse-complemented, in the same order. */
  function ReverseComplementAll(alleles: seq<string>): (r: seq<string>)
    ensures |r| == |alleles|
    ensures forall i :: 0 <= i < |alleles| ==> r[i] == ReverseComplement(alleles[i])
  {
    seq(|alleles|, i requires 0 <= i < |alleles| => ReverseComplement(alleles[i]))
  }

  /** The alleles on the forward strand: the split list, each turned when the alleles are reversed. */
  function ForwardAlleles(v: SubSnpNoHgvs): (r: Result<seq<string>, SubSnpError>)
    ensures r.Ok? && |r.value| == |SplitAlleleString(v.alleles)|
  {
    match AllelesOrientation(v)
    case Ok(Forward) => Ok(SplitAlleleString(v.alleles))
    case Ok(Reverse) => Ok(ReverseComplementAll(SplitAlleleString(v.alleles)))
    case Err(e) => Err(e)
  }

  /** The first allele, in list order, that differs from the reference; None when all equal it. */
  function FirstDifferent(alleles: seq<string>, reference: string): (r: Option<string>)
    ensures r.Some? ==> r.value != reference && r.value in alleles
    ensures r.None? <==> forall i :: 0 <= i < |alleles| ==> alleles[i] == reference
  {
    if alleles == [] then None
    else if alleles[0] != reference then Some(alleles[0])
    else FirstDifferent(alleles[1..], reference)
  }

  /** An allele preceded only by copies of the reference, and itself different, is the one chosen. */
  lemma {:induction false} FirstDifferentAt(alleles: seq<string>, reference: string, k: int)
    requires 0 <= k < |alleles|
    requires forall j :: 0 <= j < k ==> alleles[j] == reference
    requires alleles[k] != reference
    ensures FirstDifferent(alleles, reference) == Some(alleles[k])
  {
    if k > 0 {
      FirstDifferentAt(alleles[1..], reference, k - 1);
    }
  }

  /** The alternate on the forward strand: the first forward allele that is not the forward reference. */
  function ForwardAlternate(v: SubSnpNoHgvs): (r: Result<Option<string>, SubSnpError>)
    ensures r.Ok? && (r.value.Some? ==> r.value.value != ReferenceInForwardStrand(v))
  {
    match ForwardAlleles(v)
    case Ok(alleles) => Ok(FirstDifferent(alleles, ReferenceInForwardStrand(v)))
    case Err(e) => Err(e)
  }

  /**
   * What the forward alternate is: never the forward reference, one of the forward alleles, and
   * absent exactly when every forward allele equals the forward reference.
   */
  lemma ForwardAlternateMeaning(v: SubSnpNoHgvs)
    ensures ForwardAlleles(v).Ok? && ForwardAlternate(v).Ok?
    ensures var alt := ForwardAlternate(v).value; var alleles := ForwardAlleles(v).value;
      && (alt.Some? ==> alt.value != ReferenceInForwardStrand(v) && alt.value in alleles)
      && (alt.None? <==> forall i :: 0 <= i < |alleles| ==> alleles[i] == ReferenceInForwardStrand(v))
  {
  }

  /** The split list with every element reverse-complemented in place. */
  method ReversedComplementedAlleles(alleles: string) returns (r: seq<string>)
    ensures r == ReverseComplementAll(SplitAlleleString(alleles))
  {
    r := ReverseComplementEach(SplitAlleleString(alleles));
  }

  /** The in-place loop itself, over an array holding the fields. */
  method ReverseComplementEach(fields: seq<string>) returns (r: seq<string>)
    ensures r == ReverseComplementAll(fields)
  {
    var a := new string[|fields|](i requires 0 <= i < |fields| => fields[i]);
    for i := 0 to a.Length
      invariant forall j :: 0 <= j < i ==> a[j] == ReverseComplement(fields[j])
      invariant forall j :: i <= j < a.Length ==> a[j] == fields[j]
    {
      a[i] := CalculateReverseComplement(a[i]);
    }
    ghost var expected := ReverseComplementAll(fields);
    assert |a[..]| == |expected| && forall j :: 0 <= j < |fields| ==> a[..][j] == expected[j];
    r := a[..];
  }

  /** The alleles on the forward strand, computed from the alleles orientation. */
  method SplitAlleles(v: SubSnpNoHgvs) returns (r: Result<seq<string>, SubSnpError>)
    ensures r == ForwardAlleles(v)
  {
    match AllelesOrientation(v) {
      case Err(e) =>
        r := Err(e);
      case Ok(orientation) =>
        if orientation == Forward {
          r := Ok(SplitAlleleString(v.alleles));
        } else {
          var reversed := ReversedComplementedAlleles(v.alleles);
          r := Ok(reversed);
        }
    }
  }

  /** The first forward allele that differs from the forward reference, found by a scan with early exit. */
  method AlternateInForwardStrand(v: SubSnpNoHgvs) returns (r: Result<Option<string>, SubSnpError>)
    ensures r == ForwardAlternate(v)
  {
    var split := SplitAlleles(v);
    match split {
      case Err(e) =>
        return Err(e);
      case Ok(alleles) =>
        var reference := ReferenceInForwardStrand(v);
        for i := 0 to |alleles|
          invariant forall j :: 0 <= j < i ==> alleles[j] == reference
        {
          if alleles[i] != reference {
            FirstDifferentAt(alleles, reference, i);
            return Ok(Some(alleles[i]));
          }
        }
        return Ok(None);
    }
  }

  // ---------------------------------------------------------------------------------------------
  // Strand symmetry

  /**
   * The same submission described against the other strand of the contig: reference and each allele
   * reverse-complemented in place, contig orientation flipped.
   */
  function OnOppositeContigStrand(v: SubSnpNoHgvs): SubSnpNoHgvs
  {
    v.(reference := ReverseComplement(v.reference),
       alleles := Join(ReverseComplementAll(SplitFields(v.alleles))),
       contigOrientation := if v.contigOrientation == Forward then Reverse else Forward)
  }

  /** Reverse-complementing each field commutes with dropping the empty trailing fields. */
  lemma {:induction false} DropTrailingEmptyReverseComplement(fields: seq<string>)
    ensures DropTrailingEmpty(ReverseComplementAll(fields)) == ReverseComplementAll(DropTrailingEmpty(fields))
  {
    if |fields| > 0 {
      var n := |fields|;
      ReverseComplementKeepsShape(fields[n - 1]);
      assert ReverseComplementAll(fields)[..n - 1] == ReverseComplementAll(fields[..n - 1]);
      if fields[n - 1] == "" {
        DropTrailingEmptyReverseComplement(fields[..n - 1]);
      }
    }
  }

  /** Splitting the turned allele string gives the turned split. */
  lemma SplitOfReverseComplemented(s: string)
    ensures SplitAlleleString(Join(ReverseComplementAll(SplitFields(s)))) ==
            ReverseComplementAll(SplitAlleleString(s))
  {
    var f := SplitFields(s);
    var g := ReverseComplementAll(f);
    SplitThenJoin(s);
    forall i | 0 <= i < |g|
      ensures '/' !in g[i]
    {
      ReverseComplementKeepsShape(f[i]);
    }
    JoinThenSplit(g);
    DropTrailingEmptyReverseComplement(f);
  }

  /** Turning every allele twice gives the list back. */
  lemma ReverseComplementAllInvolution(alleles: seq<string>)
    ensures ReverseComplementAll(ReverseComplementAll(alleles)) == alleles
  {
    forall i | 0 <= i < |alleles|
      ensures ReverseComplementAll(ReverseComplementAll(alleles))[i] == alleles[i]
    {
      ReverseComplementInvolution(alleles[i]);
    }
  }

  /**
   * Orientation symmetry: a submission and its description against the opposite contig strand have
   * the same forward reference, the same forward alleles and the same forward alternate.
   */
  lemma OrientationSymmetry(v: SubSnpNoHgvs)
    ensures ReferenceInForwardStrand(OnOppositeContigStrand(v)) == ReferenceInForwardStrand(v)
    ensures ForwardAlleles(OnOppositeContigStrand(v)) == ForwardAlleles(v)
    ensures ForwardAlternate(OnOppositeContigStrand(v)) == ForwardAlternate(v)
  {
    var w := OnOppositeContigStrand(v);
    ReverseComplementInvolution(v.reference);
    SplitOfReverseComplemented(v.alleles);
    ReverseComplementAllInvolution(SplitAlleleString(v.alleles));
  }

  /** Two non-empty slash-free alleles written as "a/b" split back into exactly those two. */
  lemma TwoAllelesSplit(a: string, b: string)
    requires a != "" && b != "" && '/' !in a && '/' !in b
    ensures SplitAlleleString(a + "/" + b) == [a, b]
  {
    var s := a + "/" + b;
    JoinThenSplit([a, b]);
    assert Join([a, b]) == s;
    assert s[|a|] == '/';
    SingleFieldIffNoSlash(s);
    assert DropTrailingEmpty([a, b]) == [a, b];
  }

  /** The reverse complements of the four one-letter bases. */
  lemma BaseReverseComplements()
    ensures ReverseComplement("A") == "T" && ReverseComplement("T") == "A"
    ensures ReverseComplement("C") == "G" && ReverseComplement("G") == "C"
  {
    ReverseComplementAt("A", 0);
    ReverseComplementAt("T", 0);
    ReverseComplementAt("C", 0);
    ReverseComplementAt("G", 0);
  }

  /** Alleles "a/b" turned by a reverse product orientation become the two reverse complements. */
  lemma ReversedTwoAlleles(v: SubSnpNoHgvs, a: string, b: string)
    requires a != "" && b != "" && '/' !in a && '/' !in b && v.alleles == a + "/" + b
    requires AllelesOrientation(v) == Ok(Reverse)
    ensures ForwardAlleles(v) == Ok([ReverseComplement(a), ReverseComplement(b)])
  {
    TwoAllelesSplit(a, b);
    var turned := ReverseComplementAll([a, b]);
    assert turned == [ReverseComplement(a), ReverseComplement(b)];
  }

  /** A reverse-contig submission whose alleles "A/G" and reference "A" give forward "T" and "C". */
  lemma ReverseContigExample()
    ensures var v := SubSnpNoHgvs(1, 1, "A/G", "GRCh38", None, None, Forward, Forward, Reverse, "A", 9606);
      ReferenceInForwardStrand(v) == "T" && ForwardAlternate(v) == Ok(Some("C"))
  {
    var v := SubSnpNoHgvs(1, 1, "A/G", "GRCh38", None, None, Forward, Forward, Reverse, "A", 9606);
    ReversedTwoAlleles(v, "A", "G");
    BaseReverseComplements();
    assert ReferenceInForwardStrand(v) == "T";
    assert FirstDifferent(["T", "C"], "T") == Some("C");
  }

  /**
   * The asymmetry: with a forward contig the reference is kept even though a reverse submission turns
   * the alleles, so "T/C" against reference "A" gives the alternate "G".
   */
  lemma ReverseSubmissionExample()
    ensures var v := SubSnpNoHgvs(1, 1, "T/C", "GRCh38", None, None, Reverse, Forward, Forward, "A", 9606);
      ReferenceInForwardStrand(v) == "A" && ForwardAlternate(v) == Ok(Some("G"))
  {
    var v := SubSnpNoHgvs(1, 1, "T/C", "GRCh38", None, None, Reverse, Forward, Forward, "A", 9606);
    ReversedTwoAlleles(v, "T", "C");
    BaseReverseComplements();
    assert ReferenceInForwardStrand(v) == "A";
    assert FirstDifferent(["A", "G"], "A") == Some("G");
  }
}
