/**
 * The writer that accessions a chunk of input variants (`AccessionWriter`): it converts every input to
 * a submitted variant, asks the accessioning service for their accessions, writes the report, and
 * then checks that no distinct input was left without an accession.
 *
 * Submitted variants are compared by value, as their `equals` does; the conversion, the accessioning
 * service and the report are parameters.
 */
module AccessionWriter {
  import opened Wrappers
  import opened Variants

  /** What the accessioning service returns for one variant: its accession, hash and data. */
  datatype AccessionWrapper<V> = AccessionWrapper(accession: int, hash: string, data: V)

  /** How a count check that does not throw ends. */
  datatype CountsChecked =
    | SizesMatch                          // the sizes are equal: nothing more is looked at
    | Reconciled(duplicateCount: nat)     // every distinct input is accessioned; repeats only warn

  /** The IllegalStateException, with the distinct inputs that have no accession. */
  datatype CountsError<V> = NotAccessioned(variantsWithoutAccession: set<V>)

  /** The elements of a sequence, as a hash set holds them. */
  function Elements<V(==)>(s: seq<V>): set<V> {
    set i | 0 <= i < |s| :: s[i]
  }

  /** Removing the last element of a sequence. */
  lemma ElementsOfPrefix<V>(s: seq<V>)
    requires s != []
    ensures Elements(s) == Elements(s[..|s| - 1]) + {s[|s| - 1]}
  {
    var prefix := s[..|s| - 1];
    forall x | x in Elements(s)
      ensures x in Elements(prefix) + {s[|s| - 1]}
    {
      var i :| 0 <= i < |s| && s[i] == x;
      if i < |s| - 1 {
        assert prefix[i] == x;
      }
    }
  }

  /**
   * A sequence has at least as many entries as it has distinct ones, and exactly as many when no
   * entry repeats.
   */
  lemma {:induction false} DistinctCount<V>(s: seq<V>)
    ensures |Elements(s)| <= |s|
    ensures |Elements(s)| == |s| <==> Distinct(s)
  {
    if s != [] {
      var prefix := s[..|s| - 1];
      var last := s[|s| - 1];
      ElementsOfPrefix(s);
      DistinctCount(prefix);
      if last in Elements(prefix) {
        var i :| 0 <= i < |prefix| && prefix[i] == last;
        assert s[i] == s[|s| - 1];
      } else {
        assert |Elements(s)| == |Elements(prefix)| + 1;
        if Distinct(prefix) {
          forall i, j | 0 <= i < j < |s|
            ensures s[i] != s[j]
          {
            if j < |s| - 1 {
              assert s[i] == prefix[i] && s[j] == prefix[j];
            } else {
              assert s[i] == prefix[i];
            }
          }
        }
      }
      if Distinct(s) {
        forall i, j | 0 <= i < j < |prefix|
          ensures prefix[i] != prefix[j]
        {
          assert prefix[i] == s[i] && prefix[j] == s[j];
        }
      }
    }
  }

  /** The number of repeated inputs: the inputs less the distinct ones. */
  function DuplicateCount<V(==)>(variants: seq<V>): (r: nat)
    ensures r == 0 <==> Distinct(variants)
  {
    DistinctCount(variants);
    |variants| - |Elements(variants)|
  }

  /** The variants the service accessioned. */
  function Accessioned<V(==)>(accessions: seq<AccessionWrapper<V>>): set<V> {
    set i | 0 <= i < |accessions| :: accessions[i].data
  }

  /**
   * The count check: with as many accessions as inputs it returns at once; otherwise it throws when
   * a distinct input has no accession, and only counts the repeats otherwise.
   */
  function CheckCountsMatch<V(==)>(variants: seq<V>, accessions: seq<AccessionWrapper<V>>)
    : (r: Result<CountsChecked, CountsError<V>>)
    ensures |variants| == |accessions| ==> r == Ok(SizesMatch)
    ensures r.Err? ==> r.error.variantsWithoutAccession != {} && r.error.variantsWithoutAccession <= Elements(variants)
    ensures r.Err? ==> r.error.variantsWithoutAccession !! Accessioned(accessions)
  {
    if |variants| == |accessions| then
      Ok(SizesMatch)
    else
      var variantsWithoutAccession := Elements(variants) - Accessioned(accessions);
      if variantsWithoutAccession != {} then
        Err(NotAccessioned(variantsWithoutAccession))
      else
        Ok(Reconciled(DuplicateCount(variants)))
  }

  /**
   * The check throws exactly when the sizes differ and some input has no accessioned counterpart;
   * it then names exactly those inputs, and otherwise reports the number of repeats.
   */
  lemma CheckCountsMatchMeaning<V>(variants: seq<V>, accessions: seq<AccessionWrapper<V>>)
    ensures CheckCountsMatch(variants, accessions).Err? <==>
      |variants| != |accessions| &&
      exists i :: 0 <= i < |variants| && forall j :: 0 <= j < |accessions| ==> accessions[j].data != variants[i]
    ensures CheckCountsMatch(variants, accessions).Err? ==>
      forall v :: v in CheckCountsMatch(variants, accessions).error.variantsWithoutAccession <==>
        v in variants && forall j :: 0 <= j < |accessions| ==> accessions[j].data != v
    ensures |variants| == |accessions| ==> CheckCountsMatch(variants, accessions) == Ok(SizesMatch)
    ensures CheckCountsMatch(variants, accessions).Ok? && |variants| != |accessions| ==>
      CheckCountsMatch(variants, accessions) == Ok(Reconciled(|variants| - |Elements(variants)|))
  {
    if |variants| != |accessions| {
      var missing := Elements(variants) - Accessioned(accessions);
      if missing != {} {
        var v :| v in missing;
        var i :| 0 <= i < |variants| && variants[i] == v;
        forall j | 0 <= j < |accessions|
          ensures accessions[j].data != variants[i]
        {
          assert accessions[j].data in Accessioned(accessions);
        }
      } else {
        forall i | 0 <= i < |variants|
          ensures exists j :: 0 <= j < |accessions| && accessions[j].data == variants[i]
        {
          assert variants[i] in Elements(variants);
          assert variants[i] !in missing;
        }
      }
      forall v | v in variants && forall j :: 0 <= j < |accessions| ==> accessions[j].data != v
        ensures v in missing
      {
        var i :| 0 <= i < |variants| && variants[i] == v;
        assert v in Elements(variants);
      }
    }
  }

  /** Repeated inputs never make the check throw: only inputs without an accession do. */
  lemma RepeatsOnlyWarn<V>(variants: seq<V>, accessions: seq<AccessionWrapper<V>>)
    requires forall i :: 0 <= i < |variants| ==> exists j :: 0 <= j < |accessions| && accessions[j].data == variants[i]
    ensures CheckCountsMatch(variants, accessions).Ok?
    ensures |variants| != |accessions| ==>
      CheckCountsMatch(variants, accessions) == Ok(Reconciled(DuplicateCount(variants)))
      && (DuplicateCount(variants) != 0 <==> !Distinct(variants))
  {
    CheckCountsMatchMeaning(variants, accessions);
  }

  /**
   * A chunk of five inputs whose third repeats the first, accessioned as four variants: one repeat
   * is counted, and the chunk passes.
   */
  lemma RepeatedInputExample()
    ensures var variants := [1, 2, 1, 3, 4];
      var accessions := [AccessionWrapper(100, "h1", 1), AccessionWrapper(101, "h2", 2),
                         AccessionWrapper(102, "h3", 3), AccessionWrapper(103, "h4", 4)];
      && |Elements(variants)| == 4
      && CheckCountsMatch(variants, accessions) == Ok(Reconciled(1))
  {
    var variants := [1, 2, 1, 3, 4];
    var accessions := [AccessionWrapper(100, "h1", 1), AccessionWrapper(101, "h2", 2),
                       AccessionWrapper(102, "h3", 3), AccessionWrapper(103, "h4", 4)];
    assert Elements(variants) == {1, 2, 3, 4} by {
      assert variants[0] == 1 && variants[1] == 2 && variants[3] == 3 && variants[4] == 4;
    }
    assert Accessioned(accessions) == {1, 2, 3, 4} by {
      assert accessions[0].data == 1 && accessions[1].data == 2 && accessions[2].data == 3 && accessions[3].data == 4;
    }
  }

  /** A chunk in which one input was not accessioned fails, naming that input. */
  lemma LostInputExample()
    ensures CheckCountsMatch([1, 2, 2], [AccessionWrapper(100, "h1", 1)]) == Err(NotAccessioned({2}))
  {
    var variants := [1, 2, 2];
    var accessions := [AccessionWrapper(100, "h1", 1)];
    assert Elements(variants) == {1, 2} by {
      assert variants[0] == 1 && variants[1] == 2;
    }
    assert Accessioned(accessions) == {1} by {
      assert accessions[0].data == 1;
    }
    assert Elements(variants) - Accessioned(accessions) == {2};
  }

  /** What `write` hands to its collaborators, in order. */
  datatype Call<I, V> =
    | GetOrCreate(submittedVariants: seq<V>)
    | WriteReport(variants: seq<I>, accessions: seq<AccessionWrapper<V>>)

  /** The calls `write` made, and how its final count check ended. */
  datatype WriteOutcome<I, V> = WriteOutcome(calls: seq<Call<I, V>>, check: Result<CountsChecked, CountsError<V>>)

  /**
   * `write`: every input is converted, the service accessions the converted variants, the report
   * is written, and only then are the counts checked.
   */
  function Write<I, V(==)>(variants: seq<I>, convert: I -> V, getOrCreate: seq<V> -> seq<AccessionWrapper<V>>)
    : (r: WriteOutcome<I, V>)
    ensures |r.calls| == 2 && r.calls[0].GetOrCreate? && r.calls[1].WriteReport? && r.calls[1].variants == variants
    ensures r.check == CheckCountsMatch(r.calls[0].submittedVariants, r.calls[1].accessions)
  {
    var submittedVariants := seq(|variants|, i requires 0 <= i < |variants| => convert(variants[i]));
    var accessions := getOrCreate(submittedVariants);
    WriteOutcome([GetOrCreate(submittedVariants), WriteReport(variants, accessions)],
                 CheckCountsMatch(submittedVariants, accessions))
  }

  /**
   * The service sees the conversion of every input, in order; the report holds the inputs with what
   * the service returned, and is written even when the count check then throws.
   */
  lemma WriteReportsBeforeChecking<I, V>(variants: seq<I>, convert: I -> V, getOrCreate: seq<V> -> seq<AccessionWrapper<V>>)
    ensures var outcome := Write(variants, convert, getOrCreate);
      && |outcome.calls| == 2
      && outcome.calls[0].GetOrCreate?
      && |outcome.calls[0].submittedVariants| == |variants|
      && (forall i :: 0 <= i < |variants| ==> outcome.calls[0].submittedVariants[i] == convert(variants[i]))
      && outcome.calls[1] == WriteReport(variants, getOrCreate(outcome.calls[0].submittedVariants))
      && (outcome.check.Err? <==>
            |variants| != |getOrCreate(outcome.calls[0].submittedVariants)| &&
            exists v :: v in outcome.calls[0].submittedVariants && v !in Accessioned(getOrCreate(outcome.calls[0].submittedVariants)))
  {
    var outcome := Write(variants, convert, getOrCreate);
    var submittedVariants := outcome.calls[0].submittedVariants;
    var accessions := getOrCreate(submittedVariants);
    CheckCountsMatchMeaning(submittedVariants, accessions);
    if outcome.check.Err? {
      var i :| 0 <= i < |submittedVariants| && forall j :: 0 <= j < |accessions| ==> accessions[j].data != submittedVariants[i];
      assert submittedVariants[i] !in Accessioned(accessions);
    }
  }
}
