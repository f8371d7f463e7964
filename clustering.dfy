/**
 * Clustering of submitted variants (`ClusteringVariantProcessor`).
 *
 * Every submitted variant is summarised as a clustered variant, whose hash picks its clustered
 * accession: a hash seen before gets the accession recorded for it, a new hash takes the next value
 * of a fixed pool (1 to 10). The pool, its cursor and the hash-to-accession map live in the processor
 * and survive from one list of variants to the next. The variant classifier is a parameter that may
 * refuse a pair of alleles (it throws IllegalArgumentException), and so may the pool (its iterator
 * throws NoSuchElementException); either failure stops the list where it happens.
 */
module Clustering {
  import opened Wrappers
  import opened Variants

  /** The fields a clustered variant is identified by; the alleles enter only through their type. */
  datatype ClusteredVariant = ClusteredVariant(
    projectAccession: string,
    taxonomyAccession: int,
    contig: string,
    start: int,
    variantType: VariantType,
    validated: bool,
    createdDate: Option<DateTime>)

  /** The allele classifier: a type for the alleles, or None when it refuses them. */
  type Classifier = (string, string) -> Option<VariantType>

  /**
   * The clustered variant built for a submitted variant, with the alleles classified by `classify`;
   * None when the classifier refuses the alleles.
   */
  function ClusteredVariantOf(v: SubmittedVariant, classify: Classifier): Option<ClusteredVariant> {
    match classify(v.referenceAllele, v.alternateAllele)
    case None => None
    case Some(variantType) =>
      Some(ClusteredVariant(v.projectAccession, v.taxonomyAccession, v.contig, v.start, variantType, v.validated,
                            v.createdDate))
  }

  /**
   * Submitted variants that agree on project, taxonomy, contig, start, validation flag and creation
   * date, and whose alleles classify alike, have the same clustered variant, whatever their allele
   * text and whatever their other fields.
   */
  lemma ClusteredVariantIgnoresAlleleText(v: SubmittedVariant, w: SubmittedVariant,
                                          classify: Classifier)
    requires v.projectAccession == w.projectAccession && v.taxonomyAccession == w.taxonomyAccession
    requires v.contig == w.contig && v.start == w.start
    requires v.validated == w.validated && v.createdDate == w.createdDate
    requires classify(v.referenceAllele, v.alternateAllele) == classify(w.referenceAllele, w.alternateAllele)
    ensures ClusteredVariantOf(v, classify) == ClusteredVariantOf(w, classify)
  {
  }

  /**
   * The hashes of the variants of a list, in list order, up to the first variant whose alleles the
   * classifier refuses: every variant before it is classified and hashed, and it is not.
   */
  function HashKeys(vs: seq<SubmittedVariant>, classify: Classifier, hashing: ClusteredVariant -> string)
    : (r: seq<string>)
    ensures |r| <= |vs|
    ensures forall i :: 0 <= i < |r| ==>
      ClusteredVariantOf(vs[i], classify).Some? && r[i] == hashing(ClusteredVariantOf(vs[i], classify).value)
    ensures |r| < |vs| ==> ClusteredVariantOf(vs[|r|], classify).None?
    decreases |vs|
  {
    if vs == [] then []
    else
      match ClusteredVariantOf(vs[0], classify)
      case None => []
      case Some(clusteredVariant) =>
        var rest := HashKeys(vs[1..], classify, hashing);
        assert forall i :: 0 < i <= |rest| ==> vs[1..][i - 1] == vs[i];
        [hashing(clusteredVariant)] + rest
  }

  // ---------------------------------------------------------------------------------------------
  // The accession pool

  /** The accessions first, first + 1, ..., last, in increasing order (none when last < first). */
  method InitializeAccessions(first: int, last: int) returns (pool: seq<int>)
    ensures |pool| == if first <= last then last - first + 1 else 0
    ensures forall i :: 0 <= i < |pool| ==> pool[i] == first + i
  {
    pool := [];
    var i := first;
    while i <= last
      invariant first <= last ==> first <= i <= last + 1
      invariant first > last ==> i == first
      invariant |pool| == i - first
      invariant forall j :: 0 <= j < |pool| ==> pool[j] == first + j
    {
      pool := pool + [i];
      i := i + 1;
    }
  }

  /** The pool the processor is built with. */
  const FirstAccession: int := 1
  const LastAccession: int := 10

  /** A pool of consecutive values never repeats a value. */
  lemma ConsecutivePoolDistinct(pool: seq<int>, first: int)
    requires forall i :: 0 <= i < |pool| ==> pool[i] == first + i
    ensures Distinct(pool)
  {
  }

  // ---------------------------------------------------------------------------------------------
  // Resolving a hash to an accession, as values

  /** The position of the pool iterator and the accessions recorded so far. */
  datatype Allocator = Allocator(next: nat, recorded: map<string, int>)

  /**
   * Resolve or allocate: a known hash gets its recorded accession and changes nothing; a new hash
   * takes the pool value under the cursor, which advances, and is recorded; None when the pool is
   * used up (the iterator throws).
   */
  function Allocate(pool: seq<int>, a: Allocator, hash: string): (r: Option<(int, Allocator)>)
    ensures r.None? <==> hash !in a.recorded && a.next >= |pool|
    ensures r.Some? ==> hash in r.value.1.recorded && r.value.1.recorded[hash] == r.value.0
  {
    if hash in a.recorded then Some((a.recorded[hash], a))
    else if a.next < |pool| then Some((pool[a.next], Allocator(a.next + 1, a.recorded[hash := pool[a.next]])))
    else None
  }

  /**
   * The allocator after resolving the hashes one by one, with the number resolved before the pool
   * ran out (all of them when it did not). The run stops short only at a new hash with the cursor
   * past the end of the pool, and then the allocator is the one that hash failed on.
   */
  function AllocateAll(pool: seq<int>, a: Allocator, hashes: seq<string>): (r: (Allocator, nat))
    ensures r.1 <= |hashes|
    ensures r.1 < |hashes| ==> hashes[r.1] !in r.0.recorded && r.0.next >= |pool|
    decreases |hashes|
  {
    if hashes == [] then (a, 0)
    else
      match Allocate(pool, a, hashes[0])
      case None => (a, 0)
      case Some((_, a1)) =>
        var rest := AllocateAll(pool, a1, hashes[1..]);
        (rest.0, rest.1 + 1)
  }

  /** Resolving the hashes from position k on is resolving hashes[k], then the rest. */
  lemma AllocateAllStep(pool: seq<int>, a: Allocator, hashes: seq<string>, k: nat)
    requires k < |hashes|
    ensures Allocate(pool, a, hashes[k]).None? ==> AllocateAll(pool, a, hashes[k..]) == (a, 0)
    ensures Allocate(pool, a, hashes[k]).Some? ==>
      var rest := AllocateAll(pool, Allocate(pool, a, hashes[k]).value.1, hashes[k + 1..]);
      AllocateAll(pool, a, hashes[k..]) == (rest.0, rest.1 + 1)
  {
    assert hashes[k..][0] == hashes[k] && hashes[k..][1..] == hashes[k + 1..];
  }

  /**
   * What the processor keeps true: the cursor stays within the pool, every recorded accession is a
   * pool value already handed out, and no two hashes share an accession.
   */
  ghost predicate AllocatorInv(pool: seq<int>, a: Allocator) {
    && Distinct(pool)
    && a.next <= |pool|
    && (forall h :: h in a.recorded ==> a.recorded[h] in pool[..a.next])
    && (forall h1, h2 :: h1 in a.recorded && h2 in a.recorded && h1 != h2 ==> a.recorded[h1] != a.recorded[h2])
  }

  /** A hash already recorded gets its accession again, and nothing changes. */
  lemma KnownHashResolvesToRecordedAccession(pool: seq<int>, a: Allocator, hash: string)
    requires hash in a.recorded
    ensures Allocate(pool, a, hash) == Some((a.recorded[hash], a))
  {
  }

  /**
   * A new hash gets the pool value under the cursor, which no other hash holds; the cursor moves by
   * one and the map gains exactly that entry. When the cursor is at the end of the pool, it fails.
   */
  lemma NewHashTakesNextPoolValue(pool: seq<int>, a: Allocator, hash: string)
    requires AllocatorInv(pool, a)
    requires hash !in a.recorded
    ensures a.next == |pool| <==> Allocate(pool, a, hash).None?
    ensures Allocate(pool, a, hash).Some? ==>
      && Allocate(pool, a, hash).value.0 == pool[a.next]
      && Allocate(pool, a, hash).value.1 == Allocator(a.next + 1, a.recorded[hash := pool[a.next]])
      && (forall h :: h in a.recorded ==> a.recorded[h] != pool[a.next])
  {
    if a.next < |pool| {
      forall h | h in a.recorded
        ensures a.recorded[h] != pool[a.next]
      {
        var j :| 0 <= j < a.next && pool[j] == a.recorded[h];
      }
    }
  }

  /** Resolving one hash keeps the invariant, and never rewrites or drops a recorded accession. */
  lemma AllocatePreservesInv(pool: seq<int>, a: Allocator, hash: string)
    requires AllocatorInv(pool, a)
    requires Allocate(pool, a, hash).Some?
    ensures AllocatorInv(pool, Allocate(pool, a, hash).value.1)
    ensures var a' := Allocate(pool, a, hash).value.1;
      a.next <= a'.next && forall h :: h in a.recorded ==> h in a'.recorded && a'.recorded[h] == a.recorded[h]
    ensures var (x, a') := Allocate(pool, a, hash).value; hash in a'.recorded && a'.recorded[hash] == x
  {
    if hash !in a.recorded {
      NewHashTakesNextPoolValue(pool, a, hash);
      var a' := Allocate(pool, a, hash).value.1;
      forall h | h in a'.recorded
        ensures a'.recorded[h] in pool[..a'.next]
      {
        if h != hash {
          assert a.recorded[h] in pool[..a.next];
        }
      }
    }
  }

  /** Resolving a list keeps the invariant and only ever adds to the map. */
  lemma {:induction false} AllocateAllPreservesInv(pool: seq<int>, a: Allocator, hashes: seq<string>)
    requires AllocatorInv(pool, a)
    ensures var a' := AllocateAll(pool, a, hashes).0;
      && AllocatorInv(pool, a')
      && a.next <= a'.next
      && (forall h :: h in a.recorded ==> h in a'.recorded && a'.recorded[h] == a.recorded[h])
    ensures forall i :: 0 <= i < AllocateAll(pool, a, hashes).1 ==> hashes[i] in AllocateAll(pool, a, hashes).0.recorded
    decreases |hashes|
  {
    if hashes != [] && Allocate(pool, a, hashes[0]).Some? {
      var a1 := Allocate(pool, a, hashes[0]).value.1;
      AllocatePreservesInv(pool, a, hashes[0]);
      AllocateAllPreservesInv(pool, a1, hashes[1..]);
      var r := AllocateAll(pool, a, hashes);
      forall i | 0 <= i < r.1
        ensures hashes[i] in r.0.recorded
      {
        if i > 0 {
          assert hashes[i] == hashes[1..][i - 1];
        }
      }
    }
  }

  /**
   * After resolving a list, two of the hashes resolved share an accession exactly when they are the
   * same hash.
   */
  lemma SameAccessionIffSameHash(pool: seq<int>, a: Allocator, hashes: seq<string>)
    requires AllocatorInv(pool, a)
    ensures var (a', n) := AllocateAll(pool, a, hashes);
      forall i, j :: 0 <= i < n && 0 <= j < n ==>
        hashes[i] in a'.recorded && hashes[j] in a'.recorded &&
        (a'.recorded[hashes[i]] == a'.recorded[hashes[j]] <==> hashes[i] == hashes[j])
  {
    AllocateAllPreservesInv(pool, a, hashes);
  }

  /**
   * Distinct new hashes are resolved until the pool runs out: from a cursor at `next`, exactly
   * min(|hashes|, |pool| - next) of them succeed.
   */
  lemma {:induction false} DistinctNewHashesExhaustPool(pool: seq<int>, a: Allocator, hashes: seq<string>)
    requires a.next <= |pool|
    requires Distinct(hashes)
    requires forall i :: 0 <= i < |hashes| ==> hashes[i] !in a.recorded
    ensures AllocateAll(pool, a, hashes).1 == if |hashes| <= |pool| - a.next then |hashes| else |pool| - a.next
    decreases |hashes|
  {
    if hashes != [] && a.next < |pool| {
      var a1 := Allocate(pool, a, hashes[0]).value.1;
      forall i | 0 <= i < |hashes[1..]|
        ensures hashes[1..][i] !in a1.recorded
      {
        assert hashes[1..][i] == hashes[i + 1] != hashes[0];
      }
      DistinctNewHashesExhaustPool(pool, a1, hashes[1..]);
    }
  }

  /** With the processor's pool of ten, eleven distinct variants cannot all be clustered. */
  lemma EleventhHashExhaustsPool(pool: seq<int>, hashes: seq<string>)
    requires |pool| == LastAccession - FirstAccession + 1
    requires |hashes| == 11 && Distinct(hashes)
    ensures AllocateAll(pool, Allocator(0, map[]), hashes).1 == 10
  {
    DistinctNewHashesExhaustPool(pool, Allocator(0, map[]), hashes);
  }

  // ---------------------------------------------------------------------------------------------
  // The processor

  /** Why `process` stops: the pool iterator has no next value, or the classifier refused the alleles. */
  datatype ClusteringError = NoSuchElement | UnclassifiableAlleles

  class ClusteringVariantProcessor {
    const accessions: seq<int>
    var next: nat
    var assignedAccessions: map<string, int>
    const hashingFunction: ClusteredVariant -> string
    const classify: Classifier

    ghost predicate Valid()
      reads this
    {
      && |accessions| == LastAccession - FirstAccession + 1
      && (forall i :: 0 <= i < |accessions| ==> accessions[i] == FirstAccession + i)
      && AllocatorInv(accessions, Allocator(next, assignedAccessions))
    }

    /** A fresh processor: the pool 1..10, the iterator at its start, nothing recorded. */
    constructor (hashingFunction: ClusteredVariant -> string, classify: Classifier)
      ensures Valid()
      ensures accessions == [1, 2, 3, 4, 5, 6, 7, 8, 9, 10]
      ensures next == 0 && assignedAccessions == map[]
      ensures this.hashingFunction == hashingFunction && this.classify == classify
    {
      var pool := InitializeAccessions(FirstAccession, LastAccession);
      ConsecutivePoolDistinct(pool, FirstAccession);
      accessions := pool;
      next := 0;
      assignedAccessions := map[];
      this.hashingFunction := hashingFunction;
      this.classify := classify;
    }

    /**
     * The accession for one hash: the recorded one when there is one, otherwise the next pool value,
     * which is then recorded; None when the pool iterator has no next value. The state moves exactly
     * as `Allocate` says.
     */
    method ResolveAccession(hash: string) returns (accession: Option<int>)
      requires Valid()
      modifies this`next, this`assignedAccessions
      ensures Valid()
      ensures var step := Allocate(accessions, Allocator(old(next), old(assignedAccessions)), hash);
        && (step.None? ==> accession.None? && next == old(next) && assignedAccessions == old(assignedAccessions))
        && (step.Some? ==> accession == Some(step.value.0) && Allocator(next, assignedAccessions) == step.value.1)
    {
      ghost var before := Allocator(next, assignedAccessions);
      if hash in assignedAccessions {
        accession := Some(assignedAccessions[hash]);
      } else if next < |accessions| {
        var generated := accessions[next];
        next := next + 1;
        assignedAccessions := assignedAccessions[hash := generated];
        accession := Some(generated);
      } else {
        accession := None;
      }
      if accession.Some? {
        AllocatePreservesInv(accessions, before, hash);
      }
    }

    /**
     * The hash of an entity's clustered variant, or None when its alleles are refused; it does not
     * depend on the clustered accession.
     */
    ghost function HashOf(entity: SubmittedVariantEntity): Option<string>
      reads entity`start, entity`referenceAllele, entity`alternateAllele, entity`createdDate
    {
      match classify(entity.referenceAllele, entity.alternateAllele)
      case None => None
      case Some(variantType) =>
        Some(hashingFunction(ClusteredVariant(entity.projectAccession, entity.taxonomyAccession, entity.contig,
                                              entity.start, variantType, entity.validated, entity.createdDate)))
    }

    /** `hashes` are the hashes of the entities, up to the first one whose alleles are refused. */
    ghost predicate HashesOf(entities: seq<SubmittedVariantEntity>, hashes: seq<string>)
      reads entities
    {
      && |hashes| <= |entities|
      && (forall i :: 0 <= i < |hashes| ==> HashOf(entities[i]) == Some(hashes[i]))
      && (|hashes| < |entities| ==> HashOf(entities[|hashes|]).None?)
    }

    /** The hashes `Process` resolves are those of its entities, up to the first one whose alleles are refused. */
    lemma HashOfAgreesWithHashKeys(entities: seq<SubmittedVariantEntity>)
      ensures HashesOf(entities, HashKeys(Values(entities), classify, hashingFunction))
    {
      var hashes := HashKeys(Values(entities), classify, hashingFunction);
      forall i | 0 <= i < |hashes|
        ensures HashOf(entities[i]) == Some(hashes[i])
      {
        assert Values(entities)[i] == entities[i].Value();
      }
      if |hashes| < |entities| {
        assert Values(entities)[|hashes|] == entities[|hashes|].Value();
      }
    }

    /**
     * The body of the loop of `Process` for entity k: its alleles are classified, its clustered
     * variant hashed, and the accession resolved for the hash set on it. Either the progress moves one
     * entity further, or the classifier refused the alleles (k is where the hashes stop) or the pool
     * has run out; then nothing has changed and `total` ends here.
     */
    method ClusterEntity(entity: SubmittedVariantEntity, ghost entities: seq<SubmittedVariantEntity>, ghost k: nat,
                         ghost hashes: seq<string>, ghost initial: seq<Option<int>>, ghost total: (Allocator, nat))
      returns (failure: Option<ClusteringError>)
      requires Valid()
      requires Progress(accessions, entities, hashes, initial, ClusteredAccessions(entities), total,
                        Allocator(next, assignedAccessions), k)
      requires k < |entities| && entities[k] == entity
      requires HashesOf(entities, hashes)
      modifies this`next, this`assignedAccessions, entity`clusteredVariantAccession
      ensures Valid()
      ensures HashesOf(entities, hashes)
      ensures failure.None? ==> Progress(accessions, entities, hashes, initial, ClusteredAccessions(entities), total,
                                         Allocator(next, assignedAccessions), k + 1)
      ensures failure.Some? ==>
        && Progress(accessions, entities, hashes, initial, ClusteredAccessions(entities), total,
                    Allocator(next, assignedAccessions), k)
        && total == (Allocator(next, assignedAccessions), k)
        && (failure.value == UnclassifiableAlleles <==> k == |hashes|)
    {
      var variantType := classify(entity.referenceAllele, entity.alternateAllele);
      if variantType.None? {
        // the classifier throws IllegalArgumentException
        assert hashes[k..] == [];
        return Some(UnclassifiableAlleles);
      }
      var clusteredVariant := ClusteredVariant(entity.projectAccession, entity.taxonomyAccession, entity.contig,
                                               entity.start, variantType.value, entity.validated, entity.createdDate);
      var hash := hashingFunction(clusteredVariant);
      assert k < |hashes| && hash == hashes[k];
      var resolved := AssignAccession(entity, hash, entities, k, hashes, initial, total);
      failure := if resolved then None else Some(NoSuchElement);
    }

    /**
     * The accession for the hash of entity k is resolved and set on it: the progress moves one entity
     * further, or the pool has run out, nothing has changed and `total` ends here.
     */
    method AssignAccession(entity: SubmittedVariantEntity, hash: string, ghost entities: seq<SubmittedVariantEntity>,
                           ghost k: nat, ghost hashes: seq<string>, ghost initial: seq<Option<int>>,
                           ghost total: (Allocator, nat))
      returns (resolved: bool)
      requires Valid()
      requires Progress(accessions, entities, hashes, initial, ClusteredAccessions(entities), total,
                        Allocator(next, assignedAccessions), k)
      requires k < |hashes| && entities[k] == entity && hashes[k] == hash
      modifies this`next, this`assignedAccessions, entity`clusteredVariantAccession
      ensures Valid()
      ensures resolved ==> Progress(accessions, entities, hashes, initial, ClusteredAccessions(entities), total,
                                    Allocator(next, assignedAccessions), k + 1)
      ensures !resolved ==>
        && Progress(accessions, entities, hashes, initial, ClusteredAccessions(entities), total,
                    Allocator(next, assignedAccessions), k)
        && total == (Allocator(next, assignedAccessions), k)
    {
      ghost var before := Allocator(next, assignedAccessions);
      ghost var written := ClusteredAccessions(entities);
      var accession := ResolveAccession(hash);
      AllocateAllStep(accessions, before, hashes, k);
      if accession.None? {
        // the pool iterator throws NoSuchElementException
        assert ClusteredAccessions(entities) == written;
        return false;
      }
      entity.clusteredVariantAccession := accession;
      AllocatePreservesInv(accessions, before, hash);
      ghost var now := ClusteredAccessions(entities);
      assert forall i :: 0 <= i < |entities| ==>
        now[i] == if entities[i] == entity then accession else written[i];
      StepKeepsProgress(accessions, entities, k, hashes, initial, total, before, Allocator(next, assignedAccessions),
                        written, now);
      resolved := true;
    }

    /**
     * Sets the clustered accession of every entity of the list, in list order, and returns the same
     * list; only that field of the entities changes. The processor's state moves as `AllocateAll`
     * says over the hashes of the entities the classifier accepts, and the entities resolved get the
     * accession recorded for their hash. The list stops at the first entity whose alleles are refused
     * or for which the pool has run out; the entities before it keep their new accession and the
     * others (unless they are one of those) are untouched.
     */
    method Process(entities: seq<SubmittedVariantEntity>) returns (r: Result<seq<SubmittedVariantEntity>, ClusteringError>)
      requires Valid()
      modifies this`next, this`assignedAccessions, entities`clusteredVariantAccession
      ensures Valid()
      ensures var hashes := HashKeys(old(Values(entities)), classify, hashingFunction);
        var (a, n) := AllocateAll(accessions, Allocator(old(next), old(assignedAccessions)), hashes);
        && next == a.next && assignedAccessions == a.recorded
        && (r.Ok? <==> n == |entities|)
        && (r == Err(UnclassifiableAlleles) <==> n == |hashes| < |entities|)
        && (r == Err(NoSuchElement) <==> n < |hashes|)
        && (r.Ok? ==> r.value == entities)
        && (forall i :: 0 <= i < n ==>
              hashes[i] in a.recorded && entities[i].clusteredVariantAccession == Some(a.recorded[hashes[i]]))
        && (forall j :: n <= j < |entities| && entities[j] !in entities[..n] ==>
              entities[j].clusteredVariantAccession == old(entities[j].clusteredVariantAccession))
    {
      HashOfAgreesWithHashKeys(entities);
      ghost var hashes := HashKeys(Values(entities), classify, hashingFunction);
      ghost var initial := ClusteredAccessions(entities);
      ghost var total := AllocateAll(accessions, Allocator(next, assignedAccessions), hashes);
      assert hashes[0..] == hashes;
      var failure;
      ghost var k;
      failure, k := ClusterAll(entities, hashes, initial, total);
      ProgressEnds(accessions, entities, hashes, initial, ClusteredAccessions(entities), total,
                   Allocator(next, assignedAccessions), k);
      if failure.Some? {
        return Err(failure.value);
      }
      r := Ok(entities);
    }

    /**
     * The loop of `Process`: the entities are clustered in list order until one is refused or the
     * pool runs out. It ends at entity k with the run of the allocator complete, and says why.
     */
    method ClusterAll(entities: seq<SubmittedVariantEntity>, ghost hashes: seq<string>, ghost initial: seq<Option<int>>,
                      ghost total: (Allocator, nat))
      returns (failure: Option<ClusteringError>, ghost k: nat)
      requires Valid()
      requires Progress(accessions, entities, hashes, initial, ClusteredAccessions(entities), total,
                        Allocator(next, assignedAccessions), 0)
      requires HashesOf(entities, hashes)
      modifies this`next, this`assignedAccessions, entities`clusteredVariantAccession
      ensures Valid()
      ensures Progress(accessions, entities, hashes, initial, ClusteredAccessions(entities), total,
                       Allocator(next, assignedAccessions), k)
      ensures failure.None? ==> k == |entities|
      ensures failure.Some? ==> k < |entities| && total == (Allocator(next, assignedAccessions), k)
      ensures failure == Some(UnclassifiableAlleles) <==> k == |hashes| < |entities|
      ensures failure == Some(NoSuchElement) <==> k < |hashes|
    {
      var position := 0;
      while position < |entities|
        invariant Valid()
        invariant Progress(accessions, entities, hashes, initial, ClusteredAccessions(entities), total,
                           Allocator(next, assignedAccessions), position)
        invariant HashesOf(entities, hashes)
      {
        failure := ClusterEntity(entities[position], entities, position, hashes, initial, total);
        if failure.Some? {
          k := position;
          return;
        }
        position := position + 1;
      }
      k := position;
      failure := None;
    }
  }

  /** The clustered accession of every entity of a list, in list order. */
  ghost function ClusteredAccessions(entities: seq<SubmittedVariantEntity>): (r: seq<Option<int>>)
    reads entities
    ensures |r| == |entities|
    ensures forall i :: 0 <= i < |entities| ==> r[i] == entities[i].clusteredVariantAccession
  {
    seq(|entities|, i reads entities requires 0 <= i < |entities| => entities[i].clusteredVariantAccession)
  }

  /**
   * What `Process` keeps true after k entities, on values: `now` holds the entities' clustered
   * accessions and `a` the processor's state; the rest of the run is what is left of `total`,
   * entities 0..k-1 carry the accession recorded for their hash, and the entities not yet reached
   * (and not the same object as one reached) still carry their initial accession.
   */
  ghost predicate Progress(pool: seq<int>, entities: seq<SubmittedVariantEntity>, hashes: seq<string>,
                           initial: seq<Option<int>>, now: seq<Option<int>>, total: (Allocator, nat),
                           a: Allocator, k: nat)
  {
    && k <= |hashes| <= |entities| == |initial| == |now|
    && (forall i, j :: 0 <= i < |hashes| && 0 <= j < |hashes| && entities[i] == entities[j] ==>
          hashes[i] == hashes[j])
    && total.0 == AllocateAll(pool, a, hashes[k..]).0
    && total.1 == AllocateAll(pool, a, hashes[k..]).1 + k
    && (forall i :: 0 <= i < k ==> hashes[i] in a.recorded && now[i] == Some(a.recorded[hashes[i]]))
    && (forall j :: k <= j < |entities| && entities[j] !in entities[..k] ==> now[j] == initial[j])
  }

  /**
   * One step of `Process`, on values: entity k has been given the accession the allocator resolved
   * for its hash, and no other entity object was written.
   */
  lemma StepKeepsProgress(pool: seq<int>, entities: seq<SubmittedVariantEntity>, k: nat, hashes: seq<string>,
                          initial: seq<Option<int>>, total: (Allocator, nat), before: Allocator, after: Allocator,
                          written: seq<Option<int>>, now: seq<Option<int>>)
    requires Progress(pool, entities, hashes, initial, written, total, before, k)
    requires k < |hashes| && |now| == |entities|
    requires hashes[k] in after.recorded
    requires Allocate(pool, before, hashes[k]) == Some((after.recorded[hashes[k]], after))
    requires forall h :: h in before.recorded ==> h in after.recorded && after.recorded[h] == before.recorded[h]
    requires forall i :: 0 <= i < |entities| ==>
      now[i] == if entities[i] == entities[k] then Some(after.recorded[hashes[k]]) else written[i]
    ensures Progress(pool, entities, hashes, initial, now, total, after, k + 1)
  {
    AllocateAllStep(pool, before, hashes, k);
    forall j | k + 1 <= j < |entities| && entities[j] !in entities[..k + 1]
      ensures now[j] == initial[j]
    {
      assert entities[j] != entities[k] && entities[j] !in entities[..k];
    }
  }

  /** Where `Process` stops: after the last entity, or at the one the pool ran out on. */
  lemma ProgressEnds(pool: seq<int>, entities: seq<SubmittedVariantEntity>, hashes: seq<string>,
                     initial: seq<Option<int>>, now: seq<Option<int>>, total: (Allocator, nat), a: Allocator, k: nat)
    requires Progress(pool, entities, hashes, initial, now, total, a, k)
    requires k == |entities| || total == (a, k)
    ensures total.0 == a && total.1 == k
    ensures forall i :: 0 <= i < total.1 ==> hashes[i] in total.0.recorded && now[i] == Some(total.0.recorded[hashes[i]])
    ensures forall j :: total.1 <= j < |entities| && entities[j] !in entities[..total.1] ==> now[j] == initial[j]
  {
    if k == |entities| {
      assert hashes[k..] == [];
    }
  }
}
