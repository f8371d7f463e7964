/**
 * Persistence of submitted variants (`SubmittedVariantAccessioningRepositoryImpl`).
 *
 * A batch of documents is checked for repeated hashes, stamped with one creation date and written
 * with an unordered bulk insert. Documents the store refuses come back as duplicate-key errors whose
 * message names the key; the keys are parsed out of the messages and every accession of the batch is
 * reported as saved or as failed by whether its hash was refused. The store is a value here, and the
 * bulk write a function from the store and the batch to the new store and the outcome.
 */
module Repository {
  import opened Wrappers
  import opened Variants

  datatype BulkWriteError = BulkWriteError(code: int, message: string)

  /** How a bulk write ends: normally, with per-document write errors, or with another failure. */
  datatype BulkOutcome =
    | Acknowledged
    | BulkOperationException(errors: seq<BulkWriteError>)
    | OtherRuntimeException(message: string)

  datatype SaveResponse = SaveResponse(savedAccessions: set<int>, saveFailedAccessions: set<int>)

  /** The exceptions `insert` lets out. */
  datatype InsertError =
    | DuplicatedHashInBulkInsert
    | RethrownBulkOperation(errors: seq<BulkWriteError>)
    | RethrownRuntime(message: string)

  /** The error code of a duplicate key. */
  const DuplicateKeyCode: int := 11000

  // ---------------------------------------------------------------------------------------------
  // The duplicate-key pattern `_id_ dup key:.\{.:.\"(.*)\".\}`, searched with `find`

  /** The characters `.` does not match: the line terminators of the regular-expression engine. */
  predicate IsLineTerminator(c: char) {
    c == '\n' || c == '\r' || c == '\U{0085}' || c == '\U{2028}' || c == '\U{2029}'
  }

  predicate AnyChar(c: char) {
    !IsLineTerminator(c)
  }

  const DupKeyLiteral: string := "_id_ dup key:"

  /** The pattern up to the opening quote of the group, matched at p; the group starts at p + 19. */
  predicate HeadAt(s: string, p: nat) {
    && p + 19 <= |s|
    && s[p..p + 13] == DupKeyLiteral
    && AnyChar(s[p + 13]) && s[p + 14] == '{' && AnyChar(s[p + 15]) && s[p + 16] == ':'
    && AnyChar(s[p + 17]) && s[p + 18] == '"'
  }

  /** The group s[g..e] followed by the rest of the pattern: closing quote, any character, `}`. */
  predicate TailAt(s: string, g: nat, e: nat) {
    && g <= e && e + 3 <= |s|
    && (forall i :: g <= i < e ==> AnyChar(s[i]))
    && s[e] == '"' && AnyChar(s[e + 1]) && s[e + 2] == '}'
  }

  /** The whole pattern matched from p, with the group ending at e. */
  predicate MatchAt(s: string, p: nat, e: nat) {
    HeadAt(s, p) && TailAt(s, p + 19, e)
  }

  /** The greedy group: the last end e' <= e at which the tail matches. */
  function LastTail(s: string, g: nat, e: int): (r: Option<nat>)
    ensures r.Some? ==> g <= r.value <= e
    decreases e - g
  {
    if e < g then None
    else if TailAt(s, g, e) then Some(e)
    else LastTail(s, g, e - 1)
  }

  /** The search for the end of the group finds the last end that matches, or reports that none does. */
  lemma {:induction false} LastTailMeaning(s: string, g: nat, e: int)
    ensures var r := LastTail(s, g, e);
      && (r.Some? ==> TailAt(s, g, r.value) && forall e' :: r.value < e' <= e ==> !TailAt(s, g, e'))
      && (r.None? ==> forall e' :: g <= e' <= e ==> !TailAt(s, g, e'))
    decreases e - g
  {
    if g <= e && !TailAt(s, g, e) {
      LastTailMeaning(s, g, e - 1);
    }
  }

  /**
   * `find` from position p: the leftmost start at which the pattern matches, with the greedy end of
   * the group for that start.
   */
  function FindFrom(s: string, p: nat): (r: Option<(nat, nat)>)
    ensures r.Some? ==> p <= r.value.0 && r.value.0 + 19 <= r.value.1 <= |s|
    decreases |s| - p
  {
    if p + 19 > |s| then None
    else if HeadAt(s, p) && LastTail(s, p + 19, |s| - 3).Some? then
      Some((p, LastTail(s, p + 19, |s| - 3).value))
    else
      FindFrom(s, p + 1)
  }

  /**
   * `find` from p reports the leftmost start at or after p where the pattern matches, with the last
   * end of the group that still lets the pattern match; it reports nothing only when no start does.
   */
  lemma {:induction false} FindFromMeaning(s: string, p: nat)
    ensures var r := FindFrom(s, p);
      && (r.Some? ==>
          && MatchAt(s, r.value.0, r.value.1)
          && (forall q, e :: p <= q < r.value.0 ==> !MatchAt(s, q, e))
          && (forall e :: r.value.1 < e ==> !MatchAt(s, r.value.0, e)))
      && (r.None? ==> forall q, e :: p <= q ==> !MatchAt(s, q, e))
    decreases |s| - p
  {
    if p + 19 <= |s| {
      LastTailMeaning(s, p + 19, |s| - 3);
      if !(HeadAt(s, p) && LastTail(s, p + 19, |s| - 3).Some?) {
        FindFromMeaning(s, p + 1);
      }
    }
  }

  /**
   * The key a bulk write error names: present only for a duplicate-key error whose message matches
   * the pattern, and then the group of the leftmost, greedy match.
   */
  function ReportBulkOperationException(error: BulkWriteError): (r: Option<string>)
    ensures r.Some? ==> error.code == DuplicateKeyCode
  {
    if error.code == DuplicateKeyCode then
      match FindFrom(error.message, 0)
      case Some((p, e)) => Some(error.message[p + 19..e])
      case None => None
    else
      None
  }

  /**
   * A key is reported exactly for a duplicate-key error whose message matches the pattern somewhere,
   * and it is the group of the leftmost match, taken as long as the rest of the pattern still matches.
   */
  lemma ReportBulkOperationExceptionMeaning(error: BulkWriteError)
    ensures ReportBulkOperationException(error).Some? <==>
      error.code == DuplicateKeyCode && exists p: nat, e: nat :: MatchAt(error.message, p, e)
    ensures ReportBulkOperationException(error).Some? ==>
      exists p: nat, e: nat ::
        && MatchAt(error.message, p, e)
        && ReportBulkOperationException(error).value == error.message[p + 19..e]
        && (forall q: nat, e' :: q < p ==> !MatchAt(error.message, q, e'))
        && (forall e' :: e < e' ==> !MatchAt(error.message, p, e'))
  {
    if error.code == DuplicateKeyCode {
      var found := FindFrom(error.message, 0);
      FindFromMeaning(error.message, 0);
      if found.Some? {
        var (p, e) := found.value;
        assert MatchAt(error.message, p, e);
      }
    }
  }

  /** The words a store puts before the pattern in a duplicate-key message, naming the index by its namespace. */
  const DupKeyPreamble: string := "E11000 duplicate key error index: " + DupKeyNamespace + ".$"

  /** The database and collection of the submitted variants. */
  const DupKeyNamespace: string := "eva_accession.submittedVariantEntity"

  /** A duplicate-key message naming key h, after a preamble. */
  function DupKeyMessage(preamble: string, h: string): string {
    preamble + DupKeyLiteral + " { : \"" + h + "\" }"
  }

  /** `find` passes over positions whose opening quote of the pattern would fall on another character. */
  lemma {:induction false} FindSkipsQuoteless(s: string, p: nat, q: nat)
    requires p <= q < |s|
    requires forall j :: p + 18 <= j < q + 18 && j < |s| ==> s[j] != '"'
    ensures FindFrom(s, p) == FindFrom(s, q)
    decreases q - p
  {
    if p < q {
      FindSkipsQuoteless(s, p + 1, q);
    }
  }

  /**
   * The key of a duplicate-key message is parsed back exactly, whatever it contains, as long as it
   * spans one line and the preamble (the index and namespace the store names) has no double quote.
   */
  lemma DupKeyRoundTrip(preamble: string, h: string)
    requires forall i :: 0 <= i < |preamble| ==> preamble[i] != '"'
    requires forall i :: 0 <= i < |h| ==> AnyChar(h[i])
    ensures ReportBulkOperationException(BulkWriteError(DuplicateKeyCode, DupKeyMessage(preamble, h))) == Some(h)
  {
    var s := DupKeyMessage(preamble, h);
    var p := |preamble|;
    var opening := DupKeyLiteral + " { : \"";
    assert s == preamble + opening + h + "\" }";
    assert s[p..p + 19] == opening;
    assert s[p..p + 13] == DupKeyLiteral;
    assert HeadAt(s, p);
    assert s[p + 19..|s| - 3] == h;
    assert TailAt(s, p + 19, |s| - 3);
    forall j | 18 <= j < p + 18 && j < |s|
      ensures s[j] != '"'
    {
      if j < p {
        assert s[j] == preamble[j];
      } else {
        assert s[j] == opening[j - p];
      }
    }
    FindSkipsQuoteless(s, 0, p);
  }

  /** A message without a double quote is never parsed: the error is treated as unexpected. */
  lemma QuotelessMessageNotParsed(error: BulkWriteError)
    requires forall i :: 0 <= i < |error.message| ==> error.message[i] != '"'
    ensures ReportBulkOperationException(error) == None
  {
    ReportBulkOperationExceptionMeaning(error);
    if error.code == DuplicateKeyCode {
    }
  }

  /** The keys named by all errors, or None when one of them cannot be parsed. */
  function RejectedKeys(errors: seq<BulkWriteError>): (r: Option<set<string>>)
    ensures r.Some? ==> forall i :: 0 <= i < |errors| ==> errors[i].code == DuplicateKeyCode
  {
    if forall i :: 0 <= i < |errors| ==> ReportBulkOperationException(errors[i]).Some? then
      Some(set i | 0 <= i < |errors| :: ReportBulkOperationException(errors[i]).value)
    else
      None
  }

  /** The keys are known only when every error parses, and then they are the keys the errors name. */
  lemma RejectedKeysMeaning(errors: seq<BulkWriteError>)
    ensures RejectedKeys(errors).None? <==>
      exists i :: 0 <= i < |errors| && ReportBulkOperationException(errors[i]).None?
    ensures RejectedKeys(errors).Some? ==> forall k :: k in RejectedKeys(errors).value <==>
      exists i :: 0 <= i < |errors| && ReportBulkOperationException(errors[i]) == Some(k)
  {
  }

  // ---------------------------------------------------------------------------------------------
  // The save response

  /**
   * The response for a batch: the accession of a document whose hash is not among the duplicates is
   * saved, any other is failed.
   */
  function Partition(documents: seq<SubmittedVariantEntity>, duplicatedHash: set<string>): (r: SaveResponse)
    ensures r.savedAccessions <= Accessions(documents) && r.saveFailedAccessions <= Accessions(documents)
    ensures duplicatedHash == {} ==> r.saveFailedAccessions == {}
  {
    SaveResponse(
      set i | 0 <= i < |documents| && documents[i].hashedMessage !in duplicatedHash :: documents[i].accession,
      set i | 0 <= i < |documents| && documents[i].hashedMessage in duplicatedHash :: documents[i].accession)
  }

  /** The accessions of a batch. */
  function Accessions(documents: seq<SubmittedVariantEntity>): set<int> {
    set i | 0 <= i < |documents| :: documents[i].accession
  }

  /** Every accession of the batch is reported, as saved or as failed, and nothing else is. */
  lemma PartitionCoversBatch(documents: seq<SubmittedVariantEntity>, duplicatedHash: set<string>)
    ensures var response := Partition(documents, duplicatedHash);
      response.savedAccessions + response.saveFailedAccessions == Accessions(documents)
  {
    var response := Partition(documents, duplicatedHash);
    forall a | a in Accessions(documents)
      ensures a in response.savedAccessions + response.saveFailedAccessions
    {
      var i :| 0 <= i < |documents| && documents[i].accession == a;
      if documents[i].hashedMessage in duplicatedHash {
        assert a in response.saveFailedAccessions;
      } else {
        assert a in response.savedAccessions;
      }
    }
  }

  /**
   * Where a document's accession goes: to the saved set when its hash was not refused, to the
   * failed set when it was; with distinct accessions in the batch, to that set only.
   */
  lemma PartitionPlacesEachDocument(documents: seq<SubmittedVariantEntity>, duplicatedHash: set<string>, i: nat)
    requires i < |documents|
    ensures var response := Partition(documents, duplicatedHash);
      && (documents[i].hashedMessage !in duplicatedHash ==> documents[i].accession in response.savedAccessions)
      && (documents[i].hashedMessage in duplicatedHash ==> documents[i].accession in response.saveFailedAccessions)
    ensures Distinct(AccessionList(documents)) ==>
      var response := Partition(documents, duplicatedHash);
      (documents[i].accession in response.savedAccessions <==> documents[i].hashedMessage !in duplicatedHash)
      && (documents[i].accession in response.saveFailedAccessions <==> documents[i].hashedMessage in duplicatedHash)
  {
    var response := Partition(documents, duplicatedHash);
    if Distinct(AccessionList(documents)) {
      if documents[i].accession in response.savedAccessions {
        var j :| 0 <= j < |documents| && documents[j].hashedMessage !in duplicatedHash &&
                 documents[j].accession == documents[i].accession;
        assert AccessionList(documents)[i] == AccessionList(documents)[j];
      }
      if documents[i].accession in response.saveFailedAccessions {
        var j :| 0 <= j < |documents| && documents[j].hashedMessage in duplicatedHash &&
                 documents[j].accession == documents[i].accession;
        assert AccessionList(documents)[i] == AccessionList(documents)[j];
      }
    }
  }

  /** The accessions of a batch, in order. */
  function AccessionList(documents: seq<SubmittedVariantEntity>): (r: seq<int>)
    ensures |r| == |documents|
    ensures forall i :: 0 <= i < |documents| ==> r[i] == documents[i].accession
  {
    seq(|documents|, i requires 0 <= i < |documents| => documents[i].accession)
  }

  /** With distinct accessions, no accession is reported both saved and failed. */
  lemma PartitionDisjoint(documents: seq<SubmittedVariantEntity>, duplicatedHash: set<string>)
    requires Distinct(AccessionList(documents))
    ensures Partition(documents, duplicatedHash).savedAccessions * Partition(documents, duplicatedHash).saveFailedAccessions == {}
  {
    var response := Partition(documents, duplicatedHash);
    forall a | a in response.savedAccessions
      ensures a !in response.saveFailedAccessions
    {
      var i :| 0 <= i < |documents| && documents[i].hashedMessage !in duplicatedHash && documents[i].accession == a;
      PartitionPlacesEachDocument(documents, duplicatedHash, i);
    }
  }

  /** With nothing refused, every accession is saved. */
  lemma NothingRefusedAllSaved(documents: seq<SubmittedVariantEntity>)
    ensures Partition(documents, {}) == SaveResponse(Accessions(documents), {})
  {
  }

  // ---------------------------------------------------------------------------------------------
  // The operations of `insert`

  /** True iff no two documents share a hash; the source throws on the first repeated one. */
  method CheckHashUniqueness(documents: seq<SubmittedVariantEntity>) returns (unique: bool)
    ensures unique <==> Distinct(Hashes(Values(documents)))
  {
    var duplicatedHash: set<string> := {};
    var k := 0;
    while k < |documents|
      invariant 0 <= k <= |documents|
      invariant duplicatedHash == set i | 0 <= i < k :: documents[i].hashedMessage
      invariant Distinct(Hashes(Values(documents))[..k])
    {
      if documents[k].hashedMessage in duplicatedHash {
        var j :| 0 <= j < k && documents[j].hashedMessage == documents[k].hashedMessage;
        assert Hashes(Values(documents))[j] == Hashes(Values(documents))[k];
        return false;
      }
      duplicatedHash := duplicatedHash + {documents[k].hashedMessage};
      k := k + 1;
    }
    assert Hashes(Values(documents))[..k] == Hashes(Values(documents));
    unique := true;
  }

  /** Every document gets the same creation date; nothing else in them changes. */
  method SetAuditCreatedDate(documents: seq<SubmittedVariantEntity>, createdDate: DateTime)
    modifies documents`createdDate
    ensures forall i :: 0 <= i < |documents| ==>
      documents[i].Value() == old(documents[i].Value()).(createdDate := Some(createdDate))
  {
    for k := 0 to |documents|
      invariant forall i :: 0 <= i < k ==> documents[i].createdDate == Some(createdDate)
    {
      documents[k].createdDate := Some(createdDate);
    }
  }

  /** The saved and failed accessions, collected document by document. */
  method GenerateSaveResponse(documents: seq<SubmittedVariantEntity>, duplicatedHash: set<string>)
    returns (response: SaveResponse)
    ensures response == Partition(documents, duplicatedHash)
  {
    var savedAccessions: set<int> := {};
    var saveFailedAccessions: set<int> := {};
    for k := 0 to |documents|
      invariant savedAccessions == Partition(documents[..k], duplicatedHash).savedAccessions
      invariant saveFailedAccessions == Partition(documents[..k], duplicatedHash).saveFailedAccessions
    {
      assert forall i :: 0 <= i < k ==> documents[..k + 1][i] == documents[..k][i];
      if documents[k].hashedMessage !in duplicatedHash {
        savedAccessions := savedAccessions + {documents[k].accession};
      } else {
        saveFailedAccessions := saveFailedAccessions + {documents[k].accession};
      }
    }
    assert documents[..|documents|] == documents;
    response := SaveResponse(savedAccessions, saveFailedAccessions);
  }

  /** What `insert` returns or throws once the bulk write has ended with the given outcome. */
  function InsertOutcome(documents: seq<SubmittedVariantEntity>, outcome: BulkOutcome): (r: Result<SaveResponse, InsertError>)
    ensures outcome.Acknowledged? ==> r.Ok? && r.value.saveFailedAccessions == {}
    ensures outcome.OtherRuntimeException? ==> r == Err(RethrownRuntime(outcome.message))
    ensures r.Err? ==> !outcome.Acknowledged? && !r.error.DuplicatedHashInBulkInsert?
  {
    match outcome
    case Acknowledged => Ok(Partition(documents, {}))
    case BulkOperationException(errors) =>
      (match RejectedKeys(errors)
       case None => Err(RethrownBulkOperation(errors))
       case Some(keys) => Ok(Partition(documents, keys)))
    case OtherRuntimeException(message) => Err(RethrownRuntime(message))
  }

  /**
   * Failures of the write reach the caller as they are: an error that does not parse rethrows the
   * bulk exception with no partial response, and any other runtime exception passes through.
   */
  lemma FailuresPropagate(documents: seq<SubmittedVariantEntity>, outcome: BulkOutcome)
    ensures outcome.OtherRuntimeException? ==> InsertOutcome(documents, outcome) == Err(RethrownRuntime(outcome.message))
    ensures outcome.BulkOperationException? ==>
      ((exists i :: 0 <= i < |outcome.errors| && ReportBulkOperationException(outcome.errors[i]).None?) <==>
       InsertOutcome(documents, outcome) == Err(RethrownBulkOperation(outcome.errors)))
    ensures InsertOutcome(documents, outcome).Ok? ==>
      InsertOutcome(documents, outcome).value.savedAccessions + InsertOutcome(documents, outcome).value.saveFailedAccessions
        == Accessions(documents)
  {
    if outcome.BulkOperationException? {
      RejectedKeysMeaning(outcome.errors);
    }
    if InsertOutcome(documents, outcome).Ok? {
      match outcome
      case Acknowledged => PartitionCoversBatch(documents, {});
      case BulkOperationException(errors) => PartitionCoversBatch(documents, RejectedKeys(errors).value);
    }
  }

  /** A bulk insert: from the store and the batch, the new store and how the write ended. */
  type BulkInsert = (seq<SubmittedVariant>, seq<SubmittedVariant>) -> (seq<SubmittedVariant>, BulkOutcome)

  class SubmittedVariantAccessioningRepository {
    var collection: seq<SubmittedVariant>
    const bulkInsert: BulkInsert

    constructor (collection: seq<SubmittedVariant>, bulkInsert: BulkInsert)
      ensures this.collection == collection && this.bulkInsert == bulkInsert
    {
      this.collection := collection;
      this.bulkInsert := bulkInsert;
    }

    /**
     * Inserts a batch: a batch repeating a hash is refused before anything is written; otherwise all
     * documents get the creation date `now`, the bulk write runs, and its outcome is reconciled as
     * `InsertOutcome` says.
     */
    method Insert(documents: seq<SubmittedVariantEntity>, now: DateTime) returns (r: Result<SaveResponse, InsertError>)
      modifies this`collection, documents`createdDate
      ensures !Distinct(old(Hashes(Values(documents)))) ==>
        && r == Err(DuplicatedHashInBulkInsert)
        && collection == old(collection)
        && forall i :: 0 <= i < |documents| ==> documents[i].Value() == old(documents[i].Value())
      ensures Distinct(old(Hashes(Values(documents)))) ==>
        && (forall i :: 0 <= i < |documents| ==>
              documents[i].Value() == old(documents[i].Value()).(createdDate := Some(now)))
        && collection == bulkInsert(old(collection), Values(documents)).0
        && r == InsertOutcome(documents, bulkInsert(old(collection), Values(documents)).1)
    {
      var unique := CheckHashUniqueness(documents);
      if !unique {
        return Err(DuplicatedHashInBulkInsert);
      }
      SetAuditCreatedDate(documents, now);
      var written := bulkInsert(collection, Values(documents));
      collection := written.0;
      r := Reconcile(documents, written.1);
    }
  }

  /**
   * The end of `insert`: the keys named by the write errors are collected, and the response built
   * from them; an error that does not parse, or any other failure, is rethrown.
   */
  method Reconcile(documents: seq<SubmittedVariantEntity>, outcome: BulkOutcome)
    returns (r: Result<SaveResponse, InsertError>)
    ensures r == InsertOutcome(documents, outcome)
  {
    match outcome {
      case Acknowledged =>
        var response := GenerateSaveResponse(documents, {});
        r := Ok(response);
      case OtherRuntimeException(message) =>
        r := Err(RethrownRuntime(message));
      case BulkOperationException(errors) =>
        var erroneousIds := CollectRejectedKeys(errors);
        if erroneousIds.None? {
          return Err(RethrownBulkOperation(errors));
        }
        var response := GenerateSaveResponse(documents, erroneousIds.value);
        r := Ok(response);
    }
  }

  /** The keys named by the errors, parsed one error at a time; None at the first one that does not parse. */
  method CollectRejectedKeys(errors: seq<BulkWriteError>) returns (keys: Option<set<string>>)
    ensures keys == RejectedKeys(errors)
  {
    var erroneousIds: set<string> := {};
    for k := 0 to |errors|
      invariant forall i :: 0 <= i < k ==> ReportBulkOperationException(errors[i]).Some?
      invariant erroneousIds == set i | 0 <= i < k :: ReportBulkOperationException(errors[i]).value
    {
      var errorId := ReportBulkOperationException(errors[k]);
      if errorId.None? {
        assert !forall i :: 0 <= i < |errors| ==> ReportBulkOperationException(errors[i]).Some?;
        return None;
      }
      erroneousIds := erroneousIds + {errorId.value};
      assert erroneousIds == set i | 0 <= i < k + 1 :: ReportBulkOperationException(errors[i]).value;
    }
    assert forall i :: 0 <= i < |errors| ==> ReportBulkOperationException(errors[i]).Some?;
    keys := Some(erroneousIds);
  }

  // ---------------------------------------------------------------------------------------------
  // A store with a unique index on the hash

  /** The hashes of the stored documents. */
  function StoredHashes(collection: seq<SubmittedVariant>): set<string> {
    set i | 0 <= i < |collection| :: collection[i].hashedMessage
  }

  /** The error a store reports for a document whose hash it already holds. */
  function DuplicateKeyError(hash: string): BulkWriteError {
    BulkWriteError(DuplicateKeyCode, DupKeyMessage(DupKeyPreamble, hash))
  }

  /**
   * An unordered insert: every document is tried; one whose hash is already held, stored before or
   * earlier in the batch, is refused with a duplicate-key error and the others are written.
   */
  function InsertEach(stored: set<string>, batch: seq<SubmittedVariant>): (r: (seq<SubmittedVariant>, seq<BulkWriteError>))
    ensures |r.0| + |r.1| == |batch|
    ensures forall i :: 0 <= i < |r.1| ==> r.1[i].code == DuplicateKeyCode
    decreases |batch|
  {
    if batch == [] then ([], [])
    else
      var hash := batch[0].hashedMessage;
      if hash in stored then
        var rest := InsertEach(stored, batch[1..]);
        (rest.0, [DuplicateKeyError(hash)] + rest.1)
      else
        var rest := InsertEach(stored + {hash}, batch[1..]);
        ([batch[0]] + rest.0, rest.1)
  }

  /** The bulk write of a store with a unique index on the hash. */
  function UnorderedBulkInsert(collection: seq<SubmittedVariant>, batch: seq<SubmittedVariant>)
    : (r: (seq<SubmittedVariant>, BulkOutcome))
    ensures |collection| <= |r.0| <= |collection| + |batch| && r.0[..|collection|] == collection
    ensures !r.1.OtherRuntimeException?
    ensures r.1.BulkOperationException? ==> r.1.errors != []
  {
    var written := InsertEach(StoredHashes(collection), batch);
    (collection + written.0, if written.1 == [] then Acknowledged else BulkOperationException(written.1))
  }

  predicate SingleLine(hash: string) {
    forall i :: 0 <= i < |hash| ==> AnyChar(hash[i])
  }

  /** The hash in a refusal of the store parses back, when it spans one line. */
  lemma DuplicateKeyErrorParses(hash: string)
    requires SingleLine(hash)
    ensures ReportBulkOperationException(DuplicateKeyError(hash)) == Some(hash)
  {
    var words, namespace := "E11000 duplicate key error index: ", DupKeyNamespace;
    assert forall i :: 0 <= i < |words| ==> words[i] != '"';
    assert forall i :: 0 <= i < |namespace| ==> namespace[i] != '"';
    assert forall i :: 0 <= i < |DupKeyPreamble| ==> DupKeyPreamble[i] != '"' by {
      assert DupKeyPreamble == words + namespace + ".$";
    }
    DupKeyRoundTrip(DupKeyPreamble, hash);
  }

  /** The keys of an error list with one more error in front. */
  lemma RejectedKeysCons(error: BulkWriteError, errors: seq<BulkWriteError>)
    ensures RejectedKeys([error] + errors) ==
      match (ReportBulkOperationException(error), RejectedKeys(errors))
      case (Some(key), Some(keys)) => Some({key} + keys)
      case _ => None
  {
    var all := [error] + errors;
    RejectedKeysMeaning(errors);
    RejectedKeysMeaning(all);
    assert all[0] == error;
    assert forall i :: 0 <= i < |errors| ==> all[i + 1] == errors[i];
    if ReportBulkOperationException(error).None? {
      assert ReportBulkOperationException(all[0]).None?;
    } else if RejectedKeys(errors).None? {
      var i :| 0 <= i < |errors| && ReportBulkOperationException(errors[i]).None?;
      assert ReportBulkOperationException(all[i + 1]).None?;
    } else {
      var key := ReportBulkOperationException(error).value;
      var keys := RejectedKeys(errors).value;
      assert forall i :: 0 <= i < |all| ==> ReportBulkOperationException(all[i]).Some? by {
        forall i | 0 <= i < |all|
          ensures ReportBulkOperationException(all[i]).Some?
        {
          if i > 0 {
            assert all[i] == errors[i - 1];
          }
        }
      }
      var r := RejectedKeys(all).value;
      forall k | k in r
        ensures k in {key} + keys
      {
        var i :| 0 <= i < |all| && ReportBulkOperationException(all[i]) == Some(k);
        if i > 0 {
          assert all[i] == errors[i - 1];
        }
      }
      forall k | k in keys
        ensures k in r
      {
        var i :| 0 <= i < |errors| && ReportBulkOperationException(errors[i]) == Some(k);
        assert ReportBulkOperationException(all[i + 1]) == Some(k);
      }
      assert ReportBulkOperationException(all[0]) == Some(key);
      assert r == {key} + keys;
    }
  }

  /** The hashes of a batch that are already held. */
  function Held(stored: set<string>, batch: seq<SubmittedVariant>): set<string> {
    set i | 0 <= i < |batch| && batch[i].hashedMessage in stored :: batch[i].hashedMessage
  }

  /** Dropping the first document of a batch with distinct hashes. */
  lemma DistinctTail(batch: seq<SubmittedVariant>)
    requires batch != [] && Distinct(Hashes(batch))
    ensures Distinct(Hashes(batch[1..]))
    ensures forall i :: 0 <= i < |batch| - 1 ==> batch[1..][i].hashedMessage != batch[0].hashedMessage
  {
    var tail := batch[1..];
    forall i, j | 0 <= i < j < |tail|
      ensures Hashes(tail)[i] != Hashes(tail)[j]
    {
      assert Hashes(batch)[i + 1] != Hashes(batch)[j + 1];
    }
    forall i | 0 <= i < |tail|
      ensures tail[i].hashedMessage != batch[0].hashedMessage
    {
      assert Hashes(batch)[0] != Hashes(batch)[i + 1];
    }
  }

  /** The held hashes of a batch, from those of its tail. */
  lemma HeldOfCons(stored: set<string>, batch: seq<SubmittedVariant>)
    requires batch != []
    requires forall i :: 0 <= i < |batch| - 1 ==> batch[1..][i].hashedMessage != batch[0].hashedMessage
    ensures Held(stored, batch) ==
      (if batch[0].hashedMessage in stored then {batch[0].hashedMessage} else {}) + Held(stored, batch[1..])
    ensures Held(stored + {batch[0].hashedMessage}, batch[1..]) == Held(stored, batch[1..])
  {
    var tail := batch[1..];
    forall h | h in Held(stored, batch)
      ensures h in (if batch[0].hashedMessage in stored then {batch[0].hashedMessage} else {}) + Held(stored, tail)
    {
      var i :| 0 <= i < |batch| && batch[i].hashedMessage in stored && batch[i].hashedMessage == h;
      if i > 0 {
        assert tail[i - 1] == batch[i];
      }
    }
    forall h | h in Held(stored, tail)
      ensures h in Held(stored, batch)
    {
      var i :| 0 <= i < |tail| && tail[i].hashedMessage in stored && tail[i].hashedMessage == h;
      assert batch[i + 1] == tail[i];
    }
  }

  /**
   * With distinct single-line hashes in the batch, the store refuses exactly the documents whose hash
   * it already holds, and every refusal parses back to its hash.
   */
  lemma {:induction false} InsertEachRefusesHeldHashes(stored: set<string>, batch: seq<SubmittedVariant>)
    requires Distinct(Hashes(batch))
    requires forall i :: 0 <= i < |batch| ==> SingleLine(batch[i].hashedMessage)
    ensures RejectedKeys(InsertEach(stored, batch).1) == Some(Held(stored, batch))
    decreases |batch|
  {
    if batch == [] {
      assert Held(stored, batch) == {};
      var none: seq<BulkWriteError> := [];
      assert RejectedKeys(none).value == {};
    } else {
      var hash := batch[0].hashedMessage;
      var tail := batch[1..];
      assert forall i :: 0 <= i < |tail| ==> tail[i] == batch[i + 1];
      DistinctTail(batch);
      HeldOfCons(stored, batch);
      if hash in stored {
        InsertEachRefusesHeldHashes(stored, tail);
        DuplicateKeyErrorParses(hash);
        RejectedKeysCons(DuplicateKeyError(hash), InsertEach(stored, tail).1);
      } else {
        assert InsertEach(stored, batch).1 == InsertEach(stored + {hash}, tail).1;
        InsertEachRefusesHeldHashes(stored + {hash}, tail);
        assert Held(stored + {hash}, tail) == Held(stored, tail);
        assert Held(stored, batch) == Held(stored, tail);
      }
    }
  }

  /** With distinct hashes in the batch, the store writes exactly the documents whose hash it does not hold. */
  lemma {:induction false} InsertEachWritesNewHashes(stored: set<string>, batch: seq<SubmittedVariant>)
    requires Distinct(Hashes(batch))
    ensures forall v :: v in InsertEach(stored, batch).0 <==> v in batch && v.hashedMessage !in stored
    decreases |batch|
  {
    if batch != [] {
      var hash := batch[0].hashedMessage;
      var tail := batch[1..];
      DistinctTail(batch);
      assert forall v :: v in batch <==> v == batch[0] || v in tail;
      if hash in stored {
        InsertEachWritesNewHashes(stored, tail);
      } else {
        InsertEachWritesNewHashes(stored + {hash}, tail);
        forall v | v in tail
          ensures v.hashedMessage != hash
        {
          var i :| 0 <= i < |tail| && tail[i] == v;
        }
      }
    }
  }

  /**
   * Reconciling a write of the unique-hash store: with distinct single-line hashes in the batch,
   * `insert` succeeds, and a document is reported saved exactly when its hash was not already stored.
   */
  lemma InsertReconcilesWithStore(collection: seq<SubmittedVariant>, documents: seq<SubmittedVariantEntity>)
    requires Distinct(Hashes(Values(documents)))
    requires forall i :: 0 <= i < |documents| ==> SingleLine(documents[i].hashedMessage)
    ensures InsertOutcome(documents, UnorderedBulkInsert(collection, Values(documents)).1)
      == Ok(Partition(documents, StoredHashes(collection)))
    ensures forall v :: v in UnorderedBulkInsert(collection, Values(documents)).0 <==>
      v in collection || (v in Values(documents) && v.hashedMessage !in StoredHashes(collection))
  {
    var batch := Values(documents);
    assert Hashes(batch) == Hashes(Values(documents));
    InsertEachRefusesHeldHashes(StoredHashes(collection), batch);
    InsertEachWritesNewHashes(StoredHashes(collection), batch);
    var held := Held(StoredHashes(collection), batch);
    var errors := InsertEach(StoredHashes(collection), batch).1;
    assert Partition(documents, held) == Partition(documents, StoredHashes(collection));
    if errors == [] {
      assert held == {};
    }
  }

  /** Inserting the same batch twice: the second time every accession is reported failed. */
  lemma SecondInsertFailsAll(collection: seq<SubmittedVariant>, documents: seq<SubmittedVariantEntity>)
    requires Distinct(Hashes(Values(documents)))
    requires forall i :: 0 <= i < |documents| ==> SingleLine(documents[i].hashedMessage)
    ensures var once := UnorderedBulkInsert(collection, Values(documents)).0;
      InsertOutcome(documents, UnorderedBulkInsert(once, Values(documents)).1)
        == Ok(SaveResponse({}, Accessions(documents)))
  {
    var once := UnorderedBulkInsert(collection, Values(documents)).0;
    InsertReconcilesWithStore(collection, documents);
    InsertReconcilesWithStore(once, documents);
    assert forall i :: 0 <= i < |documents| ==> documents[i].hashedMessage in StoredHashes(once) by {
      forall i | 0 <= i < |documents|
        ensures documents[i].hashedMessage in StoredHashes(once)
      {
        var v := Values(documents)[i];
        if documents[i].hashedMessage in StoredHashes(collection) {
          var j :| 0 <= j < |collection| && collection[j].hashedMessage == documents[i].hashedMessage;
          assert once[j] == collection[j];
        } else {
          assert v in once;
          var j :| 0 <= j < |once| && once[j] == v;
        }
      }
    }
    var response := Partition(documents, StoredHashes(once));
    assert response.savedAccessions == {};
    PartitionCoversBatch(documents, StoredHashes(once));
    assert response == SaveResponse({}, Accessions(documents));
    assert InsertOutcome(documents, UnorderedBulkInsert(once, Values(documents)).1) == Ok(response);
  }

  // ---------------------------------------------------------------------------------------------
  // The range query

  /** The accessions of the stored documents with start <= accession <= end, in store order. */
  function FindByAccessionRange(collection: seq<SubmittedVariant>, start: int, end: int): (r: seq<int>)
    ensures |r| <= |collection|
    ensures forall a :: a in r <==> exists i :: 0 <= i < |collection| && collection[i].accession == a && start <= a <= end
  {
    if collection == [] then []
    else
      var rest := FindByAccessionRange(collection[1..], start, end);
      assert forall i :: 1 <= i < |collection| ==> collection[i] == collection[1..][i - 1];
      if start <= collection[0].accession <= end then [collection[0].accession] + rest else rest
  }
}
