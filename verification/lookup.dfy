/**
 * Document verification (app.js `/verifyDocument`, `/verifyDocumentById`): a linear
 * `chain.find` for the first block whose record carries the wanted content hash or id.
 */
module Lookup {
  import opened Wrappers
  import opened Blocks

  datatype Key = ByDocumentHash(documentHash: string) | ByDocumentId(documentId: string)

  /**
   * The `find` predicate: the payload must be present and be a record whose field equals the
   * key. A string payload (the genesis text) has no such field and never matches.
   */
  predicate Matches(b: Block, key: Key)
  {
    && b.documentData.Record?
    && match key
       case ByDocumentHash(x) => b.documentData.record.documentHash == Some(x)
       case ByDocumentId(x) => b.documentData.record.documentId == Some(x)
  }

  /** Position `i` matches and no earlier position does. */
  predicate IsFirstMatch(c: seq<Block>, key: Key, i: nat)
  {
    && i < |c|
    && Matches(c[i], key)
    && forall j :: 0 <= j < i ==> !Matches(c[j], key)
  }

  /** `chain.find`: the position of the first matching block, scanning from the genesis end. */
  method Find(c: seq<Block>, key: Key) returns (r: Option<nat>)
    ensures r.None? <==> forall j :: 0 <= j < |c| ==> !Matches(c[j], key)
    ensures r.Some? ==> IsFirstMatch(c, key, r.value)
  {
    var i := 0;
    while i < |c|
      invariant 0 <= i <= |c|
      invariant forall j :: 0 <= j < i ==> !Matches(c[j], key)
    {
      if Matches(c[i], key) {
        return Some(i);
      }
      i := i + 1;
    }
    return None;
  }

  /**
   * `/verifyDocument`: refused when no file was uploaded; otherwise the first block recording the
   * uploaded file's hash (computed outside the core), or none.
   */
  method VerifyDocument(c: seq<Block>, uploadedHash: Option<string>) returns (r: Result<Option<Block>, Error>)
    ensures r.Failure? <==> uploadedHash.None?
    ensures r.Failure? ==> r.error == NoFileUploaded
    ensures r.Success? && r.value.None? ==> forall j :: 0 <= j < |c| ==> !Matches(c[j], ByDocumentHash(uploadedHash.value))
    ensures r.Success? && r.value.Some? ==>
      exists i: nat :: IsFirstMatch(c, ByDocumentHash(uploadedHash.value), i) && c[i] == r.value.value
  {
    if uploadedHash.None? {
      return Failure(NoFileUploaded);
    }
    var found := Find(c, ByDocumentHash(uploadedHash.value));
    if found.Some? {
      return Success(Some(c[found.value]));
    }
    return Success(None);
  }

  /**
   * The `documentId` field of a request body: missing, a string, or any other JSON or
   * urlencoded value (a number, boolean, null, array or object), of which only its
   * truthiness matters here.
   */
  datatype BodyField = Missing | StringValue(s: string) | OtherValue(truthy: bool)

  /** JavaScript's `!x` on a body field. */
  predicate Falsy(f: BodyField)
  {
    match f
    case Missing => true
    case StringValue(s) => s == ""
    case OtherValue(truthy) => !truthy
  }

  /**
   * `/verifyDocumentById`: refused when the id is falsy; otherwise the first block whose record
   * has that id, or none. A truthy non-string id is strictly unequal to every stored id, so it
   * finds nothing.
   */
  method VerifyDocumentById(c: seq<Block>, documentId: BodyField) returns (r: Result<Option<Block>, Error>)
    ensures r.Failure? <==> Falsy(documentId)
    ensures r.Failure? ==> r.error == MissingDocumentId
    ensures documentId.OtherValue? && documentId.truthy ==> r == Success(None)
    ensures r.Success? && r.value.None? && documentId.StringValue? ==>
      forall j :: 0 <= j < |c| ==> !Matches(c[j], ByDocumentId(documentId.s))
    ensures r.Success? && r.value.Some? ==>
      documentId.StringValue? && exists i: nat :: IsFirstMatch(c, ByDocumentId(documentId.s), i) && c[i] == r.value.value
  {
    if Falsy(documentId) {
      return Failure(MissingDocumentId);
    }
    if documentId.OtherValue? {
      return Success(None);
    }
    var found := Find(c, ByDocumentId(documentId.s));
    if found.Some? {
      return Success(Some(c[found.value]));
    }
    return Success(None);
  }

  /** Appending blocks never changes an existing first match: earlier records shadow later ones. */
  lemma FirstMatchSurvivesAppend(c: seq<Block>, more: seq<Block>, key: Key, i: nat)
    requires IsFirstMatch(c, key, i)
    ensures IsFirstMatch(c + more, key, i)
  {
  }

  /** A record appended to a chain holding no match is the one found afterwards. */
  lemma AppendedRecordFound(c: seq<Block>, b: Block, key: Key)
    requires forall j :: 0 <= j < |c| ==> !Matches(c[j], key)
    requires Matches(b, key)
    ensures IsFirstMatch(c + [b], key, |c|)
  {
  }
}
