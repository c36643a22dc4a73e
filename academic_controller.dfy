/**
 * The request handlers that create, update and attach documents to a user's
 * academic record. The document database is a map from user id to record;
 * its schema validation is an opaque predicate, the cloud store an outcome
 * given as a parameter.
 */
module AcademicController {
  import opened Wrappers
  import opened Records
  import opened QualificationValidator
  import opened DocumentUpload
  import TempFiles

  type UserId = string

  datatype Failure =
    | Invalid(e: ValidationError)   // one of the nested-qualification messages
    | SchemaInvalid                 // a schema `ValidationError`
    | NoFileUploaded
    | OnlyPdfAllowed
    | FileTooLarge
    | InvalidDocumentType

  datatype Response =
    | Created(record: AcademicRecord)                    // 201
    | Updated(record: AcademicRecord)                    // 200
    | Linked(url: string, linked: Option<AcademicRecord>) // 200, the record if one was updated
    | BadRequest(reason: Failure)                        // 400
    | NotFound                                           // 404
    | ServerError                                        // 500

  function Status(r: Response): nat
  {
    match r
    case Created(_) => 201
    case Updated(_) => 200
    case Linked(_, _) => 200
    case BadRequest(_) => 400
    case NotFound => 404
    case ServerError => 500
  }

  /** What the cloud upload call does: return a result with a URL, return nothing, or throw. */
  datatype CloudOutcome = CloudUrl(secureUrl: string) | CloudNoResult | CloudThrows

  /** The failure response for a validator error: a thrown TypeError is a 500, the rest are 400s. */
  function ValidationFailure(e: ValidationError): (r: Response)
    ensures Status(r) == (if e == TypeFault then 500 else 400)
  {
    if e == TypeFault then ServerError else BadRequest(Invalid(e))
  }

  /** The persisted academic records, at most one per user. */
  class AcademicStore {
    var records: map<UserId, AcademicRecord>

    constructor (records: map<UserId, AcademicRecord>)
      ensures this.records == records
    {
      this.records := records;
    }
  }

  /**
   * `createAcademic`. With a record already stored it is a plain `$set` of the
   * body (schema validators only, no nested check). Otherwise it builds the new
   * record, runs the nested check, then `validateSync`, and saves only if both
   * pass: nothing is written on any failure.
   */
  method CreateAcademic(store: AcademicStore, user: UserId, body: Patch, schemaOk: AcademicRecord -> bool)
    returns (resp: Response)
    modifies store
    ensures user in old(store.records) ==>
      var merged := Merge(old(store.records)[user], body);
      if schemaOk(merged) then resp == Updated(merged) && store.records == old(store.records)[user := merged]
      else resp == BadRequest(SchemaInvalid) && store.records == old(store.records)
    ensures user !in old(store.records) ==>
      var rec := NewRecord(body);
      var v := Validate(rec.qualifications, rec.researchInterest);
      && (v.Err? ==> resp == ValidationFailure(v.error))
      && (v.Ok? && !schemaOk(rec.(qualifications := v.value)) ==> resp == BadRequest(SchemaInvalid))
      && (v.Ok? && schemaOk(rec.(qualifications := v.value)) ==>
            resp == Created(rec.(qualifications := v.value)) &&
            store.records == old(store.records)[user := rec.(qualifications := v.value)])
    ensures Status(resp) >= 400 ==> store.records == old(store.records)
    ensures resp.Created? ==>
      && user !in old(store.records)
      && Validate(NewRecord(body).qualifications, NewRecord(body).researchInterest).Ok?
      && schemaOk(resp.record)
      && (forall k :: 0 <= k < |resp.record.qualifications| ==> WellFormed(resp.record.qualifications[k]))
      && store.records == old(store.records)[user := resp.record]
  {
    if user in store.records {
      var merged := Merge(store.records[user], body);
      if !schemaOk(merged) {
        return BadRequest(SchemaInvalid);
      }
      store.records := store.records[user := merged];
      return Updated(merged);
    }
    var rec := NewRecord(body);
    var v := ValidateQualifications(rec.qualifications, rec.researchInterest);
    if v.Err? {
      return ValidationFailure(v.error);
    }
    ValidatedAreWellFormed(rec.qualifications, rec.researchInterest);
    var academic := rec.(qualifications := v.value);
    if !schemaOk(academic) {
      return BadRequest(SchemaInvalid);
    }
    store.records := store.records[user := academic];
    resp := Created(academic);
  }

  /**
   * `updateAcademic`: the `$set` is written first and the nested check runs
   * afterwards on the merged record, so a 400 from the check leaves the merge
   * persisted. The rewritten PG branches appear in the 200 response only; the
   * stored record is the merge as written. A missing record is a 404 with no
   * validation; a schema rejection of the update is a 500.
   */
  method UpdateAcademic(store: AcademicStore, user: UserId, body: Patch, schemaOk: AcademicRecord -> bool)
    returns (resp: Response)
    modifies store
    ensures user !in old(store.records) ==> resp == NotFound && store.records == old(store.records)
    ensures user in old(store.records) ==>
      var merged := Merge(old(store.records)[user], body);
      var v := Validate(merged.qualifications, merged.researchInterest);
      && (!schemaOk(merged) ==> resp == ServerError && store.records == old(store.records))
      && (schemaOk(merged) ==> store.records == old(store.records)[user := merged])
      && (schemaOk(merged) && v.Err? ==> resp == ValidationFailure(v.error))
      && (schemaOk(merged) && v.Ok? ==> resp == Updated(merged.(qualifications := v.value)))
  {
    if user !in store.records {
      return NotFound;
    }
    var merged := Merge(store.records[user], body);
    if !schemaOk(merged) {
      return ServerError;
    }
    store.records := store.records[user := merged];
    var v := ValidateQualifications(merged.qualifications, merged.researchInterest);
    if v.Err? {
      return ValidationFailure(v.error);
    }
    resp := Updated(merged.(qualifications := v.value));
  }

  /**
   * `uploadAcademicDocument`. Once a file is present every exit removes it from
   * the upload directory. The cloud upload happens before the document type is
   * looked at, so an invalid type is refused after the file already went to the
   * cloud store. With a valid type the URL is written at the resolved path of
   * the user's record (a response with no record when the user has none).
   * `remoteCopyExists` is true when the cloud store returned a URL, so a copy is
   * known to exist there. The upload is attempted for every admitted file; one
   * that threw or returned no result counts as no copy.
   */
  method UploadAcademicDocument(
    store: AcademicStore, dir: TempFiles.TempDir, user: UserId,
    file: Option<UploadedFile>, documentType: Option<string>, index: Option<string>,
    cloud: CloudOutcome, dbThrows: bool)
    returns (resp: Response, remoteCopyExists: bool)
    modifies store, dir
    ensures dir.locked == old(dir.locked) && dir.listable == old(dir.listable)
    ensures file.None? ==>
      resp == BadRequest(NoFileUploaded) && !remoteCopyExists &&
      dir.files == old(dir.files) && store.records == old(store.records)
    ensures file.Some? ==> dir.files == TempFiles.AfterCleanup(old(dir.files), dir.locked, file.value.path)
    ensures Gate(file) == NotPdf ==> resp == BadRequest(OnlyPdfAllowed) && !remoteCopyExists
    ensures Gate(file) == TooLarge ==> resp == BadRequest(FileTooLarge) && !remoteCopyExists
    ensures Gate(file) == Admitted ==> (remoteCopyExists <==> cloud.CloudUrl?)
    ensures Gate(file) == Admitted && !cloud.CloudUrl? ==> resp == ServerError
    ensures Gate(file) == Admitted && cloud.CloudUrl? && ResolveDocumentPath(documentType, index).None? ==>
      resp == BadRequest(InvalidDocumentType)
    ensures Gate(file) == Admitted && cloud.CloudUrl? && ResolveDocumentPath(documentType, index).Some? && dbThrows ==>
      resp == ServerError
    ensures Gate(file) == Admitted && cloud.CloudUrl? && ResolveDocumentPath(documentType, index).Some? && !dbThrows ==>
      var path := ResolveDocumentPath(documentType, index).value;
      var url := cloud.secureUrl;
      if user in old(store.records) then
        var linked := ApplyLink(old(store.records)[user], path, url);
        resp == Linked(url, Some(linked)) && store.records == old(store.records)[user := linked]
      else
        resp == Linked(url, None) && store.records == old(store.records)
    ensures !resp.Linked? ==> store.records == old(store.records)
  {
    var gate := Gate(file);
    if gate == NoFile {
      return BadRequest(NoFileUploaded), false;
    }
    var path := file.value.path;
    if gate != Admitted {
      dir.CleanupTempFile(path);
      resp := if gate == NotPdf then BadRequest(OnlyPdfAllowed) else BadRequest(FileTooLarge);
      return resp, false;
    }
    if !cloud.CloudUrl? {
      dir.CleanupTempFile(path);
      return ServerError, false;
    }
    remoteCopyExists := true;
    var url := cloud.secureUrl;
    var target := ResolveDocumentPath(documentType, index);
    if target.None? {
      dir.CleanupTempFile(path);
      return BadRequest(InvalidDocumentType), true;
    }
    if dbThrows {
      dir.CleanupTempFile(path);
      return ServerError, true;
    }
    var linked: Option<AcademicRecord> := None;
    if user in store.records {
      var updated := ApplyLink(store.records[user], target.value, url);
      store.records := store.records[user := updated];
      linked := Some(updated);
    }
    dir.CleanupTempFile(path);
    resp := Linked(url, linked);
  }
}
