# Academic records backend: qualification validation and document uploads

This project is a Dafny model of the decision logic in an academic-record REST backend. Each user owns one academic record: qualifications, experience, publications and a research interest. The model covers:

- the nested-qualification validator. It checks undergraduate (UG) and postgraduate (PG) examination results and rewrites a PG result's branch code. `createAcademic` runs it before saving and `updateAcademic` runs it after writing.
- the two record handlers. Create validates and then persists. Update persists and then validates.
- the document-upload handler. It has a gate (file present, PDF, at most 5 MiB), a resolver that turns `documentType` × `index` into a dotted field path, and the `$set` of the uploaded URL at that path. Every exit after a file was received removes the staged temporary file.
- the upload middleware. It has the image and document filters, the size limits, the staged filename (`path.extname` of the original name after a generated prefix) and the sweep that deletes upload-directory entries older than one hour.

Modules:
- `Wrappers`: Option and Result.
- `Records`: JavaScript values with their truthiness, the record datatypes, and the `$set` shallow merge.
- `QualificationValidator`: the per-entry check, the whole-list specification `Validate`, the loop `ValidateQualifications`, and the lemmas about them.
- `DocumentUpload`: the gate, the path resolver and its inverse, decimal array positions, and the URL write.
- `UploadPolicy`: the middleware's filters, limits, `extname` and staged name.
- `TempFiles`: the upload directory as a class with the two cleanup operations and staging.
- `AcademicController`: the record store as a class, plus the three handlers.

Inputs the model takes as parameters instead of computing them:
- the clock (`now`);
- the random filename prefix;
- the cloud upload's outcome (a URL, no result, or a throw);
- whether the database write of the upload handler throws;
- the schema check, as an opaque predicate `schemaOk` on records;
- which directory entries cannot be deleted (`TempDir.locked`);
- whether the upload directory can be listed (`TempDir.listable`).

Facts about the code that shape the model:
- `createAcademic` on an existing record does a bare `$set` with no nested check (backend/controllers/AcademicController.js:41-55). Only `updateAcademic` runs the nested check after merging.
- The multer filters run before a file is staged, so a rejected image is never written. The document handler's own gate deletes a staged file it refuses.
- The upload handler interpolates the raw `index` text from the body into the path, so a missing index gives `qualifications.undefined.document_url`.
- The nested check's TypeError exits fall into the handlers' catch blocks as 500 responses. These are an absent `aggregate` after a truthy branch, and an absent `research_interest` when the PG entry's own branch is invalid.
- In `updateAcademic`, the PG branch rewrite changes only the in-memory document that goes into the 200 response. The stored record is the merge as written.
- `uploadAcademicDocument` uploads to the cloud store before it checks `documentType`. An invalid type is therefore refused after the remote copy exists (`remoteCopyExists` is true).

## Model

| member | source | states |
|---|---|---|
| Records.Merge | backend/controllers/AcademicController.js:175-179 | `$set: req.body` replaces each top-level member the body carries and keeps every other one |
| Records.NewRecord | backend/controllers/AcademicController.js:58-61 | a new document built from the body holds the body's arrays, an empty array for each absent one, and the body's research interest |
| Records.MergeIdempotent | backend/controllers/AcademicController.js:44-48 | writing the same body twice stores the same record as writing it once |
| QualificationValidator.ValidateQualifications | backend/controllers/AcademicController.js:65-106 | the `for` loop with early return computes exactly `Validate`: the first failing entry's error, or every entry as the loop body leaves it |
| QualificationValidator.CheckQualification | backend/controllers/AcademicController.js:67-104 | one loop iteration: an entry that neither block applies to passes unchanged; a passing entry differs from its input at most in `pg.branch` and is well-formed (complete UG results, PG results with a valid branch code and a complete aggregate) |
| QualificationValidator.UgVerdict | backend/controllers/AcademicController.js:69-77 | a UG entry with a `ug` object is rejected with the UG message iff its branch is falsy or its aggregate has a falsy cgpa, class or percentage (cgpa 0 included); a truthy branch with no aggregate throws; a passing UG entry is unchanged |
| QualificationValidator.PgBranchPriority | backend/controllers/AcademicController.js:80-96 | `pg.branch` becomes the entry's own branch if it is one of CSE, ECE, EIE, EEE, ME, else `research_interest.branch` if that is one; otherwise the invalid-branch rejection, exactly when neither is valid (a throw if `research_interest` is absent) |
| QualificationValidator.PgMissingFieldsCause | backend/controllers/AcademicController.js:84-102 | the PG missing-fields rejection happens iff a branch was resolved and the aggregate has a falsy member, so it never comes from the branch; after success `pg.branch` is a valid code; the check throws (a 500 through the catch blocks) iff resolution throws on an absent `research_interest` or a branch resolved and `pg.aggregate` is absent, whose `cgpa` read at :97 throws |
| QualificationValidator.CheckChangesOnlyPgBranch | backend/controllers/AcademicController.js:66-104 | the loop body changes nothing but `examination_results.pg.branch`; entries with no results, UG without `ug`, PG without `pg` and other standards pass unchanged |
| QualificationValidator.ValidateCharacterised | backend/controllers/AcademicController.js:65-106 | fail-fast and in order: the list passes iff every entry passes, a passing list comes back entry by entry, and a failing list carries the error of its first failing entry, with every earlier entry passing |
| QualificationValidator.ValidatedAreWellFormed | backend/controllers/AcademicController.js:69-102 | every entry of a validated list has complete UG results, and PG results with a valid branch code and a complete aggregate |
| QualificationValidator.CheckIdempotent | backend/controllers/AcademicController.js:80-102 | checking an already-checked entry again passes and changes nothing |
| QualificationValidator.ValidateIdempotent | backend/controllers/AcademicController.js:186-227 | re-running the check on a validated list under an unchanged research interest passes and changes nothing |
| QualificationValidator.ResearchInterestChangeRejects | backend/controllers/AcademicController.js:202-216 | an entry stored with the fallback branch "CSE" is refused with the invalid-branch error once the research interest becomes "XX": the check reads the entry's own branch and `research_interest.branch`, never the stored `pg.branch` |
| QualificationValidator.UgScenario | backend/controllers/AcademicController.js:69-77 | a complete UG entry (CSE, cgpa 8.5, class First, 85 percent) passes and is kept exactly as sent |
| QualificationValidator.PgFallbackScenario | backend/controllers/AcademicController.js:83-96 | a PG entry with branch "XX" and research interest "CSE" passes with `pg.branch` set to "CSE" |
| UploadPolicy.ImageFilter | backend/middleware/multer.js:63-69 | the image `fileFilter`; its contract is stated by ImageFilterBySuffix and ImageFilterIsCaseSensitive below |
| UploadPolicy.DocumentFilter | backend/middleware/multer.js:78-84 | the document `fileFilter`; its contract is stated by DocumentFilterIsExact and, with the size limit, by DocumentUpload.GateAgreesWithDocumentPolicy |
| UploadPolicy.SizeLimits | backend/middleware/multer.js:60-62 | the image limit is 2*1024*1024 bytes, the document limit (multer.js:75-77) 5*1024*1024 bytes, each inclusive |
| UploadPolicy.DocumentFilterIsExact | backend/middleware/multer.js:78-84 | the document filter accepts `application/pdf` and refuses other case or added parameters |
| UploadPolicy.ImageFilterBySuffix | backend/middleware/multer.js:63-69 | the regular-expression filter accepts a name iff it ends with `.jpg`, `.jpeg`, `.png` or `.gif` |
| UploadPolicy.ImageFilterIsCaseSensitive | backend/middleware/multer.js:65 | `.JPG` and `.Png` are refused, `.jpeg` and `.gif` accepted |
| UploadPolicy.TrimTrailingSlashes | backend/middleware/multer.js:53 | for `extname`: the name without trailing slashes is a prefix of it and does not end in '/' |
| UploadPolicy.BaseName | backend/middleware/multer.js:53 | for `extname`: the last segment is a slash-free suffix preceded by '/' or the start |
| UploadPolicy.LastDot | backend/middleware/multer.js:53 | for `extname`: the position of the last '.', with no '.' after it |
| UploadPolicy.Extname | backend/middleware/multer.js:53 | `path.extname` is empty exactly when the base name has no '.' after its first character or is `..`; otherwise it is a '.' followed by no further '.' or '/', and a suffix of the base name |
| UploadPolicy.StagedFilename | backend/middleware/multer.js:51-54 | the staged name is exactly the generated prefix followed by the original name's extension: it starts with the prefix, ends with the extension, and has no other character |
| UploadPolicy.AcceptedImageExtension | backend/middleware/multer.js:51-69 | a name the image filter accepts is staged with that same extension, except a name whose last segment is the bare extension (".png"), which gets none |
| DocumentUpload.Gate | backend/controllers/AcademicController.js:244-258 | checks in order: no file, then a mimetype other than `application/pdf`, then a size above 5 MiB; exactly 5 MiB is admitted |
| DocumentUpload.GateAgreesWithDocumentPolicy | backend/controllers/AcademicController.js:248-258 | the handler's gate admits exactly what the document filter and the 5 MiB limit of multer.js:75-84 admit |
| DocumentUpload.KindOf | backend/controllers/AcademicController.js:271-290 | only the three exact `documentType` strings select a kind |
| DocumentUpload.ResolveDocumentPath | backend/controllers/AcademicController.js:274-290 | qualification → `qualifications.<index>.document_url`, experience → `experience.<index>.experience_certificate_url`, publication → `publications.<index>.document_url`, anything else → no path |
| DocumentUpload.ParseFieldPath | backend/controllers/AcademicController.js:276-286 | every resolver path reads back as its kind and index text, whatever the index text is |
| DocumentUpload.ResolverInjective | backend/controllers/AcademicController.js:275-290 | two requests with different type or index text never target the same field |
| DocumentUpload.ArrayIndexRoundTrip | backend/controllers/AcademicController.js:277 | array positions print as canonical numerals that read back as themselves, and every canonical numeral is the printed form of its value |
| DocumentUpload.ApplyLink | backend/controllers/AcademicController.js:274-296 | the `$set` of the URL at the resolved path never changes the research interest or the length of any section, and a path that does not parse, or whose index text is not a canonical numeral, leaves the record unchanged |
| DocumentUpload.LinkLandsOnIndex | backend/controllers/AcademicController.js:275-296 | an upload of one kind with index n, for an existing entry n, sets that entry's URL and leaves every other entry and section unchanged |
| DocumentUpload.ExperienceIndexOneScenario | backend/controllers/AcademicController.js:279-282 | an experience document with index "1" is stored at `experience[1].experience_certificate_url` and nowhere else |
| TempFiles.Swept | backend/middleware/multer.js:21-37 | after a sweep an entry remains iff it is at most one hour old or its stat/unlink fails, with its mtime unchanged |
| TempFiles.AfterCleanup | backend/controllers/AcademicController.js:20-28 | removing a file takes out exactly that entry; the empty path, a missing file or a failing unlink leave the directory as it was |
| TempFiles.OneHourBoundary | backend/middleware/multer.js:30 | an entry exactly 3,600,000 ms old is kept; one ms older is swept |
| TempFiles.SweepIdempotent | backend/middleware/multer.js:21-37 | a second sweep at the same instant removes nothing more |
| TempFiles.CleanupIdempotent | backend/controllers/AcademicController.js:20-28 | removing the same file twice equals removing it once |
| TempFiles.TempDir.constructor | backend/middleware/multer.js:7-9 | the upload directory starts with the given entries |
| TempFiles.TempDir.CleanupTempFile | backend/controllers/AcademicController.js:20-28 | the directory becomes `AfterCleanup` of the old one; never fails |
| TempFiles.TempDir.CleanupOldFiles | backend/middleware/multer.js:12-42 | the loop over the listing leaves exactly `Swept` of the old directory, continuing past entries that fail; an unlistable directory is left alone |
| TempFiles.TempDir.StageUpload | backend/middleware/multer.js:46-54 | the sweep runs first, then the file is added under prefix + extension with mtime now |
| AcademicController.ValidationFailure | backend/controllers/AcademicController.js:131-153 | a thrown TypeError from the nested check becomes a 500; the check's own rejections are 400s |
| AcademicController.AcademicStore.constructor | backend/controllers/AcademicController.js:38 | the store starts with the given records |
| AcademicController.CreateAcademic | backend/controllers/AcademicController.js:31-155 | existing record: a `$set` with no nested check, 200, or 400 on a schema error. New record: validated, then `validateSync`, saved only if both pass. Every error leaves the store unchanged, and a 201 implies both checks passed and every qualification is well-formed |
| AcademicController.UpdateAcademic | backend/controllers/AcademicController.js:173-240 | a missing record gives 404 with no validation. The merge is written before the nested check, so a 400 from the check leaves it persisted. The 200 response carries the rewritten PG branches |
| AcademicController.UploadAcademicDocument | backend/controllers/AcademicController.js:242-314 | on every exit after a file exists, the staged file is removed (unless its unlink fails) and no other entry is touched. Non-PDF or oversize gives 400 before any cloud call. A cloud failure gives 500. An invalid type gives 400 after the cloud upload. Otherwise the URL is written at the resolved path of the user's record |

## Left out

- Cloud store client (backend/controllers/AcademicController.js:7-11): configuration and network call are not modelled. The outcome of `cloudinary.uploader.upload` is a parameter.
- Persistence: the database (`findOne`, `findOneAndUpdate`, `save`) is a map from user id to record. Persistence failures other than schema validation are not modelled, except the throwing write of the upload handler. The same-user upsert race is not modelled.
- AcademicController.CreateAcademic: `validateSync` and the update validators (`runValidators`) are one opaque predicate on the whole record. Mongoose's update validators check only the updated paths; the model checks the merged record.
- AcademicController.UpdateAcademic: the update validators (`runValidators`) are approximated by the same opaque predicate on the merged record, checked after the record is found. In the code they run on the update document before the query, so a body they refuse gives a 500 even when no record exists (backend/controllers/AcademicController.js:175-179, 233-239); the model answers 404 for a missing record.
- AcademicController.CreateAcademic: a `userid` member in the body, which `$set` would pass through, is not modelled. Members of the body other than qualifications, experience, publications and research_interest are not modelled. Schema defaults for absent members are taken as empty arrays and an absent research interest.
- DocumentUpload.ApplyLink: a `$set` path whose index text is not a canonical decimal numeral naming an existing entry leaves the record unchanged in the model. Examples are a missing index ("undefined"), a leading zero, a dotted text, or an out-of-range position. How MongoDB handles those (padding arrays, creating fields, or rejecting) is not modelled.
- Multipart body fields sent more than once (arrays instead of strings) are not modelled: `documentType` and `index` are absent or a string.
- The multipart library's own enforcement of `limits.fileSize` and its callback protocol are not modelled; only the policy predicates and constants are. An image larger than 2 MiB is therefore not shown to be refused.
- Real filesystem calls are replaced by the `TempDir` class. These are `existsSync`, `unlinkSync`, `statSync`, `readdirSync`, and `mkdirSync`. The controller creates the upload directory at module load (AcademicController.js:14-17). `cleanupOldFiles` creates it on each sweep outside production when it is missing (multer.js:15-17). Entry names stand for paths inside the upload directory. `Date.now()` and `Math.random()` in the filename prefix are parameters.
- Image uploads are not modelled beyond the filter, limit and staging rules: no handler in the controller uses them.
- `getAcademic`, `createAcademicDetails` and `uploadFile` are thin database or cloud wrappers with no decision logic of their own.
- backend/server.js is not part of this model: it is HTTP wiring, security headers, rate limiting, the database connection and shutdown.
- Console logging, and the development-only stack trace in 500 responses, are not modelled.
