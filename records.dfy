/**
 * The data model of an academic record as the request handlers see it:
 * JSON values with JavaScript truthiness, qualifications with their nested
 * examination results, and the record a user owns.
 */
module Records {
  import opened Wrappers

  /** A JSON-ish JavaScript value as it can appear in a request body. */
  datatype JsValue =
    | Undefined
    | Null
    | Bool(b: bool)
    | Num(x: real)
    | NaN
    | Str(s: string)
    | Obj   // any non-null object or array

  /** JavaScript's ToBoolean: undefined, null, false, 0, NaN and "" are falsy. */
  predicate Truthy(v: JsValue)
  {
    match v
    case Undefined => false
    case Null => false
    case Bool(b) => b
    case Num(x) => x != 0.0
    case NaN => false
    case Str(s) => s != ""
    case Obj => true
  }

  /** The branch codes accepted for postgraduate results. */
  const ValidBranches: set<string> := {"CSE", "ECE", "EIE", "EEE", "ME"}

  /**
   * `validBranches.includes(v)`: strict comparison, so only a string that is
   * one of the five codes is included.
   */
  predicate IsValidBranch(v: JsValue)
  {
    v.Str? && v.s in ValidBranches
  }

  /** `aggregate` of an examination result; `classification` is the JSON member `class`. */
  datatype Aggregate = Aggregate(cgpa: JsValue, classification: JsValue, percentage: JsValue)

  /** `examination_results.ug` or `examination_results.pg`; a missing `aggregate` is None. */
  datatype ExamResult = ExamResult(branch: JsValue, aggregate: Option<Aggregate>)

  /** `examination_results`, whose `ug` and `pg` members may each be absent. */
  datatype ExamResults = ExamResults(ug: Option<ExamResult>, pg: Option<ExamResult>)

  datatype Qualification = Qualification(
    standard: JsValue,
    branch: JsValue,
    examResults: Option<ExamResults>,
    documentUrl: Option<string>)

  datatype Experience = Experience(certificateUrl: Option<string>)

  datatype Publication = Publication(documentUrl: Option<string>)

  datatype ResearchInterest = ResearchInterest(branch: JsValue)

  /** The record stored for one user; a missing `research_interest` is None. */
  datatype AcademicRecord = AcademicRecord(
    qualifications: seq<Qualification>,
    experience: seq<Experience>,
    publications: seq<Publication>,
    researchInterest: Option<ResearchInterest>)

  /** A request body: each top-level member is either present (Some) or absent (None). */
  datatype Patch = Patch(
    qualifications: Option<seq<Qualification>>,
    experience: Option<seq<Experience>>,
    publications: Option<seq<Publication>>,
    researchInterest: Option<ResearchInterest>)

  function Pick<T>(given: Option<T>, current: T): T
  {
    if given.Some? then given.value else current
  }

  /**
   * `$set: body`: every top-level member present in the body replaces the
   * stored one wholesale (no deep merge); absent members are kept.
   */
  function Merge(rec: AcademicRecord, body: Patch): (r: AcademicRecord)
    ensures body.qualifications.Some? ==> r.qualifications == body.qualifications.value
    ensures body.qualifications.None? ==> r.qualifications == rec.qualifications
    ensures body.experience.Some? ==> r.experience == body.experience.value
    ensures body.experience.None? ==> r.experience == rec.experience
    ensures body.publications.Some? ==> r.publications == body.publications.value
    ensures body.publications.None? ==> r.publications == rec.publications
    ensures body.researchInterest.Some? ==> r.researchInterest == body.researchInterest
    ensures body.researchInterest.None? ==> r.researchInterest == rec.researchInterest
  {
    AcademicRecord(
      Pick(body.qualifications, rec.qualifications),
      Pick(body.experience, rec.experience),
      Pick(body.publications, rec.publications),
      if body.researchInterest.Some? then body.researchInterest else rec.researchInterest)
  }

  /** The record a new document built from `{...body}` holds: arrays default to empty. */
  function NewRecord(body: Patch): (r: AcademicRecord)
    ensures r.qualifications == (if body.qualifications.Some? then body.qualifications.value else [])
    ensures r.experience == (if body.experience.Some? then body.experience.value else [])
    ensures r.publications == (if body.publications.Some? then body.publications.value else [])
    ensures r.researchInterest == body.researchInterest
  {
    Merge(AcademicRecord([], [], [], None), body)
  }

  /** Applying the same body twice is the same as applying it once. */
  lemma MergeIdempotent(rec: AcademicRecord, body: Patch)
    ensures Merge(Merge(rec, body), body) == Merge(rec, body)
  {
  }
}
