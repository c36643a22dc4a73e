/**
 * The pure parts of `uploadAcademicDocument`: the gate an uploaded file must
 * pass, the dotted field path the document URL is written to, and what that
 * `$set` does to the stored record.
 */
module DocumentUpload {
  import opened Wrappers
  import opened Records
  import UploadPolicy

  /** `req.file` as the middleware leaves it. */
  datatype UploadedFile = UploadedFile(path: string, mimetype: string, size: nat)

  datatype GateVerdict = NoFile | NotPdf | TooLarge | Admitted

  /** The handler's own size check: `req.file.size > 5 * 1024 * 1024` is refused. */
  const MaxDocumentBytes: nat := 5 * 1024 * 1024

  /** The three checks, in the handler's order: a file, a PDF, at most 5 MiB. */
  function Gate(file: Option<UploadedFile>): (v: GateVerdict)
    ensures v == NoFile <==> file.None?
    ensures v == NotPdf <==> file.Some? && file.value.mimetype != "application/pdf"
    ensures v == TooLarge <==> file.Some? && file.value.mimetype == "application/pdf" && file.value.size > 5242880
    ensures v == Admitted <==> file.Some? && file.value.mimetype == "application/pdf" && file.value.size <= 5242880
  {
    if file.None? then NoFile
    else if file.value.mimetype != "application/pdf" then NotPdf
    else if file.value.size > MaxDocumentBytes then TooLarge
    else Admitted
  }

  /**
   * The handler's gate admits exactly the files the document upload policy of
   * the middleware admits: the same mimetype and the same 5 MiB bound, with a
   * file of exactly 5 MiB accepted by both.
   */
  lemma GateAgreesWithDocumentPolicy(f: UploadedFile)
    ensures Gate(Some(f)) == Admitted <==>
      UploadPolicy.DocumentFilter(f.mimetype) && UploadPolicy.WithinLimit(UploadPolicy.Document, f.size)
    ensures f.mimetype == "application/pdf" && f.size == 5 * 1024 * 1024 ==> Gate(Some(f)) == Admitted
    ensures f.mimetype == "application/pdf" && f.size == 5 * 1024 * 1024 + 1 ==> Gate(Some(f)) == TooLarge
  {
  }

  // ---------------------------------------------------------------------------
  // The document-link path
  // ---------------------------------------------------------------------------

  datatype DocumentKind = QualificationDoc | ExperienceDoc | PublicationDoc

  /** The `documentType` value that selects each kind. */
  function KindName(k: DocumentKind): string
  {
    match k
    case QualificationDoc => "qualification"
    case ExperienceDoc => "experience"
    case PublicationDoc => "publication"
  }

  /** `documentType === '...'`: an absent or unknown type selects nothing. */
  function KindOf(documentType: Option<string>): (k: Option<DocumentKind>)
    ensures k.Some? <==> documentType.Some? && documentType.value in {"qualification", "experience", "publication"}
    ensures k.Some? ==> KindName(k.value) == documentType.value
  {
    if documentType == Some("qualification") then Some(QualificationDoc)
    else if documentType == Some("experience") then Some(ExperienceDoc)
    else if documentType == Some("publication") then Some(PublicationDoc)
    else None
  }

  /** `${index}`: the body field as given, or "undefined" when it is missing. */
  function IndexText(index: Option<string>): string
  {
    if index.Some? then index.value else "undefined"
  }

  function Section(k: DocumentKind): string
  {
    match k
    case QualificationDoc => "qualifications."
    case ExperienceDoc => "experience."
    case PublicationDoc => "publications."
  }

  function UrlField(k: DocumentKind): string
  {
    match k
    case QualificationDoc => ".document_url"
    case ExperienceDoc => ".experience_certificate_url"
    case PublicationDoc => ".document_url"
  }

  function FieldPath(k: DocumentKind, idx: string): string
  {
    Section(k) + idx + UrlField(k)
  }

  /**
   * The resolver: `documentType` × `index` to the dotted path of the field that
   * receives the URL, or None ("Invalid document type") for any other type.
   */
  function ResolveDocumentPath(documentType: Option<string>, index: Option<string>): (p: Option<string>)
    ensures p.None? <==> KindOf(documentType).None?
    ensures documentType == Some("qualification") ==> p == Some("qualifications." + IndexText(index) + ".document_url")
    ensures documentType == Some("experience") ==> p == Some("experience." + IndexText(index) + ".experience_certificate_url")
    ensures documentType == Some("publication") ==> p == Some("publications." + IndexText(index) + ".document_url")
  {
    match KindOf(documentType)
    case None => None
    case Some(k) => Some(FieldPath(k, IndexText(index)))
  }

  /** `p` starts with `pre` and ends with `suf`, without overlap. */
  predicate HasAffixes(p: string, pre: string, suf: string)
  {
    |pre| + |suf| <= |p| && p[..|pre|] == pre && p[|p| - |suf|..] == suf
  }

  function Middle(p: string, pre: string, suf: string): string
    requires HasAffixes(p, pre, suf)
  {
    p[|pre|..|p| - |suf|]
  }

  /** Reads a path of the resolver's shape back into its kind and index text. */
  function ParseDocumentPath(p: string): Option<(DocumentKind, string)>
  {
    if HasAffixes(p, Section(QualificationDoc), UrlField(QualificationDoc)) then
      Some((QualificationDoc, Middle(p, Section(QualificationDoc), UrlField(QualificationDoc))))
    else if HasAffixes(p, Section(ExperienceDoc), UrlField(ExperienceDoc)) then
      Some((ExperienceDoc, Middle(p, Section(ExperienceDoc), UrlField(ExperienceDoc))))
    else if HasAffixes(p, Section(PublicationDoc), UrlField(PublicationDoc)) then
      Some((PublicationDoc, Middle(p, Section(PublicationDoc), UrlField(PublicationDoc))))
    else None
  }

  /**
   * Every path the resolver builds names its kind and index text unambiguously,
   * whatever the index text is (dots included): the three sections start with
   * different letters and the field suffix is fixed per kind.
   */
  lemma ParseFieldPath(k: DocumentKind, idx: string)
    ensures ParseDocumentPath(FieldPath(k, idx)) == Some((k, idx))
  {
    var p := FieldPath(k, idx);
    var pre, suf := Section(k), UrlField(k);
    assert p[..|pre|] == pre;
    assert p[|p| - |suf|..] == suf;
    assert p[|pre|..|p| - |suf|] == idx;
    assert p[0] == pre[0];
    if k != QualificationDoc {
      assert p[..|Section(QualificationDoc)|] != Section(QualificationDoc) by {
        assert |p| >= |Section(QualificationDoc)| ==> p[..|Section(QualificationDoc)|][0] == p[0];
      }
    }
    if k == PublicationDoc {
      assert p[..|Section(ExperienceDoc)|] != Section(ExperienceDoc) by {
        assert |p| >= |Section(ExperienceDoc)| ==> p[..|Section(ExperienceDoc)|][0] == p[0];
      }
    }
  }

  /** Distinct (type, index) requests never write the same field. */
  lemma ResolverInjective(t1: Option<string>, i1: Option<string>, t2: Option<string>, i2: Option<string>)
    requires ResolveDocumentPath(t1, i1).Some? && ResolveDocumentPath(t1, i1) == ResolveDocumentPath(t2, i2)
    ensures t1 == t2 && IndexText(i1) == IndexText(i2)
  {
    ParseFieldPath(KindOf(t1).value, IndexText(i1));
    ParseFieldPath(KindOf(t2).value, IndexText(i2));
  }

  // ---------------------------------------------------------------------------
  // Array positions in a dotted path
  // ---------------------------------------------------------------------------

  predicate IsDigit(c: char)
  {
    '0' <= c <= '9'
  }

  predicate AllDigits(s: string)
  {
    forall j :: 0 <= j < |s| ==> IsDigit(s[j])
  }

  /** A decimal numeral without leading zeros: the form an array position takes in a path. */
  predicate CanonicalNumeral(s: string)
  {
    |s| > 0 && AllDigits(s) && (s[0] == '0' ==> |s| == 1)
  }

  function DigitValue(c: char): nat
    requires IsDigit(c)
  {
    c as nat - '0' as nat
  }

  function DigitsValue(s: string): nat
    requires AllDigits(s)
  {
    if s == [] then 0 else 10 * DigitsValue(s[..|s| - 1]) + DigitValue(s[|s| - 1])
  }

  function ParseArrayIndex(s: string): Option<nat>
  {
    if CanonicalNumeral(s) then Some(DigitsValue(s)) else None
  }

  function DigitChar(d: nat): char
    requires d < 10
  {
    ('0' as nat + d) as char
  }

  /** The decimal numeral of `n`, as `${n}` writes it. */
  function NatToString(n: nat): string
    decreases n
  {
    if n < 10 then [DigitChar(n)] else NatToString(n / 10) + [DigitChar(n % 10)]
  }

  lemma {:induction false} NatToStringCanonical(n: nat)
    ensures CanonicalNumeral(NatToString(n)) && DigitsValue(NatToString(n)) == n
    ensures n >= 10 ==> |NatToString(n)| >= 2
    decreases n
  {
    if n >= 10 {
      NatToStringCanonical(n / 10);
      var s := NatToString(n);
      assert s[..|s| - 1] == NatToString(n / 10);
      assert s[0] == NatToString(n / 10)[0];
    }
  }

  lemma {:induction false} LeadingNonZeroPositive(s: string)
    requires |s| > 0 && AllDigits(s) && s[0] != '0'
    ensures DigitsValue(s) >= 1
    decreases |s|
  {
    if |s| > 1 {
      LeadingNonZeroPositive(s[..|s| - 1]);
    }
  }

  /**
   * Printing and reading array positions are inverse: every position prints as
   * a canonical numeral that reads back as itself, and every canonical numeral
   * is the printed form of the position it reads as.
   */
  lemma {:induction false} ArrayIndexRoundTrip(n: nat, s: string)
    ensures ParseArrayIndex(NatToString(n)) == Some(n)
    ensures ParseArrayIndex(s).Some? ==> NatToString(ParseArrayIndex(s).value) == s
    decreases |s|
  {
    NatToStringCanonical(n);
    if CanonicalNumeral(s) && |s| > 1 {
      var s' := s[..|s| - 1];
      LeadingNonZeroPositive(s');
      ArrayIndexRoundTrip(n, s');
      assert ParseArrayIndex(s') == Some(DigitsValue(s'));
      var v := DigitsValue(s);
      assert v / 10 == DigitsValue(s') && v % 10 == DigitValue(s[|s| - 1]);
      assert DigitChar(DigitValue(s[|s| - 1])) == s[|s| - 1];
      assert s == s' + [s[|s| - 1]];
    } else if CanonicalNumeral(s) {
      assert s[..|s| - 1] == [];
      assert DigitsValue(s) == DigitValue(s[0]);
      assert DigitChar(DigitValue(s[0])) == s[0];
      assert s == [s[0]];
    }
  }

  // ---------------------------------------------------------------------------
  // The `$set` of the URL on the stored record
  // ---------------------------------------------------------------------------

  /**
   * The record after `$set: { [path]: url }` for a resolver-built path whose
   * index text is a canonical numeral naming an existing entry. Any other index
   * text leaves the record as it was in this model.
   */
  function ApplyLink(rec: AcademicRecord, path: string, url: string): (r: AcademicRecord)
    ensures r.researchInterest == rec.researchInterest
    ensures |r.qualifications| == |rec.qualifications|
    ensures |r.experience| == |rec.experience|
    ensures |r.publications| == |rec.publications|
    ensures ParseDocumentPath(path).None? ==> r == rec
    ensures ParseDocumentPath(path).Some? && ParseArrayIndex(ParseDocumentPath(path).value.1).None? ==> r == rec
  {
    match ParseDocumentPath(path)
    case None => rec
    case Some((k, idx)) =>
      match ParseArrayIndex(idx)
      case None => rec
      case Some(n) =>
        match k
        case QualificationDoc =>
          if n < |rec.qualifications| then
            rec.(qualifications := rec.qualifications[n := rec.qualifications[n].(documentUrl := Some(url))])
          else rec
        case ExperienceDoc =>
          if n < |rec.experience| then
            rec.(experience := rec.experience[n := rec.experience[n].(certificateUrl := Some(url))])
          else rec
        case PublicationDoc =>
          if n < |rec.publications| then
            rec.(publications := rec.publications[n := rec.publications[n].(documentUrl := Some(url))])
          else rec
  }

  /**
   * `r` is `rec` with only the URL of entry `n` of section `k` set to `url`:
   * same lengths, every other entry and every other section unchanged.
   */
  predicate LinkedAt(rec: AcademicRecord, r: AcademicRecord, k: DocumentKind, n: nat, url: string)
  {
    && r.researchInterest == rec.researchInterest
    && |r.qualifications| == |rec.qualifications|
    && |r.experience| == |rec.experience|
    && |r.publications| == |rec.publications|
    && (forall j :: 0 <= j < |rec.qualifications| && !(k == QualificationDoc && j == n) ==>
          r.qualifications[j] == rec.qualifications[j])
    && (forall j :: 0 <= j < |rec.experience| && !(k == ExperienceDoc && j == n) ==>
          r.experience[j] == rec.experience[j])
    && (forall j :: 0 <= j < |rec.publications| && !(k == PublicationDoc && j == n) ==>
          r.publications[j] == rec.publications[j])
    && (k == QualificationDoc ==>
          n < |r.qualifications| && r.qualifications[n] == rec.qualifications[n].(documentUrl := Some(url)))
    && (k == ExperienceDoc ==>
          n < |r.experience| && r.experience[n] == rec.experience[n].(certificateUrl := Some(url)))
    && (k == PublicationDoc ==>
          n < |r.publications| && r.publications[n] == rec.publications[n].(documentUrl := Some(url)))
  }

  function SectionLength(rec: AcademicRecord, k: DocumentKind): nat
  {
    match k
    case QualificationDoc => |rec.qualifications|
    case ExperienceDoc => |rec.experience|
    case PublicationDoc => |rec.publications|
  }

  /**
   * An upload of kind `k` with index `n` (sent as its decimal numeral) lands the
   * URL on entry `n` of that section and nowhere else.
   */
  lemma LinkLandsOnIndex(rec: AcademicRecord, k: DocumentKind, n: nat, url: string)
    requires n < SectionLength(rec, k)
    ensures ResolveDocumentPath(Some(KindName(k)), Some(NatToString(n))).Some?
    ensures LinkedAt(rec, ApplyLink(rec, ResolveDocumentPath(Some(KindName(k)), Some(NatToString(n))).value, url), k, n, url)
  {
    ParseFieldPath(k, NatToString(n));
    ArrayIndexRoundTrip(n, NatToString(n));
  }

  /** An experience certificate sent with index "1" is stored at `experience[1]` only. */
  lemma ExperienceIndexOneScenario(rec: AcademicRecord, url: string)
    requires |rec.experience| > 1
    ensures ResolveDocumentPath(Some("experience"), Some("1")) == Some("experience.1.experience_certificate_url")
    ensures LinkedAt(rec, ApplyLink(rec, "experience.1.experience_certificate_url", url), ExperienceDoc, 1, url)
  {
    assert NatToString(1) == "1";
    assert FieldPath(ExperienceDoc, "1") == "experience.1.experience_certificate_url";
    LinkLandsOnIndex(rec, ExperienceDoc, 1, url);
  }
}
