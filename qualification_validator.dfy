/**
 * The nested-qualification check that `createAcademic` runs before saving a
 * new record and `updateAcademic` runs after writing a merged one: it walks
 * the qualifications in order, checks the undergraduate and postgraduate
 * examination results, rewrites `examination_results.pg.branch`, and stops
 * at the first failure.
 */
module QualificationValidator {
  import opened Wrappers
  import opened Records

  datatype ValidationError =
    | MissingUgFields   // "Please fill all required fields for UG examination results"
    | InvalidPgBranch   // "Please provide a valid branch (CSE, ECE, EIE, EEE, or ME) ..."
    | MissingPgFields   // "Please fill all required fields for PG examination results"
    | TypeFault         // a member read through an undefined `aggregate` or `research_interest`

  /** The undergraduate block applies: standard "UG" with a `ug` object. */
  predicate UgApplies(q: Qualification)
  {
    q.standard == Str("UG") && q.examResults.Some? && q.examResults.value.ug.Some?
  }

  /** The postgraduate block applies: standard "PG" with a `pg` object. */
  predicate PgApplies(q: Qualification)
  {
    q.standard == Str("PG") && q.examResults.Some? && q.examResults.value.pg.Some?
  }

  predicate AggregateComplete(a: Aggregate)
  {
    Truthy(a.cgpa) && Truthy(a.classification) && Truthy(a.percentage)
  }

  /**
   * `!r.branch || !r.aggregate.cgpa || !r.aggregate.class || !r.aggregate.percentage`,
   * evaluated left to right: a falsy branch short-circuits before `aggregate` is
   * read, and reading a member of an absent `aggregate` throws.
   */
  function CheckFields(r: ExamResult, missing: ValidationError): Result<ExamResult, ValidationError>
  {
    if !Truthy(r.branch) then Err(missing)
    else if r.aggregate.None? then Err(TypeFault)
    else if !AggregateComplete(r.aggregate.value) then Err(missing)
    else Ok(r)
  }

  /**
   * The branch written into `pg.branch`: the qualification's own branch when it
   * is a valid code, otherwise `research_interest.branch` when that is one.
   */
  function ResolvePgBranch(q: Qualification, ri: Option<ResearchInterest>): Result<JsValue, ValidationError>
  {
    if IsValidBranch(q.branch) then Ok(q.branch)
    else if ri.None? then Err(TypeFault)
    else if IsValidBranch(ri.value.branch) then Ok(ri.value.branch)
    else Err(InvalidPgBranch)
  }

  /** The qualification with `examination_results.pg.branch` replaced by `b`. */
  function WithPgBranch(q: Qualification, b: JsValue): Qualification
    requires PgApplies(q)
  {
    var er := q.examResults.value;
    q.(examResults := Some(er.(pg := Some(er.pg.value.(branch := b)))))
  }

  /** One iteration of the loop: the entry as the loop leaves it, or the error it returns. */
  function CheckQualification(q: Qualification, ri: Option<ResearchInterest>): (r: Result<Qualification, ValidationError>)
    ensures !UgApplies(q) && !PgApplies(q) ==> r == Ok(q)
    ensures r.Ok? ==> SameExceptPgBranch(q, r.value) && WellFormed(r.value)
  {
    if UgApplies(q) && CheckFields(q.examResults.value.ug.value, MissingUgFields).Err? then
      Err(CheckFields(q.examResults.value.ug.value, MissingUgFields).error)
    else if !PgApplies(q) then
      Ok(q)
    else
      match ResolvePgBranch(q, ri)
      case Err(e) => Err(e)
      case Ok(b) =>
        var q' := WithPgBranch(q, b);
        match CheckFields(q'.examResults.value.pg.value, MissingPgFields)
        case Err(e) => Err(e)
        case Ok(_) => Ok(q')
  }

  /** The whole loop: fail at the first failing entry, otherwise every entry as rewritten. */
  function Validate(qs: seq<Qualification>, ri: Option<ResearchInterest>): Result<seq<Qualification>, ValidationError>
    decreases |qs|
  {
    if qs == [] then Ok([])
    else
      match CheckQualification(qs[0], ri)
      case Err(e) => Err(e)
      case Ok(q) =>
        match Validate(qs[1..], ri)
        case Err(e) => Err(e)
        case Ok(rest) => Ok([q] + rest)
  }

  /** `done` followed by the outcome of the rest of the list. */
  function Prepend(done: seq<Qualification>, rest: Result<seq<Qualification>, ValidationError>): Result<seq<Qualification>, ValidationError>
  {
    match rest
    case Err(e) => Err(e)
    case Ok(r) => Ok(done + r)
  }

  /**
   * The loop itself (AcademicController.js:65-106 and its copy at :186-227):
   * a `for` over the qualifications that rewrites `pg.branch` entry by entry
   * and returns at the first failure.
   */
  method ValidateQualifications(qs: seq<Qualification>, ri: Option<ResearchInterest>)
    returns (result: Result<seq<Qualification>, ValidationError>)
    ensures result == Validate(qs, ri)
  {
    var done: seq<Qualification> := [];
    var i := 0;
    assert qs[i..] == qs;
    assert Prepend(done, Validate(qs, ri)) == Validate(qs, ri) by {
      if Validate(qs, ri).Ok? { assert done + Validate(qs, ri).value == Validate(qs, ri).value; }
    }
    while i < |qs|
      invariant 0 <= i <= |qs|
      invariant Validate(qs, ri) == Prepend(done, Validate(qs[i..], ri))
    {
      assert qs[i..][0] == qs[i] && qs[i..][1..] == qs[i + 1..];
      var step := CheckQualification(qs[i], ri);
      if step.Err? {
        return Err(step.error);
      }
      assert Validate(qs, ri) == Prepend(done + [step.value], Validate(qs[i + 1..], ri)) by {
        if Validate(qs[i + 1..], ri).Ok? {
          var rest := Validate(qs[i + 1..], ri).value;
          assert done + ([step.value] + rest) == (done + [step.value]) + rest;
        }
      }
      done := done + [step.value];
      i := i + 1;
    }
    assert qs[i..] == [];
    assert done + [] == done;
    result := Ok(done);
  }

  // ---------------------------------------------------------------------------
  // One entry
  // ---------------------------------------------------------------------------

  /**
   * A UG entry with a `ug` object is rejected exactly when its branch or one of
   * the three aggregate members is falsy (so a cgpa of 0 is rejected); with a
   * truthy branch and no `aggregate` at all the read throws instead.
   */
  lemma UgVerdict(q: Qualification, ri: Option<ResearchInterest>)
    requires UgApplies(q)
    ensures var ug := q.examResults.value.ug.value;
      CheckQualification(q, ri) == Err(MissingUgFields) <==>
        !Truthy(ug.branch) || (ug.aggregate.Some? && !AggregateComplete(ug.aggregate.value))
    ensures var ug := q.examResults.value.ug.value;
      CheckQualification(q, ri) == Err(TypeFault) <==> Truthy(ug.branch) && ug.aggregate.None?
    ensures var ug := q.examResults.value.ug.value;
      CheckQualification(q, ri).Ok? <==> Truthy(ug.branch) && ug.aggregate.Some? && AggregateComplete(ug.aggregate.value)
    ensures CheckQualification(q, ri).Ok? ==> CheckQualification(q, ri).value == q
  {
    assert !PgApplies(q);
  }

  /**
   * PG branch resolution, in priority order: the qualification's own valid
   * branch; else a valid `research_interest.branch`; else the invalid-branch
   * rejection (or a throw when `research_interest` is absent).
   */
  lemma PgBranchPriority(q: Qualification, ri: Option<ResearchInterest>)
    requires PgApplies(q)
    ensures IsValidBranch(q.branch) && CheckQualification(q, ri).Ok? ==>
      CheckQualification(q, ri).value.examResults.value.pg.value.branch == q.branch
    ensures !IsValidBranch(q.branch) && ri.Some? && IsValidBranch(ri.value.branch) && CheckQualification(q, ri).Ok? ==>
      CheckQualification(q, ri).value.examResults.value.pg.value.branch == ri.value.branch
    ensures !IsValidBranch(q.branch) && ri.Some? && !IsValidBranch(ri.value.branch) ==>
      CheckQualification(q, ri) == Err(InvalidPgBranch)
    ensures !IsValidBranch(q.branch) && ri.None? ==> CheckQualification(q, ri) == Err(TypeFault)
    ensures CheckQualification(q, ri) == Err(InvalidPgBranch) <==>
      !IsValidBranch(q.branch) && ri.Some? && !IsValidBranch(ri.value.branch)
    ensures var pg := q.examResults.value.pg.value;
      CheckQualification(q, ri).Ok? <==>
        (IsValidBranch(q.branch) || (ri.Some? && IsValidBranch(ri.value.branch))) &&
        pg.aggregate.Some? && AggregateComplete(pg.aggregate.value)
  {
    assert !UgApplies(q);
  }

  /**
   * Once a branch is resolved it is a valid code and hence truthy, so the PG
   * "missing fields" rejection can only come from a falsy aggregate member.
   */
  lemma PgMissingFieldsCause(q: Qualification, ri: Option<ResearchInterest>)
    requires PgApplies(q)
    ensures CheckQualification(q, ri) == Err(MissingPgFields) <==>
      ResolvePgBranch(q, ri).Ok? &&
      q.examResults.value.pg.value.aggregate.Some? &&
      !AggregateComplete(q.examResults.value.pg.value.aggregate.value)
    ensures CheckQualification(q, ri).Ok? ==>
      IsValidBranch(CheckQualification(q, ri).value.examResults.value.pg.value.branch)
    ensures CheckQualification(q, ri) == Err(TypeFault) <==>
      ResolvePgBranch(q, ri) == Err(TypeFault) ||
      (ResolvePgBranch(q, ri).Ok? && q.examResults.value.pg.value.aggregate.None?)
  {
    assert !UgApplies(q);
    match ResolvePgBranch(q, ri)
    case Err(_) =>
    case Ok(b) =>
      assert IsValidBranch(b);
      assert Truthy(WithPgBranch(q, b).examResults.value.pg.value.branch);
  }

  /** `q'` differs from `q` at most in `examination_results.pg.branch`. */
  predicate SameExceptPgBranch(q: Qualification, q': Qualification)
  {
    && q'.standard == q.standard
    && q'.branch == q.branch
    && q'.documentUrl == q.documentUrl
    && q'.examResults.Some? == q.examResults.Some?
    && (q.examResults.Some? ==>
          && q'.examResults.value.ug == q.examResults.value.ug
          && q'.examResults.value.pg.Some? == q.examResults.value.pg.Some?
          && (q.examResults.value.pg.Some? ==>
                q'.examResults.value.pg.value.aggregate == q.examResults.value.pg.value.aggregate))
  }

  /**
   * The loop body changes nothing but `pg.branch`, and only of a PG entry with a
   * `pg` object; every other entry (no results, UG without `ug`, PG without
   * `pg`, any other standard) passes through unchanged.
   */
  lemma CheckChangesOnlyPgBranch(q: Qualification, ri: Option<ResearchInterest>)
    ensures CheckQualification(q, ri).Ok? ==> SameExceptPgBranch(q, CheckQualification(q, ri).value)
    ensures CheckQualification(q, ri).Ok? && !PgApplies(q) ==> CheckQualification(q, ri).value == q
    ensures !UgApplies(q) && !PgApplies(q) ==> CheckQualification(q, ri) == Ok(q)
  {
  }

  // ---------------------------------------------------------------------------
  // The whole list
  // ---------------------------------------------------------------------------

  /**
   * Fail-fast and in order: the list passes iff every entry passes, a passing
   * list comes back entry by entry as the loop body leaves it, and a failing
   * list fails with the error of its first failing entry.
   */
  lemma {:induction false} ValidateCharacterised(qs: seq<Qualification>, ri: Option<ResearchInterest>)
    ensures Validate(qs, ri).Ok? <==> forall k :: 0 <= k < |qs| ==> CheckQualification(qs[k], ri).Ok?
    ensures Validate(qs, ri).Ok? ==>
      |Validate(qs, ri).value| == |qs| &&
      forall k :: 0 <= k < |qs| ==> Validate(qs, ri).value[k] == CheckQualification(qs[k], ri).value
    ensures Validate(qs, ri).Err? ==>
      exists k :: 0 <= k < |qs| &&
        (forall j :: 0 <= j < k ==> CheckQualification(qs[j], ri).Ok?) &&
        CheckQualification(qs[k], ri) == Err(Validate(qs, ri).error)
    decreases |qs|
  {
    if qs != [] {
      ValidateCharacterised(qs[1..], ri);
      var head := CheckQualification(qs[0], ri);
      if head.Ok? {
        forall k | 1 <= k < |qs| ensures qs[k] == qs[1..][k - 1] { }
        if Validate(qs[1..], ri).Err? {
          var k' :| 0 <= k' < |qs[1..]| &&
            (forall j :: 0 <= j < k' ==> CheckQualification(qs[1..][j], ri).Ok?) &&
            CheckQualification(qs[1..][k'], ri) == Err(Validate(qs[1..], ri).error);
          assert forall j :: 0 <= j < k' + 1 ==> CheckQualification(qs[j], ri).Ok? by {
            forall j | 0 <= j < k' + 1 ensures CheckQualification(qs[j], ri).Ok? {
              if j > 0 { assert qs[j] == qs[1..][j - 1]; }
            }
          }
          assert CheckQualification(qs[k' + 1], ri) == Err(Validate(qs, ri).error);
        } else {
          forall k | 0 <= k < |qs| ensures CheckQualification(qs[k], ri).Ok? {
            if k > 0 { assert qs[k] == qs[1..][k - 1]; }
          }
        }
      } else {
        assert CheckQualification(qs[0], ri) == Err(Validate(qs, ri).error);
      }
    }
  }

  /**
   * The invariant a validated entry satisfies: complete UG results, and PG
   * results whose branch is a valid code and whose aggregate is complete.
   */
  predicate WellFormed(q: Qualification)
  {
    && (UgApplies(q) ==> CheckFields(q.examResults.value.ug.value, MissingUgFields).Ok?)
    && (PgApplies(q) ==>
          && IsValidBranch(q.examResults.value.pg.value.branch)
          && q.examResults.value.pg.value.aggregate.Some?
          && AggregateComplete(q.examResults.value.pg.value.aggregate.value))
  }

  /** Every entry of a list that passes validation is well-formed afterwards. */
  lemma {:induction false} ValidatedAreWellFormed(qs: seq<Qualification>, ri: Option<ResearchInterest>)
    requires Validate(qs, ri).Ok?
    ensures forall k :: 0 <= k < |Validate(qs, ri).value| ==> WellFormed(Validate(qs, ri).value[k])
    decreases |qs|
  {
    if qs != [] {
      var q := qs[0];
      assert WellFormed(CheckQualification(q, ri).value) by {
        if UgApplies(q) { UgVerdict(q, ri); }
        if PgApplies(q) { PgMissingFieldsCause(q, ri); }
      }
      ValidatedAreWellFormed(qs[1..], ri);
    }
  }

  /** Validating a validated entry again passes and changes nothing. */
  lemma CheckIdempotent(q: Qualification, ri: Option<ResearchInterest>)
    requires CheckQualification(q, ri).Ok?
    ensures CheckQualification(CheckQualification(q, ri).value, ri) == CheckQualification(q, ri)
  {
    var q' := CheckQualification(q, ri).value;
    if PgApplies(q) {
      var b := ResolvePgBranch(q, ri).value;
      assert ResolvePgBranch(q', ri) == Ok(b);
      assert WithPgBranch(q', b) == q';
    }
  }

  /** Validating a validated list again passes and changes nothing. */
  lemma {:induction false} ValidateIdempotent(qs: seq<Qualification>, ri: Option<ResearchInterest>)
    requires Validate(qs, ri).Ok?
    ensures Validate(Validate(qs, ri).value, ri) == Validate(qs, ri)
    decreases |qs|
  {
    if qs != [] {
      var out := Validate(qs, ri).value;
      CheckIdempotent(qs[0], ri);
      ValidateIdempotent(qs[1..], ri);
      assert out[0] == CheckQualification(qs[0], ri).value;
      assert out[1..] == Validate(qs[1..], ri).value;
    }
  }

  // ---------------------------------------------------------------------------
  // Two concrete requests
  // ---------------------------------------------------------------------------

  /** A complete UG entry passes and is kept exactly as sent. */
  lemma UgScenario()
    ensures var q := Qualification(Str("UG"), Undefined,
        Some(ExamResults(Some(ExamResult(Str("CSE"), Some(Aggregate(Num(8.5), Str("First"), Num(85.0))))), None)), None);
      Validate([q], None) == Ok([q])
  {
    var q := Qualification(Str("UG"), Undefined,
        Some(ExamResults(Some(ExamResult(Str("CSE"), Some(Aggregate(Num(8.5), Str("First"), Num(85.0))))), None)), None);
    assert Truthy(Str("CSE")) && Truthy(Str("First"));
    assert CheckFields(q.examResults.value.ug.value, MissingUgFields).Ok?;
    assert CheckQualification(q, None) == Ok(q);
    assert [q][1..] == [] && Validate([], None) == Ok([]);
    assert [q] + [] == [q];
  }

  /**
   * A PG entry whose own branch "XX" is not a valid code takes the research
   * interest's "CSE" as its `pg.branch`, and the list then passes.
   */
  lemma PgFallbackScenario()
    ensures var agg := Some(Aggregate(Num(8.0), Str("First"), Num(80.0)));
      var q := Qualification(Str("PG"), Str("XX"), Some(ExamResults(None, Some(ExamResult(Undefined, agg)))), None);
      var q' := Qualification(Str("PG"), Str("XX"), Some(ExamResults(None, Some(ExamResult(Str("CSE"), agg)))), None);
      Validate([q], Some(ResearchInterest(Str("CSE")))) == Ok([q'])
  {
    var agg := Some(Aggregate(Num(8.0), Str("First"), Num(80.0)));
    var q := Qualification(Str("PG"), Str("XX"), Some(ExamResults(None, Some(ExamResult(Undefined, agg)))), None);
    var ri := Some(ResearchInterest(Str("CSE")));
    assert !IsValidBranch(Str("XX")) && IsValidBranch(Str("CSE"));
    assert ResolvePgBranch(q, ri) == Ok(Str("CSE"));
    var q' := WithPgBranch(q, Str("CSE"));
    assert Truthy(Str("CSE")) && Truthy(Str("First"));
    assert CheckFields(q'.examResults.value.pg.value, MissingPgFields).Ok?;
    assert CheckQualification(q, ri) == Ok(q');
    assert [q][1..] == [] && Validate([], ri) == Ok([]);
    assert [q'] + [] == [q'];
  }

  /**
   * Validation is not stable under a change of research interest: an entry
   * stored with the fallback branch "CSE" is refused once a later update sets
   * `research_interest.branch` to an invalid code, because the check looks at
   * the entry's own branch and the research interest, never at `pg.branch`.
   */
  lemma ResearchInterestChangeRejects()
    ensures var agg := Some(Aggregate(Num(8.0), Str("First"), Num(80.0)));
      var q := Qualification(Str("PG"), Str("XX"), Some(ExamResults(None, Some(ExamResult(Undefined, agg)))), None);
      var stored := Validate([q], Some(ResearchInterest(Str("CSE"))));
      stored.Ok? && Validate(stored.value, Some(ResearchInterest(Str("XX")))) == Err(InvalidPgBranch)
  {
    var agg := Some(Aggregate(Num(8.0), Str("First"), Num(80.0)));
    var q' := Qualification(Str("PG"), Str("XX"), Some(ExamResults(None, Some(ExamResult(Str("CSE"), agg)))), None);
    var xx := Some(ResearchInterest(Str("XX")));
    PgFallbackScenario();
    assert !IsValidBranch(Str("XX"));
    assert ResolvePgBranch(q', xx) == Err(InvalidPgBranch);
    assert CheckQualification(q', xx) == Err(InvalidPgBranch);
    assert [q'][0] == q';
  }
}
