/** The bodies of `POST /api/tasks` and `PUT /api/tasks/{id}`: their Bean Validation
    constraints and their conversion to a task. Both records carry the same constraints. */
module TaskApiRequests {
  import opened Wrappers
  import opened Strings
  import opened TaskModel

  /** `@Size(max = 256)` on the summary. */
  const MaxSummaryLength := 256

  /** One failed constraint. */
  datatype Violation =
    | SummaryBlank     // @NotBlank on summary
    | SummaryTooLong   // @Size(max = 256) on summary
    | StatusBlank      // @NotBlank on status
    | StatusPattern    // @Pattern(regexp = "TODO|DOING|DONE") on status

  /** The field a violation is reported on. */
  function Field(v: Violation): string {
    match v
    case SummaryBlank | SummaryTooLong => "summary"
    case StatusBlank | StatusPattern => "status"
  }

  /** The constraint's code as the error body reports it. */
  function Code(v: Violation): string {
    match v
    case SummaryBlank | StatusBlank => "NotBlank"
    case SummaryTooLong => "Size"
    case StatusPattern => "Pattern"
  }

  /** The default message each constraint is declared with. */
  function Message(v: Violation): string {
    match v
    case SummaryBlank => "概要は必須です"
    case SummaryTooLong => "概要は256文字以内で入力してください"
    case StatusBlank => "ステータスは必須です"
    case StatusPattern => "ステータスはTODO, DOING, DONEのいずれかで指定してください"
  }

  /** `@NotBlank`: not null, and something is left after `trim`. */
  predicate NotBlankHolds(v: Option<string>) {
    v.Some? && !IsBlank(v.value)
  }

  /** `@Size(max)`: null is accepted; the bound applies to `String.length`, in UTF-16 code units. */
  predicate SizeHolds(v: Option<string>) {
    v.None? || Utf16Length(v.value) <= MaxSummaryLength
  }

  /** `@Pattern`: null is accepted; otherwise the WHOLE value must match the expression. */
  predicate PatternHolds(v: Option<string>) {
    v.None? || IsStatusName(v.value)
  }

  /** `s` holds a character `trim` would keep. */
  predicate HasVisibleChar(s: string) {
    exists i :: 0 <= i < |s| && !IsTrimmed(s[i])
  }

  /** `@NotBlank` accepts exactly the present values holding a visible character. */
  lemma NotBlankIffVisible(v: Option<string>)
    ensures NotBlankHolds(v) <==> v.Some? && HasVisibleChar(v.value)
  {
    if v.Some? {
      BlankIffAllTrimmed(v.value);
    }
  }

  lemma StatusNamesAreVisible(v: Option<string>)
    ensures v.Some? && IsStatusName(v.value) ==> HasVisibleChar(v.value)
  {
    if v.Some? && IsStatusName(v.value) {
      assert !IsTrimmed(v.value[0]);
    }
  }

  /** The report of one constraint: `v` when it does not hold, nothing when it does. */
  function FailsUnless(holds: bool, v: Violation): (r: set<Violation>)
    ensures forall w :: w in r <==> !holds && w == v
  {
    if holds then {} else {v}
  }

  /** A set of violations is empty exactly when none of the four is in it. */
  lemma EmptyIffNoneIn(r: set<Violation>)
    ensures r == {} <==> SummaryBlank !in r && SummaryTooLong !in r && StatusBlank !in r && StatusPattern !in r
  {
    if r != {} {
      var v :| v in r;
      assert v == SummaryBlank || v == SummaryTooLong || v == StatusBlank || v == StatusPattern;
    }
  }

  /** The constraints both request records declare, evaluated independently of each other
      (the validator reports every failure, not just the first). The description is not
      an argument: it carries no constraint. A request is accepted exactly when the summary
      is present, holds a visible character and has at most 256 UTF-16 code units, and the status
      is one of the three names. */
  function Violations(summary: Option<string>, status: Option<string>): (r: set<Violation>)
    ensures SummaryBlank in r <==> summary.None? || !HasVisibleChar(summary.value)
    ensures SummaryTooLong in r <==> summary.Some? && Utf16Length(summary.value) > MaxSummaryLength
    ensures StatusBlank in r <==> status.None? || !HasVisibleChar(status.value)
    ensures StatusPattern in r <==> status.Some? && !IsStatusName(status.value)
    ensures r == {} <==>
      && summary.Some? && HasVisibleChar(summary.value) && Utf16Length(summary.value) <= MaxSummaryLength
      && status.Some? && IsStatusName(status.value)
  {
    NotBlankIffVisible(summary);
    NotBlankIffVisible(status);
    StatusNamesAreVisible(status);
    var r :=
      FailsUnless(NotBlankHolds(summary), SummaryBlank)
      + FailsUnless(SizeHolds(summary), SummaryTooLong)
      + FailsUnless(NotBlankHolds(status), StatusBlank)
      + FailsUnless(PatternHolds(status), StatusPattern);
    EmptyIffNoneIn(r);
    r
  }

  /** A summary of 200 emoji is 400 UTF-16 code units long, so `@Size` rejects it although
      it holds only 200 characters. */
  lemma SupplementarySummaryTooLong()
    ensures Violations(Some(seq(200, _ => '\U{1F600}')), Some("TODO")) == {SummaryTooLong}
  {
    var s: string := seq(200, _ => '\U{1F600}');
    Utf16LengthAllSupplementary(s);
    assert !IsTrimmed(s[0]);
  }

  /** `TaskApiCreateRequest`. */
  datatype CreateRequest = CreateRequest(summary: Option<string>, description: Option<string>, status: Option<string>)

  /** `TaskApiUpdateRequest`. */
  datatype UpdateRequest = UpdateRequest(summary: Option<string>, description: Option<string>, status: Option<string>)

  function ValidateCreate(req: CreateRequest): (r: set<Violation>)
    ensures r == {} <==>
      && req.summary.Some? && HasVisibleChar(req.summary.value) && Utf16Length(req.summary.value) <= MaxSummaryLength
      && req.status.Some? && IsStatusName(req.status.value)
  {
    Violations(req.summary, req.status)
  }

  function ValidateUpdate(req: UpdateRequest): (r: set<Violation>)
    ensures r == {} <==>
      && req.summary.Some? && HasVisibleChar(req.summary.value) && Utf16Length(req.summary.value) <= MaxSummaryLength
      && req.status.Some? && IsStatusName(req.status.value)
  {
    Violations(req.summary, req.status)
  }

  /** Create and update requests with the same summary and status fail the same
      constraints, whatever their descriptions. */
  lemma SameRules(summary: Option<string>, d1: Option<string>, d2: Option<string>, status: Option<string>)
    ensures ValidateCreate(CreateRequest(summary, d1, status)) == ValidateUpdate(UpdateRequest(summary, d2, status))
  {
  }

  /** A blank summary and an over-long summary are two distinct failures, both on `summary`. */
  lemma SummaryFailures(status: Option<string>, long: string)
    requires Utf16Length(long) > MaxSummaryLength && HasVisibleChar(long)
    ensures var r := Violations(Some(""), status); SummaryBlank in r && SummaryTooLong !in r
    ensures var r := Violations(Some(long), status); SummaryTooLong in r && SummaryBlank !in r
    ensures Field(SummaryBlank) == Field(SummaryTooLong) == "summary"
    ensures Code(SummaryBlank) != Code(SummaryTooLong) && Message(SummaryBlank) != Message(SummaryTooLong)
  {
  }

  /** An empty summary on create fails only `@NotBlank`, reported on `summary`. */
  lemma CreateWithEmptySummary()
    ensures ValidateCreate(CreateRequest(Some(""), Some("詳細"), Some("TODO"))) == {SummaryBlank}
    ensures Field(SummaryBlank) == "summary"
  {
    BlankIffAllTrimmed("TODO");
    assert !IsTrimmed("TODO"[0]);
  }

  /** A status outside the three names on update fails only `@Pattern`, reported on `status`. */
  lemma UpdateWithInvalidStatus()
    ensures ValidateUpdate(UpdateRequest(Some("A"), Some("説明"), Some("INVALID"))) == {StatusPattern}
    ensures Field(StatusPattern) == "status"
  {
    assert !IsTrimmed("A"[0]);
    assert !IsTrimmed("INVALID"[0]);
  }

  /** `TaskApiCreateRequest.toEntity`: no id (the table assigns one); summary and description
      copied; the status converted by `valueOf`, which throws unless it is a status name. */
  function CreateToEntity(req: CreateRequest): (r: Result<Task>)
    ensures req.status.None? ==> r == Thrown(NullPointerException)
    ensures req.status.Some? && !IsStatusName(req.status.value) ==> r == Thrown(IllegalArgumentException(req.status.value))
    ensures r.Ok? <==> req.status.Some? && IsStatusName(req.status.value)
    ensures ValidateCreate(req) == {} ==> r.Ok?
    ensures r.Ok? ==> && r.value.id.None?
                      && r.value.summary == req.summary
                      && r.value.description == req.description
                      && Some(Name(r.value.status)) == req.status
  {
    match ValueOf(req.status)
    case Thrown(e) => Thrown(e)
    case Ok(st) => Ok(Task(None, req.summary, req.description, st))
  }

  /** `TaskApiUpdateRequest.toEntity(id)`: as for create, but carrying the path's id. */
  function UpdateToEntity(req: UpdateRequest, id: int): (r: Result<Task>)
    ensures req.status.None? ==> r == Thrown(NullPointerException)
    ensures req.status.Some? && !IsStatusName(req.status.value) ==> r == Thrown(IllegalArgumentException(req.status.value))
    ensures r.Ok? <==> req.status.Some? && IsStatusName(req.status.value)
    ensures ValidateUpdate(req) == {} ==> r.Ok?
    ensures r.Ok? ==> && r.value.id == Some(id)
                      && r.value.summary == req.summary
                      && r.value.description == req.description
                      && Some(Name(r.value.status)) == req.status
  {
    match ValueOf(req.status)
    case Thrown(e) => Thrown(e)
    case Ok(st) => Ok(Task(Some(id), req.summary, req.description, st))
  }
}
