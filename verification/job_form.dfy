/** The create/edit form (`frontend/src/components/jobs/JobForm.tsx`): its
    initial state, the validation that requires a title and a company after
    trimming, the change handler that clears a field's error, and the submit
    handler. `onSubmit` is a callback the model does not see; its result is
    an `Outcome` parameter. */
module JobForm {
  import opened Api
  import opened Text

  const TitleRequired := "Job title is required"
  const CompanyRequired := "Company name is required"
  const SubmitFailed := "Failed to save job. Please try again."

  /** The `initialJob` prop: each member may be missing or null. */
  datatype InitialJob = InitialJob(
    title: Option<string>,
    company: Option<string>,
    location: Option<string>,
    description: Option<string>,
    url: Option<string>,
    salary: Option<string>)

  function InitialValue(init: InitialJob, f: FormField): Option<string> {
    match f
    case Title => init.title
    case Company => init.company
    case Location => init.location
    case Description => init.description
    case Url => init.url
    case Salary => init.salary
  }

  /** The error map: the key is the input's name (or "submit"). */
  type Errors = map<string, string>

  datatype FormState = FormState(job: JobFields, errors: Errors)

  /** `initialJob.x || ''` for each field, and no errors. */
  function Initial(init: InitialJob): (st: FormState)
    ensures forall f :: GetField(st.job, f) == (if InitialValue(init, f).Some? then InitialValue(init, f).value else "")
    ensures st.errors == map[]
  {
    var v := (o: Option<string>) => if o.Some? then o.value else "";
    FormState(JobFields(v(init.title), v(init.company), v(init.location), v(init.description), v(init.url), v(init.salary)), map[])
  }

  /** `validateForm`'s new error map. */
  function Validate(job: JobFields): (errors: Errors)
    ensures "title" in errors <==> Trim(job.title) == ""
    ensures "company" in errors <==> Trim(job.company) == ""
    ensures errors.Keys <= {"title", "company"}
    ensures "title" in errors ==> errors["title"] == TitleRequired
    ensures "company" in errors ==> errors["company"] == CompanyRequired
  {
    var withTitle: Errors := if Trim(job.title) == "" then map["title" := TitleRequired] else map[];
    if Trim(job.company) == "" then withTitle["company" := CompanyRequired] else withTitle
  }

  /** The form is valid exactly when title and company hold something other
      than white space. */
  lemma ValidIff(job: JobFields)
    ensures Validate(job) == map[] <==> !AllSpace(job.title) && !AllSpace(job.company)
  {
    TrimEmptyIffAllSpace(job.title);
    TrimEmptyIffAllSpace(job.company);
    if Trim(job.title) == "" {
      assert "title" in Validate(job);
    }
    if Trim(job.company) == "" {
      assert "company" in Validate(job);
    }
  }

  /** An error is shown when its key maps to a non-empty message. */
  predicate Shown(errors: Errors, key: string) {
    key in errors && errors[key] != ""
  }

  /** `handleChange`: the named field takes the value; its error, if shown,
      is blanked; nothing else changes. */
  function Change(st: FormState, f: FormField, value: string): (r: FormState)
    ensures GetField(r.job, f) == value
    ensures forall g :: g != f ==> GetField(r.job, g) == GetField(st.job, g)
    ensures !Shown(r.errors, FieldName(f))
    ensures forall k :: k != FieldName(f) ==> (k in r.errors <==> k in st.errors)
    ensures forall k :: k != FieldName(f) && k in r.errors ==> r.errors[k] == st.errors[k]
    ensures FieldName(f) in r.errors <==> FieldName(f) in st.errors
  {
    var name := FieldName(f);
    var job := SetField(st.job, f, value);
    if Shown(st.errors, name) then FormState(job, st.errors[name := ""]) else FormState(job, st.errors)
  }

  /** What a submit does: the state after it, and the job handed to
      `onSubmit`, if it was called. */
  datatype Submission = Submission(state: FormState, sent: Option<JobFields>)

  /** `handleSubmit`: an invalid form keeps the validation errors and calls
      nothing; a valid one is passed to `onSubmit` as it stands (untrimmed),
      and a failure there replaces the errors with the submit message. */
  function Submit(st: FormState, outcome: Outcome): (r: Submission)
    ensures r.sent.Some? <==> Trim(st.job.title) != "" && Trim(st.job.company) != ""
    ensures r.sent.Some? ==> r.sent.value == st.job
    ensures r.state.job == st.job
    ensures r.sent.None? ==> r.state.errors == Validate(st.job) && r.state.errors != map[]
    ensures r.sent.Some? && outcome == Failed ==> r.state.errors == map["submit" := SubmitFailed]
    ensures r.sent.Some? && outcome == Succeeded ==> r.state.errors == map[]
  {
    var errors := Validate(st.job);
    if errors != map[] then
      Submission(FormState(st.job, errors), None)
    else
      assert "title" !in errors && "company" !in errors;
      var after := if outcome == Failed then map["submit" := SubmitFailed] else errors;
      Submission(FormState(st.job, after), Some(st.job))
  }

  /** Editing a field after a failed validation hides that field's error and
      keeps the other one. */
  lemma ChangeAfterFailedSubmit(st: FormState, value: string)
    requires Trim(st.job.title) == "" && Trim(st.job.company) == ""
    ensures var r := Change(Submit(st, Succeeded).state, Title, value);
      !Shown(r.errors, "title") && Shown(r.errors, "company")
  {
    var s := Submit(st, Succeeded).state;
    assert s.errors == Validate(st.job);
    assert FieldName(Title) == "title";
  }
}
