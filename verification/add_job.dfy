/** The add-job page (`frontend/src/components/jobs/AddJob.tsx`): an empty
    form, a change handler, and a submit handler whose required-field check
    does not trim. The create request is not modelled; its result is an
    `Outcome` parameter. */
module AddJob {
  import opened Api
  import opened Text
  import JobForm

  const RequiredFields := "Title and company are required fields."
  const CreateFailed := "Failed to create job listing. Please try again."

  datatype AddState = AddState(form: JobFields, error: Option<string>)

  /** `initialFormData`: every field empty, no error. */
  function Initial(): (st: AddState)
    ensures forall f :: GetField(st.form, f) == ""
    ensures st.error.None?
  {
    AddState(EmptyFields, None)
  }

  /** `handleChange`: exactly the named field takes the value. */
  function Change(st: AddState, f: FormField, value: string): (r: AddState)
    ensures GetField(r.form, f) == value
    ensures forall g :: g != f ==> GetField(r.form, g) == GetField(st.form, g)
    ensures r.error == st.error
  {
    AddState(SetField(st.form, f, value), st.error)
  }

  /** The state after a submit, the data sent to the create endpoint if
      any, and whether the page moved on to the job list. */
  datatype AddResult = AddResult(state: AddState, sent: Option<JobFields>, navigated: bool)

  /** `handleSubmit`: an empty title or company stops with a message and no
      request; otherwise the form is sent as it stands, and the page moves to
      the list on success or shows a message on failure. */
  function Submit(st: AddState, outcome: Outcome): (r: AddResult)
    ensures r.sent.None? <==> st.form.title == "" || st.form.company == ""
    ensures r.sent.None? ==> r.state.error == Some(RequiredFields) && !r.navigated
    ensures r.sent.Some? ==> r.sent.value == st.form
    ensures r.sent.Some? ==> (r.navigated <==> outcome == Succeeded)
    ensures r.sent.Some? && outcome == Failed ==> r.state.error == Some(CreateFailed)
    ensures r.sent.Some? && outcome == Succeeded ==> r.state.error.None?
    ensures r.state.form == st.form
  {
    if st.form.title == "" || st.form.company == "" then
      AddResult(st.(error := Some(RequiredFields)), None, false)
    else if outcome.Failed? then
      AddResult(st.(error := Some(CreateFailed)), Some(st.form), false)
    else
      AddResult(st.(error := None), Some(st.form), true)
  }

  /** Unlike the edit form, this page accepts a title made of spaces only:
      the same fields are sent here and refused there. */
  lemma BlankTitleContrast(fields: JobFields, outcome: Outcome)
    requires fields.title != "" && AllSpace(fields.title) && Trim(fields.company) != ""
    ensures Submit(AddState(fields, None), outcome).sent == Some(fields)
    ensures JobForm.Submit(JobForm.FormState(fields, map[]), outcome).sent.None?
  {
    TrimEmptyIffAllSpace(fields.title);
    assert fields.company != "";
  }
}
