/** The filter panel of the job list (`frontend/src/components/jobs/JobFilter.tsx`):
    submitting emits a query holding only the non-empty inputs; resetting
    clears the inputs and emits the empty query. */
module JobFilter {
  import opened Api
  import Backend

  datatype FilterState = FilterState(search: string, company: string, location: string)

  /** `handleSubmit`: `if (x) filters.x = x` for each input. */
  function Submit(st: FilterState): (q: JobQuery)
    ensures q.search.Some? <==> st.search != ""
    ensures q.company.Some? <==> st.company != ""
    ensures q.location.Some? <==> st.location != ""
    ensures q.search.Some? ==> q.search.value == st.search
    ensures q.company.Some? ==> q.company.value == st.company
    ensures q.location.Some? ==> q.location.value == st.location
  {
    JobQuery(NonEmpty(st.company), NonEmpty(st.location), NonEmpty(st.search))
  }

  datatype ResetResult = ResetResult(state: FilterState, emitted: JobQuery)

  /** `handleReset`: all inputs cleared, the empty query emitted. */
  function Reset(): (r: ResetResult)
    ensures r.state.search == "" && r.state.company == "" && r.state.location == ""
    ensures r.emitted.search.None? && r.emitted.company.None? && r.emitted.location.None?
  {
    ResetResult(FilterState("", "", ""), EmptyQuery)
  }

  /** Submitting the cleared panel emits what reset emitted. */
  lemma ResetThenSubmit()
    ensures Submit(Reset().state) == Reset().emitted
  {
  }

  /** The list endpoint applies a filter for exactly the inputs that were
      filled in, each with the text typed. */
  lemma FiltersReachEndpoint(st: FilterState)
    ensures Backend.Supplied(Submit(st).company) <==> st.company != ""
    ensures Backend.Supplied(Submit(st).location) <==> st.location != ""
    ensures Backend.Supplied(Submit(st).search) <==> st.search != ""
  {
  }
}
