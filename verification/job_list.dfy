/** The client-side delete of the job list (`frontend/src/components/jobs/JobList.tsx`):
    after the user confirms and the delete request succeeds, the job is
    dropped from the list shown. The confirmation dialog and the request
    are not modelled; their answers are parameters. */
module JobList {
  import opened Api
  import Seqs

  const DeleteFailed := "Failed to delete job. Please try again."

  datatype ListState = ListState(jobs: seq<Job>, error: Option<string>)

  /** The state after the handler, and whether the delete request was sent. */
  datatype Deletion = Deletion(state: ListState, requested: bool)

  /** `handleDeleteJob`: nothing happens unless confirmed; a failed request
      only sets the error; a successful one filters the job out. */
  function DeleteJob(st: ListState, id: int, confirmed: bool, outcome: Outcome): (r: Deletion)
    ensures r.requested <==> confirmed
    ensures !confirmed ==> r.state == st
    ensures confirmed && outcome == Failed ==> r.state == st.(error := Some(DeleteFailed))
    ensures confirmed && outcome == Succeeded ==>
      && r.state.error == st.error
      && (forall k :: 0 <= k < |r.state.jobs| ==> r.state.jobs[k].id != id)
      && (forall x: Job :: x.id != id ==> multiset(r.state.jobs)[x] == multiset(st.jobs)[x])
      && Seqs.IsSubsequence(r.state.jobs, st.jobs)
  {
    if !confirmed then Deletion(st, false)
    else if outcome == Failed then Deletion(st.(error := Some(DeleteFailed)), true)
    else
      var keep := (j: Job) => j.id != id;
      Seqs.FilterPasses(st.jobs, keep);
      Seqs.FilterMultiset(st.jobs, keep);
      Seqs.FilterSubsequence(st.jobs, keep);
      Deletion(st.(jobs := Seqs.Filter(st.jobs, keep)), true)
  }

  /** Deleting an id the list does not show leaves the list as it was. */
  lemma DeleteAbsent(st: ListState, id: int, confirmed: bool, outcome: Outcome)
    requires forall k :: 0 <= k < |st.jobs| ==> st.jobs[k].id != id
    ensures DeleteJob(st, id, confirmed, outcome).state.jobs == st.jobs
  {
    Seqs.FilterAllPass(st.jobs, (j: Job) => j.id != id);
  }

  /** A second successful delete of the same id changes nothing more. */
  lemma DeleteTwice(st: ListState, id: int)
    ensures var once := DeleteJob(st, id, true, Succeeded).state;
      DeleteJob(once, id, true, Succeeded).state == once
  {
    var once := DeleteJob(st, id, true, Succeeded).state;
    DeleteAbsent(once, id, true, Succeeded);
  }
}
