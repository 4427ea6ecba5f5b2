/** The `SyncBranch` script: merges a branch (by default the deploy branch)
    into the current one and reports a conflicting merge instead of
    raising. */
module SyncBranchScript {
  import opened Results
  import opened Configuration
  import opened Workflow

  const MergeFailedMessage := "Merge failed. Please resolve these conflicts."

  datatype SyncBranch = SyncBranch(branch: Value)

  /** `SyncBranch.new(branch = nil)`: `branch || default_branch`, where the
      default is the configuration's deploy branch. */
  function New(branch: Value, config: Config): (r: SyncBranch)
    ensures Truthy(branch) ==> r.branch == branch
    ensures !Truthy(branch) ==> r.branch == DeployBranch(config)
  {
    SyncBranch(Or(branch, DeployBranch(config)))
  }

  /** `execute` (`merge_branch`): one merge of the stored branch; `result`
      is what the merge raises, if anything. Only `MergeFailed` is rescued,
      by a message. */
  function Execute(s: SyncBranch, result: Option<GitError>): (r: Run)
    ensures |r.trace| >= 1 && r.trace[0] == Merge(s.branch)
    ensures forall i :: 1 <= i < |r.trace| ==> r.trace[i] == Say(MergeFailedMessage)
    ensures r.outcome.Completed? <==> result.None? || result.value.MergeFailed?
    ensures r.outcome.Raised? ==> r.outcome.error == result.value
    ensures |r.trace| == 2 <==> result.Some? && result.value.MergeFailed?
    ensures |r.trace| <= 2
  {
    match result
    case None => Run([Merge(s.branch)], Completed)
    case Some(MergeFailed(_)) => Run([Merge(s.branch), Say(MergeFailedMessage)], Completed)
    case Some(e) => Run([Merge(s.branch)], Raised(e))
  }

  /** `SyncBranch.execute(branch)`: build the script and execute it. The
      run makes exactly one git call, a merge of the given branch or else
      of the deploy branch, and never pushes or deletes. A successful merge
      prints nothing; a conflict prints the message and completes; any
      other error propagates. */
  function ExecuteWith(branch: Value, config: Config, result: Option<GitError>): (r: Run)
    ensures |r.trace| >= 1 && r.trace[0] == Merge(if Truthy(branch) then branch else DeployBranch(config))
    ensures forall i :: 0 <= i < |r.trace| && IsGitCall(r.trace[i]) ==> i == 0
    ensures forall i :: 0 <= i < |r.trace| ==> !r.trace[i].Push? && !r.trace[i].DeleteBranch?
    ensures result.None? ==> r == Run([r.trace[0]], Completed)
    ensures result.Some? && result.value.MergeFailed? ==> r == Run([r.trace[0], Say(MergeFailedMessage)], Completed)
    ensures result.Some? && !result.value.MergeFailed? ==> r == Run([r.trace[0]], Raised(result.value))
  {
    Execute(New(branch, config), result)
  }

  /** With no branch argument and the default configuration, the sync
      merges "master". */
  lemma SyncDefaultsToMaster(result: Option<GitError>)
    ensures Configuration.New([]).Success?
    ensures ExecuteWith(Nil, Configuration.New([]).value, result).trace[0] == Merge(Str("master"))
  {
    ConstructionExamples();
  }
}
