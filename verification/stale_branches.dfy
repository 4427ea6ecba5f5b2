/** The `StaleBranches` script: lists the branches git reports as stale,
    or deletes them one after another. */
module StaleBranchesScript {
  import opened Results
  import opened Configuration
  import opened Workflow

  /** The script object; `delete` is the stored flag as given. */
  datatype StaleBranches = StaleBranches(delete: Value)

  /** `StaleBranches.new(delete = false)`. */
  function New(delete: Option<Value>): (r: StaleBranches)
    ensures delete.None? ==> !Truthy(r.delete)
    ensures delete.Some? ==> r.delete == delete.value
  {
    StaleBranches(if delete.Some? then delete.value else Bool(false))
  }

  /** `delete?`. */
  function IsDelete(s: StaleBranches): Value {
    s.delete
  }

  /** The request for the stale list: the deploy branch and the branches to
      keep, as the configuration reports them. */
  function StaleQuery(config: Config): Event {
    ListStale(DeployBranch(config), BranchesToKeep(config))
  }

  /** `display_stale_branches`: one line per stale branch, in list order. */
  method Display(stale: seq<string>) returns (trace: seq<Event>)
    ensures |trace| == |stale|
    ensures forall i :: 0 <= i < |stale| ==> trace[i] == Say("* " + stale[i])
  {
    trace := [];
    var i := 0;
    while i < |stale|
      invariant 0 <= i <= |stale|
      invariant |trace| == i
      invariant forall j :: 0 <= j < i ==> trace[j] == Say("* " + stale[j])
    {
      trace := trace + [Say("* " + stale[i])];
      i := i + 1;
    }
  }

  /** `delete_stale_branches`: deletes the stale branches in list order;
      `failures` says which deletions raise, and with what. The first
      raising deletion ends the run: there is no per-branch recovery. */
  method DeleteAll(stale: seq<string>, failures: map<string, GitError>) returns (trace: seq<Event>, outcome: Outcome)
    ensures |trace| <= |stale|
    ensures forall i :: 0 <= i < |trace| ==> trace[i] == DeleteBranch(stale[i])
    ensures outcome.Completed? <==> forall i :: 0 <= i < |stale| ==> stale[i] !in failures
    ensures outcome.Completed? ==> |trace| == |stale|
    ensures outcome.Raised? ==>
      && |trace| >= 1
      && stale[|trace| - 1] in failures
      && outcome.error == failures[stale[|trace| - 1]]
      && forall j :: 0 <= j < |trace| - 1 ==> stale[j] !in failures
  {
    trace := [];
    var i := 0;
    while i < |stale|
      invariant 0 <= i <= |stale|
      invariant |trace| == i
      invariant forall j :: 0 <= j < i ==> trace[j] == DeleteBranch(stale[j])
      invariant forall j :: 0 <= j < i ==> stale[j] !in failures
    {
      trace := trace + [DeleteBranch(stale[i])];
      if stale[i] in failures {
        return trace, Raised(failures[stale[i]]);
      }
      i := i + 1;
    }
    outcome := Completed;
  }

  /** `execute`: asks git for the stale list (`stale` is its answer), then
      either only prints it or only deletes it. */
  method Execute(s: StaleBranches, config: Config, stale: seq<string>, failures: map<string, GitError>) returns (run: Run)
    ensures |run.trace| >= 1 && run.trace[0] == StaleQuery(config)
    ensures !Truthy(IsDelete(s)) ==> forall e :: e in run.trace ==> !e.DeleteBranch?
    ensures Truthy(IsDelete(s)) ==> forall e :: e in run.trace ==> !e.Say?
    ensures !Truthy(IsDelete(s)) ==>
      && run.outcome == Completed
      && |run.trace| == 1 + |stale|
      && forall i :: 0 <= i < |stale| ==> run.trace[i + 1] == Say("* " + stale[i])
    ensures Truthy(IsDelete(s)) ==>
      && |run.trace| <= 1 + |stale|
      && (forall i :: 1 <= i < |run.trace| ==> run.trace[i] == DeleteBranch(stale[i - 1]))
      && (run.outcome.Completed? <==> forall i :: 0 <= i < |stale| ==> stale[i] !in failures)
      && (run.outcome.Completed? ==> |run.trace| == 1 + |stale|)
      && (run.outcome.Raised? ==> var k := |run.trace| - 2;
            && 0 <= k && stale[k] in failures && run.outcome.error == failures[stale[k]]
            && forall j :: 0 <= j < k ==> stale[j] !in failures)
  {
    var query := StaleQuery(config);
    if Truthy(IsDelete(s)) {
      var deletes, outcome := DeleteAll(stale, failures);
      run := Run([query] + deletes, outcome);
    } else {
      var lines := Display(stale);
      run := Run([query] + lines, Completed);
    }
  }

  /** A script built without an argument displays; `delete?` returns the
      stored flag; with the default configuration the stale list is asked
      for against "master" and no kept branches. */
  lemma Defaults(flag: Value)
    ensures !Truthy(IsDelete(New(None)))
    ensures IsDelete(New(Some(flag))) == flag
    ensures Configuration.New([]).Success? && StaleQuery(Configuration.New([]).value) == ListStale(Str("master"), Strs([]))
  {
    ConstructionExamples();
  }
}
