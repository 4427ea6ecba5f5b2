/** The collaborators the workflow scripts drive, seen from outside: the
    command-line output (`cli.say`) and the git wrapper, whose operations
    may raise. A script run is the sequence of calls it makes and how it
    ends. */
module Workflow {
  import opened Configuration

  /** An error raised by the git wrapper. */
  datatype GitError = MergeFailed(detail: string) | GitFailed(detail: string)

  /** One call into a collaborator. */
  datatype Event =
    | Say(line: string)                                    // cli.say
    | ListStale(deployBranch: Value, branchesToKeep: Value) // git.stale_branches
    | DeleteBranch(name: string)                           // git.delete_branch
    | Merge(branch: Value)                                 // git.merge
    | Push                                                 // git.push

  predicate IsGitCall(e: Event) {
    !e.Say?
  }

  /** How a script run ends: normally, or with an error propagating out. */
  datatype Outcome = Completed | Raised(error: GitError)

  datatype Run = Run(trace: seq<Event>, outcome: Outcome)
}
