# Octopolo workflow core, modelled in Dafny

A model of the release-engineering core of Octopolo, a command-line tool
that drives a team's git branching and GitHub pull-request workflow. Three
pieces are modelled:

- **The project configuration** (`Config`): an attribute record filled by
  setter name, accessors that fall back to defaults (`deploy_branch` is
  "master", the list attributes are empty), the required `github_repo`
  that fails only when read, the upward search for `.automation.yml`, the
  check of `git branch -r` output for a remote branch, the `app_name`
  fallback chain, `current_app?`, and the EngineYard `instance_key` and
  `allow_non_infrastructure` rules.
- **The pull-request wrapper** (`GitHub::PullRequest`): construction with
  required parameters, the fetch-once payload cache (an explicit
  `Unfetched | Fetched` state) with not-found translation, bug and release
  classification, author and commenter name lists, `human_app_name`, and
  `write_comment` with its error translation.
- **The `StaleBranches` and `SyncBranch` scripts**, as traces of calls
  (`Say`, `ListStale`, `DeleteBranch`, `Merge`, `Push`) made on the command-line
  output and on a git wrapper whose operations may raise.

Ruby values coming from the configuration file are `Configuration.Value`
(`nil`, booleans, strings, string lists, other objects), and Ruby's
`a || b` is modelled with its truthiness rule (only `nil` and `false` are
false). Exceptions are `Result`/`Outcome` values. The remote GitHub client
and the git wrapper are oracles: an operation that would call them takes
the reply they would give as a parameter.

Files: `results.dfy` (Option/Result), `text.dfy` (string operations:
substring tests, ASCII case mapping, Ruby `split`/`join`), `lists.dfy`
(`uniq` and `Array#-`, which also serves for `reject` against a list), `config.dfy`, `pull_request.dfy`,
`workflow.dfy` (collaborator events), `stale_branches.dfy`,
`sync_branch.dfy`.

Facts about the code that shape the model:

- `initialize` applies every attribute with `send("#{key}=", value)`. A
  key with an `attr_accessor` stores its value. The keys `=`, `==` and `!`
  reach the inherited methods `==`, `===` and `!=`, which compare and
  store nothing. Any other key raises (`UnknownAttribute`).
- Only `.automation.yml` is searched for.
- `StaleBranches` stops at the first failing deletion: the error
  propagates and later branches are never attempted.
- `SyncBranch` never pushes, whether the merge succeeds or not.

## Model

| member | source | states |
|---|---|---|
| Configuration.AssignAll | lib/octopolo/config.rb:29-31 | applying attributes in order succeeds iff every key has a setter or names an inherited comparison (`=`, `==`, `!`); a failure names the first other key |
| Configuration.New | lib/octopolo/config.rb:26-32 | construction succeeds iff every key is accepted as above, so a missing `github_repo` never makes it fail |
| Configuration.ComparisonKeysStoreNothing | lib/octopolo/config.rb:29-31 | a `=`, `==` or `!` key (which reaches `==`, `===` or `!=`) neither fails nor stores anything: assigning it and then the rest equals assigning the rest |
| Configuration.NewReadsBack | lib/octopolo/config.rb:16-32 | construction round trip: every attribute with a setter holds the last value supplied for it; an unsupplied attribute, and any name without a setter, stays nil (the CLI collaborator for `cli`) |
| Configuration.DeployBranchOfNew | lib/octopolo/config.rb:35-37 | `deploy_branch` is "master" when not supplied and exactly the supplied (truthy) value otherwise |
| Configuration.ListAttributesOfNew | lib/octopolo/config.rb:39-49 | `branches_to_keep`, `deploy_environments`, `deploy_methods` are the empty list when not supplied and the supplied list unchanged otherwise |
| Configuration.GithubRepoOfNew | lib/octopolo/config.rb:51-53 | construction never fails for lack of `github_repo`; reading it fails with MissingRequiredAttribute iff no truthy value was supplied; a supplied value reads back verbatim |
| Configuration.ConstructionExamples | spec/octopolo/config_spec.rb:11-67 | the configuration tests' cases: defaults of an empty config, supplied values read back, missing `github_repo` raises, an unknown key raises |
| Configuration.ConfigPath | lib/octopolo/config.rb:64-77 | the result is `dir/.automation.yml` for the nearest ancestor (itself first) holding the file; with none it reports "Could not find .automation.yml" and ends at the root; each step shortens the path |
| Configuration.ConfigPathFindsAnyAncestor | lib/octopolo/config.rb:64-77 | the search succeeds iff some ancestor of the start directory holds the file |
| Configuration.ConfigPathStable | lib/octopolo/config.rb:64-81 | searching again from the directory the search left behind (as `basedir` does) gives the same answer |
| Configuration.RemoteBranchExistsByField | lib/octopolo/config.rb:87-92 | the branch exists iff some line-feed-separated field, with every `*` and whitespace deleted, is `origin/<branch>`; carriage returns and trailing empty lines do not matter |
| Configuration.RemoteBranchExistsOfListing | lib/octopolo/config.rb:87-92 | on a listing of indented `origin/<name>` lines, `remote_branch_exists?` holds exactly for the listed names |
| Configuration.RemoteBranchExistsExample | spec/octopolo/config_spec.rb:232-248 | the listing production (starred), test, asdf finds "production" and not "not-there" |
| Configuration.AppNameOfNew | lib/octopolo/config.rb:133-136 | `app_name` is the CloudNgin name if a truthy one was supplied, else the EngineYard name if a truthy one was supplied, else the base directory; a name supplied as nil or false falls through like an absent one |
| Configuration.CurrentAppMatchesAppName | lib/octopolo/config.rb:83-85 | `current_app?` never holds without an EngineYard name; without a CloudNgin name it holds iff `app_name` is the argument's string form |
| Configuration.InstanceKeyRoundTrip | lib/octopolo/config.rb:125-127 | `instance_key` splits on spaces back into role, name, hostname, Amazon id when no field contains a space |
| Configuration.InstanceKeyInjective | lib/octopolo/config.rb:117-127 | distinct instances (fields without spaces) get distinct keys in the server table |
| Configuration.AllowNonInfrastructureRule | lib/octopolo/config.rb:115 | an environment allows non-infrastructure keys iff its name cannot be written as before + "production" + after; so a name shorter than "production" always allows them |
| Configuration.AllowNonInfrastructureExamples | lib/octopolo/config.rb:115 | "staging" allows, "production" and "ngin_production_2" forbid |
| PullRequests.New | lib/octopolo/github/pull_request.rb:21-27 | construction fails with MissingParameter iff the repository name or number is nil; otherwise both are stored and the payload is held iff one was given |
| PullRequests.Closed | lib/octopolo/github/pull_request.rb:34-38 | one wrapper per listed payload, in order, with its own number and the payload already held |
| PullRequests.ClosedNeverFetch | lib/octopolo/github/pull_request.rb:34-38 | reading a pull request from the closed listing never asks the client and always yields its listed payload |
| PullRequests.Create | lib/octopolo/github/pull_request.rb:51-56 | creation succeeds iff the repository name and the creator's number are present; the wrapper holds that name and number, and holds the creator's payload iff one was returned, in which case every read yields it without fetching |
| PullRequests.ReadData | lib/octopolo/github/pull_request.rb:58-62 | a read fetches iff nothing is memoised; a held payload is returned unchanged; a not-found reply becomes NotFound, other errors pass through; an unfetched read answered with a payload yields that payload and memoises it, and no other reply memoises anything |
| PullRequests.FetchedNeverRefetches | lib/octopolo/github/pull_request.rb:58-62 | once the payload is held, any number of reads make no fetch and all yield it |
| PullRequests.FetchUntilReturned | lib/octopolo/github/pull_request.rb:58-62 | starting unfetched, reads fetch up to and including the first returned payload and never after; all later reads yield that payload |
| PullRequests.FailedReadsRetry | lib/octopolo/github/pull_request.rb:58-62 | while the client returns no payload every read fetches again and nothing is memoised; not-found reads yield NotFound |
| PullRequests.Body | lib/octopolo/github/pull_request.rb:96-98 | the body is "" when the payload has none, so URL extraction always runs over a string |
| PullRequests.IssueUrls | lib/octopolo/github/pull_request.rb:100-109 | exactly the extracted URLs containing `thedesk.sportngin.com` or `thedesk.tstmedia.com` |
| PullRequests.IsBugOfPayload | lib/octopolo/github/pull_request.rb:96-126 | `bug?` of a payload iff some URL extracted from its body ("" when missing) points at an issue-tracker host, or its title contains "bug" or "fix" in any letter case |
| PullRequests.BugCharacterization | lib/octopolo/github/pull_request.rb:124-126 | `bug?` iff some extracted URL points at an issue-tracker host, or the title contains "bug" or "fix" in any letter case |
| PullRequests.IssueLinkMakesBug | lib/octopolo/github/pull_request.rb:16-19 | a link to either tracker host anywhere in the body makes a bug fix whatever the title |
| PullRequests.BugExampleFixTitle | lib/octopolo/github/pull_request.rb:124-126 | "Fix login crash" is a bug fix |
| PullRequests.BugExampleFeature | lib/octopolo/github/pull_request.rb:124-126 | "Add login page" without links is not a bug fix |
| PullRequests.ReleaseTitles | lib/octopolo/github/pull_request.rb:129-131 | `release?` holds for "Release: " followed by anything and only for such titles; "release: x", "Releases: x", "Release:x" are not releases |
| PullRequests.NamesPartition | lib/octopolo/github/pull_request.rb:84-94 | author and commenter lists have no duplicates and no excluded users; authors are the commit authors, commenters the comment authors who authored no commit, so the two are disjoint |
| PullRequests.HumanAppName | lib/octopolo/github/pull_request.rb:111-114 | there is no name (Ruby raises on `nil.split`) iff the repository name consists of slashes only |
| PullRequests.HumanAppNameOfOwnerRepo | lib/octopolo/github/pull_request.rb:111-114 | for `owner/w1_w2_..._wn` the name is the capitalised words joined by single spaces |
| PullRequests.HumanAppNameWords | lib/octopolo/github/pull_request.rb:111-114 | the name splits on spaces back into one word per piece, and each word equals its piece up to letter case |
| PullRequests.WriteComment | lib/octopolo/github/pull_request.rb:136-140 | posts to the pull request's repository and number a body that is ":octocat: " followed by the message; succeeds iff the post does; unprocessable becomes CommentFailed; other errors pass through |
| PullRequests.CommentFailedQuotesServer | lib/octopolo/github/pull_request.rb:138-139 | the CommentFailed message is "Unable to write the comment: '" + server message + "'", and the server message can be read back from it |
| Lists.Uniq | lib/octopolo/github/pull_request.rb:88-89 | `uniq` keeps every element once and nothing else |
| Lists.Minus | lib/octopolo/github/pull_request.rb:84-94 | `Array#-`, and `exlude_automation_user`'s reject against the excluded-user list, keep exactly the elements not in the other list, and keep a duplicate-free list duplicate-free |
| Lists.MinusKeepsOrder | lib/octopolo/github/pull_request.rb:84-94 | the difference keeps the order of the first list: it distributes over concatenation, and a single element survives iff it is not in the other list |
| Lists.MinusCounts | lib/octopolo/github/pull_request.rb:84-94 | repetitions are kept: an element not in the other list occurs in the difference as often as in the first list, and an element in it does not occur at all |
| StaleBranchesScript.New | lib/octopolo/scripts/stale_branches.rb:29-31 | built without an argument the flag is false; otherwise it is the argument |
| StaleBranchesScript.Display | lib/octopolo/scripts/stale_branches.rb:46-50 | exactly one line "* name" per stale branch, in list order |
| StaleBranchesScript.DeleteAll | lib/octopolo/scripts/stale_branches.rb:54-58 | deletes in list order, each branch once and no other; completes iff no deletion fails; on the first failure that error propagates and no later branch is attempted |
| StaleBranchesScript.Execute | lib/octopolo/scripts/stale_branches.rb:33-39 | asks git for the stale list with the configured deploy branch and kept branches, then either only displays (never deletes) or only deletes (never prints) |
| StaleBranchesScript.Defaults | lib/octopolo/scripts/stale_branches.rb:29-66 | a default script is in display mode, `delete?` returns the stored flag, and a default configuration queries with "master" and no kept branches |
| SyncBranchScript.New | lib/octopolo/scripts/sync_branch.rb:16-23 | a nil (or false) branch resolves to the configured deploy branch; any other argument is kept |
| SyncBranchScript.Execute | lib/octopolo/scripts/sync_branch.rb:25-34 | one merge of the stored branch; completes iff the merge succeeds or fails with MergeFailed; a MergeFailed adds the conflict message; other errors propagate |
| SyncBranchScript.ExecuteWith | lib/octopolo/scripts/sync_branch.rb:12-34 | a sync makes exactly one git call, the merge of the argument or else of the deploy branch, never a push or delete; success prints nothing, a conflict prints the message and completes, other errors propagate |
| SyncBranchScript.SyncDefaultsToMaster | lib/octopolo/scripts/sync_branch.rb:16-23 | with no argument and a default configuration the sync merges "master" |

## Left out

- EngineYard access (`api_object`, `reload_cached_api_object`, the `servers` traversal) and `infrastructure?` are foreign calls and file-system checks; only the per-instance key and the `allow_non_infrastructure` rule are modelled.
- YAML loading (`parse`, `attributes_from_file`) is I/O; the model starts from the parsed key/value list. The directory walk is over an abstract set of directories holding the file, and its `Dir.chdir` side effect is the result's `dir`.
- `basedir` reads the real file system; it is an input to `AppName`.
- Ruby's `to_s` in `current_app?` is modelled for strings, symbols and nil only.
- `URI.extract` is not modelled: the extracted URL list is an input to `Bug`.
- The GitHub client, `PullRequestCreator`, `Commit.for_pull_request`, `GitHub::User#author_name`, `GitHub.excluded_users` and `Week.parse` are not part of this model: their results are inputs. The memoisation of `commits` and `comments` is therefore not modelled.
- The `title`, `url`, `branch`, `mergeable?` and `week` readers are plain payload field reads and are not given contracts.
- The `Git` class (`stale_branches`, `merge`, `delete_branch`) is not part of this model: the stale list is an input, and failures are given per branch name or per merge. The unused `DEFAULT_BRANCHES` constant is left out.
- The command-line block at the top of `stale_branches.rb` (it dispatches to `AcceptPull`, not to `StaleBranches`), `push_branch.rb` and `commands/deployable.rb` are command wiring and are not modelled.
- Configuration attributes the configuration tests mention but the code does not define (`user_notifications`, the Pivotal Tracker and Jira settings, the `.octopolo.yml` file name) are not modelled.
- PullRequests.Bug: `/bug/i` and `/fix/i` are modelled with ASCII case folding only; Ruby's Unicode case folding of non-ASCII letters is not modelled.
- PullRequests.HumanAppName: `capitalize` is modelled with ASCII case mapping only.
- PullRequests.IssueUrls: states which URLs are kept, not that their order is preserved.
- Lists.Uniq: states membership and absence of duplicates, not that first occurrences keep their order.
- PullRequests.Closed: the repository name is taken as a string; a nil name with a non-empty listing (which would raise MissingParameter) is not modelled.
- Text.IsSpace: Ruby's `\s` is taken as space, tab, line feed, vertical tab, form feed and carriage return.
