/** The pull-request wrapper (`Automation::GitHub::PullRequest`): a
    repository name and number with a lazily fetched payload, the
    classification of a pull request as a bug fix or a release, the author
    and commenter name lists, the human-readable application name and the
    comment writer with its error translation. The remote client is an
    oracle: every operation that would call it takes the reply it would
    give. */
module PullRequests {
  import opened Results
  import opened Text
  import opened Lists

  /** The fields of the remote payload the wrapper reads. */
  datatype Payload = Payload(
    number: int,
    title: string,
    body: Option<string>,
    htmlUrl: string,
    headRef: string,
    mergeable: Option<bool>,
    closedAt: Option<string>)

  /** The memoised payload: `@pull_request_data` is either still unset or
      holds the payload. */
  datatype Cache = Unfetched | Fetched(data: Payload)

  datatype PullRequest = PullRequest(repoName: string, number: int, cache: Cache)

  datatype PrError =
    | MissingParameter
    | NotFound
    | CommentFailed(message: string)
    | Propagated(detail: string)    // any other client error, raised unchanged

  /** What the remote client answers to a request for one pull request. */
  datatype FetchReply = Returned(data: Payload) | ClientNotFound | ClientFailed(detail: string)

  /** `PullRequest.new(repo_name, number, pull_request_data = nil)`. */
  function New(repoName: Option<string>, number: Option<int>, data: Option<Payload>): (r: Result<PullRequest, PrError>)
    ensures r.Failure? <==> repoName.None? || number.None?
    ensures r.Failure? ==> r.error == MissingParameter
    ensures r.Success? ==> r.value.repoName == repoName.value && r.value.number == number.value
    ensures r.Success? ==> (r.value.cache == Unfetched <==> data.None?)
    ensures r.Success? && data.Some? ==> r.value.cache == Fetched(data.value)
  {
    if repoName.None? || number.None? then Failure(MissingParameter)
    else Success(PullRequest(repoName.value, number.value, if data.Some? then Fetched(data.value) else Unfetched))
  }

  /** `PullRequest.closed`: every listed payload wrapped with its own
      number, already fetched. */
  function Closed(repoName: string, listed: seq<Payload>): (r: seq<PullRequest>)
    ensures |r| == |listed|
    ensures forall i :: 0 <= i < |r| ==> r[i].repoName == repoName && r[i].number == listed[i].number
    ensures forall i :: 0 <= i < |r| ==> r[i].cache == Fetched(listed[i])
  {
    seq(|listed|, i requires 0 <= i < |listed| => PullRequest(repoName, listed[i].number, Fetched(listed[i])))
  }

  /** `PullRequest.create`: wraps the number and payload the creator
      returned. */
  function Create(repoName: Option<string>, createdNumber: Option<int>, createdData: Option<Payload>): (r: Result<PullRequest, PrError>)
    ensures r.Success? <==> repoName.Some? && createdNumber.Some?
    ensures r.Success? ==> r.value.repoName == repoName.value && r.value.number == createdNumber.value
    ensures r.Success? ==> (r.value.cache == Unfetched <==> createdData.None?)
    ensures r.Success? && createdData.Some? ==>
      r.value.cache == Fetched(createdData.value)
      && forall reply :: !ReadData(r.value, reply).fetched && ReadData(r.value, reply).result == Success(createdData.value)
  {
    New(repoName, createdNumber, createdData)
  }

  /** One read of `pull_request_data`, with the state after it and whether
      the client was asked. */
  datatype Read = Read(result: Result<Payload, PrError>, after: PullRequest, fetched: bool)

  /** `pull_request_data`: the memoised payload, or else a fetch whose
      not-found answer becomes `NotFound`; only a returned payload is
      memoised. */
  function ReadData(pr: PullRequest, reply: FetchReply): (r: Read)
    ensures r.after.repoName == pr.repoName && r.after.number == pr.number
    ensures r.fetched <==> pr.cache.Unfetched?
    ensures r.result.Success? <==> pr.cache.Fetched? || reply.Returned?
    ensures r.result.Success? ==> r.after.cache == Fetched(r.result.value)
    ensures pr.cache.Fetched? ==> r.result == Success(pr.cache.data) && r.after == pr
    ensures pr.cache.Unfetched? && reply.Returned? ==>
      r.result == Success(reply.data) && r.after == pr.(cache := Fetched(reply.data))
    ensures pr.cache.Unfetched? && reply == ClientNotFound ==> r.result == Failure(NotFound) && r.after == pr
    ensures pr.cache.Unfetched? && reply.ClientFailed? ==> r.result == Failure(Propagated(reply.detail)) && r.after == pr
  {
    match pr.cache
    case Fetched(d) => Read(Success(d), pr, false)
    case Unfetched =>
      match reply
      case Returned(d) => Read(Success(d), pr.(cache := Fetched(d)), true)
      case ClientNotFound => Read(Failure(NotFound), pr, true)
      case ClientFailed(e) => Read(Failure(Propagated(e)), pr, true)
  }

  /** Successive reads; `replies[i]` is what the client would answer if
      the `i`-th read asked it. */
  datatype Reads = Reads(results: seq<Result<Payload, PrError>>, after: PullRequest, fetches: nat)

  function ReadMany(pr: PullRequest, replies: seq<FetchReply>): (r: Reads)
    ensures |r.results| == |replies|
    decreases |replies|
  {
    if |replies| == 0 then Reads([], pr, 0)
    else
      var first := ReadData(pr, replies[0]);
      var rest := ReadMany(first.after, replies[1..]);
      Reads([first.result] + rest.results, rest.after, rest.fetches + if first.fetched then 1 else 0)
  }

  /** Once the payload is held, no read asks the client and every read
      yields that payload. */
  lemma {:induction false} FetchedNeverRefetches(pr: PullRequest, replies: seq<FetchReply>)
    requires pr.cache.Fetched?
    ensures ReadMany(pr, replies).fetches == 0
    ensures ReadMany(pr, replies).after == pr
    ensures forall i :: 0 <= i < |replies| ==> ReadMany(pr, replies).results[i] == Success(pr.cache.data)
    decreases |replies|
  {
    if |replies| > 0 {
      FetchedNeverRefetches(pr, replies[1..]);
    }
  }

  /** `replies[k]` is the first reply that returns a payload. */
  predicate FirstReturned(replies: seq<FetchReply>, k: int) {
    0 <= k < |replies| && replies[k].Returned? && forall j :: 0 <= j < k ==> !replies[j].Returned?
  }

  /** Fetch-once: starting unfetched, reads ask the client until it first
      returns a payload and never again afterwards; that read and every
      later one yield the payload. */
  lemma {:induction false} FetchUntilReturned(pr: PullRequest, replies: seq<FetchReply>, k: int)
    requires pr.cache.Unfetched?
    requires FirstReturned(replies, k)
    ensures ReadMany(pr, replies).fetches == k + 1
    ensures ReadMany(pr, replies).after.cache == Fetched(replies[k].data)
    ensures forall i :: k <= i < |replies| ==> ReadMany(pr, replies).results[i] == Success(replies[k].data)
    decreases |replies|
  {
    var first := ReadData(pr, replies[0]);
    var rest := replies[1..];
    if k == 0 {
      FetchedNeverRefetches(first.after, rest);
    } else {
      assert FirstReturned(rest, k - 1);
      FetchUntilReturned(pr, rest, k - 1);
    }
  }

  /** Failed reads memoise nothing: while the client returns no payload,
      every read asks it again, and a not-found answer reads as
      `NotFound`. */
  lemma {:induction false} FailedReadsRetry(pr: PullRequest, replies: seq<FetchReply>)
    requires pr.cache.Unfetched?
    requires forall j :: 0 <= j < |replies| ==> !replies[j].Returned?
    ensures ReadMany(pr, replies).fetches == |replies|
    ensures ReadMany(pr, replies).after == pr
    ensures forall j :: 0 <= j < |replies| && replies[j] == ClientNotFound ==>
      ReadMany(pr, replies).results[j] == Failure(NotFound)
    decreases |replies|
  {
    if |replies| > 0 {
      var rest := replies[1..];
      assert forall i :: 0 <= i < |rest| ==> rest[i] == replies[i + 1];
      FailedReadsRetry(pr, rest);
    }
  }

  /** A pull request from the closed listing never asks the client. */
  lemma ClosedNeverFetch(repoName: string, listed: seq<Payload>, i: int, replies: seq<FetchReply>)
    requires 0 <= i < |listed|
    ensures ReadMany(Closed(repoName, listed)[i], replies).fetches == 0
    ensures forall j :: 0 <= j < |replies| ==> ReadMany(Closed(repoName, listed)[i], replies).results[j] == Success(listed[i])
  {
    FetchedNeverRefetches(Closed(repoName, listed)[i], replies);
  }

  // ---------------------------------------------------------------------
  // Derived fields

  function Title(p: Payload): string {
    p.title
  }

  /** `body`: a missing body reads as the empty string. */
  function Body(p: Payload): (r: string)
    ensures p.body.None? ==> r == ""
    ensures p.body.Some? ==> r == p.body.value
  {
    if p.body.Some? then p.body.value else ""
  }

  // ---------------------------------------------------------------------
  // Classification

  /** The issue-tracker hosts of `ISSUE_URLS` (unanchored patterns). */
  predicate IsIssueUrl(url: string) {
    Contains(url, "thedesk.sportngin.com") || Contains(url, "thedesk.tstmedia.com")
  }

  /** `issue_urls`: the extracted URLs that point at the issue tracker, in
      order. */
  function IssueUrls(urls: seq<string>): (r: seq<string>)
    ensures forall u :: u in r <==> u in urls && IsIssueUrl(u)
    ensures |r| <= |urls|
    decreases |urls|
  {
    if |urls| == 0 then []
    else
      var rest := IssueUrls(urls[1..]);
      assert urls == [urls[0]] + urls[1..];
      if IsIssueUrl(urls[0]) then [urls[0]] + rest else rest
  }

  /** `bug?`, given the URLs extracted from the body. */
  predicate Bug(title: string, urls: seq<string>) {
    |IssueUrls(urls)| > 0 || ContainsIgnoringCase(title, "bug") || ContainsIgnoringCase(title, "fix")
  }

  /** `bug?` of a payload; `extract` stands for `URI.extract` of http and
      https URLs. */
  predicate IsBug(p: Payload, extract: string -> seq<string>) {
    Bug(Title(p), extract(Body(p)))
  }

  /** `bug?` of a payload, unfolded: some URL extracted from the body (from
      "" when the body is missing) points at the issue tracker, or the title
      mentions "bug" or "fix" in any letter case. */
  lemma IsBugOfPayload(p: Payload, extract: string -> seq<string>)
    ensures IsBug(p, extract) <==>
      (exists u :: u in extract(if p.body.Some? then p.body.value else "") && IsIssueUrl(u))
      || ContainsIgnoringCase(p.title, "bug")
      || ContainsIgnoringCase(p.title, "fix")
  {
    BugCharacterization(Title(p), extract(Body(p)));
  }

  /** A pull request is a bug fix exactly when some extracted URL points at
      the issue tracker or its title mentions "bug" or "fix" in any letter
      case. */
  lemma BugCharacterization(title: string, urls: seq<string>)
    ensures Bug(title, urls) <==>
      (exists u :: u in urls && IsIssueUrl(u))
      || ContainsIgnoringCase(title, "bug")
      || ContainsIgnoringCase(title, "fix")
  {
    var r := IssueUrls(urls);
    if |r| > 0 {
      assert r[0] in r;
    }
  }

  lemma {:induction false} NotContainedWithoutFirstChar(s: string, t: string)
    requires |t| > 0 && t[0] !in s
    ensures !Contains(s, t)
  {
  }

  /** "Fix" in any letter case makes a bug fix. */
  lemma BugExampleFixTitle()
    ensures Bug("Fix login crash", [])
  {
    var d := Downcase("Fix login crash");
    assert d[0..3] == "fix";
    ContainsWitness(d, Downcase("fix"), 0);
  }

  /** A link to either issue-tracker host, anywhere in the body, makes a
      bug fix whatever the title. */
  lemma IssueLinkMakesBug(title: string, urls: seq<string>, before: string, after: string)
    ensures Bug(title, urls + [before + "thedesk.sportngin.com" + after])
    ensures Bug(title, urls + [before + "thedesk.tstmedia.com" + after])
  {
    var u1 := before + "thedesk.sportngin.com" + after;
    var u2 := before + "thedesk.tstmedia.com" + after;
    ContainsInfix(before, "thedesk.sportngin.com", after);
    ContainsInfix(before, "thedesk.tstmedia.com", after);
    IssueUrlMakesBug(title, urls + [u1], u1);
    IssueUrlMakesBug(title, urls + [u2], u2);
  }

  lemma IssueUrlMakesBug(title: string, urls: seq<string>, u: string)
    requires u in urls && IsIssueUrl(u)
    ensures Bug(title, urls)
  {
    assert u in IssueUrls(urls);
  }

  /** Neither a link nor "bug" or "fix" in the title: not a bug fix. */
  lemma BugExampleFeature()
    ensures !Bug("Add login page", [])
  {
    var e := Downcase("Add login page");
    assert forall i :: 0 <= i < |e| ==> e[i] != 'b' && e[i] != 'f';
    NotContainedWithoutFirstChar(e, Downcase("bug"));
    NotContainedWithoutFirstChar(e, Downcase("fix"));
  }

  const ReleasePrefix := "Release: "

  /** `release?`: the title starts with the exact prefix "Release: ". */
  predicate Release(title: string) {
    StartsWith(title, ReleasePrefix)
  }

  /** A title is a release title exactly when it is the prefix followed by
      some text; the test is case-sensitive and needs the colon and space
      right after "Release". */
  lemma ReleaseTitles(description: string)
    ensures Release(ReleasePrefix + description)
    ensures forall t :: Release(t) ==> t == ReleasePrefix + t[|ReleasePrefix|..]
    ensures !Release("release: x") && !Release("Releases: x") && !Release("Release:x")
  {
    assert ("release: x")[0] != ReleasePrefix[0];
    assert ("Releases: x")[7] != ReleasePrefix[7];
    assert ("Release:x")[8] != ReleasePrefix[8];
  }

  // ---------------------------------------------------------------------
  // People

  /** `author_names`: the distinct commit authors without excluded users. */
  function AuthorNames(commitAuthors: seq<string>, excluded: seq<string>): seq<string> {
    Minus(Uniq(commitAuthors), excluded)
  }

  /** `commenter_names`: the distinct comment authors that are not authors,
      without excluded users. */
  function CommenterNames(commentAuthors: seq<string>, commitAuthors: seq<string>, excluded: seq<string>): seq<string> {
    Minus(Minus(Uniq(commentAuthors), AuthorNames(commitAuthors, excluded)), excluded)
  }

  /** Both lists are duplicate-free and free of excluded users; the authors
      are the commit authors, the commenters are the comment authors who
      did not author a commit, so nobody is counted twice. */
  lemma NamesPartition(commentAuthors: seq<string>, commitAuthors: seq<string>, excluded: seq<string>)
    ensures NoDuplicates(AuthorNames(commitAuthors, excluded))
    ensures NoDuplicates(CommenterNames(commentAuthors, commitAuthors, excluded))
    ensures forall n :: n in AuthorNames(commitAuthors, excluded) <==> n in commitAuthors && n !in excluded
    ensures forall n :: n in CommenterNames(commentAuthors, commitAuthors, excluded) <==>
      n in commentAuthors && n !in commitAuthors && n !in excluded
    ensures forall n :: n in CommenterNames(commentAuthors, commitAuthors, excluded) ==>
      n !in AuthorNames(commitAuthors, excluded)
  {
  }

  // ---------------------------------------------------------------------
  // Application name

  function CapitalizeAll(pieces: seq<string>): (r: seq<string>)
    ensures |r| == |pieces|
    ensures forall k :: 0 <= k < |pieces| ==> r[k] == Capitalize(pieces[k])
  {
    seq(|pieces|, k requires 0 <= k < |pieces| => Capitalize(pieces[k]))
  }

  /** `human_app_name`: the last `/`-segment of the repository name, split
      on `_`, every piece capitalised, joined with spaces. A name made of
      slashes only has no last segment, and `nil.split` raises: `None`. */
  function HumanAppName(repoName: string): (r: Option<string>)
    ensures r.None? <==> forall i :: 0 <= i < |repoName| ==> repoName[i] == '/'
  {
    RubySplitEmpty(repoName, '/');
    var segments := RubySplit(repoName, '/');
    if |segments| == 0 then None
    else Some(Join(CapitalizeAll(RubySplit(segments[|segments| - 1], '_')), ' '))
  }

  /** For `owner/word_word_…` the application name is the capitalised
      words separated by single spaces. */
  lemma HumanAppNameOfOwnerRepo(owner: string, words: seq<string>)
    requires '/' !in owner
    requires |words| >= 1 && words[|words| - 1] != ""
    requires forall k :: 0 <= k < |words| ==> '/' !in words[k] && '_' !in words[k]
    ensures HumanAppName(owner + "/" + Join(words, '_')) == Some(Join(CapitalizeAll(words), ' '))
  {
    var repo := Join(words, '_');
    JoinAvoids(words, '_', '/');
    RubySplitJoin(words, '_');
    OwnerRepoSegments(owner, repo);
  }

  lemma OwnerRepoSegments(owner: string, repo: string)
    requires '/' !in owner && '/' !in repo && repo != ""
    ensures RubySplit(owner + "/" + repo, '/') == [owner, repo]
  {
    var parts := [owner, repo];
    assert Join(parts, '/') == owner + "/" + repo;
    RubySplitJoin(parts, '/');
  }

  lemma {:induction false} DowncaseCapitalize(w: string)
    ensures Downcase(Capitalize(w)) == Downcase(w)
  {
  }

  /** The application name splits back on spaces into one word per piece,
      and every word is its piece up to letter case. */
  lemma HumanAppNameWords(pieces: seq<string>)
    requires |pieces| >= 1
    requires forall k :: 0 <= k < |pieces| ==> ' ' !in pieces[k]
    ensures Split(Join(CapitalizeAll(pieces), ' '), ' ') == CapitalizeAll(pieces)
    ensures forall k :: 0 <= k < |pieces| ==> Downcase(CapitalizeAll(pieces)[k]) == Downcase(pieces[k])
  {
    var words := CapitalizeAll(pieces);
    forall k | 0 <= k < |words|
      ensures ' ' !in words[k]
      ensures Downcase(words[k]) == Downcase(pieces[k])
    {
      DowncaseCapitalize(pieces[k]);
      if ' ' in words[k] {
        var i :| 0 <= i < |words[k]| && words[k][i] == ' ';
        CaseMappingKeepsSpace(pieces[k][i]);
      }
    }
    SplitJoin(words, ' ');
  }

  // ---------------------------------------------------------------------
  // Comments

  const CommentPrefix := ":octocat: "
  const CommentFailedPrefix := "Unable to write the comment: '"

  /** What the client answers to a comment post. */
  datatype CommentReply = Posted | Unprocessable(message: string) | PostFailed(detail: string)

  /** The comment the client is asked to post. */
  datatype CommentCall = CommentCall(repoName: string, number: int, body: string)

  datatype Commented = Commented(call: CommentCall, result: Result<(), PrError>)

  /** `write_comment`: posts the decorated message; an unprocessable-entity
      answer becomes `CommentFailed` quoting the server's message, any other
      error passes through. */
  function WriteComment(pr: PullRequest, message: string, reply: CommentReply): (r: Commented)
    ensures r.call.repoName == pr.repoName && r.call.number == pr.number
    ensures StartsWith(r.call.body, CommentPrefix) && r.call.body[|CommentPrefix|..] == message
    ensures r.result.Success? <==> reply == Posted
    ensures reply.Unprocessable? ==> r.result.error.CommentFailed?
    ensures reply.PostFailed? ==> r.result == Failure(Propagated(reply.detail))
  {
    var call := CommentCall(pr.repoName, pr.number, CommentPrefix + message);
    match reply
    case Posted => Commented(call, Success(()))
    case Unprocessable(m) => Commented(call, Failure(CommentFailed(CommentFailedPrefix + m + "'")))
    case PostFailed(e) => Commented(call, Failure(Propagated(e)))
  }

  /** The server's message can be read back out of `CommentFailed`. */
  lemma CommentFailedQuotesServer(pr: PullRequest, message: string, server: string)
    ensures var e := WriteComment(pr, message, Unprocessable(server)).result.error;
      && StartsWith(e.message, CommentFailedPrefix)
      && e.message[|e.message| - 1] == '\''
      && e.message[|CommentFailedPrefix|..|e.message| - 1] == server
  {
    var m := CommentFailedPrefix + server + "'";
    assert m[|CommentFailedPrefix|..|m| - 1] == server;
  }
}
