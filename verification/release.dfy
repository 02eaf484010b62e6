/** The release check: the GitHub releases listing, newest first, and the
    first entry that is not a draft — a pre-release counts as a release. */
module Release {
  import opened Base
  import opened Model

  /** What the HTTP exchange produced: the status code, the status line, and
      the body decoded as a list of releases (or the decoder's error). */
  datatype Response = Response(statusCode: int, status: string, body: Result<seq<GitHubRelease>>)

  const StatusOK := 200
  const NoValidRelease := "no valid release found"

  function StatusError(status: string): string
  {
    "GitHub API returned status " + status
  }

  /** The index of the first release that is not a draft, if any. */
  function FirstNonDraft(releases: seq<GitHubRelease>): (r: Option<nat>)
    ensures r.None? <==> forall k :: 0 <= k < |releases| ==> releases[k].draft
    ensures r.Some? ==> r.value < |releases| && !releases[r.value].draft
    ensures r.Some? ==> forall k :: 0 <= k < r.value ==> releases[k].draft
  {
    if |releases| == 0 then None
    else if !releases[0].draft then Some(0)
    else
      match FirstNonDraft(releases[1..])
      case None => None
      case Some(i) => Some(i + 1)
  }

  /** FetchLatestPreOrStableRelease after the request: a transport error is
      passed on; a status other than 200 is an error before the body is
      decoded; otherwise the first non-draft release. */
  function FetchLatest(response: Result<Response>): (r: Result<GitHubRelease>)
    ensures response.Err? ==> r == Err(response.msg)
    ensures response.Ok? && response.value.statusCode != StatusOK ==> r == Err(StatusError(response.value.status))
    ensures response.Ok? && response.value.statusCode == StatusOK && response.value.body.Err? ==>
      r == Err(response.value.body.msg)
    ensures response.Ok? && response.value.statusCode == StatusOK && response.value.body.Ok? ==>
      var releases := response.value.body.value;
      && (r == Err(NoValidRelease) <==> forall k :: 0 <= k < |releases| ==> releases[k].draft)
      && (r.Ok? ==> exists k :: 0 <= k < |releases| && releases[k] == r.value && !r.value.draft
                              && forall j :: 0 <= j < k ==> releases[j].draft)
  {
    var resp :- response;
    if resp.statusCode != StatusOK then Err(StatusError(resp.status))
    else
      var releases :- resp.body;
      match FirstNonDraft(releases)
      case None => Err(NoValidRelease)
      case Some(i) => Ok(releases[i])
  }

  /** Without a 200 status the body plays no part, even an undecodable one. */
  lemma StatusBeforeBody(code: int, status: string, b1: Result<seq<GitHubRelease>>, b2: Result<seq<GitHubRelease>>)
    requires code != StatusOK
    ensures FetchLatest(Ok(Response(code, status, b1))) == FetchLatest(Ok(Response(code, status, b2)))
  {
  }

  /** The pre-release flags play no part: two listings that agree on every
      entry up to those flags select the entry at the same place. */
  lemma {:induction false} PrereleaseIgnored(a: seq<GitHubRelease>, b: seq<GitHubRelease>)
    requires |a| == |b|
    requires forall k :: 0 <= k < |a| ==> b[k] == a[k].(prerelease := b[k].prerelease)
    ensures FirstNonDraft(a) == FirstNonDraft(b)
    decreases |a|
  {
    if |a| > 0 {
      assert b[0].draft == a[0].draft;
      PrereleaseIgnored(a[1..], b[1..]);
    }
  }

  /** A stable release behind a pre-release is not chosen. */
  lemma PrereleaseFirstWins(pre: GitHubRelease, stable: GitHubRelease)
    requires pre.prerelease && !pre.draft && !stable.prerelease && !stable.draft
    ensures FetchLatest(Ok(Response(StatusOK, "200 OK", Ok([pre, stable])))) == Ok(pre)
  {
  }
}
