/** `fetchReleases`: one request, then either the rendered release list or the
    error panel. The request itself is a parameter of the model. */
module Fetch {
  import opened Wrappers
  import Decimal
  import opened Releases
  import opened Render

  const NotFoundMessage: string := "Repository not found or has no releases."
  const ApiErrorPrefix: string := "GitHub API Error: "

  /** `response.ok`: a status in the range 200 to 299. */
  predicate IsOk(status: nat) {
    200 <= status <= 299
  }

  /** The HTTP response: its status and what `response.json()` yields, either
      the release list or the parse error's message. */
  datatype Response = Response(status: nat, json: Result<seq<Release>>)

  /** What `await fetch(...)` gave: a response, or a rejection with a message. */
  datatype Attempt = NetworkFailure(message: string) | Responded(response: Response)

  /** The message of the error thrown for a non-ok status, or None when the status is ok. */
  function StatusError(status: nat): (e: Option<string>)
    ensures e.None? <==> IsOk(status)
    ensures status == 404 ==> e == Some(NotFoundMessage)
    ensures !IsOk(status) && status != 404 ==> e == Some(ApiErrorPrefix + Decimal.Show(status))
  {
    if IsOk(status) then None
    else if status == 404 then Some(NotFoundMessage)
    else Some(ApiErrorPrefix + Decimal.Show(status))
  }

  /** The content container after `fetchReleases` has run. */
  function LoadPage(a: Attempt): (c: Content)
    ensures a.NetworkFailure? ==> c == ErrorPanel(ErrorHeadline, a.message)
    ensures a.Responded? && !IsOk(a.response.status) ==>
      c.ErrorPanel? && c.headline == ErrorHeadline && StatusError(a.response.status) == Some(c.detail)
    ensures a.Responded? && IsOk(a.response.status) && a.response.json.Err? ==>
      c == ErrorPanel(ErrorHeadline, a.response.json.message)
    ensures a.Responded? && IsOk(a.response.status) && a.response.json.Ok? ==>
      c == RenderReleases(a.response.json.value)
  {
    match a
    case NetworkFailure(message) => ErrorPanel(ErrorHeadline, message)
    case Responded(response) =>
      match StatusError(response.status)
      case Some(message) => ErrorPanel(ErrorHeadline, message)
      case None =>
        match response.json
        case Err(message) => ErrorPanel(ErrorHeadline, message)
        case Ok(releases) => RenderReleases(releases)
  }

  /** Failure is all or nothing: the release list is shown exactly when the
      request succeeded with an ok status and a body that parsed. */
  lemma ReleasesOnlyOnSuccess(a: Attempt)
    ensures LoadPage(a).ErrorPanel? <==>
      (a.NetworkFailure? || !IsOk(a.response.status) || a.response.json.Err?)
  {
  }

  lemma PrefixCancels(p: string, a: string, b: string)
    ensures p + a == p + b ==> a == b
  {
    assert (p + a)[|p|..] == a;
    assert (p + b)[|p|..] == b;
  }

  /** The error text tells the statuses apart: two different failing statuses
      never produce the same message. */
  lemma StatusErrorInjective(s1: nat, s2: nat)
    requires !IsOk(s1) && !IsOk(s2) && s1 != s2
    ensures StatusError(s1) != StatusError(s2)
  {
    if s1 != 404 && s2 != 404 {
      Decimal.ShowInjective(s1, s2);
      PrefixCancels(ApiErrorPrefix, Decimal.Show(s1), Decimal.Show(s2));
    } else {
      var other := if s1 == 404 then s2 else s1;
      assert (ApiErrorPrefix + Decimal.Show(other))[0] == 'G' != NotFoundMessage[0];
    }
  }

  /** A server error 500 is reported as `GitHub API Error: 500`. */
  lemma ServerErrorMessage()
    ensures LoadPage(Responded(Response(500, Ok([])))) == ErrorPanel(ErrorHeadline, "GitHub API Error: 500")
  {
    assert Decimal.Show(500) == "500" by {
      assert Decimal.Show(5) == "5";
      assert Decimal.Show(50) == "50";
    }
  }
}
