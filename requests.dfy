/**
 * Fetching one GitLab API URL with retries. Each attempt races the fetch
 * against a 5000 ms timer; an HTTP error, a timeout or a network error is
 * retried after a pause, and only the last failed attempt is recorded as
 * a failure. The network, the timers and the pause are not modelled: the
 * result of attempt `k` is the parameter `outcome(k)`.
 */
module Requests {
  import opened Options
  import opened Text
  import opened Rows

  /** `RequestConfig::retries`: the retry counter value at which fetching gives up. */
  const Retries := 20

  const GiveUpMessage := "达到最大重试次数"

  /** What the caller knows about a request: its URL and the context it reports failures with. */
  datatype Request = Request(url: string, operation: string, projectName: Option<string>, author: Option<string>)

  /** How one attempt ended. */
  datatype Attempt =
    | Ok(json: string)                         // a 2xx response whose body parsed
    | HttpError(status: nat, statusText: string)
    | Timeout                                  // the 5000 ms timer won the race
    | NetworkError(detail: string)             // the fetch promise rejected
    | Thrown(error: string)                    // an error raised by `?` (building the request, reading the body)
  {
    /** The endings that are logged and retried. */
    predicate Retryable() {
      HttpError? || Timeout? || NetworkError?
    }
  }

  /** The part of `url` before its first "v4/": the API host and path prefix. */
  function ApiPrefix(url: string): (p: string)
    requires Contains(url, "v4/")
    ensures |p| <= |url| && StartsWith(url[|p|..], "v4/")
    ensures forall j | 0 <= j < |p| :: !OccursAt(url, "v4/", j)
  {
    url[..Find(url, "v4/").value]
  }

  /**
   * The URL as failure records show it: the API prefix is removed
   * wherever it occurs, which is `str::replace` with an empty replacement.
   */
  function TrimUrl(url: string): (t: string)
    requires Contains(url, "v4/")
    ensures ApiPrefix(url) == [] ==> t == url
    ensures |t| <= |url| - |ApiPrefix(url)|
    ensures ApiPrefix(url) != [] ==> t == RemoveAll(url[|ApiPrefix(url)|..], ApiPrefix(url))
  {
    var prefix := ApiPrefix(url);
    if prefix != [] then
      assert OccursAt(url, prefix, 0) by { assert url[..|prefix|] == prefix; }
      RemoveAllAtLeftmost(url, prefix, 0);
      RemoveAll(url, prefix)
    else
      RemoveAll(url, prefix)
  }

  /**
   * When the API prefix does not recur later in the URL, trimming leaves
   * exactly the path from the first "v4/" on.
   */
  lemma TrimUrlKeepsPath(url: string)
    requires Contains(url, "v4/")
    requires ApiPrefix(url) == [] || !Contains(url[|ApiPrefix(url)|..], ApiPrefix(url))
    ensures TrimUrl(url) == url[|ApiPrefix(url)|..]
    ensures StartsWith(TrimUrl(url), "v4/")
  {
    var prefix := ApiPrefix(url);
    var path := url[|prefix|..];
    assert url == prefix + path;
    if prefix != [] {
      RemoveAllPrefix(prefix, path);
    }
  }

  /** Removing a non-empty prefix that does not recur leaves the rest. */
  lemma RemoveAllPrefix(prefix: string, rest: string)
    requires prefix != [] && !Contains(rest, prefix)
    ensures RemoveAll(prefix + rest, prefix) == rest
  {
    var s := prefix + rest;
    assert s[..|prefix|] == prefix;
    assert s[|prefix|..] == rest;
    RemoveAllAbsent(rest, prefix);
  }

  /**
   * The error text of a retried attempt; `count` is the number the
   * message shows, one more than the retry counter at that attempt.
   */
  function ErrorMessage(req: Request, a: Attempt, count: nat): (msg: string)
    requires a.Retryable()
    ensures a.HttpError? ==> StartsWith(msg, "HTTP error! status: " + NatToString(a.status) + " ")
    ensures a.HttpError? ==> EndsWith(msg, " " + a.statusText)
    ensures a.Timeout? ==> StartsWith(msg, req.operation + "，第" + NatToString(count) + "次请求失败，请求超时")
    ensures a.Timeout? && count < Retries ==> EndsWith(msg, "请求超时，开始重试...")
    ensures a.Timeout? && count >= Retries ==> EndsWith(msg, "请求超时")
    ensures a.NetworkError? ==> StartsWith(msg, "网络错误: ") && EndsWith(msg, a.detail)
  {
    match a
    case HttpError(status, text) => "HTTP error! status: " + NatToString(status) + " " + text
    case Timeout =>
      req.operation + "，第" + NatToString(count) + "次请求失败，请求超时"
        + (if count < Retries then "，开始重试..." else "")
    case NetworkError(detail) => "网络错误: " + detail
  }

  /** The records `log_request_error` appends: one when `count` has reached the limit, none before. */
  function LogRequestError(req: Request, msg: string, count: nat): (pushed: seq<FailureRecord>)
    requires count >= Retries ==> Contains(req.url, "v4/")
    ensures |pushed| <= 1
    ensures pushed != [] <==> count >= Retries
    ensures forall f | f in pushed :: f.url == TrimUrl(req.url) && f.error == msg && f.operation == req.operation
    ensures forall f | f in pushed :: f.projectName == req.projectName && f.author == req.author
  {
    if count >= Retries then [FailureRecord(TrimUrl(req.url), req.projectName, req.author, req.operation, msg)]
    else []
  }

  /**
   * `fetch_with_retry`: attempts are numbered from 1 (the initial retry
   * counter) and stop at the first success or thrown error, or once the
   * counter reaches `Retries`, which happens after attempt `Retries - 1`.
   */
  method FetchWithRetry(req: Request, outcome: nat -> Attempt)
    returns (r: Result<string, string>, attempts: nat, failures: seq<FailureRecord>)
    requires Contains(req.url, "v4/")
    ensures 1 <= attempts < Retries
    ensures forall k | 1 <= k < attempts :: outcome(k).Retryable()
    ensures outcome(attempts).Ok? ==> r == Success(outcome(attempts).json) && failures == []
    ensures outcome(attempts).Thrown? ==> r == Failure(outcome(attempts).error) && failures == []
    ensures outcome(attempts).Retryable() ==>
      && attempts == Retries - 1
      && r == Failure(GiveUpMessage)
      && failures == LogRequestError(req, ErrorMessage(req, outcome(attempts), Retries), Retries)
  {
    var retryCount: nat := 1;
    attempts, failures := 0, [];
    while retryCount < Retries
      invariant 1 <= retryCount <= Retries && attempts == retryCount - 1
      invariant forall k | 1 <= k <= attempts :: outcome(k).Retryable()
      invariant retryCount < Retries ==> failures == []
      invariant retryCount == Retries ==>
        failures == LogRequestError(req, ErrorMessage(req, outcome(attempts), Retries), Retries)
      decreases Retries - retryCount
    {
      attempts := attempts + 1;
      var a := outcome(attempts);
      match a
      case Ok(json) =>
        r := Success(json);
        return;
      case Thrown(e) =>
        r := Failure(e);
        return;
      case _ =>
        failures := failures + LogRequestError(req, ErrorMessage(req, a, retryCount + 1), retryCount + 1);
        retryCount := retryCount + 1;
    }
    r := Failure(GiveUpMessage);
  }
}
