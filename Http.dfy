/** The network layer as the crawler sees it: one `requests.get` call and its
    answer, the exceptions raised along the way, and the checks every response
    goes through before its content is used. */
module Http {
  import opened Wrappers

  /** Why a `requests.HTTPError` was raised. Python callers cannot tell these
      apart by type; the cause records which check raised. */
  datatype HttpCause =
    | BadStatus(code: int)  // response.raise_for_status()
    | Redirected            // check_for_redirect, check_for_302_redirect
    | ForeignSite           // check_url

  /** The exceptions raised along the crawler's code paths. The main loop
      catches the first two; any other one ends the run. */
  datatype Failure =
    | HttpError(cause: HttpCause)
    | ConnectionError
    | ValueError      // a split unpacked into the wrong number of names
    | IndexError      // the first element of an empty selection
    | TypeError       // subscripting an element that was not found
    | AttributeError  // `.get` called on `None`
    | KeyError        // a tag subscripted with an attribute it lacks
    | RequestError    // any other `requests.RequestException` from `requests.get`

  type Bytes = seq<bv8>

  /** What `requests.get` returns once it has followed redirects: the final
      status, the status codes of the hops it followed (`response.history`)
      and the body. */
  datatype Response<C> = Response(status: int, history: seq<int>, content: C)

  /** One `requests.get` call: no connection (`requests.ConnectionError`,
      which includes a connect timeout), another exception of `requests`
      (a read timeout, too many redirects, an invalid address), or a
      response. */
  datatype Reply<C> = Unreachable | Failed | Answered(response: Response<C>)

  /** The statuses `raise_for_status` rejects: client and server errors. */
  predicate IsErrorStatus(status: int)
  {
    400 <= status < 600
  }

  /** `response.raise_for_status()` */
  function RaiseForStatus<C>(r: Response<C>): (o: Outcome<Failure>)
    ensures o.Fail? <==> IsErrorStatus(r.status)
    ensures o.Fail? ==> o.error == HttpError(BadStatus(r.status))
  {
    if IsErrorStatus(r.status) then Fail(HttpError(BadStatus(r.status))) else Pass
  }

  /** `check_for_redirect`: the site answers a request for a missing book by
      redirecting it, so any redirect at all means "missing". */
  function CheckForRedirect(history: seq<int>): (o: Outcome<Failure>)
    ensures o == Pass <==> history == []
    ensures o.Fail? ==> o.error == HttpError(Redirected)
  {
    if |history| > 0 then Fail(HttpError(Redirected)) else Pass
  }

  /** `check_for_302_redirect`: the stricter rule, "missing" only for exactly
      two hops of which the second answered 302. */
  function CheckFor302Redirect(history: seq<int>): (o: Outcome<Failure>)
    ensures o.Fail? <==> |history| == 2 && history[1] == 302
    ensures o.Fail? ==> o.error == HttpError(Redirected)
  {
    if |history| == 2 && history[1] == 302 then Fail(HttpError(Redirected)) else Pass
  }

  /** Whatever the strict rule reports missing the simple rule does too, but
      not the other way round: one hop, or three, pass the strict rule. */
  lemma StrictRuleIsNarrower(history: seq<int>)
    ensures CheckFor302Redirect(history).Fail? ==> CheckForRedirect(history).Fail?
    ensures CheckForRedirect([302]).Fail? && CheckFor302Redirect([302]) == Pass
    ensures CheckFor302Redirect([301, 302, 200]) == Pass
  {
  }

  /** `get_content`: fetch, then `raise_for_status`, then `check_for_redirect`,
      in that order. */
  function GetContent<C>(reply: Reply<C>): (r: Result<C, Failure>)
    ensures reply.Unreachable? ==> r == Err(ConnectionError)
    ensures reply.Failed? ==> r == Err(RequestError)
    ensures reply.Answered? && IsErrorStatus(reply.response.status) ==>
              r == Err(HttpError(BadStatus(reply.response.status)))
    ensures reply.Answered? && !IsErrorStatus(reply.response.status) && reply.response.history != [] ==>
              r == Err(HttpError(Redirected))
    ensures r.Ok? <==> reply.Answered? && !IsErrorStatus(reply.response.status) && reply.response.history == []
    ensures r.Ok? ==> r.value == reply.response.content
  {
    match reply
    case Unreachable => Err(ConnectionError)
    case Failed => Err(RequestError)
    case Answered(response) =>
      match RaiseForStatus(response)
      case Fail(e) => Err(e)
      case Pass =>
        match CheckForRedirect(response.history)
        case Fail(e) => Err(e)
        case Pass => Ok(response.content)
  }

  /** tululu.py's `get_books_file`: like `get_content`, except that a redirect
      is reported and swallowed, giving no content instead of an exception. */
  function GetBooksFile<C>(reply: Reply<C>): (r: Result<Option<C>, Failure>)
    ensures r == match GetContent(reply)
                 case Ok(c) => Ok(Some(c))
                 case Err(HttpError(Redirected)) => Ok(None)
                 case Err(e) => Err(e)
  {
    match reply
    case Unreachable => Err(ConnectionError)
    case Failed => Err(RequestError)
    case Answered(response) =>
      match RaiseForStatus(response)
      case Fail(e) => Err(e)
      case Pass =>
        match CheckForRedirect(response.history)
        case Fail(_) => Ok(None)
        case Pass => Ok(Some(response.content))
  }
}
