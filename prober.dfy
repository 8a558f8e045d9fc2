/**
 The reachability probe of the server (`checkUrl`, server.js:110-158) with the network taken
 out. Each of its two requests (HEAD, then GET only if HEAD threw) is given by what the
 network did with it, an `Exchange`; `Settle` applies the `validateStatus` option both
 requests pass to axios (server.js:116-118 and 133-135), and `CheckUrl` is the branching of
 the source over the two settled outcomes. The result is JavaScript's `false | string`.
 */
module Prober {
  import opened JsText

  /** A request that obtained no HTTP response: the error code the transport reports
      (`ENOTFOUND`, `ECONNREFUSED`, `ETIMEDOUT`, ... or none) and its message. */
  datatype Fault = Fault(code: Option<string>, message: string)

  /** What the network did with one request: it answered with a status, or it failed. */
  datatype Exchange = Answered(status: nat) | Failed(fault: Fault)

  /** The error an axios call throws: `error.code`, `error.message`, and
      `error.response.status` when a response arrived. */
  datatype RequestError = RequestError(code: Option<string>, message: string, response: Option<nat>)

  /** How an awaited axios call ends: it returns a response, or it throws. */
  datatype Outcome = Completed(status: nat) | Threw(error: RequestError)

  /** The value `checkUrl` resolves to: `false` (the URL works) or a reason string. */
  datatype Verdict = Working | Broken(reason: string) {
    /** How `if (isBroken)` reads the value: a string is true unless it is empty. */
    predicate Truthy() {
      Broken? && reason != ""
    }
  }

  /** `validateStatus: status < 500`. */
  const StatusLimit: nat := 500

  /** axios with `validateStatus`: a response below the limit is returned, one at or above
      it is thrown as an error that carries the response, and a transport failure is thrown
      without a response. axios gives a rejected status the code `ERR_BAD_RESPONSE` for 5xx
      and no code from 600 on (its table of codes is indexed by the hundreds digit minus 4),
      and the message `Request failed with status code <status>`. */
  function Settle(x: Exchange): (o: Outcome)
    ensures o.Completed? <==> x.Answered? && x.status < StatusLimit
    ensures o.Completed? ==> o.status == x.status
    ensures o.Threw? && x.Answered? ==> o.error.response == Some(x.status)
    ensures o.Threw? && x.Failed? ==> o.error == RequestError(x.fault.code, x.fault.message, None)
  {
    match x
    case Answered(s) =>
      if s < StatusLimit then Completed(s)
      else
        var code := if s < 600 then Some("ERR_BAD_RESPONSE") else None;
        Threw(RequestError(code, "Request failed with status code " + Decimal(s), Some(s)))
    case Failed(f) => Threw(RequestError(f.code, f.message, None))
  }

  /** A returned response (server.js:122-126 for HEAD, 138-142 for GET): 2xx and 3xx work,
      any other status is reported as `HTTP <status>`. */
  function StatusVerdict(status: nat): (v: Verdict)
    ensures v == Working <==> 200 <= status < 400
    ensures v.Broken? ==> v.reason == "HTTP " + Decimal(status)
  {
    if 200 <= status < 400 then Working else Broken("HTTP " + Decimal(status))
  }

  /** The reason of a broken status verdict names the status: it is `HTTP ` followed by a
      numeral that reads back as the status. */
  lemma StatusReasonRoundTrip(status: nat)
    ensures var v := StatusVerdict(status);
            v.Broken? ==> |v.reason| > 5 && v.reason[..5] == "HTTP " && AllDigits(v.reason[5..])
                          && ParseDecimal(v.reason[5..]) == status
  {
    var v := StatusVerdict(status);
    if v.Broken? {
      assert v.reason[5..] == Decimal(status);
      ParseDecimalOfDecimal(status);
    }
  }

  /** The reason given for an error thrown by the GET request (server.js:145-155): the first
      of the tests below that applies decides it. */
  function ErrorReason(e: RequestError): (reason: string)
    ensures reason != ""
    ensures reason in {"Domain not found", "Connection refused", "Request timeout", "Unknown error", e.message}
            || (e.response.Some? && reason == "HTTP " + Decimal(e.response.value))
  {
    if e.code == Some("ENOTFOUND") then "Domain not found"
    else if e.code == Some("ECONNREFUSED") then "Connection refused"
    else if e.code == Some("ETIMEDOUT") || Contains(e.message, "timeout") then "Request timeout"
    else if e.response.Some? then "HTTP " + Decimal(e.response.value)
    else if e.message != "" then e.message
    else "Unknown error"
  }

  /** `checkUrl` over the outcomes of its two requests. The GET outcome is consulted only
      when HEAD threw; neither path throws. */
  function CheckUrl(head: Outcome, get: Outcome): (v: Verdict)
    ensures v.Broken? ==> v.reason != ""
  {
    match head
    case Completed(s) => StatusVerdict(s)
    case Threw(_) =>
      match get
      case Completed(s) => StatusVerdict(s)
      case Threw(e) => Broken(ErrorReason(e))
  }

  /** The whole probe: both requests settled by `validateStatus`, then classified. A URL
      works only if one of the two requests got a 2xx or 3xx answer, and a broken one always
      has a reason. */
  function Probe(head: Exchange, get: Exchange): (v: Verdict)
    ensures v == Working ==> AnsweredOk(head) || AnsweredOk(get)
    ensures v.Broken? ==> v.reason != ""
  {
    CheckUrl(Settle(head), Settle(get))
  }

  /** The request answered with a 2xx or 3xx status. */
  predicate AnsweredOk(x: Exchange) {
    x.Answered? && 200 <= x.status < 400
  }

  /** HEAD throws, so that the GET request is made: a transport failure or a status at or
      above the limit. */
  predicate FallsBack(head: Exchange) {
    head.Failed? || head.status >= StatusLimit
  }

  /** A URL works exactly when HEAD answers 2xx/3xx, or HEAD throws and GET answers 2xx/3xx. */
  lemma ProbeWorkingIff(head: Exchange, get: Exchange)
    ensures Probe(head, get) == Working <==> AnsweredOk(head) || (FallsBack(head) && AnsweredOk(get))
  {
  }

  /** Every broken verdict is a non-empty string, so `if (isBroken)` sees exactly the broken
      URLs. */
  lemma ProbeTruthyIffBroken(head: Exchange, get: Exchange)
    ensures Probe(head, get).Truthy() <==> Probe(head, get).Broken?
  {
  }

  /** A HEAD answer below the limit decides the verdict alone: the GET request is never made. */
  lemma HeadAnswerDecides(status: nat, get1: Exchange, get2: Exchange)
    requires status < StatusLimit
    ensures Probe(Answered(status), get1) == Probe(Answered(status), get2) == StatusVerdict(status)
  {
  }

  /** When HEAD throws, its error is discarded: only the GET request matters. */
  lemma HeadErrorDiscarded(head1: Exchange, head2: Exchange, get: Exchange)
    requires FallsBack(head1) && FallsBack(head2)
    ensures Probe(head1, get) == Probe(head2, get)
  {
  }

  /** axios' message for a rejected status never mentions a timeout. */
  lemma RejectionNotTimeout(status: nat)
    ensures !Contains("Request failed with status code " + Decimal(status), "timeout")
  {
    var m := "Request failed with status code " + Decimal(status);
    assert 'm' in "timeout" by {
      assert "timeout"[2] == 'm';
    }
    forall i | 0 <= i < |m|
      ensures m[i] != 'm'
    {
      if i >= 32 {
        assert m[i] == Decimal(status)[i - 32];
      }
    }
    MissingCharNotContained(m, "timeout", 'm');
  }

  /** A status at or above the limit is thrown, and the `catch` of the GET request reports
      it by its status: the error axios throws has no code the source tests for, no message
      that mentions a timeout, and the response attached. */
  lemma RejectionReportsStatus(status: nat)
    requires status >= StatusLimit
    ensures Settle(Answered(status)).Threw?
    ensures ErrorReason(Settle(Answered(status)).error) == "HTTP " + Decimal(status)
  {
    RejectionNotTimeout(status);
  }

  /** When both requests get an HTTP answer, the verdict is that of the HEAD status if it is
      below the limit, and otherwise that of the GET status, at or above the limit too:
      a 5xx from GET is reported as `HTTP <status>`. */
  lemma AnsweredVerdict(headStatus: nat, getStatus: nat)
    ensures Probe(Answered(headStatus), Answered(getStatus))
            == StatusVerdict(if headStatus < StatusLimit then headStatus else getStatus)
  {
    if headStatus >= StatusLimit && getStatus >= StatusLimit {
      RejectionReportsStatus(getStatus);
    }
  }

  /** When HEAD throws and GET fails without a response, the reason is the first that
      applies of: unknown domain, refused connection, timeout (by code or by a message
      mentioning it), else the error's message, else `Unknown error`. No `HTTP` reason can
      arise without a response. */
  lemma FaultVerdict(head: Exchange, f: Fault)
    requires FallsBack(head)
    ensures Probe(head, Failed(f)) == Broken(
              if f.code == Some("ENOTFOUND") then "Domain not found"
              else if f.code == Some("ECONNREFUSED") then "Connection refused"
              else if f.code == Some("ETIMEDOUT") || Contains(f.message, "timeout") then "Request timeout"
              else if f.message != "" then f.message
              else "Unknown error")
  {
  }

  /** A server that refuses HEAD with 405 but serves GET is reported broken: a 405 is below
      the limit, so HEAD returns normally and GET is never tried. */
  lemma MethodNotAllowedNotRetried()
    ensures Probe(Answered(405), Answered(200)) == Broken("HTTP 405")
  {
    assert Decimal(4) == "4";
    assert Decimal(40) == "40";
    assert Decimal(405) == "405";
  }
}
