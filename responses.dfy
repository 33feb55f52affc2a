/**
 * Building the endpoint's replies: the success response with its no-cache
 * headers, and the error response, whose body depends on the kind of
 * exception being reported.
 */
module Responses {
  import opened Types
  import opened Localization

  const CACHE_CONTROL_HEADER_NAME: string := "Cache-Control"
  const NO_CACHE_CACHE_CONTROL_HEADER: string := "no-cache, no-store, must-revalidate"
  const PRAGMA_HEADER_NAME: string := "Pragma"
  const PRAGMA_NO_CACHE_HEADER: string := "no-cache"
  const EXPIRES_HEADER_NAME: string := "Expires"
  const ALWAYS_EXPIRE_HEADER: string := "0"
  const CONTENT_TYPE_HEADER_NAME: string := "Content-Type"
  const APPLICATION_JSON: string := "application/json"

  /** The headers that keep intermediaries from caching a login step. */
  function NoCacheHeaders(): map<string, string>
  {
    map[CACHE_CONTROL_HEADER_NAME := NO_CACHE_CACHE_CONTROL_HEADER,
        PRAGMA_HEADER_NAME := PRAGMA_NO_CACHE_HEADER,
        EXPIRES_HEADER_NAME := ALWAYS_EXPIRE_HEADER,
        CONTENT_TYPE_HEADER_NAME := APPLICATION_JSON]
  }

  /** createResponse: status OK, exactly the four no-cache headers, the engine's JSON as entity. */
  method CreateResponse(json: Json) returns (r: Response)
    ensures r.status == OK
    ensures r.headers == NoCacheHeaders()
    ensures r.entity == json
  {
    var headers: map<string, string> := map[];
    headers := headers[CACHE_CONTROL_HEADER_NAME := NO_CACHE_CACHE_CONTROL_HEADER];
    headers := headers[PRAGMA_HEADER_NAME := PRAGMA_NO_CACHE_HEADER];
    headers := headers[EXPIRES_HEADER_NAME := ALWAYS_EXPIRE_HEADER];
    headers := headers[CONTENT_TYPE_HEADER_NAME := APPLICATION_JSON];
    r := Response(OK, headers, json);
  }

  /** The body fields of an authentication failure: failureUrl when set, and errorMessage. */
  function AuthFailureFields(failureUrl: Option<string>, message: Option<string>): map<string, Json>
  {
    var withUrl: map<string, Json> := if failureUrl.Some? then map["failureUrl" := JStr(failureUrl.value)] else map[];
    withUrl["errorMessage" := NullableText(message)]
  }

  /**
   * handleErrorResponse, as a specification: the reply for `status` and the
   * exception being reported (None for no exception). Checked in the order
   * RestAuthResponseException, RestAuthException, null, anything else.
   */
  function ErrorReply(p: Platform, request: Request, status: int, exception: Option<Exc>): Outcome<Response>
  {
    match exception
    case Some(AuthResponse(_, headers, json)) => Returned(Response(status, headers, JObj(json)))
    case Some(Auth(failureUrl, info)) =>
      (match LocalizedMessage(p, AcceptLanguage(request.headers), info)
       case NullPointerException => NullPointerException
       case Returned(m) => Returned(Response(status, map[], JObj(AuthFailureFields(failureUrl, m)))))
    case None => Returned(Response(status, map[], JObj(map["errorMessage" := JStr(p.reasonPhrase(status))])))
    case Some(Io(info)) =>
      (match LocalizedMessage(p, AcceptLanguage(request.headers), info)
       case NullPointerException => NullPointerException
       case Returned(m) => Returned(Response(status, map[], JObj(map["errorMessage" := NullableText(m)]))))
  }

  /**
   * handleErrorResponse: copies a RestAuthResponseException's headers into
   * the response one entry at a time and fills the body map in place.
   */
  method HandleErrorResponse(p: Platform, request: Request, status: int, exception: Option<Exc>)
    returns (r: Outcome<Response>)
    ensures r == ErrorReply(p, request, status, exception)
  {
    var headers: map<string, string> := map[];
    var rep: map<string, Json> := map[];
    if exception.Some? && exception.value.AuthResponse? {
      var source := exception.value.headers;
      var pending := source.Keys;
      while pending != {}
        invariant pending <= source.Keys
        invariant headers.Keys == source.Keys - pending
        invariant forall name :: name in headers ==> headers[name] == source[name]
        decreases pending
      {
        var name :| name in pending;
        headers := headers[name := source[name]];
        pending := pending - {name};
      }
      assert headers == source;
      rep := rep + exception.value.json;
      assert rep == exception.value.json;
    } else if exception.Some? && IsRestAuthException(exception.value) {
      var failureUrl := exception.value.failureUrl;
      if failureUrl.Some? {
        rep := rep["failureUrl" := JStr(failureUrl.value)];
      }
      var m := GetLocalizedMessage(p, request.headers, exception.value.info);
      if m.NullPointerException? {
        return NullPointerException;
      }
      rep := rep["errorMessage" := NullableText(m.value)];
    } else if exception.None? {
      rep := rep["errorMessage" := JStr(p.reasonPhrase(status))];
    } else {
      var m := GetLocalizedMessage(p, request.headers, exception.value.info);
      if m.NullPointerException? {
        return NullPointerException;
      }
      rep := rep["errorMessage" := NullableText(m.value)];
    }
    return Returned(Response(status, headers, JObj(rep)));
  }

  /** Every error reply carries the status it was asked for. */
  lemma ErrorReplyStatus(p: Platform, request: Request, status: int, exception: Option<Exc>)
    requires ErrorReply(p, request, status, exception).Returned?
    ensures ErrorReply(p, request, status, exception).value.status == status
  {
  }

  /**
   * A RestAuthException's body always holds errorMessage, holds failureUrl
   * exactly when the exception has one, and nothing else.
   */
  lemma AuthFailureBody(p: Platform, request: Request, status: int, failureUrl: Option<string>, info: ExcInfo)
    requires ErrorReply(p, request, status, Some(Auth(failureUrl, info))).Returned?
    ensures var r := ErrorReply(p, request, status, Some(Auth(failureUrl, info))).value;
      && r.entity.JObj?
      && r.entity.fields.Keys == {"errorMessage"} + (if failureUrl.Some? then {"failureUrl"} else {})
      && (failureUrl.Some? ==> r.entity.fields["failureUrl"] == JStr(failureUrl.value))
      && r.entity.fields["errorMessage"]
         == NullableText(LocalizedMessage(p, AcceptLanguage(request.headers), info).value)
  {
  }

  /**
   * The body of every error reply is a JSON object: a RestAuthResponseException's
   * own JSON, unchanged; otherwise it always holds errorMessage, which is the
   * status's reason phrase when there is no exception, and for an exception
   * that is not a RestAuthException is the localized message and the only
   * entry.
   */
  lemma ErrorReplyBody(p: Platform, request: Request, status: int, exception: Option<Exc>)
    requires ErrorReply(p, request, status, exception).Returned?
    ensures var body := ErrorReply(p, request, status, exception).value.entity;
      && body.JObj?
      && (exception.Some? && exception.value.AuthResponse? ==> body.fields == exception.value.json)
      && (exception.None? || !exception.value.AuthResponse? ==> "errorMessage" in body.fields)
      && (exception.None? ==> body.fields == map["errorMessage" := JStr(p.reasonPhrase(status))])
      && (exception.Some? && exception.value.Io? ==>
            body.fields == map["errorMessage" := NullableText(LocalizedMessage(p, AcceptLanguage(request.headers), exception.value.info).value)])
  {
  }

  /**
   * The error path adds no headers of its own: only a RestAuthResponseException
   * can put headers on an error reply, and then only its own.
   */
  lemma ErrorReplyHeaders(p: Platform, request: Request, status: int, exception: Option<Exc>)
    requires ErrorReply(p, request, status, exception).Returned?
    ensures var r := ErrorReply(p, request, status, exception).value;
      r.headers == if exception.Some? && exception.value.AuthResponse? then exception.value.headers else map[]
  {
  }

  /**
   * Only localization can throw: a NullPointerException arises exactly when
   * a localizable RestAuthException or other exception meets a missing
   * catalog entry.
   */
  lemma ErrorReplyThrowsOnlyFromLocalization(p: Platform, request: Request, status: int, exception: Option<Exc>)
    ensures ErrorReply(p, request, status, exception).NullPointerException?
        <==> exception.Some? && !exception.value.AuthResponse?
             && LocalizedMessage(p, AcceptLanguage(request.headers), exception.value.info).NullPointerException?
  {
  }
}
