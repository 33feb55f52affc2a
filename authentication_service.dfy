/**
 * AuthenticationServiceV1.authenticate: the POST handler of the REST
 * authentication endpoint. It gates on the media type, decides from the body
 * whether this call starts a login or continues one, hands the call to the
 * authentication engine (a parameter of this model), and turns the engine's
 * JSON or exception into a reply.
 */
module AuthenticationService {
  import opened Types
  import opened RealmView
  import opened Localization
  import opened Responses

  /** What the handler needs from its context: the servlet request and the realm resolved from the URI. */
  datatype Context = Context(servlet: ServletRequest, resolvedRealm: string)

  /** A call into the authentication engine (RestAuthenticationHandler). */
  datatype EngineCall =
    | InitiateCall(request: View, authIndexType: Option<string>, authIndexValue: Option<string>, sessionUpgradeSSOTokenId: Option<string>)
    | ContinueCall(request: View, jsonContent: Json, sessionUpgradeSSOTokenId: Option<string>)

  /** What the engine gives back: the JSON reply, or the exception it throws. */
  type Engine = EngineCall -> Result<Json, Exc>

  /** The engine call made, if any, and what the handler answered. */
  datatype Exchange = Exchange(call: Option<EngineCall>, reply: Outcome<Response>)

  /**
   * isSupportedMediaType: no data, or a JSON content type. It dereferences
   * getEntity(), so a null entity throws here.
   */
  function IsSupportedMediaType(request: Request): (r: Outcome<bool>)
    ensures r.NullPointerException? <==> request.entity.None?
    ensures r.Returned? && !request.entity.value.mayContainData ==> r.value
    ensures r.Returned? && request.entity.value.mayContainData ==>
      (r.value <==> request.contentType == Some("application/json"))
  {
    match request.entity
    case None => NullPointerException
    case Some(entity) => Returned(!entity.mayContainData || request.contentType == Some(APPLICATION_JSON))
  }

  /**
   * getJsonContent: null without an entity, otherwise the parsed entity
   * (a JSON null included, wrapped and so non-null) or the parser's IOException.
   */
  function JsonContent(request: Request): (r: Result<Option<Json>, ExcInfo>)
    ensures r == Success(None) <==> request.entity.None?
    ensures r.Failure? <==> request.entity.Some? && request.entity.value.json.Failure?
    ensures r.Failure? ==> request.entity.value.json == Failure(r.error)
    ensures r.Success? && r.value.Some? ==> request.entity.Some? && request.entity.value.json == Success(r.value.value)
  {
    match request.entity
    case None => Success(None)
    case Some(entity) =>
      match entity.json
      case Success(j) => Success(Some(j))
      case Failure(e) => Failure(e)
  }

  /**
   * The engine call for a parsed body: a non-null body of positive size
   * continues the login with that body; anything else initiates one with
   * the query's index type and value. The session-upgrade token id travels
   * unchanged on both paths.
   */
  function EngineCallFor(view: View, jsonContent: Option<Json>, query: map<string, seq<string>>): (c: EngineCall)
    ensures c.ContinueCall? <==> jsonContent.Some? && Size(jsonContent.value) > 0
    ensures c.ContinueCall? ==> c.jsonContent == jsonContent.value
    ensures c.InitiateCall? ==>
      c.authIndexType == First(query, "authIndexType") && c.authIndexValue == First(query, "authIndexValue")
    ensures c.request == view && c.sessionUpgradeSSOTokenId == First(query, "sessionUpgradeSSOTokenId")
  {
    var upgrade := First(query, "sessionUpgradeSSOTokenId");
    if jsonContent.Some? && Size(jsonContent.value) > 0 then ContinueCall(view, jsonContent.value, upgrade)
    else InitiateCall(view, First(query, "authIndexType"), First(query, "authIndexValue"), upgrade)
  }

  /** The status for an exception caught from the engine, in the order of the catch clauses. */
  function CaughtStatus(e: Exc): (status: int)
    ensures e.AuthResponse? ==> status == e.statusCode
    ensures e.Auth? ==> status == UNAUTHORIZED
    ensures e.Io? ==> status == INTERNAL_SERVER_ERROR
  {
    if e.AuthResponse? then e.statusCode
    else if IsRestAuthException(e) then UNAUTHORIZED
    else INTERNAL_SERVER_ERROR
  }

  /** authenticate, as a specification. */
  function Authenticated(p: Platform, context: Context, request: Request, engine: Engine): Exchange
  {
    match IsSupportedMediaType(request)
    case NullPointerException => Exchange(None, NullPointerException)
    case Returned(false) => Exchange(None, ErrorReply(p, request, UNSUPPORTED_MEDIA_TYPE, None))
    case Returned(true) =>
      var view := ViewFor(context.servlet, context.resolvedRealm);
      match JsonContent(request)
      case Failure(e) => Exchange(None, ErrorReply(p, request, BAD_REQUEST, Some(Io(e))))
      case Success(content) =>
        var call := EngineCallFor(view, content, request.query);
        match engine(call)
        case Success(json) => Exchange(Some(call), Returned(Response(OK, NoCacheHeaders(), json)))
        case Failure(e) => Exchange(Some(call), ErrorReply(p, request, CaughtStatus(e), Some(e)))
  }

  /** authenticate. */
  method Authenticate(p: Platform, context: Context, request: Request, engine: Engine) returns (x: Exchange)
    ensures x == Authenticated(p, context, request, engine)
  {
    var supported := IsSupportedMediaType(request);
    if supported.NullPointerException? {
      return Exchange(None, NullPointerException);
    }
    if !supported.value {
      var r := HandleErrorResponse(p, request, UNSUPPORTED_MEDIA_TYPE, None);
      return Exchange(None, r);
    }
    var view := ViewFor(context.servlet, context.resolvedRealm);
    var content := JsonContent(request);
    if content.Failure? {
      var r := HandleErrorResponse(p, request, BAD_REQUEST, Some(Io(content.error)));
      return Exchange(None, r);
    }
    var call := EngineCallFor(view, content.value, request.query);
    var outcome := engine(call);
    if outcome.Success? {
      var response := CreateResponse(outcome.value);
      return Exchange(Some(call), Returned(response));
    }
    var e := outcome.error;
    var r;
    if e.AuthResponse? {
      r := HandleErrorResponse(p, request, e.statusCode, Some(e));
    } else if IsRestAuthException(e) {
      r := HandleErrorResponse(p, request, UNAUTHORIZED, Some(e));
    } else {
      r := HandleErrorResponse(p, request, INTERNAL_SERVER_ERROR, Some(e));
    }
    return Exchange(Some(call), r);
  }

  /**
   * A request whose getEntity() is null fails in the media-type check,
   * before getJsonContent's own null test is reached: the
   * NullPointerException escapes and the engine is not called.
   */
  lemma MissingEntityThrows(p: Platform, context: Context, request: Request, engine: Engine)
    requires request.entity.None?
    ensures Authenticated(p, context, request, engine) == Exchange(None, NullPointerException)
  {
  }

  /**
   * The engine is reached exactly when the media type is supported and the
   * body parses; an unsupported request is answered 415 with the reason
   * phrase as its message and no headers.
   */
  lemma EngineCalledIffAccepted(p: Platform, context: Context, request: Request, engine: Engine)
    ensures Authenticated(p, context, request, engine).call.Some?
        <==> IsSupportedMediaType(request) == Returned(true) && JsonContent(request).Success?
    ensures IsSupportedMediaType(request) == Returned(false) ==>
      Authenticated(p, context, request, engine).reply
        == Returned(Response(UNSUPPORTED_MEDIA_TYPE, map[], JObj(map["errorMessage" := JStr(p.reasonPhrase(UNSUPPORTED_MEDIA_TYPE))])))
  {
  }

  /**
   * A body that does not parse is answered 400 with the parser exception's
   * localized (or raw) message and no headers, and the engine is not called.
   */
  lemma MalformedBody(p: Platform, context: Context, request: Request, engine: Engine, e: ExcInfo)
    requires IsSupportedMediaType(request) == Returned(true) && JsonContent(request) == Failure(e)
    ensures var x := Authenticated(p, context, request, engine);
      var m := LocalizedMessage(p, AcceptLanguage(request.headers), e);
      && x.call.None?
      && (x.reply.NullPointerException? <==> m.NullPointerException?)
      && (x.reply.Returned? ==>
            && x.reply.value.status == BAD_REQUEST
            && x.reply.value.headers == map[]
            && x.reply.value.entity == JObj(map["errorMessage" := NullableText(m.value)]))
  {
  }

  /**
   * The engine call made: the parsed body is never null once the media type
   * check has passed; the call continues with the body when its size is
   * positive, and initiates with the query's authIndexType and
   * authIndexValue otherwise (a JSON null, an empty object or array, a
   * string, number or boolean); both carry sessionUpgradeSSOTokenId
   * unchanged and the realm-resolving view.
   */
  lemma Classification(p: Platform, context: Context, request: Request, engine: Engine)
    requires IsSupportedMediaType(request) == Returned(true) && JsonContent(request).Success?
    ensures var call := Authenticated(p, context, request, engine).call;
      var content := JsonContent(request).value;
      && content.Some?
      && call.Some?
      && call.value.request == ViewFor(context.servlet, context.resolvedRealm)
      && call.value.sessionUpgradeSSOTokenId == First(request.query, "sessionUpgradeSSOTokenId")
      && (if Size(content.value) > 0
          then call.value == ContinueCall(call.value.request, content.value, call.value.sessionUpgradeSSOTokenId)
          else call.value == InitiateCall(call.value.request, First(request.query, "authIndexType"),
                                          First(request.query, "authIndexValue"), call.value.sessionUpgradeSSOTokenId))
  {
  }

  /**
   * A challenge set sent back with its answers filled in (a non-empty JSON
   * object) continues the login and is never mistaken for a new one.
   */
  lemma ResubmittedChallengesContinue(p: Platform, context: Context, request: Request, engine: Engine, fields: map<string, Json>)
    requires request.entity.Some? && request.entity.value.json == Success(JObj(fields)) && |fields| > 0
    requires !request.entity.value.mayContainData || request.contentType == Some("application/json")
    ensures var call := Authenticated(p, context, request, engine).call;
      call.Some? && call.value.ContinueCall? && call.value.jsonContent == JObj(fields)
  {
  }

  /** The engine sees the explicit non-empty realm parameter if there is one, otherwise the resolved realm. */
  lemma EngineSeesEffectiveRealm(p: Platform, context: Context, request: Request, engine: Engine)
    requires Authenticated(p, context, request, engine).call.Some?
    ensures var explicit := First(context.servlet.params, REALM);
      GetParameter(Authenticated(p, context, request, engine).call.value.request, REALM)
        == if explicit.Some? && explicit.value != "" then explicit else Some(context.resolvedRealm)
  {
  }

  /**
   * When the engine answers with JSON, the reply is 200 with exactly the
   * four no-cache headers and that JSON unchanged as its entity.
   */
  lemma SuccessReply(p: Platform, context: Context, request: Request, engine: Engine, json: Json)
    requires Authenticated(p, context, request, engine).call.Some?
    requires engine(Authenticated(p, context, request, engine).call.value) == Success(json)
    ensures var r := Authenticated(p, context, request, engine).reply;
      && r.Returned? && r.value.status == OK && r.value.entity == json
      && r.value.headers.Keys == {"Cache-Control", "Pragma", "Expires", "Content-Type"}
      && r.value.headers["Cache-Control"] == "no-cache, no-store, must-revalidate"
      && r.value.headers["Pragma"] == "no-cache"
      && r.value.headers["Expires"] == "0"
      && r.value.headers["Content-Type"] == "application/json"
  {
  }

  /**
   * An exception from the engine is reported with the status of the first
   * catch clause that takes it: a RestAuthResponseException its own code
   * (although it is also a RestAuthException), any other RestAuthException
   * 401, an IOException 500.
   */
  lemma EngineFailureStatus(p: Platform, context: Context, request: Request, engine: Engine, e: Exc)
    requires Authenticated(p, context, request, engine).call.Some?
    requires engine(Authenticated(p, context, request, engine).call.value) == Failure(e)
    ensures var x := Authenticated(p, context, request, engine);
      && (x.reply.NullPointerException? ==> !e.AuthResponse?)
      && (x.reply.Returned? ==>
            x.reply.value.status
              == (if e.AuthResponse? then e.statusCode else if e.Auth? then UNAUTHORIZED else INTERNAL_SERVER_ERROR))
  {
  }

  /**
   * Of the statuses authenticate produces, each outcome has exactly one:
   * 415 before parsing, 400 for a parse failure, 200 for engine JSON, and the
   * caught status for an engine exception.
   */
  lemma ReplyStatus(p: Platform, context: Context, request: Request, engine: Engine)
    requires Authenticated(p, context, request, engine).reply.Returned?
    ensures var x := Authenticated(p, context, request, engine);
      x.reply.value.status ==
        if IsSupportedMediaType(request) == Returned(false) then UNSUPPORTED_MEDIA_TYPE
        else if JsonContent(request).Failure? then BAD_REQUEST
        else match engine(x.call.value)
             case Success(_) => OK
             case Failure(e) => CaughtStatus(e)
  {
  }

  /**
   * Only the success path carries the no-cache headers: an error reply has
   * no headers except those a RestAuthResponseException supplies itself.
   */
  lemma ErrorRepliesAddNoHeaders(p: Platform, context: Context, request: Request, engine: Engine)
    requires var x := Authenticated(p, context, request, engine);
      x.reply.Returned? && x.reply.value.status != OK
    requires var x := Authenticated(p, context, request, engine);
      x.call.Some? ==> match engine(x.call.value) case Success(_) => false case Failure(e) => !e.AuthResponse?
    ensures Authenticated(p, context, request, engine).reply.value.headers == map[]
  {
  }
}
