/**
 * Values shared by the authentication REST endpoint model: JSON values, the
 * exception taxonomy raised by the authentication engine, HTTP-level requests
 * and responses, and the platform services the endpoint consults but whose
 * code is not part of this model (locale resolution, reason phrases, the
 * legacy message delimiter).
 */
module Types {

  datatype Option<+T> = None | Some(value: T)

  datatype Result<+R, +E> = Success(value: R) | Failure(error: E)

  /** A Java call that either returns normally or throws a NullPointerException. */
  datatype Outcome<+T> = Returned(value: T) | NullPointerException

  /** A JSON value; numbers are kept integral. */
  datatype Json =
    | JNull
    | JBool(b: bool)
    | JNum(n: int)
    | JStr(s: string)
    | JArr(items: seq<Json>)
    | JObj(fields: map<string, Json>)

  /** JsonValue.size(): entries of an object, elements of an array, zero otherwise. */
  function Size(j: Json): nat
  {
    match j
    case JObj(fields) => |fields|
    case JArr(items) => |items|
    case _ => 0
  }

  /** A Java string that may be null, as a JSON value. */
  function NullableText(s: Option<string>): Json
  {
    match s
    case Some(t) => JStr(t)
    case None => JNull
  }

  type Locale = string

  /** An L10NMessage: getL10NMessage(locale) gives the entry, or null when absent. */
  type Catalog = map<Locale, string>

  /**
   * What the endpoint can see of a thrown exception: whether the exception
   * itself, or its cause, is an L10NMessage (and with which catalog), and
   * getMessage(), which may be null.
   */
  datatype ExcInfo = ExcInfo(own: Option<Catalog>, cause: Option<Catalog>, message: Option<string>)

  /** The exceptions the endpoint catches. */
  datatype Exc =
      /** RestAuthResponseException: a subclass of RestAuthException carrying its own reply. */
    | AuthResponse(statusCode: int, headers: map<string, string>, json: map<string, Json>)
      /** RestAuthException: an authentication failure, possibly with a failure URL. */
    | Auth(failureUrl: Option<string>, info: ExcInfo)
      /** Any IOException. */
    | Io(info: ExcInfo)

  /** `instanceof RestAuthException`, which a RestAuthResponseException also is. */
  predicate IsRestAuthException(e: Exc)
  {
    e.AuthResponse? || e.Auth?
  }

  /**
   * A request entity: its mayContainData(), and the outcome of parsing it as
   * JSON with getJson(); the parser is not part of this model.
   */
  datatype Entity = Entity(mayContainData: bool, json: Result<Json, ExcInfo>)

  /**
   * An inbound HTTP request. `contentType` is the type part of its
   * Content-Type header (None when absent); `entity` is None when
   * getEntity() returns null.
   */
  datatype Request = Request(
    contentType: Option<string>,
    entity: Option<Entity>,
    query: map<string, seq<string>>,
    headers: map<string, seq<string>>)

  /** Form.getFirst / Headers lookup: the first value of a multi-valued parameter, or null. */
  function First(params: map<string, seq<string>>, name: string): Option<string>
  {
    if name in params && |params[name]| > 0 then Some(params[name][0]) else None
  }

  /** An outbound HTTP response: a status, single-valued headers and an entity. */
  datatype Response = Response(status: int, headers: map<string, string>, entity: Json)

  const OK: int := 200
  const BAD_REQUEST: int := 400
  const UNAUTHORIZED: int := 401
  const UNSUPPORTED_MEDIA_TYPE: int := 415
  const INTERNAL_SERVER_ERROR: int := 500

  /**
   * Services the endpoint calls but whose code is not part of this model:
   * Locale.getDefaultLocale(), Locale.getLocale(tag), Status.getReasonPhrase()
   * and AuthClientUtils.MSG_DELIMITER.
   */
  datatype Platform = Platform(
    defaultLocale: Locale,
    localeOf: string -> Locale,
    reasonPhrase: int -> string,
    delimiter: string)
}
