# AuthenticationServiceV1 in Dafny

A model of the request-handling logic of OpenAM's REST authentication endpoint,
`AuthenticationServiceV1.authenticate`. A POST either starts a login or continues
one by sending back answered callbacks. The handler:

1. rejects a request that has a body whose content type is not `application/json` (415);
2. parses the body and rejects one that does not parse (400);
3. continues the login when the parsed body is non-null and of positive size;
   otherwise it initiates one with the query's `authIndexType` and `authIndexValue`.
   `sessionUpgradeSSOTokenId` is passed on both paths;
4. passes the authentication engine a servlet request. That request is wrapped, so
   that `realm` reads as the realm resolved from the URI, unless the request names a
   non-empty realm itself;
5. answers the engine's JSON with status 200, four no-cache headers and the JSON
   unchanged;
6. turns the engine's exceptions into error replies.
   `RestAuthResponseException` gets its own status, headers and JSON.
   `RestAuthException` gets 401 with `failureUrl` (if set) and a localized `errorMessage`.
   `IOException` gets 500 with a localized `errorMessage`.

The localized message comes from the exception, or else from its cause, if that is an
`L10NMessage`. It is looked up in the default locale when there is no
`Accept-Language` header, and in the listed languages otherwise. It is cut at the
legacy template delimiter. When nothing is localizable or the language list is empty,
the exception's raw message is used.

Modules: `Types` (JSON values, exceptions, requests, responses, platform services),
`RealmView` (the realm-overriding request view), `Localization` (delimiter stripping
and the language search), `Responses` (success and error replies) and
`AuthenticationService` (the handler). Each Java method that works step by step is a
Dafny method: `handleErrorResponse`, `createResponse`, `getLocalizedMessage`,
`getParameterNames`. Each is proved equal to a specification function, or proved to
build exactly the stated value. The specification functions are `Responses.ErrorReply`
for `HandleErrorResponse`, `Localization.LocalizedMessage` (with its language search
`Localization.SearchLanguages`) for `GetLocalizedMessage`, and
`AuthenticationService.Authenticated` for `Authenticate`. The lemmas state the
handler's properties about those functions.

Behaviour of the code worth noting:

- `isSupportedMediaType` calls `getEntity().mayContainData()` before anything tests
  the entity for null. A request without an entity therefore raises a
  `NullPointerException` there, and the null test in `getJsonContent` is never
  reached from `authenticate`.

- The error path adds none of the no-cache headers. An error reply has no headers at
  all, unless a `RestAuthResponseException` supplies its own.
- The 415 reply is not empty: it carries `errorMessage` set to the status's reason
  phrase. The 400 reply for an unparsable body carries `errorMessage` set to the
  parser exception's localized or raw message.
- `localizeMessage` cuts the message at the first occurrence of the delimiter. It
  calls `indexOf` on the catalog's answer before anything checks it for null. A language with no catalog entry therefore raises a
  `NullPointerException`, which escapes `authenticate`. A localized message is never
  null, so the loop's null check never fires and the first listed language always
  decides. A later language is never consulted, even when only a later one has an
  entry.
- "Positive size" is `JsonValue.size()`: an object's entries or an array's elements.
  A non-empty JSON array continues a login. A JSON `null`, a string or a number
  initiates one.
- A `realm` parameter that is present but empty is overridden by the resolved realm.
- The wrapper's `getParameterMap` stores the resolved realm as a bare string, where
  every other entry is a string array (`ParamValue.Single` and `ParamValue.Values`).

## Model

| member | source | states |
|---|---|---|
| `RealmView.ViewFor` | openam-core-rest/src/main/java/org/forgerock/openam/core/rest/authn/http/AuthenticationServiceV1.java:184-190 | the original request is kept exactly when its first `realm` value is present and non-empty; otherwise it is wrapped with the resolved realm; the original is never changed |
| `RealmView.GetParameter` | openam-core-rest/src/main/java/org/forgerock/openam/core/rest/authn/http/AuthenticationServiceV1.java:202-208 | the wrapped view answers `realm` with the resolved realm and forwards every other name to the original request; either way the answer is the first of `getParameterValues`, and null when that is null or empty |
| `RealmView.GetParameterValues` | openam-core-rest/src/main/java/org/forgerock/openam/core/rest/authn/http/AuthenticationServiceV1.java:229-235 | the wrapped view answers `realm` with a one-element array holding the resolved realm; every other name gets the original request's values, or null when it is absent; the answer is non-null exactly for the names in `getParameterMap` |
| `RealmView.GetParameterMap` | openam-core-rest/src/main/java/org/forgerock/openam/core/rest/authn/http/AuthenticationServiceV1.java:210-216 | the map's names are the original request's names, plus `realm` for the wrapped view |
| `RealmView.GetParameterNames` | openam-core-rest/src/main/java/org/forgerock/openam/core/rest/authn/http/AuthenticationServiceV1.java:218-227 | draining the original enumeration gives exactly the original names, plus `realm` for the wrapped view |
| `RealmView.EffectiveRealm` | openam-core-rest/src/main/java/org/forgerock/openam/core/rest/authn/http/AuthenticationServiceV1.java:184-190 | `getParameter("realm")` on the view is the explicit realm when it is non-empty, and the resolved realm otherwise, including when an empty realm was sent |
| `RealmView.ExplicitRealmKeepsRequest` | openam-core-rest/src/main/java/org/forgerock/openam/core/rest/authn/http/AuthenticationServiceV1.java:185-188 | with a non-empty realm parameter the view is the original request, and every `getParameter` answer is the original's |
| `RealmView.WrappedViewFacts` | openam-core-rest/src/main/java/org/forgerock/openam/core/rest/authn/http/AuthenticationServiceV1.java:199-236 | without one, `getParameter` gives the resolved realm for `realm`, `getParameterValues` gives a singleton array of it, and the parameter map contains it |
| `RealmView.WrappedViewForwards` | openam-core-rest/src/main/java/org/forgerock/openam/core/rest/authn/http/AuthenticationServiceV1.java:203-235 | for every name other than `realm`, the wrapped view's `getParameter`, `getParameterValues` and map entry are the original request's |
| `Localization.IndexFrom` | openam-core-rest/src/main/java/org/forgerock/openam/core/rest/authn/http/AuthenticationServiceV1.java:351 | the search from position k returns the first occurrence at or after k, or -1 when there is none |
| `Localization.IndexOf` | openam-core-rest/src/main/java/org/forgerock/openam/core/rest/authn/http/AuthenticationServiceV1.java:351 | `indexOf` is -1 exactly when the delimiter does not occur; otherwise it is an occurrence with none before it |
| `Localization.StripTemplate` | openam-core-rest/src/main/java/org/forgerock/openam/core/rest/authn/http/AuthenticationServiceV1.java:350-354 | the result is a prefix of the message with no occurrence of the delimiter starting inside it, and what is cut off begins with the delimiter: the cut is at the first occurrence; a non-empty delimiter no longer occurs; a message without the delimiter is unchanged, and one with it gets shorter |
| `Localization.StripTemplateUnique` | openam-core-rest/src/main/java/org/forgerock/openam/core/rest/authn/http/AuthenticationServiceV1.java:351-354 | any prefix of the message that has no occurrence starting inside it, and is either the whole message or followed by the delimiter, is the stripped message: the contract of `StripTemplate` determines its result |
| `Localization.StripTemplateIdempotent` | openam-core-rest/src/main/java/org/forgerock/openam/core/rest/authn/http/AuthenticationServiceV1.java:351-354 | stripping twice gives the same result as stripping once, for every delimiter, including the empty one |
| `Localization.LocalizeMessage` | openam-core-rest/src/main/java/org/forgerock/openam/core/rest/authn/http/AuthenticationServiceV1.java:348-356 | it returns normally exactly when the catalog has an entry for the locale, and otherwise throws NullPointerException; a returned message is the entry cut at the first occurrence of the delimiter: a prefix with no occurrence starting inside it, followed by the delimiter when shorter than the entry, the whole entry when the delimiter does not occur, and free of a non-empty delimiter |
| `Localization.GetLocalizedMessage` | openam-core-rest/src/main/java/org/forgerock/openam/core/rest/authn/http/AuthenticationServiceV1.java:321-346 | the language loop with its early exit computes exactly the specified localized message |
| `Localization.RawMessageWhenNotLocalizable` | openam-core-rest/src/main/java/org/forgerock/openam/core/rest/authn/http/AuthenticationServiceV1.java:325-344 | when neither the exception nor its cause is an L10NMessage, the result is the raw `getMessage()`, whatever the languages |
| `Localization.OwnCatalogFirst` | openam-core-rest/src/main/java/org/forgerock/openam/core/rest/authn/http/AuthenticationServiceV1.java:325-329 | when the exception is itself an L10NMessage, its cause is ignored |
| `Localization.DefaultLocaleWithoutHeader` | openam-core-rest/src/main/java/org/forgerock/openam/core/rest/authn/http/AuthenticationServiceV1.java:331-332 | with no Accept-Language header, the result is the default locale's entry, stripped, or NullPointerException when there is no such entry |
| `Localization.RawMessageForNoLanguages` | openam-core-rest/src/main/java/org/forgerock/openam/core/rest/authn/http/AuthenticationServiceV1.java:333-344 | an empty language list finds nothing, so the result is the raw message |
| `Localization.FirstLanguageDecides` | openam-core-rest/src/main/java/org/forgerock/openam/core/rest/authn/http/AuthenticationServiceV1.java:333-339 | with languages listed, the first one's entry, stripped, is the result, or NullPointerException when it has none; appending languages never changes the result |
| `Localization.LocalizedMessageHasNoDelimiter` | openam-core-rest/src/main/java/org/forgerock/openam/core/rest/authn/http/AuthenticationServiceV1.java:330-340 | a message that was localized is non-null and free of the (non-empty) delimiter |
| `Responses.CreateResponse` | openam-core-rest/src/main/java/org/forgerock/openam/core/rest/authn/http/AuthenticationServiceV1.java:262-273 | status 200; exactly the headers Cache-Control `no-cache, no-store, must-revalidate`, Pragma `no-cache`, Expires `0` and Content-Type `application/json` (`NoCacheHeaders`); the entity is the given JSON unchanged |
| `Responses.HandleErrorResponse` | openam-core-rest/src/main/java/org/forgerock/openam/core/rest/authn/http/AuthenticationServiceV1.java:284-311 | the header-copying loop and the in-place body map compute exactly the specified error reply |
| `Responses.ErrorReplyStatus` | openam-core-rest/src/main/java/org/forgerock/openam/core/rest/authn/http/AuthenticationServiceV1.java:285-286 | an error reply carries the status it was given |
| `Responses.AuthFailureBody` | openam-core-rest/src/main/java/org/forgerock/openam/core/rest/authn/http/AuthenticationServiceV1.java:295-300 | a RestAuthException's body has `errorMessage` (the localized message), has `failureUrl` exactly when the exception has one, and has no other field |
| `Responses.ErrorReplyBody` | openam-core-rest/src/main/java/org/forgerock/openam/core/rest/authn/http/AuthenticationServiceV1.java:288-305 | every error body is a JSON object: a RestAuthResponseException's own JSON map unchanged; otherwise it has `errorMessage`, which with no exception is the status's reason phrase and for an exception other than a RestAuthException is the localized message and the only field |
| `Responses.ErrorReplyHeaders` | openam-core-rest/src/main/java/org/forgerock/openam/core/rest/authn/http/AuthenticationServiceV1.java:286-292 | an error reply's headers are the RestAuthResponseException's own, and otherwise none: the no-cache headers are not added |
| `Responses.ErrorReplyThrowsOnlyFromLocalization` | openam-core-rest/src/main/java/org/forgerock/openam/core/rest/authn/http/AuthenticationServiceV1.java:300-305 | the error reply throws exactly when a non-RestAuthResponseException exception is being reported and localizing its message throws |
| `AuthenticationService.IsSupportedMediaType` | openam-core-rest/src/main/java/org/forgerock/openam/core/rest/authn/http/AuthenticationServiceV1.java:168-171 | throws NullPointerException exactly when the request has no entity; otherwise a request whose entity may contain no data is accepted, and one with data is accepted exactly when its content type is `application/json` |
| `AuthenticationService.JsonContent` | openam-core-rest/src/main/java/org/forgerock/openam/core/rest/authn/http/AuthenticationServiceV1.java:246-253 | null exactly when there is no entity; the parser's IOException exactly when the entity does not parse; otherwise the parsed value, a JSON null included |
| `AuthenticationService.EngineCallFor` | openam-core-rest/src/main/java/org/forgerock/openam/core/rest/authn/http/AuthenticationServiceV1.java:132-142 | the call is a continuation exactly when the body is non-null with positive size, and then it carries that body; otherwise it is an initiation with the query's authIndexType and authIndexValue; both carry the view and the query's sessionUpgradeSSOTokenId |
| `AuthenticationService.CaughtStatus` | openam-core-rest/src/main/java/org/forgerock/openam/core/rest/authn/http/AuthenticationServiceV1.java:146-155 | RestAuthResponseException gives its own status code (it is caught before RestAuthException, its superclass), RestAuthException gives 401, IOException gives 500 |
| `AuthenticationService.Authenticate` | openam-core-rest/src/main/java/org/forgerock/openam/core/rest/authn/http/AuthenticationServiceV1.java:107-156 | the handler computes exactly the specified exchange: which engine call it made, if any, and the reply or exception |
| `AuthenticationService.MissingEntityThrows` | openam-core-rest/src/main/java/org/forgerock/openam/core/rest/authn/http/AuthenticationServiceV1.java:109 | a request with no entity makes the media-type check throw NullPointerException, which escapes; the engine is not called |
| `AuthenticationService.EngineCalledIffAccepted` | openam-core-rest/src/main/java/org/forgerock/openam/core/rest/authn/http/AuthenticationServiceV1.java:109-114 | the engine is called exactly when the media type is supported and the body parses; an unsupported request gets 415 with the reason phrase as `errorMessage` and no headers |
| `AuthenticationService.MalformedBody` | openam-core-rest/src/main/java/org/forgerock/openam/core/rest/authn/http/AuthenticationServiceV1.java:124-129 | a body that does not parse gets status 400, no headers and `errorMessage` set to the parser exception's localized or raw message, or the NullPointerException that localizing it raises; the engine is not called |
| `AuthenticationService.Classification` | openam-core-rest/src/main/java/org/forgerock/openam/core/rest/authn/http/AuthenticationServiceV1.java:119-142 | for an accepted request: continue with the body when it is non-null with positive size, initiate with authIndexType and authIndexValue otherwise; sessionUpgradeSSOTokenId is passed unchanged on both paths |
| `AuthenticationService.ResubmittedChallengesContinue` | openam-core-rest/src/main/java/org/forgerock/openam/core/rest/authn/http/AuthenticationServiceV1.java:132-135 | answered callbacks sent back as a non-empty JSON object always continue the login, with that object |
| `AuthenticationService.EngineSeesEffectiveRealm` | openam-core-rest/src/main/java/org/forgerock/openam/core/rest/authn/http/AuthenticationServiceV1.java:184-190 | the request the engine receives reads `realm` as the explicit non-empty realm, or else as the resolved realm |
| `AuthenticationService.SuccessReply` | openam-core-rest/src/main/java/org/forgerock/openam/core/rest/authn/http/AuthenticationServiceV1.java:144 | when the engine returns JSON, the reply is 200 with exactly the four no-cache headers and that JSON unchanged |
| `AuthenticationService.EngineFailureStatus` | openam-core-rest/src/main/java/org/forgerock/openam/core/rest/authn/http/AuthenticationServiceV1.java:146-155 | an engine exception gets the status of the first catch clause that takes it: its own code, 401 or 500; a RestAuthResponseException's reply never throws |
| `AuthenticationService.ReplyStatus` | openam-core-rest/src/main/java/org/forgerock/openam/core/rest/authn/http/AuthenticationServiceV1.java:109-155 | every reply's status is exactly one of 415 (unsupported), 400 (unparsable), 200 (engine JSON) or the caught status, chosen in that order |
| `AuthenticationService.ErrorRepliesAddNoHeaders` | openam-core-rest/src/main/java/org/forgerock/openam/core/rest/authn/http/AuthenticationServiceV1.java:284-311 | a non-200 reply not caused by a RestAuthResponseException carries no headers |

## Left out

- The servlet and context plumbing is not modelled. That covers taking `HttpServletRequest` and `HttpServletResponse` from the context attributes and `Form.fromRequestQuery`. The query is a map from names to values, and the servlet request is its parameter map.
- The `HttpServletResponse` handed to the engine is left out, because the engine is not part of this model.
- JSON parsing of the entity is a foreign library call. Its outcome, a value or an IOException, is part of the request.
- The authentication engine (`RestAuthenticationHandler`) is a function parameter returning JSON or one of the three caught exception kinds. Unchecked exceptions it might throw, which would escape the handler, are not modelled.
- The `L10NMessage` catalog is a finite map from locale to message. `Locale.getLocale`, `Locale.getDefaultLocale`, `Status.getReasonPhrase` and `AuthClientUtils.MSG_DELIMITER` are parameters, because their code is not part of this model.
- `Status.valueOf` is modelled as the status code itself.
- Debug logging is left out: it is a side effect only.
- The HTTP headers classes treat header names case-insensitively. The model compares header names exactly.
- Responses are values assembled in local variables. The identity of the framework's `Response` object is not modelled. Each one is created fresh and never shared before it is returned.
- `RealmView.GetParameterNames` returns a set. The order in which the servlet container enumerates names is not modelled.
- JSON numbers are integers. Floating-point values are not modelled.
- `createResponse` declares `IOException`, but nothing in it can fail in the model.
- `BasicStageConfigVisitor.java` is not part of this model. It only forwards an injected stage and its configuration to an external binder.
