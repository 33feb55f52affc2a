/**
 * The servlet request handed to the authentication engine. When the request
 * names no realm of its own, it is wrapped in a read-only view that answers
 * every question about the `realm` parameter with the realm resolved from the
 * URI, and forwards every other question to the original request.
 */
module RealmView {
  import opened Types

  const REALM: string := "realm"

  /** The servlet request's parameters: each name maps to its values. */
  datatype ServletRequest = ServletRequest(params: map<string, seq<string>>)

  /**
   * An entry of getParameterMap(). The servlet container stores String[]
   * values; the wrapper stores the resolved realm as a bare String.
   */
  datatype ParamValue = Values(values: seq<string>) | Single(text: string)

  /** The request as the engine sees it: the original, or the realm-wrapped view. */
  datatype View = Unwrapped(base: ServletRequest) | Wrapped(base: ServletRequest, resolvedRealm: string)

  /** getHttpServletRequest: a non-empty realm parameter keeps the original request. */
  function ViewFor(request: ServletRequest, resolvedRealm: string): (v: View)
    ensures v.base == request
    ensures v.Unwrapped? <==> REALM in request.params && |request.params[REALM]| > 0 && request.params[REALM][0] != ""
    ensures v.Wrapped? ==> v.resolvedRealm == resolvedRealm
  {
    var explicit := First(request.params, REALM);
    if explicit.Some? && explicit.value != "" then Unwrapped(request) else Wrapped(request, resolvedRealm)
  }

  /**
   * getParameter(name): the wrapped view answers `realm` with the resolved
   * realm and forwards every other name; either way it is the first of
   * getParameterValues(name), null when there is none.
   */
  function GetParameter(v: View, name: string): (r: Option<string>)
    ensures v.Wrapped? && name == REALM ==> r == Some(v.resolvedRealm)
    ensures v.Unwrapped? || name != REALM ==> r == First(v.base.params, name)
    ensures var values := GetParameterValues(v, name);
      r.Some? <==> values.Some? && |values.value| > 0
    ensures r.Some? ==> r.value == GetParameterValues(v, name).value[0]
  {
    if v.Wrapped? && name == REALM then Some(v.resolvedRealm) else First(v.base.params, name)
  }

  /**
   * getParameterValues(name): a one-element array holding the resolved realm
   * for `realm` in the wrapped view, otherwise the original request's values,
   * null when the name is absent; non-null exactly for the names of
   * getParameterMap().
   */
  function GetParameterValues(v: View, name: string): (r: Option<seq<string>>)
    ensures v.Wrapped? && name == REALM ==> r == Some([v.resolvedRealm])
    ensures v.Unwrapped? || name != REALM ==> (r.Some? <==> name in v.base.params)
    ensures v.Unwrapped? || name != REALM ==> r.Some? ==> r.value == v.base.params[name]
    ensures r.Some? <==> name in GetParameterMap(v)
  {
    if v.Wrapped? && name == REALM then Some([v.resolvedRealm])
    else if name in v.base.params then Some(v.base.params[name])
    else None
  }

  /** getParameterMap(): a copy of the original map, plus `realm` for the wrapped view. */
  function GetParameterMap(v: View): (m: map<string, ParamValue>)
    ensures m.Keys == v.base.params.Keys + (if v.Wrapped? then {REALM} else {})
  {
    var original := map name | name in v.base.params :: Values(v.base.params[name]);
    if v.Wrapped? then original[REALM := Single(v.resolvedRealm)] else original
  }

  /**
   * getParameterNames(): the wrapped view drains the original request's
   * enumeration into a set, in whatever order it yields the names, and adds
   * `realm`.
   */
  method GetParameterNames(v: View) returns (names: set<string>)
    ensures names == v.base.params.Keys + (if v.Wrapped? then {REALM} else {})
  {
    if v.Unwrapped? {
      return v.base.params.Keys;
    }
    names := {};
    var pending := v.base.params.Keys;
    while pending != {}
      invariant names + pending == v.base.params.Keys
      decreases pending
    {
      var name :| name in pending;
      names := names + {name};
      pending := pending - {name};
    }
    names := names + {REALM};
  }

  /**
   * The realm the engine reads: an explicit non-empty realm parameter wins;
   * otherwise the resolved realm, even when an empty `realm` was sent.
   */
  lemma EffectiveRealm(request: ServletRequest, resolvedRealm: string)
    ensures var explicit := First(request.params, REALM);
      GetParameter(ViewFor(request, resolvedRealm), REALM) ==
        if explicit.Some? && explicit.value != "" then explicit else Some(resolvedRealm)
  {
  }

  /** With an explicit non-empty realm the original request is used unchanged. */
  lemma ExplicitRealmKeepsRequest(request: ServletRequest, resolvedRealm: string)
    requires REALM in request.params && |request.params[REALM]| > 0 && request.params[REALM][0] != ""
    ensures ViewFor(request, resolvedRealm) == Unwrapped(request)
    ensures forall name :: GetParameter(ViewFor(request, resolvedRealm), name) == First(request.params, name)
  {
  }

  /**
   * Without one, every view of `realm` gives the resolved realm, and every
   * other name is answered by the original request.
   */
  lemma WrappedViewFacts(request: ServletRequest, resolvedRealm: string)
    requires First(request.params, REALM) in {None, Some("")}
    ensures var v := ViewFor(request, resolvedRealm);
      && v == Wrapped(request, resolvedRealm)
      && GetParameter(v, REALM) == Some(resolvedRealm)
      && GetParameterValues(v, REALM) == Some([resolvedRealm])
      && REALM in GetParameterMap(v) && GetParameterMap(v)[REALM] == Single(resolvedRealm)
  {
  }

  /** The wrapped view forwards every name other than `realm` to the original request. */
  lemma WrappedViewForwards(request: ServletRequest, resolvedRealm: string, name: string)
    requires name != REALM
    ensures var v := Wrapped(request, resolvedRealm);
      && GetParameter(v, name) == First(request.params, name)
      && GetParameterValues(v, name) == (if name in request.params then Some(request.params[name]) else None)
      && (name in GetParameterMap(v) <==> name in request.params)
      && (name in request.params ==> GetParameterMap(v)[name] == Values(request.params[name]))
  {
  }
}
