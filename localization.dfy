/**
 * Choosing the human-readable message for a failure: the localizable source
 * (the exception or its cause), the Accept-Language search, the raw-message
 * fallback, and the stripping of the legacy template suffix.
 */
module Localization {
  import opened Types

  /** `delim` occurs in `s` starting at index `i`. */
  predicate OccursAt(s: string, delim: string, i: nat)
  {
    i + |delim| <= |s| && s[i..i + |delim|] == delim
  }

  predicate Contains(s: string, delim: string)
  {
    exists i: nat :: i <= |s| && OccursAt(s, delim, i)
  }

  /** String.indexOf from position `k`: the first occurrence at or after `k`, or -1. */
  function IndexFrom(s: string, delim: string, k: nat): (r: int)
    requires k <= |s|
    ensures r == -1 || (k <= r <= |s| && OccursAt(s, delim, r))
    ensures forall j: nat :: k <= j <= |s| && (r == -1 || j < r) ==> !OccursAt(s, delim, j)
    decreases |s| - k
  {
    if OccursAt(s, delim, k) then k
    else if k == |s| then -1
    else IndexFrom(s, delim, k + 1)
  }

  /** String.indexOf. */
  function IndexOf(s: string, delim: string): (r: int)
    ensures r == -1 <==> !Contains(s, delim)
    ensures r != -1 ==> 0 <= r <= |s| && OccursAt(s, delim, r)
    ensures forall j: nat :: j < r ==> !OccursAt(s, delim, j)
  {
    IndexFrom(s, delim, 0)
  }

  /** An occurrence inside a prefix is an occurrence in the whole string. */
  lemma OccursInPrefix(s: string, delim: string, n: nat, j: nat)
    requires n <= |s| && OccursAt(s[..n], delim, j)
    ensures OccursAt(s, delim, j)
  {
  }

  /**
   * The truncation in localizeMessage: keep what comes before the first
   * delimiter. The result is a prefix of the message; no occurrence starts
   * inside it, and what is cut off starts with the delimiter, so the cut is
   * at the first occurrence; a non-empty delimiter no longer occurs; a
   * message without the delimiter is left alone.
   */
  function StripTemplate(message: string, delim: string): (r: string)
    ensures r <= message
    ensures forall j: nat :: j < |r| ==> !OccursAt(message, delim, j)
    ensures |r| < |message| ==> OccursAt(message, delim, |r|)
    ensures |delim| > 0 ==> !Contains(r, delim)
    ensures !Contains(message, delim) ==> r == message
    ensures |delim| > 0 && Contains(message, delim) ==> |r| < |message|
  {
    var i := IndexOf(message, delim);
    if i > -1 then
      var r := message[..i];
      assert |delim| > 0 ==> !Contains(r, delim) by {
        if |delim| > 0 && Contains(r, delim) {
          var j: nat :| j <= |r| && OccursAt(r, delim, j);
          OccursInPrefix(message, delim, i, j);
        }
      }
      assert |delim| > 0 ==> i < |message|;
      r
    else
      message
  }

  /**
   * The contract of StripTemplate determines its result: the only prefix
   * that has no occurrence starting inside it and either is the whole
   * message or is followed by the delimiter is the stripped message.
   */
  lemma {:induction false} StripTemplateUnique(message: string, delim: string, r: string)
    requires r <= message
    requires forall j: nat :: j < |r| ==> !OccursAt(message, delim, j)
    requires r == message || OccursAt(message, delim, |r|)
    ensures r == StripTemplate(message, delim)
  {
    var s := StripTemplate(message, delim);
    assert |r| == |s| by {
      if |r| < |s| {
        // s has no occurrence before |s|, yet r stops short of the message at an occurrence
      } else if |s| < |r| {
        // symmetric
      }
    }
  }

  /** Stripping a second time changes nothing, whatever the delimiter. */
  lemma StripTemplateIdempotent(message: string, delim: string)
    ensures StripTemplate(StripTemplate(message, delim), delim) == StripTemplate(message, delim)
  {
  }

  /**
   * localizeMessage: the catalog entry for `locale`, truncated. A missing
   * entry (getL10NMessage returning null) makes indexOf throw.
   */
  function LocalizeMessage(p: Platform, catalog: Catalog, locale: Locale): (r: Outcome<string>)
    ensures r.Returned? <==> locale in catalog
    ensures r.Returned? ==> r.value <= catalog[locale] && (|p.delimiter| > 0 ==> !Contains(r.value, p.delimiter))
    ensures r.Returned? ==> forall j: nat :: j < |r.value| ==> !OccursAt(catalog[locale], p.delimiter, j)
    ensures r.Returned? && |r.value| < |catalog[locale]| ==> OccursAt(catalog[locale], p.delimiter, |r.value|)
    ensures r.Returned? && !Contains(catalog[locale], p.delimiter) ==> r.value == catalog[locale]
  {
    if locale in catalog then Returned(StripTemplate(catalog[locale], p.delimiter)) else NullPointerException
  }

  /** The localizable source: the exception itself if it is an L10NMessage, else its cause if that is one. */
  function LocalizableSource(info: ExcInfo): Option<Catalog>
  {
    if info.own.Some? then info.own else info.cause
  }

  /** The Accept-Language header values, or null when the header is absent. */
  function AcceptLanguage(headers: map<string, seq<string>>): Option<seq<string>>
  {
    if "Accept-Language" in headers then Some(headers["Accept-Language"]) else None
  }

  /**
   * The loop over the accepted languages: in order, stopping at the first
   * language whose localized message is non-null. localizeMessage never
   * returns null (it throws instead), so the search ends at the first
   * language; None only for an empty list.
   */
  function SearchLanguages(p: Platform, catalog: Catalog, languages: seq<string>): Outcome<Option<string>>
  {
    if |languages| == 0 then Returned(None)
    else
      match LocalizeMessage(p, catalog, p.localeOf(languages[0]))
      case NullPointerException => NullPointerException
      case Returned(m) => Returned(Some(m))
  }

  /** getLocalizedMessage, as a specification: the message placed in an error body. */
  function LocalizedMessage(p: Platform, acceptLanguage: Option<seq<string>>, info: ExcInfo): Outcome<Option<string>>
  {
    var found :=
      match LocalizableSource(info)
      case None => Returned(None)
      case Some(catalog) =>
        match acceptLanguage
        case None =>
          (match LocalizeMessage(p, catalog, p.defaultLocale)
           case NullPointerException => NullPointerException
           case Returned(m) => Returned(Some(m)))
        case Some(languages) => SearchLanguages(p, catalog, languages);
    match found
    case NullPointerException => NullPointerException
    case Returned(m) => Returned(if m.Some? then m else info.message)
  }

  /** getLocalizedMessage: the language loop with its early exit. */
  method GetLocalizedMessage(p: Platform, headers: map<string, seq<string>>, info: ExcInfo)
    returns (r: Outcome<Option<string>>)
    ensures r == LocalizedMessage(p, AcceptLanguage(headers), info)
  {
    var languages := AcceptLanguage(headers);
    var message: Option<string> := None;
    var source := LocalizableSource(info);
    if source.Some? {
      if languages.None? {
        var m := LocalizeMessage(p, source.value, p.defaultLocale);
        if m.NullPointerException? {
          return NullPointerException;
        }
        message := Some(m.value);
      } else {
        var ls := languages.value;
        // the early exit on a non-null message is the loop's second condition
        var i := 0;
        while i < |ls| && message.None?
          invariant 0 <= i <= |ls|
          invariant (i == 0 && message.None?) || (i == 1 && SearchLanguages(p, source.value, ls) == Returned(message))
          decreases |ls| - i
        {
          var m := LocalizeMessage(p, source.value, p.localeOf(ls[i]));
          if m.NullPointerException? {
            return NullPointerException;
          }
          message := Some(m.value);
          i := i + 1;
        }
      }
    }
    if message.None? {
      message := info.message;
    }
    return Returned(message);
  }

  /** Neither the exception nor its cause is localizable: the raw message. */
  lemma RawMessageWhenNotLocalizable(p: Platform, acceptLanguage: Option<seq<string>>, info: ExcInfo)
    requires info.own.None? && info.cause.None?
    ensures LocalizedMessage(p, acceptLanguage, info) == Returned(info.message)
  {
  }

  /** The exception's own catalog takes precedence over its cause's. */
  lemma OwnCatalogFirst(p: Platform, acceptLanguage: Option<seq<string>>, catalog: Catalog, cause: Option<Catalog>, message: Option<string>)
    ensures LocalizedMessage(p, acceptLanguage, ExcInfo(Some(catalog), cause, message))
         == LocalizedMessage(p, acceptLanguage, ExcInfo(Some(catalog), None, message))
  {
  }

  /** No Accept-Language header: the default locale's entry, truncated. */
  lemma DefaultLocaleWithoutHeader(p: Platform, info: ExcInfo)
    requires LocalizableSource(info).Some?
    ensures var catalog := LocalizableSource(info).value;
      LocalizedMessage(p, None, info) ==
        if p.defaultLocale in catalog then Returned(Some(StripTemplate(catalog[p.defaultLocale], p.delimiter)))
        else NullPointerException
  {
  }

  /** An empty language list finds nothing, so the raw message is used. */
  lemma RawMessageForNoLanguages(p: Platform, info: ExcInfo)
    ensures LocalizedMessage(p, Some([]), info) == Returned(info.message)
  {
  }

  /**
   * With languages, the first one decides: its entry, truncated, or a
   * NullPointerException when the catalog has no entry for it; the later
   * languages are never consulted.
   */
  lemma FirstLanguageDecides(p: Platform, languages: seq<string>, info: ExcInfo)
    requires LocalizableSource(info).Some? && |languages| > 0
    ensures var catalog := LocalizableSource(info).value;
      var locale := p.localeOf(languages[0]);
      LocalizedMessage(p, Some(languages), info) ==
        if locale in catalog then Returned(Some(StripTemplate(catalog[locale], p.delimiter)))
        else NullPointerException
    ensures forall more :: LocalizedMessage(p, Some(languages + more), info) == LocalizedMessage(p, Some(languages), info)
  {
  }

  /** A localized message never carries the legacy delimiter. */
  lemma LocalizedMessageHasNoDelimiter(p: Platform, acceptLanguage: Option<seq<string>>, info: ExcInfo)
    requires |p.delimiter| > 0 && LocalizableSource(info).Some?
    requires LocalizedMessage(p, acceptLanguage, info).Returned?
    requires acceptLanguage != Some([])
    ensures var m := LocalizedMessage(p, acceptLanguage, info).value;
      m.Some? && !Contains(m.value, p.delimiter)
  {
  }
}
