/**
 * The locale proxy of apps/web/src/proxy.ts with the URLs built by apps/web/src/i18n/metadata.ts: what a browser that
 * follows redirects and keeps cookies ends up with.
 */
module LocaleProxy {
  import opened Collections
  import opened Text

  const DEFAULT_LOCALE := "en"
  const SUPPORTED_LOCALES := ["en", "tr", "de", "fr", "es"]

  predicate IsAppLocale(s: string) {
    s in SUPPORTED_LOCALES
  }

  /** A pathname of a request. */
  predicate IsPathname(p: string) {
    p != "" && p[0] == '/'
  }

  /** The `matcher`: the proxy sees neither API nor asset requests, nor any path with a dot. */
  predicate Matched(pathname: string)
    requires IsPathname(pathname)
  {
    var rest := pathname[1..];
    !StartsWith(rest, "api") && !StartsWith(rest, "_next") && !StartsWith(rest, "_vercel") && '.' !in rest
  }

  /** The first segment if it is a locale. */
  function PathLocale(pathname: string): Option<string> {
    var segments := Text.Split(pathname, '/');
    if |segments| > 1 && IsAppLocale(segments[1]) then Some(segments[1]) else None
  }

  function PreferredLocale(cookie: Option<string>): string {
    if cookie.Some? && IsAppLocale(cookie.value) then cookie.value else DEFAULT_LOCALE
  }

  /** What the proxy answers; `cookie` is the locale it has the browser save. */
  datatype Response =
    | Redirect(pathname: string, cookie: string)
    | Rewrite(pathname: string, locale: string, cookie: string)

  /** `s.slice(start)` */
  function Slice(s: string, start: nat): string {
    if start <= |s| then s[start..] else ""
  }

  function Proxy(pathname: string, cookie: Option<string>): Response {
    var explicitLocale := PathLocale(pathname);
    if explicitLocale == Some(DEFAULT_LOCALE) then
      Redirect(if pathname == "/en" then "/" else Slice(pathname, 3), DEFAULT_LOCALE)
    else if explicitLocale.Some? then
      var prefix := "/" + explicitLocale.value;
      Rewrite(if pathname == prefix then "/" else Slice(pathname, |prefix|), explicitLocale.value, explicitLocale.value)
    else if PreferredLocale(cookie) != DEFAULT_LOCALE then
      Redirect("/" + PreferredLocale(cookie) + pathname, PreferredLocale(cookie))
    else Rewrite(pathname, DEFAULT_LOCALE, DEFAULT_LOCALE)
  }

  // ---------------------------------------------------------------- locale segments

  /** `pathname` is the locale segment followed by `rest`. */
  predicate Localized(pathname: string, locale: string, rest: string) {
    IsAppLocale(locale) && pathname == "/" + locale + rest && (rest == "" || rest[0] == '/')
  }

  lemma {:induction false} FirstPiece(s: string)
    ensures var first := Text.Split(s, '/')[0];
            '/' !in first && first <= s && (|first| < |s| ==> s[|first|] == '/')
  {
    if s != "" {
      FirstPiece(s[1..]);
    }
  }

  lemma {:induction false} PieceIsFirst(piece: string, rest: string)
    requires '/' !in piece && (rest == "" || rest[0] == '/')
    ensures Text.Split(piece + rest, '/')[0] == piece
  {
    if rest == "" {
      assert piece + rest == piece;
      Text.SplitWhole(piece, '/');
    } else {
      assert piece + rest == piece + "/" + rest[1..];
      Text.SplitHead(piece, rest[1..], '/');
    }
  }

  lemma LeadingSlash(s: string)
    ensures Text.Split("/" + s, '/') == [""] + Text.Split(s, '/')
  {
    assert "" + "/" + s == "/" + s;
    Text.SplitHead("", s, '/');
  }

  lemma LocaleHasNoSlash(locale: string)
    requires IsAppLocale(locale)
    ensures |locale| == 2 && '/' !in locale && '.' !in locale
  {
  }

  lemma LocaleIsNotReserved(locale: string, rest: string)
    requires IsAppLocale(locale)
    ensures !StartsWith(locale + rest, "api")
    ensures !StartsWith(locale + rest, "_next") && !StartsWith(locale + rest, "_vercel")
  {
    assert (locale + rest)[0] == locale[0] && (locale + rest)[1] == locale[1];
  }

  /** The locale of a path is read off exactly when its first segment is that locale. */
  lemma PathLocaleIsFirstSegment(pathname: string, locale: string)
    requires IsPathname(pathname)
    ensures PathLocale(pathname) == Some(locale) <==> exists rest :: Localized(pathname, locale, rest)
  {
    var s := pathname[1..];
    assert pathname == "/" + s;
    LeadingSlash(s);
    if PathLocale(pathname) == Some(locale) {
      FirstPiece(s);
      assert locale == Text.Split(s, '/')[0];
      assert Localized(pathname, locale, s[|locale|..]);
    }
    if rest :| Localized(pathname, locale, rest) {
      LocaleHasNoSlash(locale);
      assert s == locale + rest;
      PieceIsFirst(locale, rest);
    }
  }

  // ---------------------------------------------------------------- following redirects

  /** An upper bound on the redirects that can still follow. */
  function RedirectsLeft(pathname: string, cookie: Option<string>): nat {
    if PathLocale(pathname) == Some(DEFAULT_LOCALE) then |pathname|
    else if PathLocale(pathname).Some? || PreferredLocale(cookie) == DEFAULT_LOCALE then 0
    else 1
  }

  /** The path under a locale segment. */
  function Under(rest: string): string {
    if rest == "" then "/" else rest
  }

  lemma ProxyStripsDefault(pathname: string, rest: string, cookie: Option<string>)
    requires Localized(pathname, DEFAULT_LOCALE, rest)
    ensures Proxy(pathname, cookie) == Redirect(Under(rest), DEFAULT_LOCALE)
    ensures |Under(rest)| < |pathname|
  {
    PathLocaleIsFirstSegment(pathname, DEFAULT_LOCALE);
    assert pathname[3..] == rest;
  }

  lemma ProxyServesLocale(pathname: string, locale: string, rest: string, cookie: Option<string>)
    requires Localized(pathname, locale, rest) && locale != DEFAULT_LOCALE
    ensures Proxy(pathname, cookie) == Rewrite(Under(rest), locale, locale)
  {
    PathLocaleIsFirstSegment(pathname, locale);
    LocaleHasNoSlash(locale);
    assert pathname[3..] == rest;
  }

  lemma RedirectsDwindle(pathname: string, cookie: Option<string>)
    requires IsPathname(pathname) && Proxy(pathname, cookie).Redirect?
    ensures var next := Proxy(pathname, cookie);
            && IsPathname(next.pathname)
            && RedirectsLeft(next.pathname, Some(next.cookie)) < RedirectsLeft(pathname, cookie)
  {
    var next := Proxy(pathname, cookie);
    if PathLocale(pathname) == Some(DEFAULT_LOCALE) {
      PathLocaleIsFirstSegment(pathname, DEFAULT_LOCALE);
      var rest :| Localized(pathname, DEFAULT_LOCALE, rest);
      ProxyStripsDefault(pathname, rest, cookie);
    } else {
      assert Localized(next.pathname, next.cookie, pathname);
      PathLocaleIsFirstSegment(next.pathname, next.cookie);
    }
  }

  /** Where a request ends: past the proxy, or served under a locale that is also the one saved. */
  datatype Landing =
    | PassedThrough(pathname: string)
    | Served(pathname: string, locale: string, cookie: string)

  /** A browser that follows every redirect with the cookie it was given; that it terminates is part of the claim. */
  function Browse(pathname: string, cookie: Option<string>): Landing
    requires IsPathname(pathname)
    decreases RedirectsLeft(pathname, cookie)
  {
    if !Matched(pathname) then PassedThrough(pathname)
    else
      match Proxy(pathname, cookie)
      case Rewrite(p, locale, saved) => Served(p, locale, saved)
      case Redirect(p, saved) =>
        RedirectsDwindle(pathname, cookie);
        Browse(p, Some(saved))
  }

  /** All leading segments of the default locale taken away. */
  function StripDefault(pathname: string): (q: string)
    requires IsPathname(pathname)
    ensures IsPathname(q)
    decreases |pathname|
  {
    if PathLocale(pathname) == Some(DEFAULT_LOCALE) then
      DefaultIsShed(pathname);
      StripDefault(if pathname == "/en" then "/" else Slice(pathname, 3))
    else pathname
  }

  lemma DefaultIsShed(pathname: string)
    requires IsPathname(pathname) && PathLocale(pathname) == Some(DEFAULT_LOCALE)
    ensures var next := if pathname == "/en" then "/" else Slice(pathname, 3);
            && IsPathname(next) && |next| < |pathname|
            && forall cookie :: Proxy(pathname, cookie) == Redirect(next, DEFAULT_LOCALE)
  {
    PathLocaleIsFirstSegment(pathname, DEFAULT_LOCALE);
    var rest :| Localized(pathname, DEFAULT_LOCALE, rest);
    ProxyStripsDefault(pathname, rest, None);
  }

  lemma {:induction false} DefaultChain(pathname: string, cookie: Option<string>)
    requires IsPathname(pathname) && Matched(pathname) && PathLocale(pathname) == Some(DEFAULT_LOCALE)
    ensures var next := if pathname == "/en" then "/" else Slice(pathname, 3);
            IsPathname(next) && Browse(pathname, cookie) == Browse(next, Some(DEFAULT_LOCALE))
  {
    DefaultIsShed(pathname);
  }

  /** An unprefixed path takes one redirect when another locale is saved, and none otherwise. */
  lemma {:induction false} UnprefixedKeepsTheChoice(pathname: string, cookie: Option<string>)
    requires IsPathname(pathname) && Matched(pathname) && PathLocale(pathname).None?
    ensures Browse(pathname, cookie) == Served(pathname, PreferredLocale(cookie), PreferredLocale(cookie))
  {
    var locale := PreferredLocale(cookie);
    if locale != DEFAULT_LOCALE {
      var next := "/" + locale + pathname;
      PrefixedIsServed(pathname, locale, Some(locale), next);
      assert Proxy(pathname, cookie) == Redirect(next, locale);
    }
  }

  /** Without a saved locale, or with one the site does not have, an unprefixed path is served in English at once. */
  lemma UnknownLocaleMeansEnglish(pathname: string, cookie: Option<string>)
    requires IsPathname(pathname) && Matched(pathname) && PathLocale(pathname).None?
    requires cookie.None? || cookie.value !in {"en", "tr", "de", "fr", "es"}
    ensures Proxy(pathname, cookie) == Rewrite(pathname, "en", "en")
    ensures Browse(pathname, cookie) == Served(pathname, "en", "en")
  {
    UnprefixedKeepsTheChoice(pathname, cookie);
  }

  /** The unprefixed paths that are passed through are those of the API, of the framework's own files, and all with a
      dot. */
  lemma PassesThroughExactly(pathname: string, cookie: Option<string>)
    requires IsPathname(pathname) && PathLocale(pathname).None?
    ensures Browse(pathname, cookie).PassedThrough? <==>
            || StartsWith(pathname, "/api") || StartsWith(pathname, "/_next") || StartsWith(pathname, "/_vercel")
            || '.' in pathname
    ensures Browse(pathname, cookie).PassedThrough? ==> Browse(pathname, cookie) == PassedThrough(pathname)
  {
    MatchedExactly(pathname);
    if Matched(pathname) {
      UnprefixedKeepsTheChoice(pathname, cookie);
    }
  }

  lemma MatchedExactly(pathname: string)
    requires IsPathname(pathname)
    ensures Matched(pathname) <==>
            && !StartsWith(pathname, "/api") && !StartsWith(pathname, "/_next") && !StartsWith(pathname, "/_vercel")
            && '.' !in pathname
  {
    BehindTheSlash(pathname, "api");
    BehindTheSlash(pathname, "_next");
    BehindTheSlash(pathname, "_vercel");
    DotOfWhole(pathname);
    assert "/" + "api" == "/api" && "/" + "_next" == "/_next" && "/" + "_vercel" == "/_vercel";
  }

  lemma BehindTheSlash(pathname: string, start: string)
    requires IsPathname(pathname)
    ensures StartsWith(pathname, "/" + start) <==> StartsWith(pathname[1..], start)
  {
    assert pathname == "/" + pathname[1..];
    if StartsWith(pathname[1..], start) {
      assert pathname[..|start| + 1] == "/" + pathname[1..][..|start|];
    }
    if StartsWith(pathname, "/" + start) {
      assert pathname[1..][..|start|] == pathname[..|start| + 1][1..] == start;
    }
  }

  lemma PrefixedIsServed(rest: string, locale: string, cookie: Option<string>, prefixed: string)
    requires (rest == "" || rest[0] == '/') && IsAppLocale(locale) && locale != DEFAULT_LOCALE
    requires prefixed == "/" + locale + rest
    ensures '.' !in rest ==> Matched(prefixed) && Browse(prefixed, cookie) == Served(Under(rest), locale, locale)
    ensures '.' in rest ==> Browse(prefixed, cookie) == PassedThrough(prefixed)
  {
    LocaleHasNoSlash(locale);
    LocaleIsNotReserved(locale, rest);
    assert prefixed[1..] == locale + rest;
    if '.' in rest {
      assert '.' in locale + rest;
    } else {
      ProxyServesLocale(prefixed, locale, rest, cookie);
    }
  }

  /**
   * Where any request ends: leading default-locale segments go, another locale segment decides the locale, and without
   * one the saved locale does, unless a default-locale segment was there to reset it. Only paths the proxy does not
   * see are passed through.
   */
  lemma {:induction false} WhereItLands(
      pathname: string, cookie: Option<string>, q: string, locale: string, rest: string)
    requires IsPathname(pathname) && Matched(pathname) && q == StripDefault(pathname)
    ensures !Matched(q) ==> Browse(pathname, cookie) == PassedThrough(q)
    ensures Matched(q) && Localized(q, locale, rest) ==> Browse(pathname, cookie) == Served(Under(rest), locale, locale)
    ensures Matched(q) && PathLocale(q).None? ==>
              var saved := if q == pathname then PreferredLocale(cookie) else DEFAULT_LOCALE;
              Browse(pathname, cookie) == Served(q, saved, saved)
    decreases |pathname|
  {
    if PathLocale(pathname) == Some(DEFAULT_LOCALE) {
      DefaultChain(pathname, cookie);
      DefaultIsShed(pathname);
      var next := if pathname == "/en" then "/" else Slice(pathname, 3);
      StripShortens(next);
      LocaleBehindDefaultIsSeen(pathname, next);
      if Matched(next) {
        WhereItLands(next, Some(DEFAULT_LOCALE), q, locale, rest);
      }
    } else {
      if PathLocale(pathname).None? {
        UnprefixedKeepsTheChoice(pathname, cookie);
      }
      if Localized(q, locale, rest) {
        OtherLocaleIsServed(pathname, cookie, locale, rest);
      }
    }
  }

  lemma OtherLocaleIsServed(pathname: string, cookie: Option<string>, locale: string, rest: string)
    requires IsPathname(pathname) && Matched(pathname) && PathLocale(pathname) != Some(DEFAULT_LOCALE)
    requires Localized(pathname, locale, rest)
    ensures PathLocale(pathname) == Some(locale)
    ensures Browse(pathname, cookie) == Served(Under(rest), locale, locale)
  {
    PathLocaleIsFirstSegment(pathname, locale);
    PrefixedIsServed(rest, locale, cookie, pathname);
    assert pathname[1..] == locale + rest;
  }

  lemma {:induction false} StripShortens(pathname: string)
    requires IsPathname(pathname)
    ensures |StripDefault(pathname)| <= |pathname|
    decreases |pathname|
  {
    if PathLocale(pathname) == Some(DEFAULT_LOCALE) {
      DefaultIsShed(pathname);
      StripShortens(if pathname == "/en" then "/" else Slice(pathname, 3));
    }
  }

  /** A locale segment behind the default one is seen by the matcher. */
  lemma LocaleBehindDefaultIsSeen(pathname: string, next: string)
    requires IsPathname(pathname) && Matched(pathname) && PathLocale(pathname) == Some(DEFAULT_LOCALE)
    requires IsPathname(next) && (next == "/" || next == Slice(pathname, 3))
    ensures PathLocale(next).Some? ==> Matched(next)
  {
    if PathLocale(next).Some? {
      var locale := PathLocale(next).value;
      PathLocaleIsFirstSegment(next, locale);
      var rest :| Localized(next, locale, rest);
      LocalizedIsNotReserved(next, locale, rest);
      NoNewDots(pathname, next);
    }
  }

  lemma LocalizedIsNotReserved(pathname: string, locale: string, rest: string)
    requires IsPathname(pathname) && Localized(pathname, locale, rest)
    ensures Matched(pathname) <==> '.' !in pathname[1..]
  {
    LocaleIsNotReserved(locale, rest);
    assert pathname[1..] == locale + rest;
  }

  lemma NoNewDots(pathname: string, next: string)
    requires IsPathname(pathname) && IsPathname(next) && (next == "/" || next == Slice(pathname, 3))
    ensures '.' !in pathname[1..] ==> '.' !in next[1..]
  {
    forall i | 0 <= i < |next| - 1
      ensures next[1..][i] in pathname[1..]
    {
      assert next[1..][i] == pathname[1..][i + 3];
    }
  }

  // ---------------------------------------------------------------- the URLs the site publishes

  const SITE_URL := "https://aurict.com"

  function LocalePrefix(locale: string): string {
    if locale == DEFAULT_LOCALE then "" else "/" + locale
  }

  /** `localizedUrl` */
  function LocalizedUrl(path: string, locale: string): string {
    SITE_URL + LocalePrefix(locale) + (if path == "/" then "" else path)
  }

  /** The pathname of a URL of the site; a URL that names only the host has the pathname "/". */
  function PathnameOf(url: string): string
    requires StartsWith(url, SITE_URL)
  {
    Under(url[|SITE_URL|..])
  }

  lemma PathnameOfLocalized(path: string, locale: string)
    requires IsPathname(path) && IsAppLocale(locale)
    ensures var url := LocalizedUrl(path, locale);
            && StartsWith(url, SITE_URL)
            && PathnameOf(url)
               == if locale == DEFAULT_LOCALE then path else "/" + locale + (if path == "/" then "" else path)
  {
    var tail := LocalePrefix(locale) + (if path == "/" then "" else path);
    assert LocalizedUrl(path, locale) == SITE_URL + tail;
  }

  /** A published URL of another locale is served as that path in that locale, whatever the visitor has saved. */
  lemma LocalizedUrlIsServed(path: string, locale: string, cookie: Option<string>)
    requires IsPathname(path) && IsAppLocale(locale) && locale != DEFAULT_LOCALE
    ensures StartsWith(LocalizedUrl(path, locale), SITE_URL) && IsPathname(PathnameOf(LocalizedUrl(path, locale)))
    ensures Browse(PathnameOf(LocalizedUrl(path, locale)), cookie) == Served(path, locale, locale) <==> '.' !in path
  {
    PathnameOfLocalized(path, locale);
    var rest := if path == "/" then "" else path;
    PrefixedIsServed(rest, locale, cookie, "/" + locale + rest);
  }

  /** The default-locale URL of a path is served as that path in the default locale exactly if the proxy sees the path,
      it does not begin with a locale segment, and the visitor has saved no other locale. */
  lemma DefaultUrlFollowsTheCookie(path: string, cookie: Option<string>)
    requires IsPathname(path)
    ensures StartsWith(LocalizedUrl(path, DEFAULT_LOCALE), SITE_URL)
    ensures PathnameOf(LocalizedUrl(path, DEFAULT_LOCALE)) == path
    ensures Browse(path, cookie) == Served(path, DEFAULT_LOCALE, DEFAULT_LOCALE) <==>
            Matched(path) && PathLocale(path).None? && PreferredLocale(cookie) == DEFAULT_LOCALE
  {
    PathnameOfLocalized(path, DEFAULT_LOCALE);
    if Matched(path) {
      if PathLocale(path).None? {
        UnprefixedKeepsTheChoice(path, cookie);
      } else {
        PrefixedLandsElsewhere(path, cookie);
      }
    }
  }

  /** A path that begins with a locale segment is served in another locale, or as a shorter path, or not at all. */
  lemma PrefixedLandsElsewhere(path: string, cookie: Option<string>)
    requires IsPathname(path) && Matched(path) && PathLocale(path).Some?
    ensures Browse(path, cookie) != Served(path, DEFAULT_LOCALE, DEFAULT_LOCALE)
  {
    var q := StripDefault(path);
    if PathLocale(path) == Some(DEFAULT_LOCALE) {
      DefaultIsShed(path);
      StripShortens(if path == "/en" then "/" else Slice(path, 3));
    }
    StripIsComplete(path);
    if PathLocale(q).Some? {
      var locale := PathLocale(q).value;
      PathLocaleIsFirstSegment(q, locale);
      var rest :| Localized(q, locale, rest);
      WhereItLands(path, cookie, q, locale, rest);
    } else {
      WhereItLands(path, cookie, q, DEFAULT_LOCALE, "");
    }
  }

  lemma {:induction false} StripIsComplete(pathname: string)
    requires IsPathname(pathname)
    ensures PathLocale(StripDefault(pathname)) != Some(DEFAULT_LOCALE)
    decreases |pathname|
  {
    if PathLocale(pathname) == Some(DEFAULT_LOCALE) {
      DefaultIsShed(pathname);
      StripIsComplete(if pathname == "/en" then "/" else Slice(pathname, 3));
    }
  }

  /** Choosing a locale by its prefix lasts: the same path without prefix is then served in it. */
  lemma TheChoiceLasts(path: string, locale: string, cookie: Option<string>)
    requires IsPathname(path) && Matched(path) && PathLocale(path).None? && IsAppLocale(locale)
    ensures var chosen := Browse("/" + locale + path, cookie);
            chosen == Served(path, locale, locale) && Browse(path, Some(chosen.cookie)) == Served(path, locale, locale)
  {
    var prefixed := "/" + locale + path;
    DotOfWhole(path);
    if locale == DEFAULT_LOCALE {
      DefaultPrefixIsServed(path, cookie, prefixed);
    } else {
      PrefixedIsServed(path, locale, cookie, prefixed);
    }
    UnprefixedKeepsTheChoice(path, Some(locale));
  }

  lemma DefaultPrefixIsServed(path: string, cookie: Option<string>, prefixed: string)
    requires IsPathname(path) && Matched(path) && PathLocale(path).None? && prefixed == "/" + DEFAULT_LOCALE + path
    ensures Browse(prefixed, cookie) == Served(path, DEFAULT_LOCALE, DEFAULT_LOCALE)
  {
    assert Localized(prefixed, DEFAULT_LOCALE, path);
    ProxyStripsDefault(prefixed, path, cookie);
    LocalizedIsNotReserved(prefixed, DEFAULT_LOCALE, path);
    assert prefixed[1..] == DEFAULT_LOCALE + path;
    DotOfWhole(path);
    UnprefixedKeepsTheChoice(path, Some(DEFAULT_LOCALE));
  }

  lemma DotOfWhole(path: string)
    requires IsPathname(path)
    ensures '.' in path <==> '.' in path[1..]
  {
    assert path == [path[0]] + path[1..];
  }

  /** Different locales or different unprefixed paths never share a URL. */
  lemma LocalizedUrlsAreDistinct(path: string, locale: string, other: string, otherLocale: string)
    requires IsPathname(path) && PathLocale(path).None? && IsAppLocale(locale)
    requires IsPathname(other) && PathLocale(other).None? && IsAppLocale(otherLocale)
    requires LocalizedUrl(path, locale) == LocalizedUrl(other, otherLocale)
    ensures path == other && locale == otherLocale
  {
    PathnameOfLocalized(path, locale);
    PathnameOfLocalized(other, otherLocale);
    var p := PathnameOf(LocalizedUrl(path, locale));
    ReadsOwnLocale(path, locale, p);
    ReadsOwnLocale(other, otherLocale, p);
    if locale != DEFAULT_LOCALE {
      LocaleHasNoSlash(locale);
      assert p[3..] == (if path == "/" then "" else path) == (if other == "/" then "" else other);
    }
  }

  lemma ReadsOwnLocale(path: string, locale: string, p: string)
    requires IsPathname(path) && PathLocale(path).None? && IsAppLocale(locale)
    requires p == if locale == DEFAULT_LOCALE then path else "/" + locale + (if path == "/" then "" else path)
    ensures locale != DEFAULT_LOCALE ==> PathLocale(p) == Some(locale)
    ensures locale == DEFAULT_LOCALE ==> PathLocale(p).None?
  {
    if locale != DEFAULT_LOCALE {
      assert Localized(p, locale, if path == "/" then "" else path);
      PathLocaleIsFirstSegment(p, locale);
    }
  }

  /** `languageAlternates`: later entries replace earlier ones, and every `hrefLang` is its locale's code. */
  function LanguageAlternates(path: string, locales: seq<string>): map<string, string> {
    if locales == [] then map["x-default" := LocalizedUrl(path, DEFAULT_LOCALE)]
    else map[locales[0] := LocalizedUrl(path, locales[0])] + LanguageAlternates(path, locales[1..])
  }

  lemma {:induction false} AlternatesAreComplete(path: string, locales: seq<string>)
    requires forall l :: l in locales ==> IsAppLocale(l)
    ensures LanguageAlternates(path, locales).Keys == (set l | l in locales) + {"x-default"}
    ensures forall l :: l in locales ==> LanguageAlternates(path, locales)[l] == LocalizedUrl(path, l)
    ensures LanguageAlternates(path, locales)["x-default"] == LocalizedUrl(path, DEFAULT_LOCALE)
  {
    if locales != [] {
      AlternatesAreComplete(path, locales[1..]);
      assert forall l :: l in locales <==> l == locales[0] || l in locales[1..];
      assert !IsAppLocale("x-default");
    }
  }
}
