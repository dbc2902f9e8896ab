/**
 * The article language toggle: what it derives from the current pathname
 * (whether it shows at all, the current and other locale, the article slug,
 * the path of the other-language page) and the small state machine behind
 * its button (`mounted`, `isLoading`, `hasTranslation`).
 */
module LanguageToggle {
  import opened Wrappers
  import opened JsStrings

  datatype Locale = En | Fr

  function LocaleName(l: Locale): string {
    if l == En then "en" else "fr"
  }

  function Opposite(l: Locale): Locale {
    if l == En then Fr else En
  }

  /** The toggle only renders under `/en/articles` or `/fr/articles`. */
  predicate IsArticlePage(pathname: string) {
    StartsWith(pathname, "/en/articles") || StartsWith(pathname, "/fr/articles")
  }

  /** `currentLocale`: French exactly on `/fr/articles...`, English everywhere else. */
  function CurrentLocale(pathname: string): Locale {
    if StartsWith(pathname, "/fr/articles") then Fr else En
  }

  /** `otherLocale` */
  function OtherLocale(pathname: string): (l: Locale)
    ensures l != CurrentLocale(pathname)
    ensures l == Fr <==> !StartsWith(pathname, "/fr/articles")
  {
    Opposite(CurrentLocale(pathname))
  }

  /** Length of `/en/articles/` (and of `/fr/articles/`). */
  const ArticlesPrefixLength := 13

  /** The slug captured by `^\/(en|fr)\/articles\/([^/]+)$`, if the path is an article page. */
  function SlugOf(pathname: string): (slug: Option<string>)
    ensures slug.Some? ==> slug.value != [] && Free(slug.value, '/')
    ensures slug.Some? ==> exists l: Locale :: pathname == "/" + LocaleName(l) + "/articles/" + slug.value
  {
    if (StartsWith(pathname, "/en/articles/") || StartsWith(pathname, "/fr/articles/"))
       && |pathname| > ArticlesPrefixLength && Free(pathname[ArticlesPrefixLength..], '/')
    then
      var seg := pathname[ArticlesPrefixLength..];
      assert pathname == pathname[..ArticlesPrefixLength] + seg;
      var l := if StartsWith(pathname, "/en/articles/") then En else Fr;
      assert pathname[..ArticlesPrefixLength] == "/" + LocaleName(l) + "/articles/";
      Some(seg)
    else None
  }

  /** Every `/<locale>/articles/<seg>` with a non-empty `seg` free of '/' yields `seg`. */
  lemma SlugOfArticlePath(l: Locale, seg: string)
    requires seg != [] && Free(seg, '/')
    ensures SlugOf("/" + LocaleName(l) + "/articles/" + seg) == Some(seg)
  {
    var p := "/" + LocaleName(l) + "/articles/" + seg;
    assert p[..ArticlesPrefixLength] == "/" + LocaleName(l) + "/articles/";
    assert p[ArticlesPrefixLength..] == seg;
  }

  /** `pathname.replace(/^\/(en|fr)/, '/' + locale)` */
  function ReplaceLocale(pathname: string, locale: Locale): (r: string)
    ensures (StartsWith(pathname, "/en") || StartsWith(pathname, "/fr")) ==>
              StartsWith(r, "/" + LocaleName(locale)) && r[3..] == pathname[3..]
    ensures !(StartsWith(pathname, "/en") || StartsWith(pathname, "/fr")) ==> r == pathname
  {
    if StartsWith(pathname, "/en") || StartsWith(pathname, "/fr")
    then "/" + LocaleName(locale) + pathname[3..]
    else pathname
  }

  /** The path `handleLocaleChange` navigates to. */
  function SwitchTarget(pathname: string): string {
    if IsArticlePage(pathname) then ReplaceLocale(pathname, OtherLocale(pathname))
    else "/" + LocaleName(OtherLocale(pathname)) + "/articles"
  }

  /**
   * On an article page the switch rewrites only the leading locale, lands on
   * the other locale's article page, and switching again comes back.
   */
  lemma SwitchTwiceRestores(pathname: string)
    requires IsArticlePage(pathname)
    ensures var t := SwitchTarget(pathname);
            && IsArticlePage(t)
            && t[3..] == pathname[3..]
            && CurrentLocale(t) == OtherLocale(pathname)
            && SwitchTarget(t) == pathname
  {
    var t := SwitchTarget(pathname);
    var rest := pathname[3..];
    assert pathname == pathname[..3] + rest;
    assert StartsWith(rest, "/articles");
    if CurrentLocale(pathname) == En {
      assert pathname[..3] == "/en";
      assert t == "/fr" + rest;
      assert t[..12] == "/fr" + rest[..9];
      assert SwitchTarget(t) == "/en" + rest;
    } else {
      assert pathname[..12] == "/fr/articles";
      assert pathname[..3] == "/fr";
      assert t == "/en" + rest;
      assert t[..12] == "/en" + rest[..9];
      assert t[1] == 'e';
      assert SwitchTarget(t) == "/fr" + rest;
    }
  }

  /** The component's state, as React keeps it between renders. */
  class Toggle {
    const pathname: string
    var mounted: bool
    var isLoading: bool
    /** `boolean | null`: unknown until the translation check finishes. */
    var hasTranslation: Option<bool>
    /** Paths handed to `router.push`, oldest first. */
    var navigations: seq<string>

    constructor(pathname: string)
      ensures this.pathname == pathname
      ensures !mounted && !isLoading && hasTranslation == None && navigations == []
    {
      this.pathname := pathname;
      mounted := false;
      isLoading := false;
      hasTranslation := None;
      navigations := [];
    }

    /** Whether the component renders anything at all. */
    function Renders(): (r: bool)
      reads this
      ensures r <==> IsArticlePage(pathname)
      ensures r ==> SwitchTarget(pathname) == ReplaceLocale(pathname, OtherLocale(pathname))
    {
      IsArticlePage(pathname)
    }

    /**
     * The button's `disabled` attribute: set while a switch is loading and
     * when the translation is known to be missing; an unanswered check
     * (`null`) does not disable it.
     */
    function IsDisabled(): (r: bool)
      reads this
      ensures isLoading ==> r
      ensures hasTranslation == Some(false) ==> r
      ensures hasTranslation.None? || hasTranslation == Some(true) ==> (r <==> isLoading)
    {
      isLoading || hasTranslation == Some(false)
    }

    /** `isCheckingTranslation`: an article page whose translation check has not answered. */
    function IsCheckingTranslation(): (r: bool)
      reads this
      ensures SlugOf(pathname).None? ==> !r
      ensures hasTranslation.Some? ==> !r
      ensures SlugOf(pathname).Some? && hasTranslation.None? ==> r
      ensures r ==> (IsDisabled() <==> isLoading)
    {
      hasTranslation.None? && SlugOf(pathname).Some?
    }

    /** A click navigates exactly when the component is mounted and the button is enabled. */
    function ClickSwitches(): (r: bool)
      reads this
      ensures r <==> mounted && !IsDisabled()
    {
      !(!mounted || isLoading || hasTranslation == Some(false))
    }

    /** The mount effect. */
    method Mount()
      modifies this
      ensures mounted
      ensures isLoading == old(isLoading) && hasTranslation == old(hasTranslation)
      ensures navigations == old(navigations)
    {
      mounted := true;
    }

    /**
     * The translation-check effect. Listing pages (no slug) always have a
     * translation; for an article, `headOk` is the `ok` flag of the HEAD
     * request for the other-language path.
     */
    method CheckTranslation(headOk: bool)
      modifies this
      ensures hasTranslation == Some(if SlugOf(pathname).None? then true else headOk)
      ensures !IsCheckingTranslation()
      ensures SlugOf(pathname).None? ==> (IsDisabled() <==> isLoading)
      ensures mounted == old(mounted) && isLoading == old(isLoading)
      ensures navigations == old(navigations)
    {
      if SlugOf(pathname).None? {
        hasTranslation := Some(true);
        return;
      }
      hasTranslation := Some(headOk);
    }

    /** `handleLocaleChange`: ignored unless mounted, idle and not known to lack a translation. */
    method HandleLocaleChange()
      modifies this
      ensures !old(ClickSwitches()) ==>
                mounted == old(mounted) && isLoading == old(isLoading)
                && hasTranslation == old(hasTranslation) && navigations == old(navigations)
      ensures old(ClickSwitches()) ==>
                isLoading && mounted == old(mounted) && hasTranslation == old(hasTranslation)
                && navigations == old(navigations) + [SwitchTarget(pathname)]
    {
      if !mounted || isLoading || hasTranslation == Some(false) {
        return;
      }
      isLoading := true;
      var newPathname: string;
      if StartsWith(pathname, "/en/articles") || StartsWith(pathname, "/fr/articles") {
        newPathname := ReplaceLocale(pathname, OtherLocale(pathname));
      } else {
        newPathname := "/" + LocaleName(OtherLocale(pathname)) + "/articles";
      }
      navigations := navigations + [newPathname];
    }

    /** The timer that clears the loading state after a navigation. */
    method LoadingTimerFires()
      modifies this
      ensures !isLoading
      ensures mounted == old(mounted) && hasTranslation == old(hasTranslation)
      ensures navigations == old(navigations)
    {
      isLoading := false;
    }
  }
}
