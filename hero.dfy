/**
 * The responsive hero background of js/app.js: picking an image URL from
 * `config.heroImage` by viewport width and pixel density, and replacing it
 * by the configured fallback when the picked image fails to load.
 */
module Hero {
  import opened JsValue
  import ConfigLoader

  /** Widths up to this are phones. */
  const MobileMax: int := 480
  /** Widths up to this are tablets; wider is desktop. */
  const TabletMax: int := 768

  /** `heroImage.<key>`. */
  function Variant(hero: Json, key: string): Option<Json>
  {
    Member(Some(hero), key)
  }

  /** `typeof heroImage === 'object' && heroImage.desktop`. */
  predicate IsResponsive(hero: Json)
    ensures IsResponsive(hero) ==> IsTruthy(Variant(hero, "desktop"))
    ensures hero.JStr? || hero.JNum? || hero.JBool? || hero.JNull? ==> !IsResponsive(hero)
  {
    (hero.JObj? || hero.JArr?) && IsTruthy(Variant(hero, "desktop"))
  }

  /**
   * updateHeroImage's choice for a truthy `hero` at viewport `width`;
   * `hiDpi` is `devicePixelRatio > 1.5`.
   */
  function HeroUrl(hero: Json, width: int, hiDpi: bool): (u: Option<Json>)
    ensures !IsResponsive(hero) ==> u == Some(hero)
    ensures IsResponsive(hero) && hiDpi && IsTruthy(Variant(hero, "retina")) ==> u == Variant(hero, "retina")
    ensures IsResponsive(hero) && width > TabletMax ==> IsTruthy(u)
  {
    if IsResponsive(hero) then
      var chosen :=
        if width <= MobileMax then Or(Variant(hero, "mobile"), Variant(hero, "fallback"))
        else if width <= TabletMax then Or(Variant(hero, "tablet"), Or(Variant(hero, "mobile"), Variant(hero, "fallback")))
        else Or(Variant(hero, "desktop"), Variant(hero, "fallback"));
      if hiDpi && IsTruthy(Variant(hero, "retina")) then Or(Variant(hero, "retina"), chosen) else chosen
    else
      Some(hero)
  }

  /** A plain string is used verbatim at every width and density. */
  lemma StringHeroIsVerbatim(s: string, width: int, hiDpi: bool)
    ensures HeroUrl(JStr(s), width, hiDpi) == Some(JStr(s))
  {
  }

  /**
   * Without the retina override: phones take the first present of mobile and
   * fallback; tablets of tablet, mobile and fallback; wider screens always
   * desktop.
   */
  lemma BreakpointChain(hero: Json, width: int, hiDpi: bool)
    requires IsResponsive(hero)
    requires !(hiDpi && IsTruthy(Variant(hero, "retina")))
    ensures width <= MobileMax && IsTruthy(Variant(hero, "mobile")) ==> HeroUrl(hero, width, hiDpi) == Variant(hero, "mobile")
    ensures width <= MobileMax && !IsTruthy(Variant(hero, "mobile")) ==> HeroUrl(hero, width, hiDpi) == Variant(hero, "fallback")
    ensures MobileMax < width <= TabletMax && IsTruthy(Variant(hero, "tablet")) ==> HeroUrl(hero, width, hiDpi) == Variant(hero, "tablet")
    ensures MobileMax < width <= TabletMax && !IsTruthy(Variant(hero, "tablet")) ==> HeroUrl(hero, width, hiDpi) == HeroUrl(hero, MobileMax, hiDpi)
    ensures width > TabletMax ==> HeroUrl(hero, width, hiDpi) == Variant(hero, "desktop")
  {
  }

  /** A present fallback guarantees that some image is chosen at every width. */
  lemma FallbackMeansSomeImage(hero: Json, width: int, hiDpi: bool)
    requires Truthy(hero) && IsTruthy(Variant(hero, "fallback"))
    ensures IsTruthy(HeroUrl(hero, width, hiDpi))
  {
  }

  /** The built-in configuration shows `images/hero.jpg` everywhere. */
  lemma FallbackConfigHero(width: int, hiDpi: bool)
    ensures HeroUrl(ConfigLoader.Fallback().fields["heroImage"], width, hiDpi) == Some(JStr("images/hero.jpg"))
  {
  }

  /** Whenever configuration loading fails, the hero shows `images/hero.jpg`. */
  lemma LoadFailureShowsDefaultHero(fetch: ConfigLoader.Fetch, stored: Option<ConfigLoader.StoredOverride>, width: int, hiDpi: bool)
    requires ConfigLoader.LoadFails(fetch, stored)
    ensures var hero := Member(Some(ConfigLoader.Load(fetch, stored)), "heroImage");
      IsTruthy(hero) && CssUrl(HeroUrl(hero.value, width, hiDpi)) == "url('images/hero.jpg')"
  {
    ConfigLoader.FailureGivesFallback(fetch, stored);
    FallbackConfigHero(width, hiDpi);
  }

  /**
   * The preload's error handler: the fallback replaces the failed URL when it
   * is present and differs from it (`None`: the handler changes nothing).
   */
  function PreloadFallback(hero: Json, failed: Json): (r: Option<Json>)
    ensures r.Some? <==> IsTruthy(Variant(hero, "fallback")) && failed != Variant(hero, "fallback").value
    ensures r.Some? ==> r == Variant(hero, "fallback")
  {
    var fallback := Variant(hero, "fallback");
    if IsTruthy(fallback) && failed != fallback.value then fallback else None
  }

  /** A failing fallback is never retried with itself, so the substitution happens at most once. */
  lemma FallbackNotRetried(hero: Json, failed: Json)
    requires PreloadFallback(hero, failed).Some?
    ensures PreloadFallback(hero, PreloadFallback(hero, failed).value).None?
  {
  }

  /** The CSS `background-image` value for an image URL. */
  function CssUrl(u: Option<Json>): (css: string)
    ensures |css| >= 7 && css[..5] == "url('" && css[|css| - 2..] == "')"
    ensures css[5..|css| - 2] == ToJsString(u)
  {
    "url('" + ToJsString(u) + "')"
  }

  /** The `.hero-bg` element. */
  class HeroBackground {
    const present: bool
    var backgroundImage: string
    /** `background-attachment: fixed` (parallax) rather than `scroll`. */
    var attachmentFixed: bool

    constructor (present: bool)
      ensures this.present == present && backgroundImage == "" && !attachmentFixed
    {
      this.present := present;
      backgroundImage, attachmentFixed := "", false;
    }

    /**
     * updateHeroImage: with the element present and a truthy `heroImage` the
     * background shows the chosen URL, parallax is on above 768 px, and the
     * chosen URL is returned for preloading when it is truthy.
     */
    method Update(config: Json, width: int, hiDpi: bool) returns (preload: Option<Json>)
      modifies this
      ensures var hero := Member(Some(config), "heroImage");
        && (present && IsTruthy(hero) ==>
              var u := HeroUrl(hero.value, width, hiDpi);
              && backgroundImage == CssUrl(u)
              && attachmentFixed == (width > TabletMax)
              && preload == (if IsTruthy(u) then u else None))
        && (!(present && IsTruthy(hero)) ==>
              backgroundImage == old(backgroundImage) && attachmentFixed == old(attachmentFixed) && preload.None?)
    {
      var hero := Member(Some(config), "heroImage");
      if !present || !IsTruthy(hero) {
        return None;
      }
      var u := HeroUrl(hero.value, width, hiDpi);
      backgroundImage := CssUrl(u);
      attachmentFixed := width > TabletMax;
      preload := if IsTruthy(u) then u else None;
    }

    /** The preloaded image `failed` did not load. */
    method PreloadFailed(config: Json, failed: Json)
      requires IsTruthy(Member(Some(config), "heroImage"))
      modifies this
      ensures var r := PreloadFallback(Member(Some(config), "heroImage").value, failed);
        && (present && r.Some? ==> backgroundImage == CssUrl(r))
        && (!(present && r.Some?) ==> backgroundImage == old(backgroundImage))
      ensures attachmentFixed == old(attachmentFixed)
    {
      var r := PreloadFallback(Member(Some(config), "heroImage").value, failed);
      if present && r.Some? {
        backgroundImage := CssUrl(r);
      }
    }
  }
}
