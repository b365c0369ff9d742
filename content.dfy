/**
 * Small content helpers of js/app.js: how `updateElement` writes a config
 * value into the page, the file name of the calendar download, and the logo
 * size CSS variables set by populateBranding.
 */
module Content {
  import opened JsValue

  // ----- updateElement --------------------------------------------------------

  /** What updateElement does to the element. */
  datatype Write =
    | Skip               // no element, or falsy content
    | Html(html: string) // `innerHTML = content`
    | Text(text: string) // `textContent = content`

  /** updateElement's decision for an element that exists iff `present`. */
  function UpdateElement(present: bool, content: Option<Json>): (w: Write)
    ensures w.Skip? <==> !present || !IsTruthy(content)
    ensures w.Html? <==> present && content.Some? && content.value.JStr? && '<' in content.value.s
  {
    if present && IsTruthy(content) then
      if content.value.JStr? && '<' in content.value.s then Html(content.value.s)
      else Text(ToJsString(content))
    else Skip
  }

  /**
   * Whatever is written is the content's own string form: markup goes in
   * unchanged as HTML, everything else becomes text.
   */
  lemma WrittenStringIsContent(present: bool, content: Option<Json>)
    ensures UpdateElement(present, content).Html? ==> UpdateElement(present, content).html == ToJsString(content)
    ensures UpdateElement(present, content).Text? ==> UpdateElement(present, content).text == ToJsString(content)
  {
  }

  /** A string without `<` is written verbatim as text. */
  lemma PlainStringIsText(s: string)
    requires s != "" && '<' !in s
    ensures UpdateElement(true, Some(JStr(s))) == Text(s)
  {
  }

  // ----- calendar file name ---------------------------------------------------

  /** `[a-zA-Z0-9]`. */
  predicate IsAlnum(c: char)
  {
    'a' <= c <= 'z' || 'A' <= c <= 'Z' || '0' <= c <= '9'
  }

  /** `s.replace(/[^a-zA-Z0-9]/g, '')`. */
  function StripNonAlnum(s: string): (r: string)
    ensures |r| <= |s|
    ensures forall k :: 0 <= k < |r| ==> IsAlnum(r[k])
  {
    if s == [] then []
    else if IsAlnum(s[0]) then [s[0]] + StripNonAlnum(s[1..])
    else StripNonAlnum(s[1..])
  }

  /** Stripping distributes over concatenation. */
  lemma {:induction false} StripConcat(a: string, b: string)
    ensures StripNonAlnum(a + b) == StripNonAlnum(a) + StripNonAlnum(b)
  {
    if a == [] {
      assert a + b == b;
    } else {
      assert (a + b)[0] == a[0];
      assert (a + b)[1..] == a[1..] + b;
      StripConcat(a[1..], b);
      if IsAlnum(a[0]) {
        assert StripNonAlnum(a + b) == [a[0]] + (StripNonAlnum(a[1..]) + StripNonAlnum(b));
      } else {
        assert StripNonAlnum(a + b) == StripNonAlnum(a[1..]) + StripNonAlnum(b);
      }
    }
  }

  /** Alphanumeric text is left as it is, so stripping twice is stripping once. */
  lemma {:induction false} StripKeepsAlnum(s: string)
    requires forall k :: 0 <= k < |s| ==> IsAlnum(s[k])
    ensures StripNonAlnum(s) == s
  {
    if s != [] {
      StripKeepsAlnum(s[1..]);
    }
  }

  lemma StripIdempotent(s: string)
    ensures StripNonAlnum(StripNonAlnum(s)) == StripNonAlnum(s)
  {
    StripKeepsAlnum(StripNonAlnum(s));
  }

  /** Every alphanumeric character of `s` survives, in order: the count of each is kept. */
  lemma {:induction false} StripKeepsEachAlnumCount(s: string, c: char)
    requires IsAlnum(c)
    ensures multiset(StripNonAlnum(s))[c] == multiset(s)[c]
  {
    if s != [] {
      assert s == [s[0]] + s[1..];
      StripKeepsEachAlnumCount(s[1..], c);
    }
  }

  /** The `download` name of the generated calendar file. */
  function CalendarFileName(names: string): (f: string)
    ensures |f| >= |"-Wedding.ics"| && f[|f| - |"-Wedding.ics"|..] == "-Wedding.ics"
    ensures f[..|f| - |"-Wedding.ics"|] == StripNonAlnum(names)
  {
    StripNonAlnum(names) + "-Wedding.ics"
  }

  // ----- logo sizes -------------------------------------------------------------

  /** `${v}px`. */
  function Px(v: Option<Json>): string
  {
    ToJsString(v) + "px"
  }

  /** Whether `${v}px` came from printing `v`: the text is that string followed by `px`. */
  predicate IsPxOf(css: string, v: Option<Json>)
  {
    |css| >= 2 && css[|css| - 2..] == "px" && css[..|css| - 2] == ToJsString(v)
  }

  /**
   * The `--nav-logo-size-desktop` and `--nav-logo-size-mobile` values for a
   * truthy `branding.nav.size`: an object (`typeof` is `'object'`, which
   * includes arrays) gives its `desktop` and `mobile` members, anything
   * else one value for both layouts.
   */
  function NavLogoSizes(size: Json): (r: (string, string))
    ensures size.JObj? || size.JArr? ==>
      IsPxOf(r.0, Member(Some(size), "desktop")) && IsPxOf(r.1, Member(Some(size), "mobile"))
    ensures !(size.JObj? || size.JArr?) ==> r.0 == r.1 && IsPxOf(r.0, Some(size))
  {
    if size.JObj? || size.JArr? then (Px(Member(Some(size), "desktop")), Px(Member(Some(size), "mobile")))
    else (Px(Some(size)), Px(Some(size)))
  }

  /** A numeric size `n` gives `npx` for both layouts. */
  lemma NumberSizeForBoth(n: int)
    ensures NavLogoSizes(JNum(n)) == (IntString(n) + "px", IntString(n) + "px")
  {
  }

  /** An object with numeric `desktop` and `mobile` sizes gives each its own value. */
  lemma ResponsiveSizes(m: map<string, Json>, desktop: int, mobile: int)
    requires "desktop" in m && m["desktop"] == JNum(desktop)
    requires "mobile" in m && m["mobile"] == JNum(mobile)
    ensures NavLogoSizes(JObj(m)) == (IntString(desktop) + "px", IntString(mobile) + "px")
  {
  }

  /** In an object the two layouts are set separately: changing one member leaves the other value alone. */
  lemma ResponsiveSizesIndependent(m: map<string, Json>, v: Json)
    ensures NavLogoSizes(JObj(m["mobile" := v])).0 == NavLogoSizes(JObj(m)).0
    ensures NavLogoSizes(JObj(m["desktop" := v])).1 == NavLogoSizes(JObj(m)).1
  {
  }

  /**
   * A member the object lacks prints as `undefinedpx`; so does every value
   * of an array size, which has neither member.
   */
  lemma MissingSizeIsUndefinedPx(m: map<string, Json>, items: seq<Json>)
    ensures "desktop" !in m ==> NavLogoSizes(JObj(m)).0 == "undefinedpx"
    ensures "mobile" !in m ==> NavLogoSizes(JObj(m)).1 == "undefinedpx"
    ensures NavLogoSizes(JArr(items)) == ("undefinedpx", "undefinedpx")
  {
    assert "desktop"[0] != "length"[0] && "mobile"[0] != "length"[0];
    assert Member(Some(JArr(items)), "desktop") == Member(Some(JArr(items)), "mobile") == None;
    assert Px(None) == "undefined" + "px" == "undefinedpx";
  }

  /** The CSS custom properties on `document.documentElement`. */
  class RootStyle {
    var properties: map<string, string>

    constructor ()
      ensures properties == map[]
    {
      properties := map[];
    }

    /**
     * populateBranding's size rules: a truthy `branding.nav.size` sets both
     * nav variables, a truthy `branding.footer.size` sets the footer one.
     */
    method ApplyLogoSizes(config: Json)
      modifies this
      ensures var nav := Member(Member(Member(Some(config), "branding"), "nav"), "size");
        var footer := Member(Member(Member(Some(config), "branding"), "footer"), "size");
        var withNav := if IsTruthy(nav) then
            old(properties)["--nav-logo-size-desktop" := NavLogoSizes(nav.value).0]["--nav-logo-size-mobile" := NavLogoSizes(nav.value).1]
          else old(properties);
        properties == if IsTruthy(footer) then withNav["--footer-logo-size" := Px(footer)] else withNav
    {
      var branding := Member(Some(config), "branding");
      var nav := Member(Member(branding, "nav"), "size");
      if IsTruthy(nav) {
        var sizes := NavLogoSizes(nav.value);
        properties := properties["--nav-logo-size-desktop" := sizes.0];
        properties := properties["--nav-logo-size-mobile" := sizes.1];
      }
      var footer := Member(Member(branding, "footer"), "size");
      if IsTruthy(footer) {
        properties := properties["--footer-logo-size" := Px(footer)];
      }
    }
  }
}
