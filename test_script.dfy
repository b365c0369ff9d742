/**
 * js/test.js, the reduced variant of the site script: a loader without the
 * stored override, a countdown without seconds, the hero choice without the
 * retina override, and a small content filler. Each piece is related to its
 * js/app.js counterpart so the differences are explicit.
 */
module TestScript {
  import opened JsValue
  import opened Arithmetic
  import ConfigLoader
  import Countdown
  import Hero

  /** loadConfig: the fetched body, or the five-field fallback on any failure. */
  function LoadSimple(fetch: ConfigLoader.Fetch): (c: Json)
    ensures fetch.NetworkError? || !fetch.ok || fetch.body.None? ==> c == ConfigLoader.Fallback()
    ensures fetch.Response? && fetch.ok && fetch.body.Some? ==> c == fetch.body.value
  {
    match fetch
    case NetworkError => ConfigLoader.Fallback()
    case Response(ok, body) =>
      if ok && body.Some? then body.value else ConfigLoader.Fallback()
  }

  /** It is js/app.js's loader with no stored override. */
  lemma LoadSimpleIsLoadWithoutOverride(fetch: ConfigLoader.Fetch)
    ensures LoadSimple(fetch) == ConfigLoader.Load(fetch, None)
  {
  }

  /** What a tick of this countdown shows. */
  datatype MinuteReading =
    | Remaining(days: int, hours: int, minutes: int)
    | Finished

  /** updateCountdown's arithmetic here: days, hours and minutes only. */
  function DecomposeMinutes(difference: int): (r: MinuteReading)
    ensures r.Remaining? <==> difference > 0
    ensures r.Remaining? ==>
      && r.days >= 0 && 0 <= r.hours < 24 && 0 <= r.minutes < 60
      && r.days * 1440 + r.hours * 60 + r.minutes == difference / 60000
  {
    if difference > 0 then
      var days := difference / Countdown.DayMs;
      var hours := (difference % Countdown.DayMs) / Countdown.HourMs;
      var minutes := (difference % Countdown.HourMs) / Countdown.MinuteMs;
      DecomposeMinutesSum(difference);
      Remaining(days, hours, minutes)
    else
      Finished
  }

  /** The three fields recombine into the whole minutes of the difference. */
  lemma DecomposeMinutesSum(d: int)
    requires d > 0
    ensures var days := d / 86400000;
      var hours := (d % 86400000) / 3600000;
      var minutes := (d % 3600000) / 60000;
      && 0 <= hours < 24 && 0 <= minutes < 60
      && days * 1440 + hours * 60 + minutes == d / 60000
  {
    var days := d / 86400000;
    var r1 := d % 86400000;
    var hours := r1 / 3600000;
    var r2 := r1 % 3600000;
    var minutes := r2 / 60000;
    var r3 := r2 % 60000;
    assert d == 3600000 * (24 * days + hours) + r2;
    DivModUnique(d, 3600000, 24 * days + hours, r2);
    assert d == 60000 * (days * 1440 + hours * 60 + minutes) + r3;
    DivModUnique(d, 60000, days * 1440 + hours * 60 + minutes, r3);
  }

  /** Both countdowns agree on days, hours and minutes; js/app.js adds the seconds. */
  lemma CountdownsAgree(difference: int)
    ensures DecomposeMinutes(difference).Finished? <==> Countdown.Decompose(difference).Finished?
    ensures DecomposeMinutes(difference).Remaining? ==>
      && DecomposeMinutes(difference).days == Countdown.Decompose(difference).days
      && DecomposeMinutes(difference).hours == Countdown.Decompose(difference).hours
      && DecomposeMinutes(difference).minutes == Countdown.Decompose(difference).minutes
  {
  }

  /** setupHeroImage's choice: the breakpoint chain with no retina override. */
  function HeroUrlNoRetina(hero: Json, width: int): (u: Option<Json>)
    ensures !Hero.IsResponsive(hero) ==> u == Some(hero)
    ensures Hero.IsResponsive(hero) && width > Hero.TabletMax ==> u == Hero.Variant(hero, "desktop")
  {
    if Hero.IsResponsive(hero) then
      if width <= Hero.MobileMax then Or(Hero.Variant(hero, "mobile"), Hero.Variant(hero, "fallback"))
      else if width <= Hero.TabletMax then Or(Hero.Variant(hero, "tablet"), Or(Hero.Variant(hero, "mobile"), Hero.Variant(hero, "fallback")))
      else Or(Hero.Variant(hero, "desktop"), Hero.Variant(hero, "fallback"))
    else
      Some(hero)
  }

  /** The same choice as js/app.js on a screen that is not high-density. */
  lemma HeroMatchesLowDensity(hero: Json, width: int)
    ensures HeroUrlNoRetina(hero, width) == Hero.HeroUrl(hero, width, false)
  {
  }

  /**
   * The two differ exactly when js/app.js applies its retina override and the
   * retina image is not what the breakpoint chain picked anyway.
   */
  lemma HeroDiffersOnlyByRetina(hero: Json, width: int)
    ensures HeroUrlNoRetina(hero, width) != Hero.HeroUrl(hero, width, true) <==>
      && Hero.IsResponsive(hero) && IsTruthy(Hero.Variant(hero, "retina"))
      && Hero.Variant(hero, "retina") != HeroUrlNoRetina(hero, width)
  {
  }

  /** The element ids populateContent fills, with the config value for each. */
  function ContentEntries(config: Json): (e: seq<(string, Option<Json>)>)
    ensures |e| == 4
    ensures e[1] == ("hero-date", Member(Some(config), "date"))
  {
    [ ("hero-names", Member(Some(config), "names")),
      ("hero-date", Member(Some(config), "date")),
      ("hero-location", Member(Some(config), "locationShort")),
      ("hero-tagline", Member(Some(config), "tagline")) ]
  }

  /** The `textContent` written by the entries, for the ids that exist in the page. */
  function Written(entries: seq<(string, Option<Json>)>, present: set<string>): map<string, string>
  {
    if entries == [] then map[]
    else
      var last := entries[|entries| - 1];
      var before := Written(entries[..|entries| - 1], present);
      if last.0 in present && IsTruthy(last.1) then before[last.0 := ToJsString(last.1)] else before
  }

  /** Processing one more entry writes it on top of what the earlier ones wrote. */
  lemma WrittenStep(entries: seq<(string, Option<Json>)>, i: nat, present: set<string>)
    requires i < |entries|
    ensures Written(entries[..i + 1], present) ==
      if entries[i].0 in present && IsTruthy(entries[i].1) then Written(entries[..i], present)[entries[i].0 := ToJsString(entries[i].1)]
      else Written(entries[..i], present)
  {
    assert entries[..i + 1][..i] == entries[..i];
  }

  /** An id is written iff it exists and some entry for it has truthy content, whose text it then holds. */
  lemma {:induction false} WrittenSpec(entries: seq<(string, Option<Json>)>, present: set<string>, id: string)
    ensures id in Written(entries, present) <==>
      id in present && exists k :: 0 <= k < |entries| && entries[k].0 == id && IsTruthy(entries[k].1)
    ensures id in Written(entries, present) ==>
      exists k :: 0 <= k < |entries| && entries[k].0 == id && IsTruthy(entries[k].1)
        && Written(entries, present)[id] == ToJsString(entries[k].1)
  {
    if entries != [] {
      var n := |entries| - 1;
      var before := entries[..n];
      WrittenSpec(before, present, id);
      if entries[n].0 == id && id in present && IsTruthy(entries[n].1) {
        assert Written(entries, present)[id] == ToJsString(entries[n].1);
      } else {
        forall k | 0 <= k < n ensures entries[k] == before[k] {
        }
        if id in present && exists k :: 0 <= k < |entries| && entries[k].0 == id && IsTruthy(entries[k].1) {
          var k :| 0 <= k < |entries| && entries[k].0 == id && IsTruthy(entries[k].1);
          if k == n {
            assert false;
          }
          assert before[k].0 == id && IsTruthy(before[k].1);
        }
      }
    }
  }

  /**
   * The hero date comes from `config.date`, which the fallback configuration
   * lacks: after a failed load the hero date is never written.
   */
  lemma FallbackLeavesHeroDateEmpty(present: set<string>)
    ensures "hero-date" !in Written(ContentEntries(ConfigLoader.Fallback()), present)
  {
    var e := ContentEntries(ConfigLoader.Fallback());
    WrittenSpec(e, present, "hero-date");
    forall k | 0 <= k < |e| && e[k].0 == "hero-date" ensures !IsTruthy(e[k].1) {
      assert k == 1;
    }
  }

  /** The page state js/test.js touches. */
  class TestSite {
    /** The global `config`. */
    var config: Json
    /** `document.title`. */
    var title: string
    /** `textContent` written into elements, by id. */
    var texts: map<string, string>
    /** The countdown: finished message shown, and the three numbers. */
    var finished: bool
    var days: int
    var hours: int
    var minutes: int
    /** `.hero-bg`'s `background-image`, and whether its attachment is `fixed`. */
    var heroBackground: string
    var heroFixed: bool

    constructor ()
      ensures config == JObj(map[]) && texts == map[] && !finished
    {
      config := JObj(map[]);
      title, texts := "", map[];
      finished := false;
      days, hours, minutes := 0, 0, 0;
      heroBackground, heroFixed := "", false;
    }

    /** The countdown's four fields are as they were. */
    twostate predicate CountdownUnchanged()
      reads this
    {
      finished == old(finished) && days == old(days) && hours == old(hours) && minutes == old(minutes)
    }

    /** The hero background is as it was. */
    twostate predicate HeroUnchanged()
      reads this
    {
      heroBackground == old(heroBackground) && heroFixed == old(heroFixed)
    }

    method LoadConfig(fetch: ConfigLoader.Fetch)
      modifies this`config
      ensures config == LoadSimple(fetch)
      ensures texts == old(texts) && title == old(title)
      ensures CountdownUnchanged() && HeroUnchanged()
    {
      config := ConfigLoader.Fallback();
      if fetch.Response? && fetch.ok && fetch.body.Some? {
        config := fetch.body.value;
      }
    }

    /** One tick of the minute-resolution countdown. */
    method Tick(difference: int)
      modifies this`finished, this`days, this`hours, this`minutes
      ensures difference > 0 ==>
        DecomposeMinutes(difference) == Remaining(days, hours, minutes) && finished == old(finished)
      ensures difference <= 0 ==>
        finished && days == old(days) && hours == old(hours) && minutes == old(minutes)
      ensures config == old(config) && texts == old(texts) && title == old(title)
      ensures HeroUnchanged()
    {
      if difference > 0 {
        var reading := DecomposeMinutes(difference);
        days, hours, minutes := reading.days, reading.hours, reading.minutes;
      } else {
        finished := true;
      }
    }

    /** setupHeroImage with `.hero-bg` present iff `present`. */
    method SetupHero(present: bool, width: int)
      modifies this`heroBackground, this`heroFixed
      ensures var hero := Member(Some(config), "heroImage");
        && (present && IsTruthy(hero) ==>
              heroBackground == Hero.CssUrl(HeroUrlNoRetina(hero.value, width)) && heroFixed == (width > Hero.TabletMax))
        && (!(present && IsTruthy(hero)) ==> heroBackground == old(heroBackground) && heroFixed == old(heroFixed))
      ensures config == old(config) && texts == old(texts) && title == old(title)
      ensures CountdownUnchanged()
    {
      var hero := Member(Some(config), "heroImage");
      if present && IsTruthy(hero) {
        heroBackground := Hero.CssUrl(HeroUrlNoRetina(hero.value, width));
        heroFixed := width > Hero.TabletMax;
      }
    }

    /**
     * populateContent with the element ids that exist in `present`: nothing
     * for a falsy config; otherwise the title, and each truthy entry's text.
     */
    method PopulateContent(present: set<string>)
      modifies this`title, this`texts
      ensures !Truthy(config) ==> title == old(title) && texts == old(texts)
      ensures Truthy(config) ==>
        && title == ToJsString(Member(Some(config), "names")) + " Wedding"
        && texts == old(texts) + Written(ContentEntries(config), present)
      ensures config == old(config)
      ensures CountdownUnchanged() && HeroUnchanged()
    {
      if !Truthy(config) {
        return;
      }
      title := ToJsString(Member(Some(config), "names")) + " Wedding";
      var entries := ContentEntries(config);
      var i := 0;
      while i < |entries|
        invariant 0 <= i <= |entries|
        invariant title == ToJsString(Member(Some(config), "names")) + " Wedding"
        invariant texts == old(texts) + Written(entries[..i], present)
      {
        WrittenStep(entries, i, present);
        var id, content := entries[i].0, entries[i].1;
        if id in present && IsTruthy(content) {
          texts := texts[id := ToJsString(content)];
        }
        i := i + 1;
      }
      assert entries[..|entries|] == entries;
    }
  }
}
