/**
 * The falling-petals decoration of js/app.js: whether it is enabled, when
 * the schedule and venue sections count as visible, and the per-frame step
 * that switches the petals on and off and throttles new petals.
 */
module Petals {
  import opened JsValue
  import ConfigLoader

  /** New petals are at least this many milliseconds apart. */
  const SpawnIntervalMs: int := 750

  /** `config?.decor?.petals`. */
  function PetalsConfig(config: Json): Option<Json>
  {
    Member(Member(Some(config), "decor"), "petals")
  }

  /** initializeFallingPetals only starts with `enabled` set and a non-empty `images`. */
  predicate Enabled(config: Json)
    ensures Enabled(config) ==> IsTruthy(PetalsConfig(config)) && PetalsConfig(config).value.JObj?
  {
    IsTruthy(Member(PetalsConfig(config), "enabled")) && IsTruthy(Member(Member(PetalsConfig(config), "images"), "length"))
  }

  /** With `enabled: true`, the petals run iff the image list is non-empty. */
  lemma EnabledIffImages(config: Json, images: seq<Json>)
    requires Member(PetalsConfig(config), "enabled") == Some(JBool(true))
    requires Member(PetalsConfig(config), "images") == Some(JArr(images))
    ensures Enabled(config) <==> |images| > 0
  {
  }

  /** The built-in configuration has no petals, so a failed load never shows them. */
  lemma LoadFailureDisablesPetals(fetch: ConfigLoader.Fetch, stored: Option<ConfigLoader.StoredOverride>)
    requires ConfigLoader.LoadFails(fetch, stored)
    ensures !Enabled(ConfigLoader.Load(fetch, stored))
  {
    ConfigLoader.FailureGivesFallback(fetch, stored);
  }

  /** A section's bounding rectangle, in viewport coordinates. */
  datatype Rect = Rect(top: int, bottom: int)

  /** Part of the section lies inside a viewport `windowHeight` tall. */
  predicate Visible(r: Rect, windowHeight: int)
    ensures r.bottom <= 0 || r.top >= windowHeight ==> !Visible(r, windowHeight)
  {
    r.top < windowHeight && r.bottom > 0
  }

  /** shouldShowPetals: both sections must exist, and either one must be visible. */
  predicate ShouldShow(schedule: Option<Rect>, venue: Option<Rect>, windowHeight: int)
    ensures schedule.None? || venue.None? ==> !ShouldShow(schedule, venue, windowHeight)
  {
    schedule.Some? && venue.Some? && (Visible(schedule.value, windowHeight) || Visible(venue.value, windowHeight))
  }

  /** Viewport row `y` is on screen. */
  predicate OnScreen(y: int, windowHeight: int)
  {
    0 <= y < windowHeight
  }

  /**
   * For a non-empty section, visibility is exactly the overlap of its
   * vertical extent with the viewport's.
   */
  lemma VisibleIffOverlaps(r: Rect, windowHeight: int)
    requires r.top < r.bottom && windowHeight > 0
    ensures Visible(r, windowHeight) <==> exists y :: r.top <= y < r.bottom && OnScreen(y, windowHeight)
  {
    if Visible(r, windowHeight) {
      var y := if r.top > 0 then r.top else 0;
      assert r.top <= y < r.bottom && OnScreen(y, windowHeight);
    }
  }

  /** The closure state of initializeFallingPetals. */
  class Animator {
    /** `petalsActive`. */
    var active: bool
    /** `petalContainer` is attached. */
    var containerPresent: bool
    /** `lastPetalTime`. */
    var lastPetalTime: int
    /** The frame times at which petals were created, oldest first. */
    ghost var spawnTimes: seq<int>

    ghost predicate Valid()
      reads this
    {
      && containerPresent == active
      && (spawnTimes == [] ==> lastPetalTime == 0)
      && (spawnTimes != [] ==> lastPetalTime == spawnTimes[|spawnTimes| - 1])
      && (spawnTimes != [] ==> spawnTimes[0] > SpawnIntervalMs)
      && forall k :: 0 < k < |spawnTimes| ==> spawnTimes[k] - spawnTimes[k - 1] > SpawnIntervalMs
    }

    constructor ()
      ensures Valid() && !active && spawnTimes == []
    {
      active, containerPresent := false, false;
      lastPetalTime := 0;
      spawnTimes := [];
    }

    /**
     * animatePetals at frame time `t`, with the two sections' rectangles
     * (`None` for a missing section) in a viewport `windowHeight` tall: the
     * petals follow shouldShowPetals (a rising edge builds a fresh container,
     * a falling edge removes it), and a petal is created while active once
     * more than 750 ms have passed since the previous one.
     */
    method Frame(t: int, schedule: Option<Rect>, venue: Option<Rect>, windowHeight: int) returns (spawned: bool)
      requires Valid()
      modifies this
      ensures Valid()
      ensures active == ShouldShow(schedule, venue, windowHeight)
      ensures spawned <==> ShouldShow(schedule, venue, windowHeight) && t - old(lastPetalTime) > SpawnIntervalMs
      ensures spawnTimes == if spawned then old(spawnTimes) + [t] else old(spawnTimes)
      ensures lastPetalTime == if spawned then t else old(lastPetalTime)
    {
      var show := ShouldShow(schedule, venue, windowHeight);
      if show && !active {
        active := true;
        containerPresent := true;
      } else if !show && active {
        active := false;
        containerPresent := false;
      }
      spawned := active && t - lastPetalTime > SpawnIntervalMs;
      if spawned {
        spawnTimes := spawnTimes + [t];
        lastPetalTime := t;
      }
    }
  }
}
