/**
 * Configuration loading in js/app.js: fetch `config.json`, shallow-merge a
 * locally stored override over it, and fall back to a fixed five-field
 * configuration on every failure.
 */
module ConfigLoader {
  import opened JsValue

  /** What `fetch('./config.json')` and `response.json()` produced. */
  datatype Fetch =
    | NetworkError                               // fetch rejected
    | Response(ok: bool, body: Option<Json>)     // body: None when response.json() rejects

  /**
   * The string `localStorage.getItem('wedding-config')` returned, with the
   * outcome of `JSON.parse` on it (`None` when it throws).
   */
  datatype StoredOverride = StoredOverride(text: string, parsed: Option<Json>)

  /** The configuration used whenever loading fails. */
  function Fallback(): (c: Json)
    ensures c.JObj?
    ensures c.fields.Keys == {"names", "dateISO", "locationShort", "tagline", "heroImage"}
    ensures c.fields["heroImage"] == JStr("images/hero.jpg")
  {
    JObj(map[
      "names" := JStr("Jake & Marjo"),
      "dateISO" := JStr("2025-12-12T15:00:00+08:00"),
      "locationShort" := JStr("Silang & Tagaytay, Cavite"),
      "tagline" := JStr("We're getting married!"),
      "heroImage" := JStr("images/hero.jpg")
    ])
  }

  /** `{ ...base, ...over }`: every own property of `over` replaces that of `base`. */
  function Spread(base: Json, over: Json): (r: Json)
    ensures r.JObj?
    ensures r.fields.Keys == OwnEntries(base).Keys + OwnEntries(over).Keys
    ensures forall k :: k in OwnEntries(over) ==> r.fields[k] == OwnEntries(over)[k]
    ensures forall k :: k in OwnEntries(base) && k !in OwnEntries(over) ==> r.fields[k] == OwnEntries(base)[k]
  {
    JObj(OwnEntries(base) + OwnEntries(over))
  }

  /** True when the stored override is absent or the empty string, so it is skipped. */
  predicate NoOverride(stored: Option<StoredOverride>)
  {
    stored.None? || stored.value.text == ""
  }

  /**
   * The configuration that loadConfig leaves in the global `config`: the
   * fallback after any failure, otherwise the fetched body with the stored
   * override spread over it when there is one.
   */
  function Load(fetch: Fetch, stored: Option<StoredOverride>): (c: Json)
    ensures LoadFails(fetch, stored) ==> c == Fallback()
    ensures !LoadFails(fetch, stored) && NoOverride(stored) ==> c == fetch.body.value
    ensures !LoadFails(fetch, stored) && !NoOverride(stored) ==>
      c == Spread(fetch.body.value, stored.value.parsed.value)
  {
    match fetch
    case NetworkError => Fallback()
    case Response(ok, body) =>
      if !ok then Fallback()
      else
        match body
        case None => Fallback()
        case Some(fetched) =>
          if NoOverride(stored) then fetched
          else
            match stored.value.parsed
            case None => Fallback()
            case Some(over) => Spread(fetched, over)
  }

  /** Loading failed: the fetch, the status, the body or the stored override. */
  predicate LoadFails(fetch: Fetch, stored: Option<StoredOverride>)
  {
    || fetch.NetworkError?
    || !fetch.ok
    || fetch.body.None?
    || (!NoOverride(stored) && stored.value.parsed.None?)
  }

  /** Every failure, including a malformed override, gives exactly the fallback. */
  lemma FailureGivesFallback(fetch: Fetch, stored: Option<StoredOverride>)
    requires LoadFails(fetch, stored)
    ensures Load(fetch, stored) == Fallback()
  {
  }

  /** Without a (non-empty) override the fetched configuration is used as is. */
  lemma NoOverrideGivesFetched(fetched: Json, stored: Option<StoredOverride>)
    requires NoOverride(stored)
    ensures Load(Response(true, Some(fetched)), stored) == fetched
  {
  }

  /**
   * With a parsed override every top-level override key wins, every other
   * fetched key is kept, and no other key appears.
   */
  lemma OverrideWinsPerKey(fetched: Json, text: string, over: Json, k: string)
    requires text != ""
    ensures var r := Load(Response(true, Some(fetched)), Some(StoredOverride(text, Some(over))));
      && r.JObj?
      && (k in r.fields <==> k in OwnEntries(fetched) || k in OwnEntries(over))
      && (k in OwnEntries(over) ==> r.fields[k] == OwnEntries(over)[k])
      && (k in OwnEntries(fetched) && k !in OwnEntries(over) ==> r.fields[k] == OwnEntries(fetched)[k])
  {
  }

  /** Two JSON objects merge as a map union in which the override wins. */
  lemma ObjectsMergeAsMapUnion(a: map<string, Json>, b: map<string, Json>, text: string)
    requires text != ""
    ensures Load(Response(true, Some(JObj(a))), Some(StoredOverride(text, Some(JObj(b))))) == JObj(a + b)
  {
  }

  /** Applying a stored override twice changes nothing more than applying it once. */
  lemma SpreadIdempotent(base: Json, over: Json)
    ensures Spread(Spread(base, over), over) == Spread(base, over)
  {
    var once := Spread(base, over);
    var twice := Spread(once, over);
    assert twice.fields.Keys == once.fields.Keys;
    forall k | k in twice.fields ensures twice.fields[k] == once.fields[k] {
    }
  }

  /** The global `config` of js/app.js. */
  class ConfigStore {
    var config: Json

    /** `let config = {}`. */
    constructor ()
      ensures config == JObj(map[])
    {
      config := JObj(map[]);
    }

    /** loadConfig: assigns the global once per call. */
    method LoadConfig(fetch: Fetch, stored: Option<StoredOverride>)
      modifies this
      ensures config == Load(fetch, stored)
    {
      match fetch
      case NetworkError =>
        config := Fallback();
      case Response(ok, body) =>
        if !ok {
          config := Fallback();
        } else if body.None? {
          config := Fallback();
        } else {
          config := body.value;
          if !NoOverride(stored) {
            if stored.value.parsed.None? {
              config := Fallback();
            } else {
              config := Spread(config, stored.value.parsed.value);
            }
          }
        }
    }
  }
}
