/** One JSON config file held in memory: the user's file or the bundled defaults. */
module ConfigStorage {
  import opened Wrappers
  import opened ConfigValue
  import ConfigKeys

  /** `configMap` is `None` only before a file has been read. */
  datatype Storage = Storage(configMap: Option<map<string, Value>>)

  /** What reading the file yields: Gson's result (`None` when the file held
      `null` or nothing), or an exception from the reader or the parser. */
  datatype ReadOutcome = Parsed(json: Option<map<string, Value>>) | ReadFailed

  /** The constructor: a failed or empty read falls back on an empty map. */
  function Read(outcome: ReadOutcome): (s: Storage)
    ensures s.configMap.Some?
    ensures outcome.Parsed? && outcome.json.Some? ==> s.configMap.value == outcome.json.value
    ensures !(outcome.Parsed? && outcome.json.Some?) ==> s.configMap.value == map[]
  {
    match outcome
    case Parsed(Some(m)) => Storage(Some(m))
    case _ => Storage(Some(map[]))
  }

  /** `Map.putIfAbsent` fills keys that are missing or mapped to null. */
  predicate Vacant(m: map<string, Value>, key: string) {
    key !in m || m[key] == Null
  }

  /** Fills every default the file lacks, then forces the config version to the
      default one. A loaded map is required: `withDefault` dereferences it. */
  function WithDefault(s: Storage, defaults: map<string, Value>): (r: Storage)
    requires s.configMap.Some?
    ensures r.configMap.Some?
    ensures r.configMap.value.Keys == s.configMap.value.Keys + defaults.Keys
    ensures forall k :: k in defaults && k != ConfigKeys.CONFIG_VERSION ==>
      r.configMap.value[k] == (if Vacant(s.configMap.value, k) then defaults[k] else s.configMap.value[k])
    ensures forall k :: k in s.configMap.value && k !in defaults ==> r.configMap.value[k] == s.configMap.value[k]
    ensures ConfigKeys.CONFIG_VERSION in defaults ==>
      r.configMap.value[ConfigKeys.CONFIG_VERSION] == defaults[ConfigKeys.CONFIG_VERSION]
  {
    var m := s.configMap.value;
    var filled := map k | k in m.Keys + defaults.Keys ::
      if k in defaults && Vacant(m, k) then defaults[k] else m[k];
    var versioned :=
      if ConfigKeys.CONFIG_VERSION in defaults
      then filled[ConfigKeys.CONFIG_VERSION := defaults[ConfigKeys.CONFIG_VERSION]]
      else filled;
    Storage(Some(versioned))
  }

  /** `get`: the stored value, or null for a missing key or an unread file. */
  function Get(s: Storage, key: string): (v: Value)
    ensures v != Null ==> s.configMap.Some? && key in s.configMap.value && s.configMap.value[key] == v
    ensures s.configMap.Some? && key in s.configMap.value ==> v == s.configMap.value[key]
  {
    if s.configMap.Some? && key in s.configMap.value then s.configMap.value[key] else Null
  }

  /** `hasKey`: true for a key stored with a null value too. */
  function HasKey(s: Storage, key: string): (b: bool)
    ensures b <==> s.configMap.Some? && key in s.configMap.value
  {
    s.configMap.Some? && key in s.configMap.value
  }

  /** `set` on an unread storage does nothing. */
  function Set(s: Storage, key: string, v: Value): (r: Storage)
    ensures s.configMap.None? ==> r == s
    ensures s.configMap.Some? ==> r.configMap == Some(s.configMap.value[key := v])
  {
    if s.configMap.Some? then Storage(Some(s.configMap.value[key := v])) else s
  }

  /** A set value is what `get` returns, and no other key changes. */
  lemma GetAfterSet(s: Storage, key: string, v: Value, other: string)
    requires s.configMap.Some?
    ensures Get(Set(s, key, v), key) == v
    ensures HasKey(Set(s, key, v), key)
    ensures other != key ==> Get(Set(s, key, v), other) == Get(s, other)
  {
  }

  /** Filling defaults leaves every default key present and every non-null value
      the user wrote in place, except the version, which always follows the defaults. */
  lemma WithDefaultKeepsUserValues(s: Storage, defaults: map<string, Value>, k: string)
    requires s.configMap.Some?
    ensures k in defaults ==> HasKey(WithDefault(s, defaults), k)
    ensures k != ConfigKeys.CONFIG_VERSION && !Vacant(s.configMap.value, k) ==>
      Get(WithDefault(s, defaults), k) == Get(s, k)
    ensures k != ConfigKeys.CONFIG_VERSION && Vacant(s.configMap.value, k) && k in defaults ==>
      Get(WithDefault(s, defaults), k) == defaults[k]
  {
  }
}
