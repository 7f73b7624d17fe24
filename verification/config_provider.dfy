/** The static facade every feature reads its settings through: the user's
    config, the bundled defaults behind it, and a version counter that caches
    compare against to notice changes. File writes are I/O and not modelled;
    the facade only records that one happened. */
module ConfigProvider {
  import opened Wrappers
  import opened ConfigValue
  import CS = ConfigStorage

  datatype Provider = Provider(config: Option<CS.Storage>, defaults: Option<CS.Storage>, version: nat)

  const Initial: Provider := Provider(None, None, 0)

  /** `init`: the defaults are read once; the user's file, or the defaults
      written in its place when it is missing, is read and topped up with them.
      `writesDefaults` is true when the defaults file is saved to disk. */
  function Init(p: Provider, defaultRead: CS.ReadOutcome, fileExists: bool, fileRead: CS.ReadOutcome)
    : (r: (Provider, bool))
    requires p.defaults.Some? ==> p.defaults.value.configMap.Some?
    ensures r.0.config.Some? && r.0.config.value.configMap.Some?
    ensures r.0.defaults.Some? && r.0.defaults.value.configMap.Some?
    ensures p.defaults.Some? ==> r.0.defaults == p.defaults
    ensures r.0.version == p.version
    ensures r.1 <==> !fileExists
  {
    var defaults :=
      if p.defaults.None? then CS.Read(defaultRead) else p.defaults.value;
    var config := CS.WithDefault(CS.Read(fileRead), defaults.configMap.value);
    (Provider(Some(config), Some(defaults), p.version), !fileExists)
  }

  /** `save`: writes the file and bumps the version, when a config is loaded. */
  function Save(p: Provider): (r: Provider)
    ensures r.config == p.config && r.defaults == p.defaults
    ensures r.version == if p.config.Some? then p.version + 1 else p.version
  {
    if p.config.Some? then p.(version := p.version + 1) else p
  }

  /** `get`: the user's config when loaded, else the defaults, else null. */
  function Get(p: Provider, key: string): (v: Value)
    ensures p.config.Some? ==> v == CS.Get(p.config.value, key)
    ensures p.config.None? && p.defaults.Some? ==> v == CS.Get(p.defaults.value, key)
    ensures p.config.None? && p.defaults.None? ==> v == Null
  {
    if p.config.Some? then CS.Get(p.config.value, key)
    else if p.defaults.Some? then CS.Get(p.defaults.value, key)
    else Null
  }

  /** `getBoolean`: the stored boolean, or the caller's default for anything else. */
  function GetBoolean(p: Provider, key: string, default: bool): (b: bool)
    ensures Get(p, key).Bool? ==> b == Get(p, key).b
    ensures !Get(p, key).Bool? ==> b == default
  {
    match Get(p, key)
    case Bool(x) => x
    case _ => default
  }

  /** `getList`: the stored list, or an empty list for anything else. */
  function GetList(p: Provider, key: string): (l: seq<Value>)
    ensures Get(p, key).List? ==> l == Get(p, key).items
    ensures !Get(p, key).List? ==> l == []
  {
    match Get(p, key)
    case List(items) => items
    case _ => []
  }

  /** `set`: stores into the user's config and bumps the version; before `init`
      it does nothing at all. */
  function Set(p: Provider, key: string, v: Value): (r: Provider)
    ensures p.config.None? ==> r == p
    ensures p.config.Some? ==> r.config == Some(CS.Set(p.config.value, key, v)) && r.version == p.version + 1
    ensures r.defaults == p.defaults
  {
    if p.config.Some? then Provider(Some(CS.Set(p.config.value, key, v)), p.defaults, p.version + 1) else p
  }

  /** After `init`, a set value is read back by `get`, and the version moved,
      so every cache keyed on the version rebuilds. */
  lemma SetIsVisible(p: Provider, key: string, v: Value, other: string)
    requires p.config.Some? && p.config.value.configMap.Some?
    ensures Get(Set(p, key, v), key) == v
    ensures other != key ==> Get(Set(p, key, v), other) == Get(p, other)
    ensures Set(p, key, v).version != p.version
  {
  }

  /** The version never goes down, whatever sequence of saves and sets runs. */
  lemma VersionMonotone(p: Provider, key: string, v: Value)
    ensures p.version <= Save(p).version <= p.version + 1
    ensures p.version <= Set(p, key, v).version <= p.version + 1
  {
  }
}
