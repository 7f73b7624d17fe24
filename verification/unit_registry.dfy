/** The table tying each list-valued config key to the unit class stored under
    it and to the name the editor shows for it, in registration order. */
module UnitTypeRegistry {
  import opened Wrappers
  import ConfigKeys
  import opened AbstractConfigUnit

  datatype Registration = Registration(unitClass: UnitClass, displayName: string)

  /** The registry's `LinkedHashMap`, as its entries in insertion order. */
  const REGISTRY: seq<(string, Registration)> := [
    (ConfigKeys.MACRO_LIST, Registration(MacroClass, "Macro")),
    (ConfigKeys.ALIASES_LIST, Registration(AliasClass, "Alias")),
    (ConfigKeys.NOTIFICATIONS_LIST, Registration(NotificationClass, "Notification")),
    (ConfigKeys.IMAGE_WHITELIST, Registration(WhitelistClass, "Whitelist Domain"))
  ]

  function LookupKey(entries: seq<(string, Registration)>, key: string): (r: Option<Registration>)
    ensures r.Some? <==> exists i :: 0 <= i < |entries| && entries[i].0 == key
    ensures r.Some? ==> exists i :: 0 <= i < |entries| && entries[i] == (key, r.value)
  {
    if |entries| == 0 then None
    else if entries[0].0 == key then Some(entries[0].1)
    else
      var r := LookupKey(entries[1..], key);
      assert forall i :: 1 <= i < |entries| ==> entries[i] == entries[1..][i - 1];
      r
  }

  /** The first entry, in registration order, registered for a class. */
  function LookupClass(entries: seq<(string, Registration)>, c: UnitClass): (r: Option<(string, Registration)>)
    ensures r.Some? <==> exists i :: 0 <= i < |entries| && entries[i].1.unitClass == c
    ensures r.Some? ==> r.value.1.unitClass == c && r.value in entries
  {
    if |entries| == 0 then None
    else if entries[0].1.unitClass == c then Some(entries[0])
    else
      var r := LookupClass(entries[1..], c);
      assert forall i :: 1 <= i < |entries| ==> entries[i] == entries[1..][i - 1];
      r
  }

  /** `get(configKey)`: null for a key no list is stored under. */
  function Get(configKey: string): (r: Option<Registration>)
    ensures r.None? <==> forall i :: 0 <= i < |REGISTRY| ==> REGISTRY[i].0 != configKey
    ensures r.Some? ==> (configKey, r.value) in REGISTRY
  {
    LookupKey(REGISTRY, configKey)
  }

  /** `getDisplayName`: the registered name, or "Unit" for an unregistered class. */
  function GetDisplayName(c: UnitClass): (name: string)
    ensures LookupClass(REGISTRY, c).None? ==> name == "Unit"
    ensures LookupClass(REGISTRY, c).Some? ==> name == LookupClass(REGISTRY, c).value.1.displayName
  {
    match LookupClass(REGISTRY, c)
    case Some(e) => e.1.displayName
    case None => "Unit"
  }

  /** `getConfigKey`: the key a class is registered under, or null. */
  function GetConfigKey(c: UnitClass): (key: Option<string>)
    ensures key.Some? ==> Get(key.value).Some? && Get(key.value).value.unitClass == c
  {
    match LookupClass(REGISTRY, c)
    case Some(e) => Some(e.0)
    case None => None
  }

  /** Keys and classes correspond one to one: every class has exactly one key,
      and going from a registered key to its class and back returns the key. */
  lemma RegistryRoundTrip(key: string, c: UnitClass)
    ensures GetConfigKey(c).Some?
    ensures Get(key).Some? ==> GetConfigKey(Get(key).value.unitClass) == Some(key)
    ensures Get(key).Some? <==> key in {ConfigKeys.MACRO_LIST, ConfigKeys.ALIASES_LIST,
                                        ConfigKeys.NOTIFICATIONS_LIST, ConfigKeys.IMAGE_WHITELIST}
  {
    var e := REGISTRY;
    assert e[0].0 == ConfigKeys.MACRO_LIST && e[0].1.unitClass == MacroClass;
    assert e[1].0 == ConfigKeys.ALIASES_LIST && e[1].1.unitClass == AliasClass;
    assert e[2].0 == ConfigKeys.NOTIFICATIONS_LIST && e[2].1.unitClass == NotificationClass;
    assert e[3].0 == ConfigKeys.IMAGE_WHITELIST && e[3].1.unitClass == WhitelistClass;
    assert forall i :: 0 <= i < |e| ==> e[i] in {e[0], e[1], e[2], e[3]};
    match c {
      case MacroClass => assert e[0].1.unitClass == c;
      case AliasClass => assert e[1].1.unitClass == c;
      case NotificationClass => assert e[2].1.unitClass == c;
      case WhitelistClass => assert e[3].1.unitClass == c;
    }
    if Get(key).Some? {
      var reg := Get(key).value;
      var found := LookupClass(e, reg.unitClass);
      assert found.Some? by {
        var i :| 0 <= i < |e| && e[i] == (key, reg);
        assert e[i].1.unitClass == reg.unitClass;
      }
    }
  }

  lemma DisplayNames()
    ensures GetDisplayName(MacroClass) == "Macro"
    ensures GetDisplayName(WhitelistClass) == "Whitelist Domain"
  {
    assert REGISTRY[0].1.unitClass == MacroClass;
    assert LookupClass(REGISTRY[3..], WhitelistClass) == Some(REGISTRY[3]);
  }
}
