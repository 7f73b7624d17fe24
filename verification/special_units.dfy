/** The four kinds of list entry the mod stores in its config — keyboard
    macros, command aliases, chat notifications and image-whitelist domains —
    and the per-class `of`/`fromList` decoders the features use to read them
    from the JSON lists. */
module SpecialUnits {
  import opened Wrappers
  import opened ConfigValue

  datatype KeyModifier = Shift | Alt | Ctrl | NoModifier

  /** `Enum.name()`. */
  function ModifierName(m: KeyModifier): string {
    match m
    case Shift => "SHIFT"
    case Alt => "ALT"
    case Ctrl => "CTRL"
    case NoModifier => "NONE"
  }

  /** `KeyModifiers.valueOf(name)`: exact, case-sensitive constant names only. */
  function ModifierValueOf(name: string): (r: Option<KeyModifier>)
    ensures r.Some? ==> ModifierName(r.value) == name
  {
    if name == "SHIFT" then Some(Shift)
    else if name == "ALT" then Some(Alt)
    else if name == "CTRL" then Some(Ctrl)
    else if name == "NONE" then Some(NoModifier)
    else None
  }

  lemma ModifierNameRoundTrip(m: KeyModifier)
    ensures ModifierValueOf(ModifierName(m)) == Some(m)
  {
  }

  /** The translation key of `InputConstants.UNKNOWN`. */
  const UNKNOWN_KEY_NAME: string := "key.keyboard.unknown"

  datatype MacroUnit = MacroUnit(key: string, modifier: KeyModifier, command: string, enabled: bool)

  datatype AliasUnit = AliasUnit(alias: string, replacement: string, enabled: bool)

  datatype NotificationUnit = NotificationUnit(
    pattern: string, regex: bool,
    sound: string, soundEnabled: bool,
    title: string, titleEnabled: bool,
    command: string, commandEnabled: bool,
    enabled: bool)

  datatype WhitelistUnit = WhitelistUnit(domain: string, resolveEmbed: bool, enabled: bool)

  datatype Unit =
    | Macro(macro: MacroUnit)
    | Alias(alias: AliasUnit)
    | Notification(notification: NotificationUnit)
    | Whitelist(whitelist: WhitelistUnit)

  /** An element of a config list: parsed JSON, or an already-built unit object. */
  datatype Element = Json(value: Value) | Instance(unit: Unit)

  /** `(String) map.getOrDefault(key, default)`. */
  function StringOr(m: map<string, Value>, key: string, default: string): (r: Result<string>)
    ensures key !in m ==> r == Success(default)
    ensures key in m ==> (r.Success? <==> m[key].Str?)
    ensures key in m && m[key].Str? ==> r == Success(m[key].s)
  {
    if key !in m then Success(default)
    else if m[key].Str? then Success(m[key].s)
    else Failure("ClassCastException: " + key)
  }

  /** `(boolean) map.getOrDefault(key, default)`: a missing key gives the
      default; anything but a boolean fails to unbox. */
  function BoolOr(m: map<string, Value>, key: string, default: bool): (r: Result<bool>)
    ensures key !in m ==> r == Success(default)
    ensures key in m ==> (r.Success? <==> m[key].Bool?)
    ensures key in m && m[key].Bool? ==> r == Success(m[key].b)
  {
    if key !in m then Success(default)
    else if m[key].Bool? then Success(m[key].b)
    else Failure("ClassCastException: " + key)
  }

  /** The string a field reads as when its cast succeeds: the stored
      string, or the default when the key is missing. */
  function StrField(m: map<string, Value>, key: string, default: string): string {
    if key in m && m[key].Str? then m[key].s else default
  }

  /** The boolean a field reads as when its unboxing succeeds. */
  function BoolField(m: map<string, Value>, key: string, default: bool): bool {
    if key in m && m[key].Bool? then m[key].b else default
  }

  /** A string field decodes when it is missing or holds a string. */
  predicate StrTyped(m: map<string, Value>, key: string) {
    key !in m || m[key].Str?
  }

  /** A boolean field decodes when it is missing or holds a boolean. */
  predicate BoolTyped(m: map<string, Value>, key: string) {
    key !in m || m[key].Bool?
  }

  const DEFAULT_MACRO: MacroUnit := MacroUnit(UNKNOWN_KEY_NAME, NoModifier, "", true)
  const DEFAULT_ALIAS: AliasUnit := AliasUnit("", "", true)
  const DEFAULT_NOTIFICATION: NotificationUnit := NotificationUnit("", false, "", false, "", false, "", false, true)
  const DEFAULT_WHITELIST: WhitelistUnit := WhitelistUnit("", false, true)

  /** `MacroUnit.of`: a JSON object is read field by field with the no-argument
      constructor's values as defaults; a macro object passes through; anything
      else is rejected. */
  function MacroOf(e: Element): (r: Result<MacroUnit>)
    ensures e == Json(Obj(map[])) ==> r == Success(DEFAULT_MACRO)
    ensures e.Instance? ==> (r.Success? <==> e.unit.Macro?)
    ensures e.Instance? && e.unit.Macro? ==> r.value == e.unit.macro
    ensures e.Json? && !e.value.Obj? ==> r.Failure?
    ensures e.Json? && e.value.Obj? && "modifier" in e.value.fields && r.Success? ==>
      e.value.fields["modifier"] == Str(ModifierName(r.value.modifier))
    ensures e.Json? && e.value.Obj? ==>
      (r.Success? <==>
        && StrTyped(e.value.fields, "key") && StrTyped(e.value.fields, "modifier")
        && ModifierValueOf(StrField(e.value.fields, "modifier", "NONE")).Some?
        && StrTyped(e.value.fields, "command") && BoolTyped(e.value.fields, "enabled"))
    ensures e.Json? && e.value.Obj? && r.Success? ==>
      && r.value.key == StrField(e.value.fields, "key", UNKNOWN_KEY_NAME)
      && ModifierName(r.value.modifier) == StrField(e.value.fields, "modifier", "NONE")
      && r.value.command == StrField(e.value.fields, "command", "")
      && r.value.enabled == BoolField(e.value.fields, "enabled", true)
  {
    match e
    case Json(Obj(m)) =>
      var key :- StringOr(m, "key", UNKNOWN_KEY_NAME);
      var modName :- StringOr(m, "modifier", "NONE");
      var modifier :- ModifierValueOf(modName).ToResult("IllegalArgumentException: " + modName);
      var command :- StringOr(m, "command", "");
      var enabled :- BoolOr(m, "enabled", true);
      Success(MacroUnit(key, modifier, command, enabled))
    case Instance(Macro(u)) => Success(u)
    case _ => Failure("IllegalArgumentException: Unexpected element type of Object")
  }

  function AliasOf(e: Element): (r: Result<AliasUnit>)
    ensures e == Json(Obj(map[])) ==> r == Success(DEFAULT_ALIAS)
    ensures e.Instance? ==> (r.Success? <==> e.unit.Alias?)
    ensures e.Instance? && e.unit.Alias? ==> r.value == e.unit.alias
    ensures e.Json? && !e.value.Obj? ==> r.Failure?
    ensures e.Json? && e.value.Obj? ==>
      (r.Success? <==>
        StrTyped(e.value.fields, "alias") && StrTyped(e.value.fields, "replacement") && BoolTyped(e.value.fields, "enabled"))
    ensures e.Json? && e.value.Obj? && r.Success? ==>
      && r.value.alias == StrField(e.value.fields, "alias", "")
      && r.value.replacement == StrField(e.value.fields, "replacement", "")
      && r.value.enabled == BoolField(e.value.fields, "enabled", true)
  {
    match e
    case Json(Obj(m)) =>
      var alias :- StringOr(m, "alias", "");
      var replacement :- StringOr(m, "replacement", "");
      var enabled :- BoolOr(m, "enabled", true);
      Success(AliasUnit(alias, replacement, enabled))
    case Instance(Alias(u)) => Success(u)
    case _ => Failure("IllegalArgumentException: Unexpected element type of Object")
  }

  function NotificationOf(e: Element): (r: Result<NotificationUnit>)
    ensures e == Json(Obj(map[])) ==> r == Success(DEFAULT_NOTIFICATION)
    ensures e.Instance? ==> (r.Success? <==> e.unit.Notification?)
    ensures e.Instance? && e.unit.Notification? ==> r.value == e.unit.notification
    ensures e.Json? && !e.value.Obj? ==> r.Failure?
    ensures e.Json? && e.value.Obj? ==>
      (r.Success? <==>
        && StrTyped(e.value.fields, "pattern") && BoolTyped(e.value.fields, "regex")
        && StrTyped(e.value.fields, "sound") && BoolTyped(e.value.fields, "soundEnabled")
        && StrTyped(e.value.fields, "title") && BoolTyped(e.value.fields, "titleEnabled")
        && StrTyped(e.value.fields, "command") && BoolTyped(e.value.fields, "commandEnabled")
        && BoolTyped(e.value.fields, "enabled"))
    ensures e.Json? && e.value.Obj? && r.Success? ==>
      && r.value.pattern == StrField(e.value.fields, "pattern", "")
      && r.value.regex == BoolField(e.value.fields, "regex", false)
      && r.value.sound == StrField(e.value.fields, "sound", "")
      && r.value.soundEnabled == BoolField(e.value.fields, "soundEnabled", false)
      && r.value.title == StrField(e.value.fields, "title", "")
      && r.value.titleEnabled == BoolField(e.value.fields, "titleEnabled", false)
      && r.value.command == StrField(e.value.fields, "command", "")
      && r.value.commandEnabled == BoolField(e.value.fields, "commandEnabled", false)
      && r.value.enabled == BoolField(e.value.fields, "enabled", true)
  {
    match e
    case Json(Obj(m)) =>
      var pattern :- StringOr(m, "pattern", "");
      var regex :- BoolOr(m, "regex", false);
      var sound :- StringOr(m, "sound", "");
      var soundEnabled :- BoolOr(m, "soundEnabled", false);
      var title :- StringOr(m, "title", "");
      var titleEnabled :- BoolOr(m, "titleEnabled", false);
      var command :- StringOr(m, "command", "");
      var commandEnabled :- BoolOr(m, "commandEnabled", false);
      var enabled :- BoolOr(m, "enabled", true);
      Success(NotificationUnit(pattern, regex, sound, soundEnabled, title, titleEnabled, command, commandEnabled, enabled))
    case Instance(Notification(u)) => Success(u)
    case _ => Failure("IllegalArgumentException: Unexpected element type of Object")
  }

  function WhitelistOf(e: Element): (r: Result<WhitelistUnit>)
    ensures e == Json(Obj(map[])) ==> r == Success(DEFAULT_WHITELIST)
    ensures e.Instance? ==> (r.Success? <==> e.unit.Whitelist?)
    ensures e.Instance? && e.unit.Whitelist? ==> r.value == e.unit.whitelist
    ensures e.Json? && !e.value.Obj? ==> r.Failure?
    ensures e.Json? && e.value.Obj? ==>
      (r.Success? <==>
        StrTyped(e.value.fields, "domain") && BoolTyped(e.value.fields, "resolveEmbed") && BoolTyped(e.value.fields, "enabled"))
    ensures e.Json? && e.value.Obj? && r.Success? ==>
      && r.value.domain == StrField(e.value.fields, "domain", "")
      && r.value.resolveEmbed == BoolField(e.value.fields, "resolveEmbed", false)
      && r.value.enabled == BoolField(e.value.fields, "enabled", true)
  {
    match e
    case Json(Obj(m)) =>
      var domain :- StringOr(m, "domain", "");
      var resolveEmbed :- BoolOr(m, "resolveEmbed", false);
      var enabled :- BoolOr(m, "enabled", true);
      Success(WhitelistUnit(domain, resolveEmbed, enabled))
    case Instance(Whitelist(u)) => Success(u)
    case _ => Failure("IllegalArgumentException: Unexpected element type of Object")
  }

  /** `fromList`: decodes every element in order; the first element that fails
      makes the whole call throw. */
  function DecodeAll<T>(list: seq<Element>, decode: Element -> Result<T>): (r: Result<seq<T>>)
    ensures r.Success? <==> forall i :: 0 <= i < |list| ==> decode(list[i]).Success?
    ensures r.Success? ==> |r.value| == |list| && forall i :: 0 <= i < |list| ==> r.value[i] == decode(list[i]).value
  {
    if |list| == 0 then Success([])
    else
      var head :- decode(list[0]);
      var tail :- DecodeAll(list[1..], decode);
      assert forall i :: 1 <= i < |list| ==> list[i] == list[1..][i - 1];
      Success([head] + tail)
  }

  /** Lifts a config list of JSON values into elements. */
  function FromJson(values: seq<Value>): (r: seq<Element>)
    ensures |r| == |values| && forall i :: 0 <= i < |values| ==> r[i] == Json(values[i])
  {
    seq(|values|, i requires 0 <= i < |values| => Json(values[i]))
  }
}
