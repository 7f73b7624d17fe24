/** The values Gson produces when it reads the mod's JSON config into a
    `Map<String, Object>`: `null`, booleans, numbers, strings, lists and nested
    maps. Numbers are integral here; `Null` also stands for the `null` a Java
    lookup returns for a missing key. */
module ConfigValue {

  datatype Value =
    | Null
    | Bool(b: bool)
    | Num(n: int)
    | Str(s: string)
    | List(items: seq<Value>)
    | Obj(fields: map<string, Value>)
}

/** The config key strings shared by every feature. */
module ConfigKeys {
  const MACRO_ENABLED: string := "chatkeybindings.Macro.Enabled"
  const MACRO_LIST: string := "chatkeybindings.Macro.List"
  const ALIASES_ENABLED: string := "commandaliases.Aliases.Enabled"
  const ALIASES_LIST: string := "commandaliases.Aliases.List"
  const NOTIFICATIONS_ENABLED: string := "chatnotifications.Notifications.Enabled"
  const NOTIFICATIONS_LIST: string := "chatnotifications.Notifications.List"
  const IMAGE_PREVIEW_ENABLED: string := "imagepreview.Preview.Enabled"
  const IMAGE_DETECT_PLAIN_URLS: string := "imagepreview.Preview.DetectPlainTextUrls"
  const IMAGE_MAX_FILE_SIZE_MB: string := "imagepreview.Preview.MaxFileSizeMB"
  const IMAGE_WHITELIST: string := "imagepreview.Preview.Whitelist"
  const CONFIG_VERSION: string := "config.version"
}
