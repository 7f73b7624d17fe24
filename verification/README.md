# CursedAddons, modelled in Dafny

CursedAddons is a client-side Minecraft mod. This project models the
deterministic decision code under its Minecraft glue and proves properties
of that model:

- **Image previews.** Detecting image URLs in chat and checking their host
  against a whitelist; resolving embed pages (Imgur, Giphy, Tenor, any
  page with an `og:image` tag); the download cache (an access-ordered LRU
  of ten results, a thirty-second failure cooldown, one download per key);
  the response checks and the size-bounded byte stream; the GIF frame
  compositor on its unscaled path; and the texture manager (frame
  truncation, batch registration, time-based frame selection, the cap of 50
  textures and the accounting of every texture handle).
- **Chat text.** Command aliases, chat notifications (the pattern safety
  guard, capture-group templates, the `&` to `§` conversion), the legacy
  `§` serialiser, plain-text URL annotation, and the regex tester web
  page's colour-code parser and pattern conversion.
- **Config.** The JSON-like value store with its defaults merge, the
  provider's version counter, decoding and encoding of config units, list
  editing with the macro key-conflict rule, the dropdown suggestor, field
  widgets and their validation, the edit screen and the unit registry.
- **Input.** Edge-triggered chat macros, the modifier-key predicate, the
  command rate limiter, and the two debouncers that suppress a doubled
  character after a key press.

One module per source file; `Wrappers` (`Option`, `Result`), `JavaText`
(Java string and `int` operations), `ConfigValue` and `OrderedMap`
(`LinkedHashMap` in insertion or access order) are shared. State is
immutable data and every operation returns the next state. Everything the
mod asks of the outside world is a parameter: the clock (`now`), network
answers, the regex engine, URI parsing, image decoding, key state. Work the
mod spreads over threads is a sequence of explicit steps: a download is
started by `ImageCache.LoadImage` and finished by `ImageCache.Settle`; the
texture manager's background work is a list of `Task`s that
`ImageTextureManager.Run` performs one at a time.

Source paths below are relative to the repository root.

## Model

| member | source | states |
|---|---|---|
| AliasHandler.Apply | src/client/java/dev/cursedatom/cursedaddons/features/commandaliases/AliasHandler.java:31-37 | In the prefix form the replacement is followed by everything after the alias, the space included; an exact match becomes the replacement alone. |
| AliasHandler.Rewrite | src/client/java/dev/cursedatom/cursedaddons/features/commandaliases/AliasHandler.java:30-41 | With no matching alias the message is unchanged; otherwise the first matching alias in list order decides the rewrite. |
| AliasHandler.ProcessMessage | src/client/java/dev/cursedatom/cursedaddons/features/commandaliases/AliasHandler.java:15-42 | A message that is not a command, a disabled feature or an empty list leave the message unchanged; a list that fails to decode is an error; otherwise the aliases rewrite it. |
| AliasHandler.InertEntryIgnored | src/client/java/dev/cursedatom/cursedaddons/features/commandaliases/AliasHandler.java:31-35 | Inserting a disabled or empty alias anywhere in the list never changes any rewrite. |
| AliasHandler.PrefixRewriteKeepsArguments | src/client/java/dev/cursedatom/cursedaddons/features/commandaliases/AliasHandler.java:31-34 | When the first alias matches in prefix form, `alias + " " + args` becomes `replacement + " " + args`. |
| ConfigProvider.Init | src/client/java/dev/cursedatom/cursedaddons/utils/ConfigProvider.java:22-33 | After `init` both the config and the defaults are loaded, already-loaded defaults are kept, the version is unchanged, and the defaults are written exactly when the file is missing. |
| ConfigProvider.Save | src/client/java/dev/cursedatom/cursedaddons/utils/ConfigProvider.java:35-40 | Saving bumps the version by one when a config is loaded and changes nothing otherwise. |
| ConfigProvider.Get | src/client/java/dev/cursedatom/cursedaddons/utils/ConfigProvider.java:42-44 | A read goes to the user's config when loaded, else to the defaults, else yields null. |
| ConfigProvider.GetBoolean | src/client/java/dev/cursedatom/cursedaddons/utils/ConfigProvider.java:46-52 | A stored boolean is returned; any other value, null included, gives the caller's default. |
| ConfigProvider.GetList | src/client/java/dev/cursedatom/cursedaddons/utils/ConfigProvider.java:55-61 | A stored list is returned; anything else gives the empty list. |
| ConfigProvider.Set | src/client/java/dev/cursedatom/cursedaddons/utils/ConfigProvider.java:63-68 | Before `init` nothing changes; afterwards the key is stored and the version goes up by one. |
| ConfigProvider.SetIsVisible | src/client/java/dev/cursedatom/cursedaddons/utils/ConfigProvider.java:42-68 | After `set` the key reads back the new value, every other key reads as before, and the version differs, so caches notice. |
| ConfigProvider.VersionMonotone | src/client/java/dev/cursedatom/cursedaddons/utils/ConfigProvider.java:16-68 | The version never decreases and grows by at most one per `save` or `set`. |
| ConfigStorage.Read | src/client/java/dev/cursedatom/cursedaddons/config/utils/ConfigStorage.java:46-66 | A read always yields a map: the parsed one, or an empty map when the file is empty, null or unreadable. |
| ConfigStorage.WithDefault | src/client/java/dev/cursedatom/cursedaddons/config/utils/ConfigStorage.java:34-42 | The keys become those of both maps; the user's values win except for the config version, which the defaults overwrite; absent keys take the default. |
| ConfigStorage.Get | src/client/java/dev/cursedatom/cursedaddons/config/utils/ConfigStorage.java:68-70 | A present key yields its value; a missing key or a missing map yields null. |
| ConfigStorage.HasKey | src/client/java/dev/cursedatom/cursedaddons/config/utils/ConfigStorage.java:72-74 | True exactly when a map is loaded and holds the key. |
| ConfigStorage.Set | src/client/java/dev/cursedatom/cursedaddons/config/utils/ConfigStorage.java:76-80 | Stores the value when a map is loaded; otherwise does nothing. |
| ConfigStorage.GetAfterSet | src/client/java/dev/cursedatom/cursedaddons/config/utils/ConfigStorage.java:68-80 | A stored value reads back, the key is present, and other keys are unaffected. |
| ConfigStorage.WithDefaultKeepsUserValues | src/client/java/dev/cursedatom/cursedaddons/config/utils/ConfigStorage.java:34-42 | Every default key is present afterwards; a user value other than the version survives the merge; a vacant key takes the default. |
| SpecialUnits.ModifierValueOf | src/client/java/dev/cursedatom/cursedaddons/config/SpecialUnits.java:12-41 | Whatever `KeyModifiers.valueOf` returns carries exactly the given name, so any other spelling (a different case included) is refused. |
| SpecialUnits.ModifierNameRoundTrip | src/client/java/dev/cursedatom/cursedaddons/config/SpecialUnits.java:12-41 | Every modifier's name reads back to that modifier. |
| SpecialUnits.StringOr | src/client/java/dev/cursedatom/cursedaddons/config/SpecialUnits.java:40-42 | `(String) map.getOrDefault(key, d)`: a missing key gives the default, a string gives itself, any other value fails the cast. |
| SpecialUnits.BoolOr | src/client/java/dev/cursedatom/cursedaddons/config/SpecialUnits.java:186-193 | `(boolean) map.getOrDefault(key, d)`: a missing key gives the default, a boolean gives itself, anything else fails to unbox. |
| SpecialUnits.MacroOf | src/client/java/dev/cursedatom/cursedaddons/config/SpecialUnits.java:37-50 | An object decodes exactly when each present field has its type and the modifier names a constant, and then every field holds its stored value or its default (the unknown key, "NONE", "", true); a macro object passes through, any other unit is refused and a non-object fails. |
| SpecialUnits.AliasOf | src/client/java/dev/cursedatom/cursedaddons/config/SpecialUnits.java:101-113 | An object decodes exactly when each present field has its type, and then every field holds its stored value or its default ("", "", true); an alias object passes through, any other unit is refused and a non-object fails. |
| SpecialUnits.NotificationOf | src/client/java/dev/cursedatom/cursedaddons/config/SpecialUnits.java:182-200 | An object decodes exactly when each of the nine present fields has its type, and then every field holds its stored value or its default (empty strings, false flags, enabled true); a notification object passes through, any other unit is refused and a non-object fails. |
| SpecialUnits.WhitelistOf | src/client/java/dev/cursedatom/cursedaddons/features/images/ImageHoverPreview.java:31 | A whitelist object decodes exactly when each present field has its type, and then holds its stored values or the defaults ("", false, true); a whitelist object passes through, anything else is refused. |
| SpecialUnits.DecodeAll | src/client/java/dev/cursedatom/cursedaddons/config/SpecialUnits.java:52-58 | `fromList` succeeds exactly when every element decodes, and then yields the decoded elements in order. |
| AbstractConfigUnit.FieldsOf | src/client/java/dev/cursedatom/cursedaddons/config/utils/AbstractConfigUnit.java:15-23 | Reading a unit's declared fields yields values of the declared field types. |
| AbstractConfigUnit.Build | src/client/java/dev/cursedatom/cursedaddons/config/utils/AbstractConfigUnit.java:30-40 | Setting every declared field builds a unit of that class whose fields read back as set. |
| AbstractConfigUnit.BuildFieldsOf | src/client/java/dev/cursedatom/cursedaddons/config/utils/AbstractConfigUnit.java:30-44 | A unit is determined by its class and its field values. |
| AbstractConfigUnit.Equals | src/client/java/dev/cursedatom/cursedaddons/config/utils/AbstractConfigUnit.java:80-96 | Reflective `equals` (same class, every declared field equal) holds exactly for equal units. |
| AbstractConfigUnit.NewInstance | src/client/java/dev/cursedatom/cursedaddons/config/utils/AbstractConfigUnit.java:30 | The no-argument constructor builds a unit of the requested class. |
| AbstractConfigUnit.DecodeField | src/client/java/dev/cursedatom/cursedaddons/config/utils/AbstractConfigUnit.java:32-42 | Decoding one field never stores a value of the wrong type: a map value whose type does not fit the field fails, as `Field.set` throws. |
| AbstractConfigUnit.DecodeFields | src/client/java/dev/cursedatom/cursedaddons/config/utils/AbstractConfigUnit.java:31-43 | The field loop succeeds exactly when every field decodes, and then each field holds its decoded value. |
| AbstractConfigUnit.Of | src/client/java/dev/cursedatom/cursedaddons/config/utils/AbstractConfigUnit.java:26-53 | A decoded unit has the requested class; an instance passes through exactly when it is of that class; anything that is neither a map nor an instance is refused. |
| AbstractConfigUnit.FromList | src/client/java/dev/cursedatom/cursedaddons/config/utils/AbstractConfigUnit.java:55-61 | Succeeds exactly when every element decodes, yielding them in order. |
| AbstractConfigUnit.EncodeField | src/client/java/dev/cursedatom/cursedaddons/config/utils/AbstractConfigUnit.java:67-72 | A field value `toMap` writes is never null, since every field of a decoded or constructed unit is set. |
| AbstractConfigUnit.FieldsToMap | src/client/java/dev/cursedatom/cursedaddons/config/utils/AbstractConfigUnit.java:63-78 | Every declared field's name is a key of the written map. |
| AbstractConfigUnit.ToMapEntry | src/client/java/dev/cursedatom/cursedaddons/config/utils/AbstractConfigUnit.java:63-78 | `toMap` writes each declared field under its own name with its encoded value. |
| AbstractConfigUnit.ToMap | src/client/java/dev/cursedatom/cursedaddons/config/utils/AbstractConfigUnit.java:63-78 | Every declared field's name is a key of the written map. |
| AbstractConfigUnit.ToMapKeys | src/client/java/dev/cursedatom/cursedaddons/config/utils/AbstractConfigUnit.java:63-78 | The keys of the written map are exactly the declared field names. |
| AbstractConfigUnit.DecodeEncodedField | src/client/java/dev/cursedatom/cursedaddons/config/utils/AbstractConfigUnit.java:32-72 | Each field written by `toMap` reads back to the same value. |
| AbstractConfigUnit.OfToMap | src/client/java/dev/cursedatom/cursedaddons/config/utils/AbstractConfigUnit.java:26-78 | Round trip: `of(toMap(u))` is `u` for every unit. |
| AbstractConfigUnit.MacroOfReadsToMap | src/client/java/dev/cursedatom/cursedaddons/config/SpecialUnits.java:37-50 | A macro the list editor saved with `toMap` reads back unchanged through `MacroUnit.of`. |
| AbstractConfigUnit.AliasOfReadsToMap | src/client/java/dev/cursedatom/cursedaddons/config/SpecialUnits.java:101-113 | An alias saved with `toMap` reads back unchanged through `AliasUnit.of`. |
| AbstractConfigUnit.NotificationOfReadsToMap | src/client/java/dev/cursedatom/cursedaddons/config/SpecialUnits.java:182-200 | A notification saved with `toMap` reads back unchanged through `NotificationUnit.of`. |
| AbstractConfigUnit.DecodersDisagreeOnMissingEnabled | src/client/java/dev/cursedatom/cursedaddons/config/utils/AbstractConfigUnit.java:129-138 | On an object without `enabled`, `MacroUnit.of` gives `true` (line 43 of SpecialUnits.java) while the reflective `of` leaves the field `false` or fails. |
| UnitTypeRegistry.LookupKey | src/client/java/dev/cursedatom/cursedaddons/config/UnitTypeRegistry.java:17-32 | The registry map has an entry for a key exactly when some registration was made under it, and returns that registration. |
| UnitTypeRegistry.LookupClass | src/client/java/dev/cursedatom/cursedaddons/config/UnitTypeRegistry.java:38-54 | The search in registration order finds an entry exactly when some registration has the class, and the entry found has it. |
| UnitTypeRegistry.GetDisplayName | src/client/java/dev/cursedatom/cursedaddons/config/UnitTypeRegistry.java:38-45 | An unregistered class is called "Unit"; a registered one takes its registration's display name. |
| UnitTypeRegistry.GetConfigKey | src/client/java/dev/cursedatom/cursedaddons/config/UnitTypeRegistry.java:47-54 | A key returned for a class is registered, and registered for that class. |
| UnitTypeRegistry.Get | src/client/java/dev/cursedatom/cursedaddons/config/UnitTypeRegistry.java:30-32 | A key gives null exactly when no list is registered under it, and otherwise the registration stored under it. |
| UnitTypeRegistry.RegistryRoundTrip | src/client/java/dev/cursedatom/cursedaddons/config/UnitTypeRegistry.java:19-54 | Exactly the four list keys are registered; every unit class has a key; going from a key to its class and back returns the same key. |
| UnitTypeRegistry.DisplayNames | src/client/java/dev/cursedatom/cursedaddons/config/UnitTypeRegistry.java:20-45 | The macro class is shown as "Macro" and the whitelist class as "Whitelist Domain". |
| KeyboardUtils.IsKeyPressingWithModifier | src/client/java/dev/cursedatom/cursedaddons/utils/KeyboardUtils.java:15-44 | The unknown key is never pressed; any other binding is pressed exactly when its modifier (either side) is held and its key or mouse button is down. |
| KeyboardUtils.ModifierIsAnExtraCondition | src/client/java/dev/cursedatom/cursedaddons/utils/KeyboardUtils.java:25-36 | A binding with a modifier is pressed exactly when the bare binding is pressed and the modifier is held. |
| KeyboardUtils.PressingIsMonotone | src/client/java/dev/cursedatom/cursedaddons/utils/KeyboardUtils.java:15-44 | Holding more keys or buttons never releases a binding. |
| MessageUtils.SendToPublicChat | src/client/java/dev/cursedatom/cursedaddons/utils/MessageUtils.java:23-47 | Without a player or with blank text nothing happens; a command within 50 ms of the last one is dropped; otherwise the raw text joins the recent history and the trimmed text goes out, as a command without its slash (stamping the clock) or as a chat message. |
| MessageUtils.Run | src/client/java/dev/cursedatom/cursedaddons/utils/MessageUtils.java:23-47 | Over a run of sends, at most one command leaves per call, each at the clock reading of some call, and the recent-message history only grows. |
| MessageUtils.CommandsAreSpaced | src/client/java/dev/cursedatom/cursedaddons/utils/MessageUtils.java:14-42 | Over any sequence of sends, the commands that leave are each at least 50 ms after the previous one. |
| Macro.RefreshCache | src/client/java/dev/cursedatom/cursedaddons/features/chatkeybindings/Macro.java:27-35 | With an unchanged config version the cache stays; otherwise the version, the enabled flag and the decoded macro list are taken from the config, and a list that fails to decode leaves the old macros and reports an error. |
| Macro.IsEnabled | src/client/java/dev/cursedatom/cursedaddons/features/chatkeybindings/Macro.java:37-40 | Answers the enabled flag of the refreshed cache. |
| Macro.Scan | src/client/java/dev/cursedatom/cursedaddons/features/chatkeybindings/Macro.java:49-58 | After the loop a listed macro is marked pressed exactly when it is held; the macros fired are exactly those held and not already marked, each once; unlisted marks are untouched. |
| Macro.Tick | src/client/java/dev/cursedatom/cursedaddons/features/chatkeybindings/Macro.java:42-59 | With a screen open nothing happens; otherwise the fired macros are exactly the cached, held macros not pressed on the previous tick, and a decode error fires nothing. |
| Macro.HeldKeysFireOnce | src/client/java/dev/cursedatom/cursedaddons/features/chatkeybindings/Macro.java:51-54 | Holding the same keys over two ticks with the same config fires nothing the second time. |
| Macro.ReleaseRearms | src/client/java/dev/cursedatom/cursedaddons/features/chatkeybindings/Macro.java:55-57 | A macro released on one tick fires again on the next tick it is held. |
| DoubleChatFix.Poll | src/client/java/dev/cursedatom/cursedaddons/features/doublechatfix/DoubleChatFix.java:14 | A poll advances the count by one and leaves the recorded key poll alone. |
| DoubleChatFix.MatchesKey | src/client/java/dev/cursedatom/cursedaddons/features/doublechatfix/DoubleChatFix.java:45-51 | An unknown key code matches a scancode binding by scancode; any other key matches a key-symbol binding by code. |
| DoubleChatFix.OnKey | src/client/java/dev/cursedatom/cursedaddons/features/doublechatfix/DoubleChatFix.java:17-32 | A release, a repeat or a press with a screen open changes nothing; a press of the chat or command key records the current poll, any other press clears it. |
| DoubleChatFix.OnChar | src/client/java/dev/cursedatom/cursedaddons/features/doublechatfix/DoubleChatFix.java:33-42 | A character is dropped exactly when a chat-key press was recorded at most five polls ago, and dropping clears the record; otherwise nothing changes. |
| DoubleChatFix.Run | src/client/java/dev/cursedatom/cursedaddons/features/doublechatfix/DoubleChatFix.java:13-43 | Any interleaving of polls, key events and characters keeps the state well formed. |
| DoubleChatFix.DropsBoundedByPresses | src/client/java/dev/cursedatom/cursedaddons/features/doublechatfix/DoubleChatFix.java:24-41 | Each chat or command key press can cause at most one dropped character. |
| DoubleChatFix.DropsFromStart | src/client/java/dev/cursedatom/cursedaddons/features/doublechatfix/DoubleChatFix.java:10-41 | From start-up, dropped characters never outnumber chat or command key presses. |
| MC122477FixUtil.OnKeyPress | src/client/java/dev/cursedatom/cursedaddons/features/doublechatfix/MC122477FixUtil.java:12-23 | A press of the chat or command key with no screen open restarts the poll count at zero; every other event leaves it alone. |
| MC122477FixUtil.ShouldCancelChar | src/client/java/dev/cursedatom/cursedaddons/features/doublechatfix/MC122477FixUtil.java:30-36 | A character is cancelled exactly when fewer than six polls have passed since an armed press, and cancelling disarms. |
| MC122477FixUtil.IncrementPollCount | src/client/java/dev/cursedatom/cursedaddons/features/doublechatfix/MC122477FixUtil.java:38-45 | An unarmed counter stays unarmed; an armed one counts up and disarms after ten polls. |
| MC122477FixUtil.Run | src/client/java/dev/cursedatom/cursedaddons/features/doublechatfix/MC122477FixUtil.java:10-45 | Any sequence of key presses, polls and characters keeps the counter in range. |
| MC122477FixUtil.CancelsBoundedByArms | src/client/java/dev/cursedatom/cursedaddons/features/doublechatfix/MC122477FixUtil.java:12-36 | Each arming press cancels at most one character. |
| MC122477FixUtil.LateCharPasses | src/client/java/dev/cursedatom/cursedaddons/features/doublechatfix/MC122477FixUtil.java:31-45 | For any number of polls from six on, a character typed after them is let through. |
| MC122477FixUtil.EarlyCharCancelled | src/client/java/dev/cursedatom/cursedaddons/features/doublechatfix/MC122477FixUtil.java:31-45 | A character typed after fewer than six polls is cancelled, and the counter is disarmed. |
| MC122477FixUtil.RunPollsFirst | src/client/java/dev/cursedatom/cursedaddons/features/doublechatfix/MC122477FixUtil.java:38-45 | Replaying a run of polls and then more events equals starting the rest from the counter the polls leave. |
| MC122477FixUtil.AfterPollsArmed | src/client/java/dev/cursedatom/cursedaddons/features/doublechatfix/MC122477FixUtil.java:38-45 | An armed counter at k has counted k + n polls after n more, or is disarmed once that passes ten. |
| MC122477FixUtil.AfterPollsDisarmed | src/client/java/dev/cursedatom/cursedaddons/features/doublechatfix/MC122477FixUtil.java:38-45 | A disarmed counter stays disarmed through any number of polls. |
| DropdownSuggestor.Filter | src/client/java/dev/cursedatom/cursedaddons/config/utils/DropdownSuggestor.java:49-54 | The filtered list holds exactly the items that contain the typed text, ignoring ASCII case, and is no longer than the item list. |
| DropdownSuggestor.FilterConcat | src/client/java/dev/cursedatom/cursedaddons/config/utils/DropdownSuggestor.java:50-54 | Filtering keeps the items' order: filtering a concatenation is the concatenation of the filtered parts. |
| DropdownSuggestor.FilterAllMatching | src/client/java/dev/cursedatom/cursedaddons/config/utils/DropdownSuggestor.java:50-54 | A list whose items all contain the text is kept whole. |
| DropdownSuggestor.FilterIdempotent | src/client/java/dev/cursedatom/cursedaddons/config/utils/DropdownSuggestor.java:49-54 | Filtering the filtered list again by the same text changes nothing. |
| DropdownSuggestor.Update | src/client/java/dev/cursedatom/cursedaddons/config/utils/DropdownSuggestor.java:39-57 | Every update clears the selection and scroll; empty text hides the list; otherwise the list is the filtered items and is shown exactly when some item matched. |
| DropdownSuggestor.Accept | src/client/java/dev/cursedatom/cursedaddons/config/utils/DropdownSuggestor.java:104-105 | Accepting an item puts as much of it in the box as the box's length limit allows and hides the list; the box's responder refilters on the value the box now holds. |
| DropdownSuggestor.EnsureVisible | src/client/java/dev/cursedatom/cursedaddons/config/utils/DropdownSuggestor.java:184-190 | Only the scroll changes, it puts the selection within the ten visible rows, and it stays put when the selection was already visible. |
| DropdownSuggestor.KeyPressed | src/client/java/dev/cursedatom/cursedaddons/config/utils/DropdownSuggestor.java:98-139 | A hidden or empty list ignores every key; Tab or Enter accept the selection if there is one; Escape hides and is consumed; Down and Up move the selection within bounds (Up from none selects the first), scroll it into view and are consumed; other keys pass. |
| DropdownSuggestor.MouseClicked | src/client/java/dev/cursedatom/cursedaddons/config/utils/DropdownSuggestor.java:141-160 | A click is consumed exactly when the list is shown and the click is inside; a click on an existing row accepts that row, counting the scroll offset. |
| DropdownSuggestor.MouseScrolled | src/client/java/dev/cursedatom/cursedaddons/config/utils/DropdownSuggestor.java:162-178 | Scrolling is consumed exactly when more than ten items are shown and the wheel is inside; only the offset changes, it is clamped to the list, and an in-range step moves it by the wheel amount. |
| ListManager.Serialized | src/client/java/dev/cursedatom/cursedaddons/config/utils/ListManager.java:69-77 | The saved list has one entry per item, in order, each the item's `toMap`. |
| ListManager.Load | src/client/java/dev/cursedatom/cursedaddons/config/utils/ListManager.java:57-67 | A stored list that decodes becomes the items; a missing value, a non-list or a list that fails to decode gives no items; the selection starts cleared. |
| ListManager.LoadSaved | src/client/java/dev/cursedatom/cursedaddons/config/utils/ListManager.java:57-77 | Round trip: whatever the manager saves, it loads back unchanged. |
| ListManager.AddItem | src/client/java/dev/cursedatom/cursedaddons/config/utils/ListManager.java:91-94 | The item is appended, the selection kept, and the new list saved. |
| ListManager.UpdateItem | src/client/java/dev/cursedatom/cursedaddons/config/utils/ListManager.java:96-101 | An index inside the list replaces that item and saves; any other index changes and saves nothing. |
| ListManager.RemoveItem | src/client/java/dev/cursedatom/cursedaddons/config/utils/ListManager.java:103-113 | An index inside the list removes that item and saves; the selection is cleared if it was removed and otherwise still names the same item; an index outside changes nothing. |
| ListManager.DeleteSelected | src/client/java/dev/cursedatom/cursedaddons/config/utils/ListManager.java:126-131 | With a valid selection, that item is removed, the selection cleared, and the list saved; otherwise nothing happens. |
| ListManager.SaveItem | src/client/java/dev/cursedatom/cursedaddons/config/utils/ListManager.java:226-234 | An existing index replaces the edited item; any other index appends the new item and clears the selection; the list is saved either way. |
| ListManager.WithEnabled | src/client/java/dev/cursedatom/cursedaddons/config/utils/ListManager.java:189-195 | Setting the `enabled` field changes only that field and keeps the unit's class. |
| ListManager.DisableConflicts | src/client/java/dev/cursedatom/cursedaddons/config/utils/ListManager.java:198-212 | Every other enabled macro with the same key and modifier is switched off; every other row is unchanged. |
| ListManager.Toggle | src/client/java/dev/cursedatom/cursedaddons/config/utils/ListManager.java:192-215 | A row inside the list has its `enabled` flipped, the list keeps its length and selection, and the result is saved; a row outside changes nothing. |
| ListManager.ToggleLeavesNoConflict | src/client/java/dev/cursedatom/cursedaddons/config/utils/ListManager.java:198-212 | After a macro is switched on, no other enabled macro shares its key and modifier. |
| ListManager.ToggleOffTouchesOneRow | src/client/java/dev/cursedatom/cursedaddons/config/utils/ListManager.java:194-198 | Switching a row off, or toggling a row that is not a macro, changes no other row. |
| ListManager.ToggleOnlyDisablesOthers | src/client/java/dev/cursedatom/cursedaddons/config/utils/ListManager.java:194-211 | Toggling never switches another row on, and changes another row exactly when a macro is being switched on and that row is an enabled macro with the same key and modifier, which it switches off. |
| ListManager.Saved | src/client/java/dev/cursedatom/cursedaddons/config/utils/ListManager.java:69-77 | A save writes the whole list, and what it writes loads back as the same list when every item is of the manager's class. |
| ListManager.Enabled | src/client/java/dev/cursedatom/cursedaddons/config/utils/ListManager.java:189-191 | The ON/OFF state of a row is the unit's last declared field, which is `enabled`. |
| FieldWidgetFactory.IndexOfItem | src/client/java/dev/cursedatom/cursedaddons/config/utils/FieldWidgetFactory.java:90 | `List.indexOf`: -1 exactly when the item is absent, otherwise the first position holding it. |
| FieldWidgetFactory.InitialCycleIndex | src/client/java/dev/cursedatom/cursedaddons/config/utils/FieldWidgetFactory.java:85-93 | A cycle starts at the first option equal to the initial value's text; without options, without a value, or with an unlisted value it starts at 0. |
| FieldWidgetFactory.InitialToggle | src/client/java/dev/cursedatom/cursedaddons/config/utils/FieldWidgetFactory.java:53-58 | A toggle starts at the unit's Boolean when there is one, else at the field's Boolean default, else off. |
| FieldWidgetFactory.CreateWidget | src/client/java/dev/cursedatom/cursedaddons/config/utils/FieldWidgetFactory.java:24-51 | Each field type gets its widget with the initial value shown; a text box holds a prefix of its value no longer than the field's `maxLength`, or Minecraft's default of 32 without one, and a negative `maxLength` throws; only a cycle field records a position, and an unknown type gets the placeholder button. |
| FieldWidgetFactory.FitToBox | src/client/java/dev/cursedatom/cursedaddons/config/utils/FieldWidgetFactory.java:44-48 | `setValue` keeps a prefix of the value no longer than the box's limit, and a value that fits whole. |
| FieldWidgetFactory.PressToggle | src/client/java/dev/cursedatom/cursedaddons/config/utils/FieldWidgetFactory.java:61-65 | A toggle press flips the stored state. |
| FieldWidgetFactory.PressCycle | src/client/java/dev/cursedatom/cursedaddons/config/utils/FieldWidgetFactory.java:98-104 | A press advances only this field's position by one, wrapping after the last option; a field with no recorded position or no options throws. |
| FieldWidgetFactory.PressCycleTimesAdd | src/client/java/dev/cursedatom/cursedaddons/config/utils/FieldWidgetFactory.java:98-104 | Presses compose: a presses then b presses equal a + b presses. |
| FieldWidgetFactory.PressCycleTimesCount | src/client/java/dev/cursedatom/cursedaddons/config/utils/FieldWidgetFactory.java:99-101 | Presses that stay below the last option move the position up by one each. |
| FieldWidgetFactory.PressCycleWraps | src/client/java/dev/cursedatom/cursedaddons/config/utils/FieldWidgetFactory.java:100 | A press on the last option goes back to the first. |
| FieldWidgetFactory.PressCycleToFirst | src/client/java/dev/cursedatom/cursedaddons/config/utils/FieldWidgetFactory.java:98-104 | From any option, pressing until past the last option lands on the first. |
| FieldWidgetFactory.CycleFullTurn | src/client/java/dev/cursedatom/cursedaddons/config/utils/FieldWidgetFactory.java:98-104 | One press per option brings the cycle back to where it started. |
| FieldWidgetFactory.CycleFromFirst | src/client/java/dev/cursedatom/cursedaddons/config/utils/FieldWidgetFactory.java:98-104 | From the first option, as many presses as an option's index reach that option. |
| FieldWidgetFactory.CycleDisplayText | src/client/java/dev/cursedatom/cursedaddons/config/utils/FieldWidgetFactory.java:109-116 | The label is the translated option key when one exists at the position, else the raw option, else "Unknown". |
| FieldWidgetFactory.GetValueFromWidget | src/client/java/dev/cursedatom/cursedaddons/config/utils/FieldWidgetFactory.java:122-148 | A text field reads back its trimmed text, a toggle its state, a keybind its key name, a cycle the option at its recorded position; a mismatched widget or unknown type reads as null. |
| FieldWidgetFactory.IsValidValue | src/client/java/dev/cursedatom/cursedaddons/config/utils/FieldWidgetFactory.java:150-156 | Only a required field can be invalid, and it is invalid exactly when the value is null or blank text. |
| FieldWidgetFactory.CreatedWidgetReadsBack | src/client/java/dev/cursedatom/cursedaddons/config/utils/FieldWidgetFactory.java:24-148 | An untouched text, toggle or cycle widget reads back the value it was created with (text up to trimming, when it fits the box). |
| FieldWidgetFactory.LongTextIsCut | src/client/java/dev/cursedatom/cursedaddons/config/utils/FieldWidgetFactory.java:44-48 | A text field without `maxLength` shows and reads back only the first 32 characters of a longer value. |
| FieldWidgetFactory.TextReadBackStable | src/client/java/dev/cursedatom/cursedaddons/config/utils/FieldWidgetFactory.java:126 | Reading back a text field, writing the result into a box and reading again gives the same value. |
| GenericEditScreen.CutAt | src/client/java/dev/cursedatom/cursedaddons/config/utils/GenericEditScreen.java:322-325 | Cutting at the first occurrence of a character gives a prefix without it, the whole string when it is absent. |
| GenericEditScreen.TrimKeepsOut | src/client/java/dev/cursedatom/cursedaddons/config/utils/GenericEditScreen.java:326 | Trimming never brings back a removed character. |
| GenericEditScreen.SanitizeDomain | src/client/java/dev/cursedatom/cursedaddons/config/utils/GenericEditScreen.java:317-327 | A sanitised domain holds no slash or colon and has no surrounding blanks; null gives the empty string. |
| GenericEditScreen.SanitizeDomainIdempotent | src/client/java/dev/cursedatom/cursedaddons/config/utils/GenericEditScreen.java:317-327 | Sanitising a sanitised domain changes nothing. |
| GenericEditScreen.SanitizeKeepsBareHost | src/client/java/dev/cursedatom/cursedaddons/config/utils/GenericEditScreen.java:317-327 | A trimmed host name with no `/` and no `:` comes out of sanitising exactly as it went in. |
| GenericEditScreen.FieldIndex | src/client/java/dev/cursedatom/cursedaddons/config/utils/GenericEditScreen.java:254 | `getDeclaredField` finds a field exactly when the class declares one with that name. |
| GenericEditScreen.FieldNamed | src/client/java/dev/cursedatom/cursedaddons/config/utils/GenericEditScreen.java:333-337 | A unit has a value under a name exactly when its class declares that field, and the value has the field's type. |
| GenericEditScreen.IsValidUnit | src/client/java/dev/cursedatom/cursedaddons/config/utils/GenericEditScreen.java:329-347 | A unit is valid exactly when every required text field exists and is not blank. |
| GenericEditScreen.StoreField | src/client/java/dev/cursedatom/cursedaddons/config/utils/GenericEditScreen.java:254-269 | Setting one field keeps the unit's class and every other field and writes the converted value into that field; it fails exactly when the class declares no such field or the conversion throws. |
| GenericEditScreen.Converted | src/client/java/dev/cursedatom/cursedaddons/config/utils/GenericEditScreen.java:259-268 | An enum field given a string takes the constant of exactly that name and throws for any other; a whitelist domain must be a string and is sanitised; any other value is stored as it is when its type fits and throws otherwise. |
| GenericEditScreen.StoreFieldReads | src/client/java/dev/cursedatom/cursedaddons/config/utils/GenericEditScreen.java:254-269 | After a store, the named field reads back the converted value and every other field reads as before. |
| GenericEditScreen.StoreFieldClassOnly | src/client/java/dev/cursedatom/cursedaddons/config/utils/GenericEditScreen.java:254-269 | Whether a store throws, and what it writes, depends on the unit's class and not on its current field values. |
| GenericEditScreen.StoreFields | src/client/java/dev/cursedatom/cursedaddons/config/utils/GenericEditScreen.java:250-271 | The field loop keeps the class of the new unit. |
| GenericEditScreen.StoreFieldsKeepsUnnamed | src/client/java/dev/cursedatom/cursedaddons/config/utils/GenericEditScreen.java:250-271 | A field that no definition names keeps its value through the loop. |
| GenericEditScreen.StoreFieldsWrites | src/client/java/dev/cursedatom/cursedaddons/config/utils/GenericEditScreen.java:250-271 | With distinct field names, each defined field ends up holding what one `field.set` of its widget's value writes when that value is non-null and valid, and its earlier value otherwise. |
| GenericEditScreen.StoreKey | src/client/java/dev/cursedatom/cursedaddons/config/utils/GenericEditScreen.java:273-284 | A captured key goes into the `key` field when the class has one; no capture or no such field leaves the unit unchanged. |
| GenericEditScreen.KeyFieldIsMacroKey | src/client/java/dev/cursedatom/cursedaddons/config/utils/GenericEditScreen.java:273-284 | Only a macro has a `key` field, and storing a string there replaces the macro's key and nothing else. |
| GenericEditScreen.SaveUnit | src/client/java/dev/cursedatom/cursedaddons/config/utils/GenericEditScreen.java:246-311 | A saved unit has the edited class and passes validation, and a saved regex notification's pattern compiles; the save crashes exactly when the field loop throws. |
| GenericEditScreen.SavedFieldsComeFromWidgets | src/client/java/dev/cursedatom/cursedaddons/config/utils/GenericEditScreen.java:246-286 | Each defined field of a saved unit, except a `key` a captured key overrides, holds what its widget's non-null valid value stores, or the no-argument constructor's default otherwise. |
| GenericEditScreen.StoreFieldKeepsDomainClean | src/client/java/dev/cursedatom/cursedaddons/config/utils/GenericEditScreen.java:266-269 | Setting any field never puts a path or a port into a whitelist domain. |
| GenericEditScreen.StoreFieldsKeepsDomainClean | src/client/java/dev/cursedatom/cursedaddons/config/utils/GenericEditScreen.java:250-271 | The whole field loop never puts a path or a port into a whitelist domain. |
| GenericEditScreen.SavedWhitelistDomainIsBare | src/client/java/dev/cursedatom/cursedaddons/config/utils/GenericEditScreen.java:313-327 | Whatever the user typed, a saved whitelist entry holds a bare host name. |
| GenericEditScreen.SavedMacroHasCapturedKey | src/client/java/dev/cursedatom/cursedaddons/config/utils/GenericEditScreen.java:273-284 | A macro saved after a key was captured carries that key, whatever the key field's text said. |
| GenericEditScreen.PressKeybindButton | src/client/java/dev/cursedatom/cursedaddons/config/utils/GenericEditScreen.java:113-120 | Pressing a keybind button makes it the only waiting one. |
| GenericEditScreen.OfferKey | src/client/java/dev/cursedatom/cursedaddons/config/utils/GenericEditScreen.java:185-189 | The key is consumed exactly when some visible suggestion list handles it; otherwise every list is unchanged. |
| GenericEditScreen.KeyPressed | src/client/java/dev/cursedatom/cursedaddons/config/utils/GenericEditScreen.java:182-207 | A consumed key goes no further; otherwise a waiting button is bound to the key (Escape unbinds), stops waiting and records the key; with none waiting the base screen answers. |
| GenericEditScreen.OfferClick | src/client/java/dev/cursedatom/cursedaddons/config/utils/GenericEditScreen.java:222-226 | The click is consumed exactly when some suggestion list takes it; otherwise every list is unchanged. |
| GenericEditScreen.MouseClicked | src/client/java/dev/cursedatom/cursedaddons/config/utils/GenericEditScreen.java:219-238 | A consumed click goes no further; otherwise a waiting button is bound to the mouse button; with none waiting the base screen answers. |
| GenericEditScreen.OfferScroll | src/client/java/dev/cursedatom/cursedaddons/config/utils/GenericEditScreen.java:211-215 | The wheel is consumed exactly when some suggestion list takes it; otherwise every list is unchanged. |
| GenericEditScreen.MouseScrolled | src/client/java/dev/cursedatom/cursedaddons/config/utils/GenericEditScreen.java:209-217 | Only the suggestion lists can change; the wheel is consumed when some list takes it and otherwise the base screen answers. |
| GenericEditScreen.EscapeUnbinds | src/client/java/dev/cursedatom/cursedaddons/config/utils/GenericEditScreen.java:193-203 | With all suggestion lists closed, Escape on a waiting button consumes the key, stops waiting and leaves the button unbound. |
| TextUtils.Chars | src/client/java/dev/cursedatom/cursedaddons/features/chatnotifications/ChatNotifications.java:138 | The plain text (`getString`) of a styled sequence: one whole character per entry, in order. |
| TextUtils.JoinComponents | src/client/java/dev/cursedatom/cursedaddons/utils/TextUtils.java:49-58 | No components give the empty text and a single component is itself. |
| TextUtils.SplitLines | src/client/java/dev/cursedatom/cursedaddons/utils/TextUtils.java:49-58 | Cutting at line breaks always yields at least one line. |
| TextUtils.SplitLinesOfLine | src/client/java/dev/cursedatom/cursedaddons/utils/TextUtils.java:53-55 | A line without breaks followed by a break and more text splits into that line and the rest's lines. |
| TextUtils.JoinThenSplit | src/client/java/dev/cursedatom/cursedaddons/utils/TextUtils.java:49-58 | Round trip: components without line breaks of their own come back exactly when the joined text is cut at its line breaks. |
| TextUtils.JoinLength | src/client/java/dev/cursedatom/cursedaddons/utils/TextUtils.java:49-58 | The joined text holds every component's characters plus one line break between each two. |
| TextUtils.FlagCodes | src/client/java/dev/cursedatom/cursedaddons/utils/TextUtils.java:94-108 | A flag code is written exactly when its flag is on and either it was off before or formatting was reset. |
| TextUtils.Pairs | src/client/java/dev/cursedatom/cursedaddons/utils/TextUtils.java:84-107 | Every code is written as a section sign followed by the code character. |
| TextUtils.EventsOnlyChangeWritesNothing | src/client/java/dev/cursedatom/cursedaddons/utils/TextUtils.java:74-108 | A style change confined to fields without a legacy code (click and hover events, insertion) writes no code. |
| TextUtils.HexColorWritesNoColorCode | src/client/java/dev/cursedatom/cursedaddons/utils/TextUtils.java:87-93 | An RGB colour has no legacy name, so only reset and flag codes are written. |
| TextUtils.ResetRepeatsEverything | src/client/java/dev/cursedatom/cursedaddons/utils/TextUtils.java:75-108 | When formatting is removed both encoders write the reset, the colour if named, and every flag that is on. |
| TextUtils.SameStyleRunIsPlain | src/client/java/dev/cursedatom/cursedaddons/utils/TextUtils.java:74-112 | Characters in the style already in force are written without codes, each through the `(char)` cast. |
| TextUtils.CharCast | src/client/java/dev/cursedatom/cursedaddons/utils/TextUtils.java:112 | A character below U+10000 is written unchanged; any other that changes keeps only its low 16 bits. |
| TextUtils.CastIdempotent | src/client/java/dev/cursedatom/cursedaddons/utils/TextUtils.java:112 | Casting a written character again changes nothing. |
| TextUtils.CastDropsPlane | src/client/java/dev/cursedatom/cursedaddons/utils/TextUtils.java:112 | U+1F600 is written as U+F600: the plane is lost. |
| TextUtils.WrittenChars | src/client/java/dev/cursedatom/cursedaddons/utils/TextUtils.java:112 | The written text has one character per input character, each the cast of it. |
| TextUtils.WrittenBmpIsPlain | src/client/java/dev/cursedatom/cursedaddons/utils/TextUtils.java:112 | For text inside the Basic Multilingual Plane the written text is the plain text. |
| TextUtils.UnstyledIsPlain | src/client/java/dev/cursedatom/cursedaddons/utils/TextUtils.java:66-117 | An unstyled component's legacy string, from either encoder, is its characters through the cast, and exactly its text when every character is below U+10000. |
| TextUtils.ToLegacyStringAsWritten | src/client/java/dev/cursedatom/cursedaddons/utils/TextUtils.java:66-117 | The source's encoder writes every character, so its output is at least as long as the text, and unstyled text comes out as its cast characters with no code. |
| TextUtils.ToLegacyString | src/client/java/dev/cursedatom/cursedaddons/utils/TextUtils.java:66-117 | The corrected encoder likewise writes every character and writes no code for unstyled text. |
| RegexTester.ColorClass | regex-tester/script.js:91-108 | Each of the sixteen colour codes maps to a class with the shared `color-` prefix. |
| RegexTester.FormatClass | regex-tester/script.js:110-116 | Each of the five formatting codes maps to a class with the shared `color-` prefix. |
| RegexTester.LowerCode | regex-tester/script.js:124 | The code character is lower-cased: ASCII capitals move down, other characters stay (the Kelvin sign aside). |
| RegexTester.DropPrefixed | regex-tester/script.js:131 | Filtering keeps exactly the classes without the `color-` prefix, so it empties a list of prefixed classes. |
| RegexTester.ApplyCode | regex-tester/script.js:126-138 | `r` empties the classes; a colour code leaves only its class; a formatting code adds its class once; any other code changes nothing. |
| RegexTester.ColorCodeClearsFormatting | regex-tester/script.js:129-132 | A colour code after a formatting code leaves only the colour, because both share the prefix the filter removes. |
| RegexTester.PieceChars | regex-tester/script.js:142-149 | The shown text of a preview: one character per piece, in order. |
| RegexTester.ParseFrom | regex-tester/script.js:118-151 | The preview never shows more characters than the text has; text without a section sign is shown as is, in the current classes. |
| RegexTester.CodeCaseIgnored | regex-tester/script.js:124 | An upper-case code letter acts like its lower-case form. |
| RegexTester.TrailingSectionShown | regex-tester/script.js:123-149 | A section sign at the very end has no code after it and is shown as a character. |
| RegexTester.StripCodes | regex-tester/script.js:31 | `replace(/§./g, '')`: no section sign is left before a character other than a line terminator, and a leading line terminator stays. |
| RegexTester.StripCodesIdempotent | regex-tester/script.js:31 | Stripping twice strips nothing more. |
| RegexTester.StripKeepsCleanText | regex-tester/script.js:31 | Text without a removable code is left alone. |
| RegexTester.TextToMatch | regex-tester/script.js:30-31 | A pattern with an unescaped `&` is matched against the raw text, any other against the text with codes stripped. |
| RegexTester.ConvertedPatternHasNoAmpersand | regex-tester/script.js:34-35 | Without escapes, every `&` of the pattern becomes a section sign. |
| RegexTester.PlainPatternUnchanged | regex-tester/script.js:34-35 | A pattern without `&` is not changed by the conversion. |
| RegexTester.ReplaceKeepsAbsent | regex-tester/script.js:34 | A global replace never brings in a character that was in neither the text nor the replacement. |
| RegexTester.ReplaceMissingChar | regex-tester/script.js:34-35 | A global replace whose pattern cannot occur leaves the text alone. |
| RegexTester.FirstSolid | regex-tester/script.js:20 | The first non-blank position at or after a start, with only blanks before it. |
| RegexTester.LastSolid | regex-tester/script.js:20 | The end of the last non-blank character before a limit, with only blanks after it. |
| RegexTester.JsTrim | regex-tester/script.js:20-50 | A trimmed string starts and ends with non-blank characters, and is empty exactly when the input is all blank. |
| RegexTester.TestRegex | regex-tester/script.js:19-63 | A blank pattern is refused; otherwise an invalid converted pattern is reported, and a match is shown exactly when the converted pattern compiles and matches the text chosen for it. |
| LegacyRoundTrip.ParsePairs | src/client/java/dev/cursedatom/cursedaddons/utils/TextUtils.java:84-107 | The preview reads a run of written code pairs as those codes applied one by one. |
| LegacyRoundTrip.StripPairs | src/client/java/dev/cursedatom/cursedaddons/utils/TextUtils.java:84-107 | Stripping removes a run of written code pairs entirely. |
| LegacyRoundTrip.CorrectedStep | src/client/java/dev/cursedatom/cursedaddons/utils/TextUtils.java:74-108 | One style change with the corrected codes takes the preview from the classes of the old style to those of the new. |
| LegacyRoundTrip.CorrectedRoundTripFrom | src/client/java/dev/cursedatom/cursedaddons/utils/TextUtils.java:66-117 | The corrected encoder, read back by the preview, shows every character with exactly the classes of its style. |
| LegacyRoundTrip.CorrectedRoundTrip | src/client/java/dev/cursedatom/cursedaddons/utils/TextUtils.java:66-117 | Round trip from an unstyled start: one preview entry per character, each with that character's classes and the character as the encoder casts it. |
| LegacyRoundTrip.StripRecoversText | src/client/java/dev/cursedatom/cursedaddons/utils/TextUtils.java:66-117 | Both encoders keep the written text: stripping the codes gives back the characters as cast, so text below U+10000 comes back exactly. |
| LegacyRoundTrip.AsWrittenDropsBold | src/client/java/dev/cursedatom/cursedaddons/utils/TextUtils.java:87-96 | The source's encoder writes a bold character that turns red as `§la§cb`, which the preview shows red but not bold; the corrected encoder shows it as intended. |
| ChatNotifications.GroupAtIff | src/client/java/dev/cursedatom/cursedaddons/features/chatnotifications/ChatNotifications.java:48-53 | Checking only the first closing parenthesis after an opening one decides whether some quantified group opens there. |
| ChatNotifications.HasGroupIff | src/client/java/dev/cursedatom/cursedaddons/features/chatnotifications/ChatNotifications.java:48-53 | The scan over opening parentheses agrees with the whole-string pattern match. |
| ChatNotifications.Safe | src/client/java/dev/cursedatom/cursedaddons/features/chatnotifications/ChatNotifications.java:41-58 | The executable guard agrees with its definition: at most 500 UTF-16 units, as `String.length` counts them, and no quantified group holding a quantifier or an alternation. |
| JavaText.Utf16Length | src/client/java/dev/cursedatom/cursedaddons/features/chatnotifications/ChatNotifications.java:42 | `String.length` counts one unit per character below U+10000 and two for any other, so it lies between the character count and twice it. |
| ChatNotifications.FindQuantifiedGroup | src/client/java/dev/cursedatom/cursedaddons/features/chatnotifications/ChatNotifications.java:48-53 | The loop answers true exactly when the whole-string pattern `.*\([^)]*M[^)]*\)[+*{].*` matches. |
| ChatNotifications.IsPatternSafe | src/client/java/dev/cursedatom/cursedaddons/features/chatnotifications/ChatNotifications.java:41-58 | The guard accepts a pattern exactly when it is at most 500 UTF-16 units long and neither whole-string check matches. |
| ChatNotifications.EmojiPatternTooLong | src/client/java/dev/cursedatom/cursedaddons/features/chatnotifications/ChatNotifications.java:30-43 | The limit counts UTF-16 units: 251 emoji are refused as too long although they are only 251 characters. |
| ChatNotifications.NestedQuantifierRefused | src/client/java/dev/cursedatom/cursedaddons/features/chatnotifications/ChatNotifications.java:46-50 | `(a+)+` is refused, while `(a+)` alone matches neither check. |
| ChatNotifications.DigitRunEnd | src/client/java/dev/cursedatom/cursedaddons/features/chatnotifications/ChatNotifications.java:74-78 | The inner loop stops at the end of the maximal run of digits. |
| ChatNotifications.GroupNumberIsParseInt | src/client/java/dev/cursedatom/cursedaddons/features/chatnotifications/ChatNotifications.java:79 | The group number is `Integer.parseInt` of the digits, which throws above the largest int. |
| ChatNotifications.ReplaceCaptureGroups | src/client/java/dev/cursedatom/cursedaddons/features/chatnotifications/ChatNotifications.java:65-95 | The loop computes the left-to-right substitution: `\$` is a literal dollar, `$n` an existing group (or nothing when the group did not take part), an unknown group stays as typed, and a reference too large for an int throws. |
| ChatNotifications.NoDollarUnchanged | src/client/java/dev/cursedatom/cursedaddons/features/chatnotifications/ChatNotifications.java:65-95 | A template without a dollar sign comes back unchanged. |
| ChatNotifications.UnknownGroupStaysLiteral | src/client/java/dev/cursedatom/cursedaddons/features/chatnotifications/ChatNotifications.java:80-87 | With one group, `$12` is the literal `$12`, not group 1 followed by a 2. |
| ChatNotifications.GroupReferenceReplaced | src/client/java/dev/cursedatom/cursedaddons/features/chatnotifications/ChatNotifications.java:73-84 | `$1` followed by a non-digit is replaced by group 1 and the rest substituted after it. |
| ChatNotifications.EscapedDollarIsLiteral | src/client/java/dev/cursedatom/cursedaddons/features/chatnotifications/ChatNotifications.java:70-72 | `\$1` gives the literal `$1`. |
| ChatNotifications.HugeReferenceThrows | src/client/java/dev/cursedatom/cursedaddons/features/chatnotifications/ChatNotifications.java:79 | `$9999999999` makes `parseInt` throw. |
| ChatNotifications.ConvertRegexPatternAsWritten | src/client/java/dev/cursedatom/cursedaddons/features/chatnotifications/ChatNotifications.java:111 | The source's pattern rewrite leaves no ampersand at all. |
| ChatNotifications.ConvertTitleAsWritten | src/client/java/dev/cursedatom/cursedaddons/features/chatnotifications/ChatNotifications.java:177 | The source's title rewrite leaves no ampersand at all. |
| ChatNotifications.EscapeIsLost | src/client/java/dev/cursedatom/cursedaddons/features/chatnotifications/ChatNotifications.java:111 | In the source's rewrites an escaped ampersand and a bare one both become a section sign. |
| ChatNotifications.EscapeAmpersands | src/client/java/dev/cursedatom/cursedaddons/features/chatnotifications/ChatNotifications.java:111 | Without backslashes every ampersand becomes a section sign. |
| ChatNotifications.EscapeIsKept | src/client/java/dev/cursedatom/cursedaddons/features/chatnotifications/ChatNotifications.java:111 | With the escape honoured, `\&` becomes a literal ampersand and `&` a section sign. |
| ChatNotifications.ConvertRegexPattern | src/client/java/dev/cursedatom/cursedaddons/features/chatnotifications/ChatNotifications.java:111 | The corrected pattern rewrite agrees with the source's on every pattern without a backslash and then leaves no `&`. |
| ChatNotifications.ConvertTitle | src/client/java/dev/cursedatom/cursedaddons/features/chatnotifications/ChatNotifications.java:173 | The corrected title rewrite agrees with the source's on every title without a backslash and then leaves no `&`. |
| ChatNotifications.EscapeKeepsLiteral | src/client/java/dev/cursedatom/cursedaddons/features/chatnotifications/ChatNotifications.java:111 | With the escape honoured, an escaped ampersand after any backslash-free text is a literal `&`, and the text around it is rewritten as if it were not there. |
| ChatNotifications.ConvertAgreesWithTester | src/client/java/dev/cursedatom/cursedaddons/features/chatnotifications/ChatNotifications.java:111 | The corrected pattern rewrite agrees with the regex tester's conversion for every pattern without braces. |
| ChatNotifications.BuildCache | src/client/java/dev/cursedatom/cursedaddons/features/chatnotifications/ChatNotifications.java:106-125 | The cache holds exactly the units that are enabled, have a pattern and, for a regular expression, a safe pattern that compiles, each with its pattern rewritten by line 111 as written (or by the corrected rewrite when asked); nothing else. |
| ChatNotifications.EscapedPatternRewrites | src/client/java/dev/cursedatom/cursedaddons/features/chatnotifications/ChatNotifications.java:111 | The pattern `\&a` becomes the colour code `§a` in the source and the literal `&a` once corrected. |
| ChatNotifications.CachedEscapedPattern | src/client/java/dev/cursedatom/cursedaddons/features/chatnotifications/ChatNotifications.java:106-125 | A regular notification on `\&a` is cached by the source with the pattern `§a`, and by the corrected program with `&a`. |
| ChatNotifications.BuildCacheConcat | src/client/java/dev/cursedatom/cursedaddons/features/chatnotifications/ChatNotifications.java:107-124 | The cache keeps the units' order. |
| ChatNotifications.RefreshCache | src/client/java/dev/cursedatom/cursedaddons/features/chatnotifications/ChatNotifications.java:97-127 | An unchanged config version keeps the cache; otherwise the version is recorded, an empty list empties the cache, a decodable list rebuilds it with the same rewrite as `BuildCache`, and an undecodable one throws, keeping the old notifications. |
| ChatNotifications.RefreshSettles | src/client/java/dev/cursedatom/cursedaddons/features/chatnotifications/ChatNotifications.java:97-100 | A refresh right after a refresh changes nothing. |
| ChatNotifications.Fire | src/client/java/dev/cursedatom/cursedaddons/features/chatnotifications/ChatNotifications.java:155-189 | A matching notification plays only an enabled, non-empty, existing sound, shows only an enabled non-empty title (rewritten by line 177 as written, or corrected), sends only an enabled non-empty command; only a regular expression's substitution can throw. |
| ChatNotifications.SoundActions | src/client/java/dev/cursedatom/cursedaddons/features/chatnotifications/ChatNotifications.java:156-170 | At most one sound plays, only an enabled non-empty sound that exists; a plain notification plays its sound as written, a regex one the substituted sound, and a failed substitution or an unknown sound is caught and costs only the sound. |
| ChatNotifications.PlainFire | src/client/java/dev/cursedatom/cursedaddons/features/chatnotifications/ChatNotifications.java:155-189 | In the source, a plain-text notification does exactly what its flags say, with its strings as typed and the title rewritten by line 177, so the title shown holds no ampersand. |
| ChatNotifications.FireAll | src/client/java/dev/cursedatom/cursedaddons/features/chatnotifications/ChatNotifications.java:141-190 | When no notification matches, nothing is done. |
| ChatNotifications.FireAllConcat | src/client/java/dev/cursedatom/cursedaddons/features/chatnotifications/ChatNotifications.java:141-190 | The loop runs through the notifications in order: a match does not stop the ones after it, only a throw does. |
| ChatNotifications.CheckMessage | src/client/java/dev/cursedatom/cursedaddons/features/chatnotifications/ChatNotifications.java:129-191 | Without a player or with the feature disabled nothing happens; otherwise the cache is refreshed first and a decode failure throws before any action; after a good refresh the actions and the exception are exactly those of the loop over the cached notifications, with plain patterns searched in `getString` and regular expressions in `toLegacyString` (as written, or corrected). |
| ChatNotifications.CheckMessageActsOnMatches | src/client/java/dev/cursedatom/cursedaddons/features/chatnotifications/ChatNotifications.java:129-191 | Every action taken comes from a cached notification that matches the message, and a second message under the same config finds the cache as the first left it. |
| GifDecoder.Blank | src/client/java/dev/cursedatom/cursedaddons/features/images/GifDecoder.java:71-77 | A new canvas of the given size is fully transparent. |
| GifDecoder.Draw | src/client/java/dev/cursedatom/cursedaddons/features/images/GifDecoder.java:142 | Drawing a frame at its offset keeps the canvas size and composes each pixel with the frame pixel over it, if any. |
| GifDecoder.ClearRect | src/client/java/dev/cursedatom/cursedaddons/features/images/GifDecoder.java:103-115 | Clearing a rectangle makes exactly its pixels transparent and keeps the rest. |
| GifDecoder.DrawOnlyTouchesFrame | src/client/java/dev/cursedatom/cursedaddons/features/images/GifDecoder.java:142 | Pixels outside the frame's rectangle are never changed, and a fully transparent frame changes nothing. |
| GifDecoder.OpaqueFullFrameReplaces | src/client/java/dev/cursedatom/cursedaddons/features/images/GifDecoder.java:142 | An opaque frame covering the whole canvas replaces it. |
| GifDecoder.DelayOf | src/client/java/dev/cursedatom/cursedaddons/features/images/GifDecoder.java:188-193 | A delay is the centiseconds times ten, except that anything under 20 ms becomes 100 ms; it is never under 20 ms. |
| GifDecoder.ParseChildren | src/client/java/dev/cursedatom/cursedaddons/features/images/GifDecoder.java:180-209 | The metadata loop never yields a delay under 20 ms and leaves the defaults when there is no control block or descriptor. |
| GifDecoder.ParseFrameInfo | src/client/java/dev/cursedatom/cursedaddons/features/images/GifDecoder.java:170-215 | Missing or unreadable metadata gives the defaults (no offset, 100 ms, no disposal); the delay is never under 20 ms. |
| GifDecoder.NoControlBlockDefaults | src/client/java/dev/cursedatom/cursedaddons/features/images/GifDecoder.java:183-200 | Without a graphic control block, delay and disposal keep their defaults. |
| GifDecoder.ControlBlockRead | src/client/java/dev/cursedatom/cursedaddons/features/images/GifDecoder.java:183-200 | A control block with a readable delay sets the delay (at least 20 ms) and the disposal, if given. |
| GifDecoder.UnparsableDelayKeepsDefaults | src/client/java/dev/cursedatom/cursedaddons/features/images/GifDecoder.java:188-212 | An unreadable delay throws inside the loop, which is caught, so every field keeps its default. |
| GifDecoder.ScreenDimensions | src/client/java/dev/cursedatom/cursedaddons/features/images/GifDecoder.java:217-237 | Logical screen dimensions are used only when both are positive. |
| GifDecoder.CanvasSize | src/client/java/dev/cursedatom/cursedaddons/features/images/GifDecoder.java:46-59 | The canvas is at least as large as the first frame and as the logical screen, and each side is one of the two. |
| GifDecoder.Decode | src/client/java/dev/cursedatom/cursedaddons/features/images/GifDecoder.java:31-159 | Without a GIF reader or without frames decoding fails; otherwise at most 200 frames are kept, each the canvas after compositing the frames up to it, each with its parsed delay, at the canvas size. |
| GifDecoder.Dispose | src/client/java/dev/cursedatom/cursedaddons/features/images/GifDecoder.java:98-127 | "restoreToBackgroundColor" clears the previous frame's rectangle and nothing else, "restoreToPrevious" brings back the saved canvas, any other method leaves the canvas; the canvas keeps its size. |
| GifDecoder.Step | src/client/java/dev/cursedatom/cursedaddons/features/images/GifDecoder.java:91-149 | One frame keeps the canvas's size, saves a snapshot only for a "restoreToPrevious" frame, and remembers the frame's disposal and rectangle for the next frame. |
| GifDecoder.StateAfterKeepsSize | src/client/java/dev/cursedatom/cursedaddons/features/images/GifDecoder.java:91-149 | Compositing any number of frames never changes the canvas's size. |
| GifDecoder.Composited | src/client/java/dev/cursedatom/cursedaddons/features/images/GifDecoder.java:143-147 | Each kept frame is as large as the starting canvas. |
| GifDecoder.DelaysAtLeastMinimum | src/client/java/dev/cursedatom/cursedaddons/features/images/GifDecoder.java:191-193 | Every stored delay is at least 20 ms. |
| GifDecoder.RestoreToBackgroundClears | src/client/java/dev/cursedatom/cursedaddons/features/images/GifDecoder.java:101-117 | After a frame with restore-to-background, the next frame is drawn on the canvas with that frame's rectangle cleared. |
| GifDecoder.RestoreToPreviousRewinds | src/client/java/dev/cursedatom/cursedaddons/features/images/GifDecoder.java:118-131 | After a frame with restore-to-previous, the next frame is drawn on exactly the canvas that frame was drawn on. |
| GifDecoder.OtherDisposalKeepsCanvas | src/client/java/dev/cursedatom/cursedaddons/features/images/GifDecoder.java:125 | After any other disposal the next frame is drawn on the previous composite unchanged. |
| GifDecoder.TotalDuration | src/client/java/dev/cursedatom/cursedaddons/features/images/GifDecoder.java:294-298 | The sum of the delays in 32-bit arithmetic: the true sum whenever it fits. |
| ImageResult.OfStatic | src/client/java/dev/cursedatom/cursedaddons/features/images/ImageResult.java:27-29 | A static result carries only the PNG data, with the given size. |
| ImageResult.OfStaticRaw | src/client/java/dev/cursedatom/cursedaddons/features/images/ImageResult.java:31-33 | A raw result carries only the pixel array, with the given size. |
| ImageResult.OfGif | src/client/java/dev/cursedatom/cursedaddons/features/images/ImageResult.java:35-37 | A GIF result carries only the frames and delays, with the given size. |
| ImageResult.FactoryObservers | src/client/java/dev/cursedatom/cursedaddons/features/images/ImageResult.java:39-73 | Static results are not animated and count one frame, only raw results have raw pixels, and a GIF is animated exactly when it has more than one frame, counting its frames. |
| ImageResult.ObserversIdentifyFactory | src/client/java/dev/cursedatom/cursedaddons/features/images/ImageResult.java:39-45 | For any result a factory built, raw pixels identify the raw factory and animation implies a GIF of at least two frames. |
| ImageResult.SingleFrameGifIsStill | src/client/java/dev/cursedatom/cursedaddons/features/images/ImageResult.java:39-73 | A one-frame GIF is not animated and counts one frame. |
| ImageResult.IsAnimated | src/client/java/dev/cursedatom/cursedaddons/features/images/ImageResult.java:39-41 | A result is animated exactly when it holds GIF data and counts more than one frame. |
| ImageResult.FrameCount | src/client/java/dev/cursedatom/cursedaddons/features/images/ImageResult.java:71-73 | A static result counts one frame and a GIF its number of frames. |
| ImageTextureManager.CacheKeyInjective | src/client/java/dev/cursedatom/cursedaddons/features/images/ImageTextureManager.java:31-33 | Two images share a texture key only when they have the same URL and the same size limits. |
| ImageTextureManager.ToAbgrSwapsRedAndBlue | src/client/java/dev/cursedatom/cursedaddons/features/images/ImageTextureManager.java:57-62 | The per-pixel conversion keeps alpha and green and swaps red and blue. |
| ImageTextureManager.ToAbgrInvolution | src/client/java/dev/cursedatom/cursedaddons/features/images/ImageTextureManager.java:57-62 | Converting a pixel twice gives it back, so no colour information is lost. |
| ImageTextureManager.ConvertPixels | src/client/java/dev/cursedatom/cursedaddons/features/images/ImageTextureManager.java:49-64 | A raw image is converted exactly when both sides are positive and enough pixels are given; the result has the given size and every pixel is the converted source pixel at the same place. |
| ImageTextureManager.Truncate | src/client/java/dev/cursedatom/cursedaddons/features/images/ImageTextureManager.java:104-116 | An animation of at most 25 frames is kept whole; a longer one keeps its first 25 frames and delays, and fails when it has fewer than 25 delays. |
| ImageTextureManager.BatchesPartition | src/client/java/dev/cursedatom/cursedaddons/features/images/ImageTextureManager.java:131-150 | The batches after the first are non-empty, at most 8 frames long, follow one another without gap or overlap and together cover every remaining frame. |
| ImageTextureManager.NewEntry | src/client/java/dev/cursedatom/cursedaddons/features/images/ImageTextureManager.java:374-383 | A new animation has one empty slot per frame and a total duration that is the 32-bit sum of its delays, the true sum whenever it fits. |
| ImageTextureManager.FindNearestLoaded | src/client/java/dev/cursedatom/cursedaddons/features/images/ImageTextureManager.java:409-421 | The frame shown is the target if loaded, else the nearest loaded frame before it, else the nearest after it; nothing only when no frame is loaded. |
| ImageTextureManager.CurrentFrame | src/client/java/dev/cursedatom/cursedaddons/features/images/ImageTextureManager.java:385-402 | Nothing for an empty animation; the first frame's neighbourhood when the total duration is not positive; otherwise the frame whose slice of the looped time contains the elapsed time, or the last frame; something exactly when some frame is loaded. |
| ImageTextureManager.GetImageData | src/client/java/dev/cursedatom/cursedaddons/features/images/ImageTextureManager.java:226-243 | A static texture wins over an animation; an animation gives its current frame at its size; a key without textures gives nothing. |
| ImageTextureManager.RemoveStatic | src/client/java/dev/cursedatom/cursedaddons/features/images/ImageTextureManager.java:280-283 | The static entry of the key goes and no other key's entry changes. |
| ImageTextureManager.RemoveAnimated | src/client/java/dev/cursedatom/cursedaddons/features/images/ImageTextureManager.java:285-288 | The animation of the key goes and no other key's entry changes. |
| ImageTextureManager.RemoveStaticAccounted | src/client/java/dev/cursedatom/cursedaddons/features/images/ImageTextureManager.java:280-283 | Removing a static entry keeps every texture accounted for and releases exactly the texture registered for that entry. |
| ImageTextureManager.RemoveAnimatedAccounted | src/client/java/dev/cursedatom/cursedaddons/features/images/ImageTextureManager.java:285-318 | Removing an animation keeps every texture accounted for and releases exactly the textures registered for its frames. |
| ImageTextureManager.RemoveTexture | src/client/java/dev/cursedatom/cursedaddons/features/images/ImageTextureManager.java:278-290 | Afterwards the key has no textures and every other key has textures exactly as before. |
| ImageTextureManager.RemoveTextureReleases | src/client/java/dev/cursedatom/cursedaddons/features/images/ImageTextureManager.java:278-290 | Removing a key keeps every texture accounted for and releases exactly the textures registered for that key. |
| ImageTextureManager.Clear | src/client/java/dev/cursedatom/cursedaddons/features/images/ImageTextureManager.java:262-276 | Both caches are empty afterwards and no texture is registered by it. |
| ImageTextureManager.ClearReleasesAll | src/client/java/dev/cursedatom/cursedaddons/features/images/ImageTextureManager.java:262-276 | When every texture is accounted for, clearing releases all of them. |
| ImageTextureManager.EnforceLimit | src/client/java/dev/cursedatom/cursedaddons/features/images/ImageTextureManager.java:331-352 | Nothing changes while at most 50 textures are loaded; afterwards at most 50 are. |
| ImageTextureManager.EnforceLimitEvictsOldest | src/client/java/dev/cursedatom/cursedaddons/features/images/ImageTextureManager.java:331-352 | The limit keeps the accounting, drops only the oldest entries, drops animations only once no static entry is left, and leaves every surviving entry unchanged. |
| ImageTextureManager.RegisterStatic | src/client/java/dev/cursedatom/cursedaddons/features/images/ImageTextureManager.java:292-309 | The key gets a static entry with a fresh texture id, registered for that key, and nothing else changes. |
| ImageTextureManager.RegisterStaticAccounted | src/client/java/dev/cursedatom/cursedaddons/features/images/ImageTextureManager.java:292-309 | Registering a static texture for a key without one keeps every texture accounted for. |
| ImageTextureManager.RegisterFrame | src/client/java/dev/cursedatom/cursedaddons/features/images/ImageTextureManager.java:195-207 | A fresh texture is registered exactly when the batch's entry is still cached and the slot is empty, and it fills that slot; otherwise nothing changes. |
| ImageTextureManager.RegisterFrameAccounted | src/client/java/dev/cursedatom/cursedaddons/features/images/ImageTextureManager.java:195-207 | Registering a frame keeps every texture accounted for. |
| ImageTextureManager.RegisterBatchAccounted | src/client/java/dev/cursedatom/cursedaddons/features/images/ImageTextureManager.java:186-213 | Registering a whole batch keeps every texture accounted for. |
| ImageTextureManager.StaleBatchRegistersNothing | src/client/java/dev/cursedatom/cursedaddons/features/images/ImageTextureManager.java:187-194 | A batch whose entry is no longer cached registers nothing. |
| ImageTextureManager.BatchFillsSlots | src/client/java/dev/cursedatom/cursedaddons/features/images/ImageTextureManager.java:195-207 | Into empty slots of its entry a batch registers one texture per frame, with consecutive fresh ids. |
| ImageTextureManager.BatchKeepsOtherSlots | src/client/java/dev/cursedatom/cursedaddons/features/images/ImageTextureManager.java:195-207 | A batch leaves slots outside its range unchanged. |
| ImageTextureManager.DecodeBatch | src/client/java/dev/cursedatom/cursedaddons/features/images/ImageTextureManager.java:171-183 | A batch decodes exactly when every frame in its range decodes, giving one image per frame in order. |
| ImageTextureManager.PrepareAnimated | src/client/java/dev/cursedatom/cursedaddons/features/images/ImageTextureManager.java:101-162 | A long animation with too few delays caches nothing; otherwise a fresh entry with no frame loaded is cached at once and the first batch from frame 0 is handed on, followed last by the cache limit; a failing first batch leaves the key uncached. |
| ImageTextureManager.PrepareAnimatedAccounted | src/client/java/dev/cursedatom/cursedaddons/features/images/ImageTextureManager.java:101-162 | Preparing an animation keeps every texture accounted for. |
| ImageTextureManager.PrepareAndRegister | src/client/java/dev/cursedatom/cursedaddons/features/images/ImageTextureManager.java:43-93 | A key that has textures is left alone; a still image yields at most one registration task of its size, which exists exactly when its pixels convert or its PNG bytes decode. |
| ImageTextureManager.PrepareAccounted | src/client/java/dev/cursedatom/cursedaddons/features/images/ImageTextureManager.java:43-93 | Preparing an image keeps every texture accounted for. |
| ImageTextureManager.Run | src/client/java/dev/cursedatom/cursedaddons/features/images/ImageTextureManager.java:142-213 | Corrected task step: stale batches and background loops do nothing, the background loop only hands on batches of its own entry, and removal leaves the key without textures. |
| ImageTextureManager.RunAccounted | src/client/java/dev/cursedatom/cursedaddons/features/images/ImageTextureManager.java:142-213 | Every task of the corrected program keeps every texture accounted for: none is ever leaked. |
| ImageTextureManager.RunAsWritten | src/client/java/dev/cursedatom/cursedaddons/features/images/ImageTextureManager.java:142-213 | As written, a batch whose key is cached registers one texture per image whatever entry the key now has. |
| ImageTextureManager.AsWrittenLeaksTextures | src/client/java/dev/cursedatom/cursedaddons/features/images/ImageTextureManager.java:186-213 | Prepare a two-frame GIF, evict it and prepare it again before the first batch runs: as written the first batch registers two textures that stay live after clearing, while the corrected step registers nothing. |
| ImageTextureManager.LeakAfterRegeneration | src/client/java/dev/cursedatom/cursedaddons/features/images/ImageTextureManager.java:187-206 | A batch of an older entry meeting a newer entry of the same key leaks its textures as written and changes nothing when corrected. |
| ImageTextureManager.HeldIsLive | src/client/java/dev/cursedatom/cursedaddons/features/images/ImageTextureManager.java:311-318 | Every texture the caches hold is registered and not yet released. |
| ImageCache.IntValue | src/client/java/dev/cursedatom/cursedaddons/features/images/ImageCache.java:35 | A configured number becomes a 32-bit int, unchanged when it already is one. |
| ImageCache.MaxContentLengthAsWritten | src/client/java/dev/cursedatom/cursedaddons/features/images/ImageCache.java:33-37 | The limit is a 32-bit int, and below 2048 MB it is the configured megabytes, at least one, times 1 MiB. |
| ImageCache.MaxContentLength | src/client/java/dev/cursedatom/cursedaddons/features/images/ImageCache.java:33-37 | Corrected limit: a positive whole number of MiB, at least one, equal to the configured size when that is positive, and equal to the source's limit wherever that does not wrap. |
| ImageCache.Open | src/client/java/dev/cursedatom/cursedaddons/features/images/ImageCache.java:130-168 | A blocked address fails; a connection opens exactly when the address is allowed, the status is 200 and the advertised length is within the limit, giving a stream with nothing read yet; another status fails with "HTTP" and the status. |
| ImageCache.ReadByte | src/client/java/dev/cursedatom/cursedaddons/features/images/ImageCache.java:304-311 | A read fails, with "File too large (exceeded N MB limit)", exactly when the limit is already reached; otherwise a byte read is counted, the end of the stream is not, and the count stays within the limit. |
| ImageCache.ReadBulk | src/client/java/dev/cursedatom/cursedaddons/features/images/ImageCache.java:314-323 | A bulk read fails, with the same message, exactly when the limit is already reached; otherwise the bytes delivered are counted and the count stays within the limit. |
| ImageCache.ReadToEndIffShorter | src/client/java/dev/cursedatom/cursedaddons/features/images/ImageCache.java:314-323 | A body is read to its end exactly when, with what was already read, it stays below the limit, and then the count is the total read. |
| ImageCache.ExactLimitFails | src/client/java/dev/cursedatom/cursedaddons/features/images/ImageCache.java:305-316 | A body of exactly the limit fails when the end is probed; one byte less is read whole. |
| ImageCache.WrappedLimitRefusesEverything | src/client/java/dev/cursedatom/cursedaddons/features/images/ImageCache.java:33-37 | As written, 2048 MB wraps the limit to the smallest int and every response is refused. |
| ImageCache.LimitAdmitsUnknownLength | src/client/java/dev/cursedatom/cursedaddons/features/images/ImageCache.java:158-163 | With the corrected limit an unknown length (-1) is admitted and a first byte can be read. |
| ImageCache.QuestionMarkIndex | src/client/java/dev/cursedatom/cursedaddons/features/images/ImageCache.java:253 | The index found is the first question mark, or -1 when there is none. |
| ImageCache.QueryIsIgnored | src/client/java/dev/cursedatom/cursedaddons/features/images/ImageCache.java:251-256 | A query string never changes whether a URL is taken for a GIF. |
| ImageCache.GifUrlIgnoresCase | src/client/java/dev/cursedatom/cursedaddons/features/images/ImageCache.java:251-256 | Without a query, a URL is a GIF exactly when it ends in ".gif" in any case. |
| ImageCache.IsGifUrl | src/client/java/dev/cursedatom/cursedaddons/features/images/ImageCache.java:251-256 | Lower-casing and then cutting at the first `?` decides as cutting the URL itself at its first `?` and lower-casing that part would: the URL is a GIF URL exactly when that part ends in ".gif". |
| ImageCache.FragmentIsNotCut | src/client/java/dev/cursedatom/cursedaddons/features/images/ImageCache.java:251-256 | A fragment is not cut off, so "a.gif#x" is not taken for a GIF. |
| ImageCache.LoadUrl | src/client/java/dev/cursedatom/cursedaddons/features/images/ImageCache.java:79-89 | The URL itself is loaded unless embed resolution applies; then it succeeds exactly when the URL resolves to a whitelisted URL, which is loaded instead, and an unresolved URL fails with "Failed to resolve embed URL". |
| ImageCache.GifResult | src/client/java/dev/cursedatom/cursedaddons/features/images/ImageCache.java:226-238 | No frame fails; one frame gives a still image of those bytes; more give an animation of those frames and delays; the size is the decoded one. |
| ImageCache.Download | src/client/java/dev/cursedatom/cursedaddons/features/images/ImageCache.java:76-96 | A failure to pick the URL fails the download, and a URL not ending in ".gif" yields raw pixels that are not animated. |
| ImageCache.LoadImage | src/client/java/dev/cursedatom/cursedaddons/features/images/ImageCache.java:56-111 | A recent failure answers null at once; a cached result is answered and becomes the most recent; a new download starts exactly when the key is neither failed recently, cached nor in flight; results are never changed here. |
| ImageCache.Evict | src/client/java/dev/cursedatom/cursedaddons/features/images/ImageCache.java:40-50 | Over ten entries the least recently used goes and its textures are to be removed; otherwise nothing changes. |
| ImageCache.Settle | src/client/java/dev/cursedatom/cursedaddons/features/images/ImageCache.java:97-107 | The key is no longer in flight; a result is stored under the key; a failure is recorded with its time and message and stores nothing. |
| ImageCache.SettleKeepsCapacity | src/client/java/dev/cursedatom/cursedaddons/features/images/ImageCache.java:40-99 | Storing a result keeps at most ten entries, makes the key the most recent and either adds just that key or evicts exactly the least recently used other key and schedules removal of its textures. |
| ImageCache.SettleEvicting | src/client/java/dev/cursedatom/cursedaddons/features/images/ImageCache.java:40-99 | When a store overflows the cache, the one key evicted is the least recently used one other than the stored key, and its textures are scheduled for removal. |
| ImageCache.FailureReason | src/client/java/dev/cursedatom/cursedaddons/features/images/ImageCache.java:116-123 | A message is given exactly for a recent failure, and it is that failure's message. |
| ImageCache.Clear | src/client/java/dev/cursedatom/cursedaddons/features/images/ImageCache.java:258-270 | Every result, in-flight marker and failure is gone. |
| ImageCache.SingleFlight | src/client/java/dev/cursedatom/cursedaddons/features/images/ImageCache.java:74-110 | While a key is in flight no second download starts and the caller shares the pending one. |
| ImageCache.CooldownThenRetry | src/client/java/dev/cursedatom/cursedaddons/features/images/ImageCache.java:59-104 | After a failure the key answers null without a download for 30 000 ms and starts a new download after that. |
| UrlResolver.AfterHost | src/client/java/dev/cursedatom/cursedaddons/features/images/UrlResolver.java:167-218 | What is returned follows the host in one of the four spellings of an optional-www http or https prefix. |
| UrlResolver.SchemeRest | src/client/java/dev/cursedatom/cursedaddons/features/images/UrlResolver.java:167-218 | After the scheme a spelled URL holds the host, with or without "www.", then the tail. |
| UrlResolver.AfterHostOfSpelled | src/client/java/dev/cursedatom/cursedaddons/features/images/UrlResolver.java:167-218 | Every one of the four spellings is recognised and gives exactly the tail after the host. |
| UrlResolver.OtherHost | src/client/java/dev/cursedatom/cursedaddons/features/images/UrlResolver.java:167-218 | A URL spelled with one host gives no tail for a host with a different first letter. |
| UrlResolver.AfterLastDash | src/client/java/dev/cursedatom/cursedaddons/features/images/UrlResolver.java:194 | The part returned has no dash, and is either the whole string or what follows its last dash. |
| UrlResolver.AfterLastDashOf | src/client/java/dev/cursedatom/cursedaddons/features/images/UrlResolver.java:194 | Whatever slug comes before the last dash, the part after it is the id. |
| UrlResolver.ImgurId | src/client/java/dev/cursedatom/cursedaddons/features/images/UrlResolver.java:166-173 | An Imgur id is a non-empty alphanumeric path right after the Imgur host. |
| UrlResolver.GiphyId | src/client/java/dev/cursedatom/cursedaddons/features/images/UrlResolver.java:193-200 | A Giphy id is non-empty and alphanumeric. |
| UrlResolver.FirstMatch | src/client/java/dev/cursedatom/cursedaddons/features/images/UrlResolver.java:36-88 | Some resolver applies exactly to URLs starting with "http", and the first that matches is chosen in the order Imgur, Giphy, Tenor, generic. |
| UrlResolver.IsResolvable | src/client/java/dev/cursedatom/cursedaddons/features/images/UrlResolver.java:49-55 | A URL is resolvable exactly when it is present and starts with "http". |
| UrlResolver.PlatformResolve | src/client/java/dev/cursedatom/cursedaddons/features/images/UrlResolver.java:175-246 | Imgur and Giphy rewrite without a request, Imgur refusing the ids "a" and "gallery" and both yielding null when their pattern does not match; Tenor and the generic resolver give the page's og:image. |
| UrlResolver.Resolve | src/client/java/dev/cursedatom/cursedaddons/features/images/UrlResolver.java:63-92 | No URL gives nothing; a cached URL gives its cached answer; during the cooldown nothing is returned; otherwise an answer is cached and clears the failure time, and no answer records the failure at a second clock reading taken after the resolver returns; only URLs starting with "http" are ever resolved. |
| UrlResolver.ClearCache | src/client/java/dev/cursedatom/cursedaddons/features/images/UrlResolver.java:94-97 | Both caches are empty afterwards. |
| UrlResolver.ImgurRewrite | src/client/java/dev/cursedatom/cursedaddons/features/images/UrlResolver.java:165-185 | An Imgur page becomes its i.imgur.com JPEG link without a request and is cached. |
| UrlResolver.AlbumIsNotScraped | src/client/java/dev/cursedatom/cursedaddons/features/images/UrlResolver.java:74-88 | An Imgur album link gives nothing and records a failure: the later resolvers are not tried. |
| UrlResolver.GiphyRewrite | src/client/java/dev/cursedatom/cursedaddons/features/images/UrlResolver.java:192-211 | A Giphy page with a slug is handled by Giphy, and its id is what follows the slug's last dash. |
| UrlResolver.GiphyPlainId | src/client/java/dev/cursedatom/cursedaddons/features/images/UrlResolver.java:194 | Without a slug the whole path is the Giphy id. |
| UrlResolver.ResolvedIsCached | src/client/java/dev/cursedatom/cursedaddons/features/images/UrlResolver.java:66-79 | Once a URL is resolved it is answered from the cache at any later time, whatever the resolvers would say. |
| UrlResolver.FailureCoolsDown | src/client/java/dev/cursedatom/cursedaddons/features/images/UrlResolver.java:69-90 | A failed URL is stamped with the clock reading taken after the attempt, gets nothing for a minute from that stamp whatever the resolvers would say, and is tried again afterwards. |
| ImageHoverPreview.ExtBeforeIff | src/client/java/dev/cursedatom/cursedaddons/features/images/ImageHoverPreview.java:19 | The scan for an extension succeeds exactly when some image extension follows at a later position with no whitespace in between. |
| ImageHoverPreview.FindFromIff | src/client/java/dev/cursedatom/cursedaddons/features/images/ImageHoverPreview.java:19-59 | The search succeeds exactly when an http or https scheme followed by whitespace-free text and an image extension starts at or after the given position. |
| ImageHoverPreview.MatchesImagePatternIff | src/client/java/dev/cursedatom/cursedaddons/features/images/ImageHoverPreview.java:18-59 | A URL matches exactly when its lower-cased text holds such a match anywhere, so the pattern ignores case. |
| ImageHoverPreview.ExtensionAnywhere | src/client/java/dev/cursedatom/cursedaddons/features/images/ImageHoverPreview.java:19-59 | An extension anywhere after the scheme, not only at the end, makes a match, and text appended after it keeps the match. |
| ImageHoverPreview.NoExtensionNoMatch | src/client/java/dev/cursedatom/cursedaddons/features/images/ImageHoverPreview.java:19 | Without an image extension nothing matches. |
| ImageHoverPreview.RefreshWhitelist | src/client/java/dev/cursedatom/cursedaddons/features/images/ImageHoverPreview.java:26-33 | The whitelist is re-read exactly when the configuration version has changed; an empty list gives an empty whitelist and a list that cannot be read reports an error. |
| ImageHoverPreview.RefreshIsIdempotent | src/client/java/dev/cursedatom/cursedaddons/features/images/ImageHoverPreview.java:26-33 | After a refresh the version is current and a second refresh changes nothing. |
| ImageHoverPreview.FirstEntry | src/client/java/dev/cursedatom/cursedaddons/features/images/ImageHoverPreview.java:102-111 | The entry returned is the first enabled entry whose domain the host matches; nothing exactly when none does. |
| ImageHoverPreview.GetWhitelistEntry | src/client/java/dev/cursedatom/cursedaddons/features/images/ImageHoverPreview.java:26-118 | The refresh runs first and its decode exception escapes the lookup; otherwise without entries or without a host nothing is returned, and an entry is returned exactly when some enabled entry admits the host, and it is the first such. |
| ImageHoverPreview.DecodeFailureThrowsOnce | src/client/java/dev/cursedatom/cursedaddons/features/images/ImageHoverPreview.java:26-88 | An undecodable whitelist makes the lookup throw once, keeps the old entries, and the next lookup under the same config succeeds. |
| ImageHoverPreview.LowerConcat | src/client/java/dev/cursedatom/cursedaddons/features/images/ImageHoverPreview.java:100-107 | Lower-casing distributes over concatenation. |
| ImageHoverPreview.SubdomainMatches | src/client/java/dev/cursedatom/cursedaddons/features/images/ImageHoverPreview.java:108 | A subdomain matches its domain. |
| ImageHoverPreview.LookalikeDoesNotMatch | src/client/java/dev/cursedatom/cursedaddons/features/images/ImageHoverPreview.java:108 | A host that merely ends with the domain text, without a dot before it, does not match. |
| ImageHoverPreview.IsWhitelisted | src/client/java/dev/cursedatom/cursedaddons/features/images/ImageHoverPreview.java:75-77 | The lookup's exception passes through; otherwise a host is whitelisted exactly when some enabled entry admits it. |
| ImageHoverPreview.EmbedResolutionEnabled | src/client/java/dev/cursedatom/cursedaddons/features/images/ImageHoverPreview.java:49-52 | The lookup's exception passes through; otherwise embed resolution is on exactly when the host's first matching entry has it on. |
| ImageHoverPreview.FirstEntryDecides | src/client/java/dev/cursedatom/cursedaddons/features/images/ImageHoverPreview.java:102-111 | Only the first matching entry counts: when it admits the host without embed resolution, the host is whitelisted but not resolved, whatever entries follow. |
| ImageHoverPreview.IsImageUrl | src/client/java/dev/cursedatom/cursedaddons/features/images/ImageHoverPreview.java:57-61 | No URL is not an image; a URL matching the pattern is one at once, without a lookup; otherwise the lookup's exception passes through, or it is one exactly when embed resolution is on for its host and it starts with "http". |
| ImageHoverPreview.NeedsResolution | src/client/java/dev/cursedatom/cursedaddons/features/images/ImageHoverPreview.java:67-70 | Resolution is needed exactly when the URL is present, does not match the pattern and starts with "http". |
| ImageHoverPreview.ImageUrlIsDirectOrResolved | src/client/java/dev/cursedatom/cursedaddons/features/images/ImageHoverPreview.java:57-70 | An image URL either matches the pattern or needs resolution, never both. |
| ImageHoverPreview.IsEnabled | src/client/java/dev/cursedatom/cursedaddons/features/images/ImageHoverPreview.java:42-44 | The feature is on when the setting is true and off when it is not a boolean. |
| ImageHoverPreview.ClearCaches | src/client/java/dev/cursedatom/cursedaddons/features/images/ImageHoverPreview.java:123-127 | The image cache, the textures and the resolver caches are all emptied. |
| PlainTextUrlAnnotator.RunEnd | src/client/java/dev/cursedatom/cursedaddons/features/images/PlainTextUrlAnnotator.java:27 | The run ends at the first character that cannot be part of a URL, and everything before it can. |
| PlainTextUrlAnnotator.NextMatch | src/client/java/dev/cursedatom/cursedaddons/features/images/PlainTextUrlAnnotator.java:26-79 | The match found is the first position from the start of the search where a URL begins, and it extends over the longest run of URL characters; nothing exactly when no URL begins after the start. |
| PlainTextUrlAnnotator.TokenShape | src/client/java/dev/cursedatom/cursedaddons/features/images/PlainTextUrlAnnotator.java:26-28 | A match is an http or https scheme in any case followed by URL characters, and it is maximal. |
| PlainTextUrlAnnotator.Scan | src/client/java/dev/cursedatom/cursedaddons/features/images/PlainTextUrlAnnotator.java:79-99 | The rebuild loop never moves its position backwards and appends nothing when no URL qualifies. |
| PlainTextUrlAnnotator.ScanKeepsText | src/client/java/dev/cursedatom/cursedaddons/features/images/PlainTextUrlAnnotator.java:79-99 | The pieces appended, followed by the rest of the text, spell the text after the last qualifying URL. |
| PlainTextUrlAnnotator.ScanStyles | src/client/java/dev/cursedatom/cursedaddons/features/images/PlainTextUrlAnnotator.java:86-96 | Every piece keeps the segment's style, except a qualifying URL, which may add an open-URL click for itself. |
| PlainTextUrlAnnotator.ScanFindsIffDetected | src/client/java/dev/cursedatom/cursedaddons/features/images/PlainTextUrlAnnotator.java:52-84 | The rebuild loop finds a qualifying URL exactly when the detection loop does. |
| PlainTextUrlAnnotator.AnnotateSegment | src/client/java/dev/cursedatom/cursedaddons/features/images/PlainTextUrlAnnotator.java:70-105 | A segment with a click event, or without a qualifying URL, passes through as it was; otherwise the text is kept and its characters are styled as `AnnotateSegmentStyles` states. |
| PlainTextUrlAnnotator.AnnotateSegmentKeeps | src/client/java/dev/cursedatom/cursedaddons/features/images/PlainTextUrlAnnotator.java:69-106 | Splitting a segment keeps its text, and every piece keeps its style or adds an open-URL click for its own qualifying URL. |
| PlainTextUrlAnnotator.AnnotateAll | src/client/java/dev/cursedatom/cursedaddons/features/images/PlainTextUrlAnnotator.java:68-108 | The rebuilt segments spell the same text as the originals. |
| PlainTextUrlAnnotator.TokensOrdered | src/client/java/dev/cursedatom/cursedaddons/features/images/PlainTextUrlAnnotator.java:75-79 | The matches `find` visits lie inside the text in increasing order without overlapping. |
| PlainTextUrlAnnotator.ScanIsScanList | src/client/java/dev/cursedatom/cursedaddons/features/images/PlainTextUrlAnnotator.java:79-99 | Running the loop with `find` is the same as running it over the list of matches found in advance. |
| PlainTextUrlAnnotator.StyleInsideLink | src/client/java/dev/cursedatom/cursedaddons/features/images/PlainTextUrlAnnotator.java:90-93 | A character inside a qualifying URL that parses has the segment's style with an open-URL click for that URL. |
| PlainTextUrlAnnotator.StyleOutsideLinks | src/client/java/dev/cursedatom/cursedaddons/features/images/PlainTextUrlAnnotator.java:86-88 | A character in no such URL keeps the segment's style. |
| PlainTextUrlAnnotator.ScanListCharStyles | src/client/java/dev/cursedatom/cursedaddons/features/images/PlainTextUrlAnnotator.java:79-105 | The pieces the loop appends, followed by the unstyled rest, give each character the reference style. |
| PlainTextUrlAnnotator.AnnotateSegmentStyles | src/client/java/dev/cursedatom/cursedaddons/features/images/PlainTextUrlAnnotator.java:69-105 | The styles of the rebuilt segment's characters are exactly the reference styles of the original segment. |
| PlainTextUrlAnnotator.AnnotatedCharacter | src/client/java/dev/cursedatom/cursedaddons/features/images/PlainTextUrlAnnotator.java:79-105 | Per character of a segment without a click event: inside a qualifying URL that parses it links to that URL, and outside every such URL it keeps the segment's style; the positive direction that an image URL does become a link. |
| PlainTextUrlAnnotator.AnnotateAllStyles | src/client/java/dev/cursedatom/cursedaddons/features/images/PlainTextUrlAnnotator.java:68-108 | Over the whole message, the rebuilt characters' styles are the concatenated reference styles of the segments. |
| PlainTextUrlAnnotator.Annotate | src/client/java/dev/cursedatom/cursedaddons/features/images/PlainTextUrlAnnotator.java:40-109 | The component is returned unchanged exactly when the feature is off or no segment without a click event holds a qualifying URL; otherwise the rebuild keeps the text, and every character gets the style the per-character reference gives it: an open-URL click for the URL it lies in when that URL qualifies and parses, its segment's style otherwise. |
| PlainTextUrlAnnotator.ClickSegmentsUntouched | src/client/java/dev/cursedatom/cursedaddons/features/images/PlainTextUrlAnnotator.java:53-73 | Segments that all carry click events leave the component unchanged. |
| PlainTextUrlAnnotator.AllClickPassThrough | src/client/java/dev/cursedatom/cursedaddons/features/images/PlainTextUrlAnnotator.java:70-73 | Segments that all carry click events pass through the rebuild unchanged. |

## Left out

- Rendering, widgets' drawing, sounds, titles on screen, key polling and chat sending: calls into Minecraft are outputs or parameters of the model, not modelled code.
- The network and I/O: HTTP connections, DNS lookups and `og:image` page fetching are the oracles `blocked`, `Response`, `fetch`, `fetchStatic` and `fetchGif`; the byte stream is modelled by its counters only.
- Image decoding (`ImageIO`, `NativeImage.read`) is the oracle `decode`; pixels are ARGB words with no colour arithmetic beyond the channel swap.
- GifDecoder.Decode: models the unscaled path only; `calculateScale` and `scaleIfNeeded` compute in `float`, which is not modelled, and the PNG encoding of each composed frame is left to the oracle.
- GifDecoder.Draw: transparency is binary (a pixel is transparent or a colour); partial alpha blending by `Graphics2D` is not modelled.
- Concurrency: locks, `CompletableFuture`s, the render-thread queue and the `cancelled` flag are replaced by explicit sequential steps; interleavings are chosen by the caller of `ImageTextureManager.Run`, `ImageCache.LoadImage` and `ImageCache.Settle`.
- ImageTextureManager.CurrentFrame: requires at least as many delays as frames; the source would throw an index exception otherwise, which cannot happen for a decoded GIF because both arrays come from the same decode.
- ImageTextureManager.GetImageData: the same requirement, for the same reason.
- ImageTextureManager.RegisterStatic: an exception while registering a texture (the catch at src/client/java/dev/cursedatom/cursedaddons/features/images/ImageTextureManager.java:305-308) is not modelled; registration always succeeds.
- ImageTextureManager.RegisterFrame: the corrected step also refuses a slot that is already filled; the source cannot fill a slot twice for one entry, so this only matters for the stale batches the finding below is about. A failure while registering one frame (the catch at src/client/java/dev/cursedatom/cursedaddons/features/images/ImageTextureManager.java:196-209) is not modelled either: the source then uses up the texture id and leaves that frame's slot null, while the model always registers.
- ImageCache.Clear: in-flight downloads are not cancelled in the model (the futures are not modelled); their later `Settle` stores into the cleared cache, as the source's still-running tasks would.
- ImageCache.Download: the still-image path's `scaleIfNeeded` (float scaling) is left out; the decoded pixels are returned at their decoded size.
- SpecialUnits.StringOr: a JSON `null` under a string field is a decode failure here, whereas the source's cast accepts it and stores `null`; strings are never null in the model.
- SpecialUnits.BoolOr: a JSON `null` under a boolean field is a decode failure here; the source fails later by unboxing `null`.
- The whitelist unit class and `GifData.getEncodedFrames` are not part of this model's source files; they are modelled from how the shown code uses them (a domain, an enabled flag and an embed flag; the PNG bytes of each composed frame).
- ImageHoverPreview.GetWhitelistEntry: URI parsing is the parameter `host` (none when the URI does not parse or has no host).
- ImageHoverPreview.HostMatches: `toLowerCase` (src/client/java/dev/cursedatom/cursedaddons/features/images/ImageHoverPreview.java:100 and :107, in the default locale) is modelled on ASCII letters only; letters outside ASCII, and the dotless i of a Turkish locale, are compared as they are.
- DropdownSuggestor.Matches: `toLowerCase(Locale.ROOT)` (src/client/java/dev/cursedatom/cursedaddons/config/utils/DropdownSuggestor.java:49 and :51) is modelled on ASCII letters only; other letters must match in case.
- KeyboardUtils.IsKeyPressingWithModifier: `InputConstants.getKey` is the total parameter `resolve`; the exception it throws on a key name Minecraft does not know is not modelled.
- TextUtils.ToLegacyStringAsWritten: the `(char) codePoint` cast is modelled by `TextUtils.CharCast`, except that a supplementary character whose low 16 bits fall among the surrogates is kept whole, because a Dafny character cannot be a lone surrogate; the corrected `TextUtils.ToLegacyString` casts the same way.
- LegacyRoundTrip.StripRecoversText: requires that no character is written as a section sign (a literal `§`, or a supplementary character whose low 16 bits are U+00A7); such a character is read back as the start of a code.
- FieldWidgetFactory.CreateWidget: the edit box counts UTF-16 units while the model counts characters, so a value holding characters above U+FFFF is cut later in the model than on screen; the hint text and typing into the box are not modelled; for a keybind field `InputConstants.getKey` (FieldWidgetFactory.java:80) throws on an unknown key name, while the model keeps any stored name as the button's key, because the key-name table is the game's and is not part of this model.
- PlainTextUrlAnnotator.Annotate: whether a URL qualifies (`isImageUrl` and `isWhitelisted`) and whether it parses as a URI are the oracles `qualifies` and `parses`; the component tree is already flattened into styled segments; `qualifies` is total, so the whitelist decode failure that `isImageUrl` can raise (ImageHoverPreview.java:83, modelled in `ImageHoverPreview.IsImageUrl`) is not carried out of the annotator here.
- ChatNotifications.DigitRunEnd: `Character.isDigit` accepts every Unicode decimal digit (ChatNotifications.java:73-79); the model recognises ASCII 0-9 only, so a template such as "$١" stays literal in the model while the source substitutes group 1.
- ChatNotifications.GroupNumberIsParseInt: `Integer.parseInt` likewise reads every Unicode decimal digit; the model's group number is stated for ASCII digits only.
- ChatNotifications.ReplaceCaptureGroups: inherits the ASCII-only digit run above, so group references written in other decimal digits are not substituted.
- RegexTester.ParseFrom: script.js steps through UTF-16 units (`text[i + 1]`, script.js:124), so after "§" a character above U+FFFF loses only its high surrogate there; the model treats each character as one step.
- RegexTester.StripCodes: the script's `/§./g` (script.js:31) likewise removes one UTF-16 unit after "§"; the model removes the whole following character.
- ImageCache.IsGifUrl: `toLowerCase()` (ImageCache.java:252) uses the default locale; the model lower-cases ASCII only, so the Turkish-locale mapping of "I" to dotless "ı" (which makes "X.GIF" no GIF URL there) is not modelled.
- DropdownSuggestor.Accept: the box limit counts characters, while the edit box counts UTF-16 units, as for `FieldWidgetFactory.CreateWidget`.
- ConfigValue.Num: Gson reads every JSON number as a `Double` and the readers truncate it through `intValue`; the model holds whole numbers only, so a fractional number in a config file is not represented.
- UrlResolver.AfterHost: the Java regex `$` also matches before a final line terminator and `.` does not match line terminators; URLs here contain no line terminators, so the model does not distinguish them.
- The regex engine itself (`Pattern.compile`, `find`, JavaScript `RegExp`) is an oracle; only the pattern text the code builds, the safety guard and the group templates are modelled.
- Translations (`I18n`) are the parameter `trans` of `FieldWidgetFactory.CycleDisplayText`.
- FieldWidgetFactory: button labels of toggles (the "ON"/"OFF" text) and widget positions are not modelled; only the state each widget holds is.
- ListManager: the layout of list rows (pixel positions and widths) is not modelled; only the list contents and the selected row are.
- GenericEditScreen: `render` and widget layout are not modelled; the screen is its fields, suggestors and focus.
- The regex tester's HTML output and `escapeHtml` are not modelled; its colour-code parser is modelled as styled characters.
- 32-bit arithmetic is written out where the source can overflow (sums of delays, the size limit); `long` time arithmetic is unbounded in the model because a millisecond clock does not overflow a `long`.

## Findings

| source | as written | input that shows it | evidently intended | confidence | as-written member | corrected member |
|---|---|---|---|---|---|---|
| src/client/java/dev/cursedatom/cursedaddons/features/images/ImageTextureManager.java:186-213 | The batch callback and the background loop only check that the key is cached, not that it is still the entry they were prepared for, and write into the old entry's frame array. | Prepare a two-frame GIF, evict its key, prepare it again, then run the first preparation's batch: two textures are registered into the dropped array and stay live after `clear`. | A stale batch closes its images and registers nothing. | medium, not executed | ImageTextureManager.AsWrittenLeaksTextures | ImageTextureManager.RunAccounted |
| src/client/java/dev/cursedatom/cursedaddons/features/images/ImageCache.java:33-37 | `Math.max(mb, 1) * 1024 * 1024` is computed in `int`. | A configured size of 2048 MB gives `Integer.MIN_VALUE`, so every response, even one of unknown length, is refused as too large. | The configured number of megabytes in bytes, without wrap-around. | high, not executed | ImageCache.WrappedLimitRefusesEverything | ImageCache.LimitAdmitsUnknownLength |
| src/client/java/dev/cursedatom/cursedaddons/utils/TextUtils.java:74-96 | A colour code is written without re-emitting the formatting codes that stay on, although a colour code resets formatting when read back. | A bold "a" followed by a bold red "b" is written as `§la§cb`, which reads back with "b" not bold. | Formatting codes still on are written again after a colour code. | high, not executed | LegacyRoundTrip.AsWrittenDropsBold | LegacyRoundTrip.CorrectedRoundTrip |
| src/client/java/dev/cursedatom/cursedaddons/features/chatnotifications/ChatNotifications.java:111 | `replace("\\&", "&")` runs before `replace("&", "§")`, so an escaped ampersand is turned into `§` like any other. | The pattern `\&a` becomes `§a` instead of a literal `&a`. | `\&` stays a literal ampersand, as the regex tester page does. | high, not executed | ChatNotifications.EscapeIsLost | ChatNotifications.EscapeKeepsLiteral |
