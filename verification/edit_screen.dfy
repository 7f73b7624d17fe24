/** The screen that adds or edits one list entry. Saving builds a fresh unit
    from the widgets' values (sanitising whitelist domains and decoding enum
    names), writes the captured key, and hands the unit back to the list screen
    only if every required text field is filled in and a notification's regex
    compiles. Keybind buttons capture the next key press or mouse button;
    visible suggestion lists get the keys first. */
module GenericEditScreen {
  import opened Wrappers
  import opened JavaText
  import opened SpecialUnits
  import opened AbstractConfigUnit
  import opened FieldWidgetFactory
  import DS = DropdownSuggestor

  /** The prefix of `s` before the first `c` (`s.substring(0, s.indexOf(c))`),
      or all of `s` when it has none. */
  function CutAt(s: string, c: char): (r: string)
    ensures r <= s && c !in r
    ensures c !in s ==> r == s
    ensures c in s ==> |r| < |s| && s[|r|] == c
  {
    if s == [] then []
    else if s[0] == c then []
    else [s[0]] + CutAt(s[1..], c)
  }

  lemma TrimKeepsOut(s: string, c: char)
    requires c !in s
    ensures c !in Trim(s)
  {
    var i := FirstKept(s, 0);
    var j := LastKept(s, i, |s|);
    assert Trim(s) == s[i..j];
    assert forall k :: 0 <= k < j - i ==> s[i..j][k] == s[i + k];
  }

  /** `sanitizeDomain`: the bare host name of whatever the user typed. */
  function SanitizeDomain(domain: Option<string>): (r: string)
    ensures domain.None? ==> r == []
    ensures '/' !in r && ':' !in r
    ensures Trim(r) == r
  {
    if domain.None? then []
    else
      var t := Trim(domain.value);
      var bare := if StartsWith(t, "http://") then t[7..] else if StartsWith(t, "https://") then t[8..] else t;
      var host := CutAt(CutAt(bare, '/'), ':');
      TrimKeepsOut(host, '/');
      TrimKeepsOut(host, ':');
      TrimIdempotent(host);
      Trim(host)
  }

  /** A bare host name (trimmed, no '/' and no ':') is its own sanitised form. */
  lemma SanitizeKeepsBareHost(s: string)
    requires Trim(s) == s && '/' !in s && ':' !in s
    ensures SanitizeDomain(Some(s)) == s
  {
    assert !StartsWith(s, "http://") by {
      assert |s| < 5 || s[4] != ':';
    }
    assert !StartsWith(s, "https://") by {
      assert |s| < 6 || s[5] != ':';
    }
    assert CutAt(s, '/') == s;
    assert CutAt(CutAt(s, '/'), ':') == s;
  }

  /** A sanitised domain is left as it is by a second pass. */
  lemma SanitizeDomainIdempotent(domain: Option<string>)
    ensures SanitizeDomain(Some(SanitizeDomain(domain))) == SanitizeDomain(domain)
  {
    SanitizeKeepsBareHost(SanitizeDomain(domain));
  }

  /** The position of the declared field called `name` (`getDeclaredField`). */
  function FieldIndex(decls: seq<FieldDecl>, name: string): (r: Option<nat>)
    ensures r.Some? ==> r.value < |decls| && decls[r.value].name == name
    ensures r.None? <==> forall i :: 0 <= i < |decls| ==> decls[i].name != name
  {
    if decls == [] then None
    else if decls[0].name == name then Some(0)
    else
      var k := FieldIndex(decls[1..], name);
      if k.Some? then Some(k.value + 1) else None
  }

  /** The value of `u`'s field called `name`, or `None` when the class has no such field. */
  function FieldNamed(u: Unit, name: string): (v: Option<FieldValue>)
    ensures v.Some? <==> exists i :: 0 <= i < |DeclaredFields(ClassOf(u))| && DeclaredFields(ClassOf(u))[i].name == name
    ensures v.Some? ==> HasKind(v.value, DeclaredFields(ClassOf(u))[FieldIndex(DeclaredFields(ClassOf(u)), name).value].kind)
  {
    var decls := DeclaredFields(ClassOf(u));
    var k := FieldIndex(decls, name);
    if k.Some? then Some(FieldsOf(u)[k.value]) else None
  }

  /** A field `isValidUnit` checks: a required text field. */
  predicate IsRequiredText(def: FieldDefinition) {
    def.fieldType == "text" && def.required == Some(true)
  }

  /** `isValidUnit`: every required text field exists and is not blank. A
      missing field throws inside the check, which then answers false. */
  function IsValidUnit(defs: seq<FieldDefinition>, u: Unit): (ok: bool)
    ensures ok <==> forall i :: 0 <= i < |defs| && IsRequiredText(defs[i]) ==>
      FieldNamed(u, defs[i].name).Some? &&
      !(FieldNamed(u, defs[i].name).value.FStr? && Trim(FieldNamed(u, defs[i].name).value.s) == [])
  {
    if defs == [] then true
    else
      var d := defs[0];
      var v := FieldNamed(u, d.name);
      var here := !IsRequiredText(d) || (v.Some? && !(v.value.FStr? && Trim(v.value.s) == []));
      assert forall i :: 1 <= i < |defs| ==> defs[i] == defs[1..][i - 1];
      here && IsValidUnit(defs[1..], u)
  }

  /** The value `field.set` receives for the declared field `decl` of class
      `c`: an enum field given a string takes the constant of that name, a
      whitelist domain is sanitised, anything else is stored as it is. An
      unknown constant name, a domain that is not a string and a value of the
      wrong type throw. */
  function Converted(c: UnitClass, decl: FieldDecl, v: FieldValue): (r: Result<FieldValue>)
    requires decl in DeclaredFields(c)
    ensures r.Success? ==> HasKind(r.value, decl.kind)
    ensures decl.kind == ModifierKind && v.FStr? ==>
      (r.Success? <==> ModifierValueOf(v.s).Some?) && (r.Success? ==> r.value.FModifier? && ModifierName(r.value.m) == v.s)
    ensures c == WhitelistClass && decl.name == "domain" ==>
      (r.Success? <==> v.FStr?) && (r.Success? ==> r.value == FStr(SanitizeDomain(Some(v.s))))
    ensures !(decl.kind == ModifierKind && v.FStr?) && !(c == WhitelistClass && decl.name == "domain") ==>
      (r.Success? <==> HasKind(v, decl.kind)) && (r.Success? ==> r.value == v)
  {
    var enumDecoded :=
      if decl.kind == ModifierKind && v.FStr? then
        (if ModifierValueOf(v.s).Some? then Success(FModifier(ModifierValueOf(v.s).value)) else Failure("IllegalArgumentException"))
      else Success(v);
    if enumDecoded.Failure? then Failure(enumDecoded.error)
    else
      var value :=
        if c == WhitelistClass && decl.name == "domain" then
          (if enumDecoded.value.FStr? then Success(FStr(SanitizeDomain(Some(enumDecoded.value.s)))) else Failure("ClassCastException"))
        else enumDecoded;
      if value.Failure? then Failure(value.error)
      else if !HasKind(value.value, decl.kind) then Failure("IllegalArgumentException")
      else value
  }

  /** One `field.set` of `saveUnit`: the field called `name` receives the
      converted value and every other field is left alone; a missing field
      throws, and so does a value `Converted` refuses. */
  function StoreField(u: Unit, name: string, v: FieldValue): (r: Result<Unit>)
    ensures r.Success? ==> ClassOf(r.value) == ClassOf(u)
    ensures r.Success? ==> FieldIndex(DeclaredFields(ClassOf(u)), name).Some?
    ensures r.Success? ==> forall i :: 0 <= i < |FieldsOf(u)| && i != FieldIndex(DeclaredFields(ClassOf(u)), name).value ==>
      FieldsOf(r.value)[i] == FieldsOf(u)[i]
    ensures FieldIndex(DeclaredFields(ClassOf(u)), name).None? ==> r.Failure?
    ensures var decls := DeclaredFields(ClassOf(u));
      var k := FieldIndex(decls, name);
      && (r.Failure? <==> k.None? || Converted(ClassOf(u), decls[k.value], v).Failure?)
      && (r.Success? ==> FieldsOf(r.value) == FieldsOf(u)[k.value := Converted(ClassOf(u), decls[k.value], v).value])
  {
    var c := ClassOf(u);
    var decls := DeclaredFields(c);
    var k := FieldIndex(decls, name);
    if k.None? then Failure("NoSuchFieldException")
    else
      match Converted(c, decls[k.value], v)
      case Failure(e) => Failure(e)
      case Success(value) =>
        var vs := FieldsOf(u)[k.value := value];
        Success(Build(c, vs))
  }

  /** A stored field reads back the converted value; other fields read as before. */
  lemma StoreFieldReads(u: Unit, name: string, v: FieldValue, other: string)
    requires StoreField(u, name, v).Success?
    ensures var decls := DeclaredFields(ClassOf(u));
      FieldNamed(StoreField(u, name, v).value, name) == Some(Converted(ClassOf(u), decls[FieldIndex(decls, name).value], v).value)
    ensures other != name ==> FieldNamed(StoreField(u, name, v).value, other) == FieldNamed(u, other)
  {
  }

  /** Whether a store succeeds, and what it writes into the field, depends on
      the unit's class only. */
  lemma StoreFieldClassOnly(u: Unit, w: Unit, name: string, v: FieldValue)
    requires ClassOf(u) == ClassOf(w)
    ensures StoreField(u, name, v).Success? == StoreField(w, name, v).Success?
    ensures StoreField(u, name, v).Success? ==>
      FieldNamed(StoreField(u, name, v).value, name) == FieldNamed(StoreField(w, name, v).value, name)
  {
    if StoreField(u, name, v).Success? {
      StoreFieldReads(u, name, v, name);
      StoreFieldReads(w, name, v, name);
    }
  }

  /** The widget registered for a field; a field without one reads as a widget
      of no known type. */
  function WidgetFor(widgets: map<string, Widget>, name: string): Widget {
    if name in widgets then widgets[name] else UnknownTypeButton
  }

  /** The field loop of `saveUnit`: each valid widget value is stored, in
      definition order; the first exception aborts the save. */
  function StoreFields(f: Factory, defs: seq<FieldDefinition>, widgets: map<string, Widget>, u: Unit): (r: Result<Unit>)
    ensures r.Success? ==> ClassOf(r.value) == ClassOf(u)
  {
    if defs == [] then Success(u)
    else
      var d := defs[0];
      var v := GetValueFromWidget(f, d, WidgetFor(widgets, d.name));
      if v.Some? && IsValidValue(d, v) then
        var u' :- StoreField(u, d.name, v.value);
        StoreFields(f, defs[1..], widgets, u')
      else StoreFields(f, defs[1..], widgets, u)
  }

  /** No two field definitions share a name. */
  predicate DistinctNames(defs: seq<FieldDefinition>) {
    forall i, j :: 0 <= i < j < |defs| ==> defs[i].name != defs[j].name
  }

  /** A field no definition names keeps its value through the loop. */
  lemma {:induction false} StoreFieldsKeepsUnnamed(f: Factory, defs: seq<FieldDefinition>, widgets: map<string, Widget>,
                                                  u: Unit, name: string)
    requires forall i :: 0 <= i < |defs| ==> defs[i].name != name
    requires StoreFields(f, defs, widgets, u).Success?
    ensures FieldNamed(StoreFields(f, defs, widgets, u).value, name) == FieldNamed(u, name)
    decreases |defs|
  {
    if defs != [] {
      var d := defs[0];
      var v := GetValueFromWidget(f, d, WidgetFor(widgets, d.name));
      if v.Some? && IsValidValue(d, v) {
        var next := StoreField(u, d.name, v.value).value;
        StoreFieldReads(u, d.name, v.value, name);
        StoreFieldsKeepsUnnamed(f, defs[1..], widgets, next, name);
      } else {
        StoreFieldsKeepsUnnamed(f, defs[1..], widgets, u, name);
      }
    }
  }

  /** What the loop leaves in each defined field: when the widget's value is
      non-null and valid, what one `field.set` of it writes; otherwise the
      value the field had before. */
  lemma {:induction false} StoreFieldsWrites(f: Factory, defs: seq<FieldDefinition>, widgets: map<string, Widget>,
                                            u: Unit, i: nat)
    requires DistinctNames(defs) && i < |defs|
    requires StoreFields(f, defs, widgets, u).Success?
    ensures var d := defs[i];
      var v := GetValueFromWidget(f, d, WidgetFor(widgets, d.name));
      var r := StoreFields(f, defs, widgets, u).value;
      if v.Some? && IsValidValue(d, v) then
        StoreField(u, d.name, v.value).Success? && FieldNamed(r, d.name) == FieldNamed(StoreField(u, d.name, v.value).value, d.name)
      else FieldNamed(r, d.name) == FieldNamed(u, d.name)
    decreases |defs|
  {
    var d0 := defs[0];
    var v0 := GetValueFromWidget(f, d0, WidgetFor(widgets, d0.name));
    var tail := defs[1..];
    assert DistinctNames(tail);
    var next := if v0.Some? && IsValidValue(d0, v0) then StoreField(u, d0.name, v0.value).value else u;
    assert StoreFields(f, defs, widgets, u) == StoreFields(f, tail, widgets, next);
    if i == 0 {
      assert forall j :: 0 <= j < |tail| ==> tail[j].name != d0.name by {
        forall j | 0 <= j < |tail| ensures tail[j].name != d0.name {
          assert tail[j] == defs[j + 1];
        }
      }
      StoreFieldsKeepsUnnamed(f, tail, widgets, next, d0.name);
    } else {
      var d := defs[i];
      assert tail[i - 1] == d;
      assert d.name != d0.name;
      StoreFieldsWrites(f, tail, widgets, next, i - 1);
      var v := GetValueFromWidget(f, d, WidgetFor(widgets, d.name));
      if v0.Some? && IsValidValue(d0, v0) {
        StoreFieldReads(u, d0.name, v0.value, d.name);
        if v.Some? && IsValidValue(d, v) {
          StoreFieldClassOnly(u, next, d.name, v.value);
        }
      }
    }
  }

  /** The captured key goes into a `key` field, if the class has one. */
  function StoreKey(u: Unit, selectedKey: string): (r: Unit)
    ensures ClassOf(r) == ClassOf(u)
    ensures selectedKey == UNKNOWN_KEY_NAME || FieldNamed(u, "key").None? ==> r == u
    ensures selectedKey != UNKNOWN_KEY_NAME && FieldNamed(u, "key").Some? ==> FieldNamed(r, "key") == Some(FStr(selectedKey))
  {
    if selectedKey == UNKNOWN_KEY_NAME then u
    else
      KeyFieldIsMacroKey(u, selectedKey);
      match StoreField(u, "key", FStr(selectedKey))
      case Success(u') => u'
      case Failure(_) => u
  }

  /** Only a macro has a `key` field, its first, and a string stored there
      replaces the macro's key. */
  lemma KeyFieldIsMacroKey(u: Unit, k: string)
    ensures FieldNamed(u, "key").Some? <==> u.Macro?
    ensures u.Macro? ==> StoreField(u, "key", FStr(k)) == Success(Macro(u.macro.(key := k)))
  {
    var decls := DeclaredFields(ClassOf(u));
    if u.Macro? {
      assert decls[0].name == "key";
      assert FieldIndex(decls, "key") == Some(0);
      assert decls[0].kind == StringKind;
      var vs := FieldsOf(u)[0 := FStr(k)];
      assert Build(MacroClass, vs) == Macro(u.macro.(key := k));
    } else {
      assert forall i :: 0 <= i < |decls| ==> decls[i].name != "key";
    }
  }

  datatype SaveOutcome = Saved(unit: Unit) | NotSaved | Crashed(error: string)

  /** `saveUnit`. `compiles` is `Pattern.compile` succeeding. */
  function SaveUnit(c: UnitClass, f: Factory, defs: seq<FieldDefinition>, widgets: map<string, Widget>,
                    selectedKey: string, compiles: string -> bool): (r: SaveOutcome)
    ensures r.Saved? ==> ClassOf(r.unit) == c && IsValidUnit(defs, r.unit)
    ensures r.Saved? && r.unit.Notification? && r.unit.notification.regex && r.unit.notification.pattern != [] ==>
      compiles(r.unit.notification.pattern)
    ensures r.Crashed? <==> StoreFields(f, defs, widgets, NewInstance(c)).Failure?
  {
    match StoreFields(f, defs, widgets, NewInstance(c))
    case Failure(e) => Crashed("RuntimeException: Failed to save unit")
    case Success(u) =>
      var u' := StoreKey(u, selectedKey);
      if !IsValidUnit(defs, u') then NotSaved
      else if u'.Notification? && u'.notification.regex && u'.notification.pattern != [] && !compiles(u'.notification.pattern) then NotSaved
      else Saved(u')
  }

  /** Every field a definition names, other than a `key` field a captured
      key overrides, holds in the saved unit what the loop stored from its
      widget, or the fresh instance's default when the widget's value was null
      or invalid. */
  lemma SavedFieldsComeFromWidgets(c: UnitClass, f: Factory, defs: seq<FieldDefinition>, widgets: map<string, Widget>,
                                   selectedKey: string, compiles: string -> bool, i: nat)
    requires DistinctNames(defs) && i < |defs|
    requires defs[i].name != "key" || selectedKey == UNKNOWN_KEY_NAME
    ensures var r := SaveUnit(c, f, defs, widgets, selectedKey, compiles);
      var d := defs[i];
      var v := GetValueFromWidget(f, d, WidgetFor(widgets, d.name));
      r.Saved? ==>
        if v.Some? && IsValidValue(d, v) then
          StoreField(NewInstance(c), d.name, v.value).Success? &&
          FieldNamed(r.unit, d.name) == FieldNamed(StoreField(NewInstance(c), d.name, v.value).value, d.name)
        else FieldNamed(r.unit, d.name) == FieldNamed(NewInstance(c), d.name)
  {
    var stored := StoreFields(f, defs, widgets, NewInstance(c));
    if stored.Success? {
      StoreFieldsWrites(f, defs, widgets, NewInstance(c), i);
      var u := stored.value;
      if selectedKey != UNKNOWN_KEY_NAME && StoreField(u, "key", FStr(selectedKey)).Success? {
        StoreFieldReads(u, "key", FStr(selectedKey), defs[i].name);
      }
    }
  }

  /** No whitelist entry with a path or a port in its domain. */
  predicate DomainClean(u: Unit) {
    u.Whitelist? ==> '/' !in u.whitelist.domain && ':' !in u.whitelist.domain
  }

  lemma StoreFieldKeepsDomainClean(u: Unit, name: string, v: FieldValue)
    requires DomainClean(u)
    ensures StoreField(u, name, v).Success? ==> DomainClean(StoreField(u, name, v).value)
  {
    if u.Whitelist? && StoreField(u, name, v).Success? {
      var r := StoreField(u, name, v).value;
      if name != "domain" {
        assert FieldIndex(DeclaredFields(WhitelistClass), name).value != 0;
        assert FieldsOf(r)[0] == FieldsOf(u)[0];
      }
    }
  }

  lemma {:induction false} StoreFieldsKeepsDomainClean(f: Factory, defs: seq<FieldDefinition>, widgets: map<string, Widget>, u: Unit)
    requires DomainClean(u)
    ensures StoreFields(f, defs, widgets, u).Success? ==> DomainClean(StoreFields(f, defs, widgets, u).value)
  {
    if defs != [] && StoreFields(f, defs, widgets, u).Success? {
      var d := defs[0];
      var v := GetValueFromWidget(f, d, WidgetFor(widgets, d.name));
      if v.Some? && IsValidValue(d, v) {
        StoreFieldKeepsDomainClean(u, d.name, v.value);
        StoreFieldsKeepsDomainClean(f, defs[1..], widgets, StoreField(u, d.name, v.value).value);
      } else {
        StoreFieldsKeepsDomainClean(f, defs[1..], widgets, u);
      }
    }
  }

  /** Whatever was typed, a saved whitelist entry holds a bare host name. */
  lemma SavedWhitelistDomainIsBare(f: Factory, defs: seq<FieldDefinition>, widgets: map<string, Widget>,
                                   selectedKey: string, compiles: string -> bool)
    ensures var r := SaveUnit(WhitelistClass, f, defs, widgets, selectedKey, compiles);
      r.Saved? ==> '/' !in r.unit.whitelist.domain && ':' !in r.unit.whitelist.domain
  {
    StoreFieldsKeepsDomainClean(f, defs, widgets, NewInstance(WhitelistClass));
  }

  /** A macro saved after a key was captured carries that key, whatever the
      key widget held. */
  lemma SavedMacroHasCapturedKey(f: Factory, defs: seq<FieldDefinition>, widgets: map<string, Widget>,
                                 selectedKey: string, compiles: string -> bool)
    requires selectedKey != UNKNOWN_KEY_NAME
    ensures var r := SaveUnit(MacroClass, f, defs, widgets, selectedKey, compiles);
      r.Saved? ==> r.unit.macro.key == selectedKey
  {
    if SaveUnit(MacroClass, f, defs, widgets, selectedKey, compiles).Saved? {
      var u := StoreFields(f, defs, widgets, NewInstance(MacroClass)).value;
      assert FieldNamed(u, "key").Some? by {
        assert DeclaredFields(MacroClass)[0].name == "key";
      }
      var u' := StoreKey(u, selectedKey);
      assert FieldNamed(u', "key") == Some(FStr(selectedKey));
      assert FieldIndex(DeclaredFields(MacroClass), "key") == Some(0);
    }
  }

  /** The keybind capture part of the screen: which keybind button (by
      position) waits for input, the keys the buttons show, the last captured
      key, and the suggestion lists in registration order. */
  datatype Screen = Screen(
    waiting: Option<nat>,
    boundKeys: seq<string>,
    selectedKey: string,
    suggestors: seq<DS.Suggestor>)

  predicate ValidScreen(s: Screen) {
    && (s.waiting.Some? ==> s.waiting.value < |s.boundKeys|)
    && forall i :: 0 <= i < |s.suggestors| ==> DS.Valid(s.suggestors[i])
  }

  /** Pressing keybind button `b` makes it the only waiting one. */
  function PressKeybindButton(s: Screen, b: nat): (r: Screen)
    requires ValidScreen(s) && b < |s.boundKeys|
    ensures ValidScreen(r) && r == s.(waiting := Some(b))
  {
    s.(waiting := Some(b))
  }

  /** The suggestor loop of `keyPressed`: the first visible suggestor that
      handles the key consumes it. */
  function OfferKey(ds: seq<DS.Suggestor>, key: DS.Key): (r: (seq<DS.Suggestor>, bool))
    requires forall i :: 0 <= i < |ds| ==> DS.Valid(ds[i])
    ensures |r.0| == |ds| && forall i :: 0 <= i < |ds| ==> DS.Valid(r.0[i])
    ensures !r.1 ==> r.0 == ds
    ensures r.1 <==> exists i :: 0 <= i < |ds| && ds[i].visible && DS.KeyPressed(ds[i], key).1
  {
    if ds == [] then (ds, false)
    else if ds[0].visible && DS.KeyPressed(ds[0], key).1 then
      ([DS.KeyPressed(ds[0], key).0] + ds[1..], true)
    else
      var rest := OfferKey(ds[1..], key);
      assert forall i :: 1 <= i < |ds| ==> ds[i] == ds[1..][i - 1];
      ([ds[0]] + rest.0, rest.1)
  }

  /** `keyPressed`. `name` is the pressed key's name and `screenHandles` what
      the base screen answers when nothing here consumes the key. */
  function KeyPressed(s: Screen, key: DS.Key, name: string, screenHandles: bool): (r: (Screen, bool))
    requires ValidScreen(s)
    ensures ValidScreen(r.0)
    ensures OfferKey(s.suggestors, key).1 ==>
      r == (s.(suggestors := OfferKey(s.suggestors, key).0), true)
    ensures !OfferKey(s.suggestors, key).1 && s.waiting.Some? ==>
      var bound := if key == DS.Escape then UNKNOWN_KEY_NAME else name;
      r == (s.(waiting := None, boundKeys := s.boundKeys[s.waiting.value := bound], selectedKey := bound), true)
    ensures !OfferKey(s.suggestors, key).1 && s.waiting.None? ==> r == (s, screenHandles)
  {
    var offered := OfferKey(s.suggestors, key);
    if offered.1 then (s.(suggestors := offered.0), true)
    else if s.waiting.Some? then
      var bound := if key == DS.Escape then UNKNOWN_KEY_NAME else name;
      (s.(waiting := None, boundKeys := s.boundKeys[s.waiting.value := bound], selectedKey := bound), true)
    else (s, screenHandles)
  }

  /** The suggestor loop of `mouseClicked`; `hits[i]` is suggestor i's
      geometry answer (pointer inside, row under it). */
  function OfferClick(ds: seq<DS.Suggestor>, hits: seq<(bool, int)>): (r: (seq<DS.Suggestor>, bool))
    requires |hits| == |ds| && forall i :: 0 <= i < |ds| ==> DS.Valid(ds[i])
    ensures |r.0| == |ds| && forall i :: 0 <= i < |ds| ==> DS.Valid(r.0[i])
    ensures !r.1 ==> r.0 == ds
    ensures r.1 <==> exists i :: 0 <= i < |ds| && DS.MouseClicked(ds[i], hits[i].0, hits[i].1).1
  {
    if ds == [] then (ds, false)
    else if DS.MouseClicked(ds[0], hits[0].0, hits[0].1).1 then
      ([DS.MouseClicked(ds[0], hits[0].0, hits[0].1).0] + ds[1..], true)
    else
      var rest := OfferClick(ds[1..], hits[1..]);
      assert forall i :: 1 <= i < |ds| ==> ds[i] == ds[1..][i - 1] && hits[i] == hits[1..][i - 1];
      ([ds[0]] + rest.0, rest.1)
  }

  /** `mouseClicked`: a waiting button binds the clicked mouse button's key,
      named `buttonKey`. */
  function MouseClicked(s: Screen, hits: seq<(bool, int)>, buttonKey: string, screenHandles: bool): (r: (Screen, bool))
    requires ValidScreen(s) && |hits| == |s.suggestors|
    ensures ValidScreen(r.0)
    ensures OfferClick(s.suggestors, hits).1 ==> r == (s.(suggestors := OfferClick(s.suggestors, hits).0), true)
    ensures !OfferClick(s.suggestors, hits).1 && s.waiting.Some? ==>
      r == (s.(waiting := None, boundKeys := s.boundKeys[s.waiting.value := buttonKey], selectedKey := buttonKey), true)
    ensures !OfferClick(s.suggestors, hits).1 && s.waiting.None? ==> r == (s, screenHandles)
  {
    var offered := OfferClick(s.suggestors, hits);
    if offered.1 then (s.(suggestors := offered.0), true)
    else if s.waiting.Some? then
      (s.(waiting := None, boundKeys := s.boundKeys[s.waiting.value := buttonKey], selectedKey := buttonKey), true)
    else (s, screenHandles)
  }

  /** The suggestor loop of `mouseScrolled`; `wheels[i]` is suggestor i's
      geometry answer (pointer inside, wheel notches). */
  function OfferScroll(ds: seq<DS.Suggestor>, wheels: seq<(bool, int)>): (r: (seq<DS.Suggestor>, bool))
    requires |wheels| == |ds| && forall i :: 0 <= i < |ds| ==> DS.Valid(ds[i])
    ensures |r.0| == |ds| && forall i :: 0 <= i < |ds| ==> DS.Valid(r.0[i])
    ensures !r.1 ==> r.0 == ds
    ensures r.1 <==> exists i :: 0 <= i < |ds| && DS.MouseScrolled(ds[i], wheels[i].0, wheels[i].1).1
  {
    if ds == [] then (ds, false)
    else if DS.MouseScrolled(ds[0], wheels[0].0, wheels[0].1).1 then
      ([DS.MouseScrolled(ds[0], wheels[0].0, wheels[0].1).0] + ds[1..], true)
    else
      var rest := OfferScroll(ds[1..], wheels[1..]);
      assert forall i :: 1 <= i < |ds| ==> ds[i] == ds[1..][i - 1] && wheels[i] == wheels[1..][i - 1];
      ([ds[0]] + rest.0, rest.1)
  }

  /** `mouseScrolled`: a suggestion list that takes the wheel consumes it;
      otherwise the base screen answers. */
  function MouseScrolled(s: Screen, wheels: seq<(bool, int)>, screenHandles: bool): (r: (Screen, bool))
    requires ValidScreen(s) && |wheels| == |s.suggestors|
    ensures ValidScreen(r.0)
    ensures r.0 == s.(suggestors := r.0.suggestors)
    ensures (exists i :: 0 <= i < |s.suggestors| && DS.MouseScrolled(s.suggestors[i], wheels[i].0, wheels[i].1).1) ==> r.1
    ensures !(exists i :: 0 <= i < |s.suggestors| && DS.MouseScrolled(s.suggestors[i], wheels[i].0, wheels[i].1).1) ==>
      r == (s, screenHandles)
  {
    var offered := OfferScroll(s.suggestors, wheels);
    if offered.1 then (s.(suggestors := offered.0), true) else (s, screenHandles)
  }

  /** With every suggestion list closed, pressing Escape while a button waits
      clears its binding, so a later save keeps the key field as typed. */
  lemma EscapeUnbinds(s: Screen, name: string, screenHandles: bool)
    requires ValidScreen(s) && s.waiting.Some?
    requires forall i :: 0 <= i < |s.suggestors| ==> !s.suggestors[i].visible
    ensures var r := KeyPressed(s, DS.Escape, name, screenHandles);
      r.1 && r.0.waiting.None? && r.0.selectedKey == UNKNOWN_KEY_NAME &&
      r.0.boundKeys[s.waiting.value] == UNKNOWN_KEY_NAME
  {
  }
}
